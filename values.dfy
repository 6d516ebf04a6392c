/** The JavaScript values that occur in a view model's display rules, the conversions of
    them to text that the pipeline performs, and the errors that can end a request. */
module Values {
  import opened Strings

  /** An integer-valued JavaScript value of the kinds the display rules hold. */
  datatype Value =
    | Null
    | Bool(b: bool)
    | Num(n: int)
    | Str(s: string)
    | Arr(items: seq<Value>)
    | Obj(fields: seq<(string, Value)>)

  datatype Option<T> = None | Some(value: T)

  /** The exceptions the modelled code can raise. */
  datatype Error =
    | ModuleNotFound(path: string)                       // `import()` rejects
    | NoSuchDirectory(path: string)                      // `fs.readdirSync` throws ENOENT
    | NoSectionMatch(key: string)                        // `key.match(...)` is null, so `found[1]` throws
    | NotAnArray(key: string)                            // `push` or `flat` on a value that is not an array
    | CannotCreateProperty(name: string, target: string) // strict-mode property write on a string
    | Inconsistent(message: string)                      // the route failed the consistency check

  datatype Result<T> = Ok(value: T) | Err(error: Error)

  /** `String(v)` */
  function ToStr(v: Value): string
    decreases v, 1
  {
    match v
    case Null => "null"
    case Bool(b) => if b then "true" else "false"
    case Num(n) => IntToString(n)
    case Str(s) => s
    case Arr(items) => JoinArray(items, ",")
    case Obj(_) => "[object Object]"
  }

  /** `items.join(sep)`: a null element contributes the empty text. */
  function JoinArray(items: seq<Value>, sep: string): string
    decreases items, 0
  {
    if items == [] then ""
    else
      var first := if items[0].Null? then "" else ToStr(items[0]);
      if |items| == 1 then first else first + sep + JoinArray(items[1..], sep)
  }

  /** An array of the given strings. */
  function Strs(ss: seq<string>): (vs: seq<Value>)
    ensures |vs| == |ss|
    ensures forall i :: 0 <= i < |ss| ==> vs[i] == Str(ss[i])
  {
    seq(|ss|, i requires 0 <= i < |ss| => Str(ss[i]))
  }

  lemma StrsAppend(a: seq<string>, b: seq<string>)
    ensures Strs(a + b) == Strs(a) + Strs(b)
  {
    assert |Strs(a + b)| == |Strs(a) + Strs(b)|;
    forall i | 0 <= i < |a + b| ensures Strs(a + b)[i] == (Strs(a) + Strs(b))[i] {
      if i < |a| { assert (a + b)[i] == a[i]; } else { assert (a + b)[i] == b[i - |a|]; }
    }
  }

  /** The strings concatenated left to right. */
  function Concat(ss: seq<string>): string
  {
    if ss == [] then "" else ss[0] + Concat(ss[1..])
  }

  /** Joining an array of strings with a separator is `JoinWith` on the strings;
      with the empty separator it is their concatenation in order. */
  lemma {:induction false} JoinArrayOfStrings(ss: seq<string>, sep: string)
    ensures JoinArray(Strs(ss), sep) == JoinWith(ss, sep)
    ensures JoinArray(Strs(ss), "") == Concat(ss)
  {
    if |ss| > 1 {
      assert Strs(ss)[1..] == Strs(ss[1..]);
      JoinArrayOfStrings(ss[1..], sep);
    } else if |ss| == 1 {
      assert ss[1..] == [];
    }
  }

  /** A display-rules value that names a component module: a string ending in ".js". */
  predicate IsComponentRef(v: Value)
  {
    v.Str? && EndsWith(v.s, ".js")
  }
}
