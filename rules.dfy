/** The display rules of a view model: an object whose keys keep their insertion order,
    and the two kinds of in-place change the resolvers make to it — assigning a slot
    (or one element of an array slot) and pushing onto `headCssLinks`. */
module DisplayRules {
  import opened Strings
  import opened Values

  const ContentSuffix := "_content"
  const HeadCssLinks := "headCssLinks"

  predicate IsContentKey(key: string)
  {
    EndsWith(key, ContentSuffix)
  }

  lemma HeadCssLinksIsNotContent()
    ensures !IsContentKey(HeadCssLinks)
  {
    assert HeadCssLinks[4..][0] == 'C' != ContentSuffix[0];
  }

  /** A JavaScript object: its keys in insertion order and the value of each. */
  datatype Rules = Rules(keys: seq<string>, slots: map<string, Value>)
  {
    ghost predicate Valid()
    {
      && (forall i, j :: 0 <= i < j < |keys| ==> keys[i] != keys[j])
      && (forall k :: k in slots <==> k in keys)
    }

    /** `rules[key] = v`: an existing key keeps its place, a new key goes last. */
    function Set(key: string, v: Value): (r: Rules)
      requires Valid()
      ensures r.Valid()
      ensures r.keys == if key in slots then keys else keys + [key]
      ensures r.slots == slots[key := v]
    {
      if key in slots then Rules(keys, slots[key := v]) else Rules(keys + [key], slots[key := v])
    }

    /** `Object.entries(rules)` */
    function Entries(): (es: seq<(string, Value)>)
      requires Valid()
      ensures |es| == |keys|
      ensures forall i :: 0 <= i < |keys| ==> es[i] == (keys[i], slots[keys[i]])
    {
      seq(|keys|, i requires 0 <= i < |keys| => (keys[i], slots[keys[i]]))
    }
  }

  /** The `index` argument of `processComponent`: `null`, an array position, or (as one call
      site passes by mistake) a string. */
  datatype Index = WholeSlot | Element(i: nat) | Named(name: string)

  /** `rules[key] = html` or `rules[key][index] = html`, as module code (strict mode) runs it. */
  function WriteSlot(r: Rules, key: string, index: Index, html: string): (w: Result<Rules>)
    requires r.Valid() && key in r.slots
    requires index.Element? ==> r.slots[key].Arr? && index.i < |r.slots[key].items|
    requires index.Named? ==> r.slots[key].Str?
    ensures w.Ok? <==> !index.Named?
    ensures index.Named? ==> w == Err(CannotCreateProperty(index.name, r.slots[key].s))
    ensures w.Ok? ==> w.value.Valid() && w.value.keys == r.keys
    ensures w.Ok? ==> forall k :: k in r.slots && k != key ==> w.value.slots[k] == r.slots[k]
    ensures index.WholeSlot? ==> w.value.slots[key] == Str(html)
    ensures index.Element? ==>
      && w.value.slots[key].Arr?
      && |w.value.slots[key].items| == |r.slots[key].items|
      && w.value.slots[key].items[index.i] == Str(html)
      && forall j :: 0 <= j < |r.slots[key].items| && j != index.i ==>
           w.value.slots[key].items[j] == r.slots[key].items[j]
  {
    match index
    case WholeSlot => Ok(r.Set(key, Str(html)))
    case Element(i) => Ok(r.Set(key, Arr(r.slots[key].items[i := Str(html)])))
    case Named(name) => Err(CannotCreateProperty(name, r.slots[key].s))
  }

  /** `headCssLinks.push(link)` for each link in turn: the first push fails unless
      `headCssLinks` holds an array. */
  function AppendLinks(r: Rules, links: seq<string>): (a: Result<Rules>)
    requires r.Valid()
    ensures a.Ok? <==> links == [] || (HeadCssLinks in r.slots && r.slots[HeadCssLinks].Arr?)
    ensures a.Err? ==> a.error == NotAnArray(HeadCssLinks)
    ensures a.Ok? ==> a.value.Valid() && a.value.keys == r.keys
    ensures a.Ok? ==> forall k :: k in r.slots && k != HeadCssLinks ==> a.value.slots[k] == r.slots[k]
    ensures a.Ok? && HeadCssLinks in r.slots && r.slots[HeadCssLinks].Arr? ==>
      a.value.slots[HeadCssLinks] == Arr(r.slots[HeadCssLinks].items + Strs(links))
    ensures a.Ok? && !(HeadCssLinks in r.slots && r.slots[HeadCssLinks].Arr?) ==> a.value == r
  {
    if links == [] then
      assert Strs(links) == [];
      assert HeadCssLinks in r.slots && r.slots[HeadCssLinks].Arr? ==>
        r.slots[HeadCssLinks].items + Strs(links) == r.slots[HeadCssLinks].items;
      Ok(r)
    else if HeadCssLinks in r.slots && r.slots[HeadCssLinks].Arr? then
      Ok(r.Set(HeadCssLinks, Arr(r.slots[HeadCssLinks].items + Strs(links))))
    else
      Err(NotAnArray(HeadCssLinks))
  }

  /** Pushing `a` and then `b` is pushing `a + b`. */
  lemma AppendLinksConcat(r: Rules, a: seq<string>, b: seq<string>)
    requires r.Valid() && AppendLinks(r, a).Ok?
    ensures AppendLinks(AppendLinks(r, a).value, b) == AppendLinks(r, a + b)
  {
    if a == [] {
      assert a + b == b;
    } else if b != [] {
      StrsAppend(a, b);
      var items := r.slots[HeadCssLinks].items;
      var r' := AppendLinks(r, a).value;
      assert r'.slots[HeadCssLinks].items == items + Strs(a);
      assert items + Strs(a) + Strs(b) == items + Strs(a + b);
      assert r'.Set(HeadCssLinks, Arr(items + Strs(a) + Strs(b))) == r.Set(HeadCssLinks, Arr(items + Strs(a + b)));
    } else {
      assert a + b == a;
    }
  }

  /** Once a push has failed, pushing more links fails the same way. */
  lemma AppendLinksFailed(r: Rules, a: seq<string>, b: seq<string>)
    requires r.Valid() && AppendLinks(r, a).Err?
    ensures AppendLinks(r, a + b) == AppendLinks(r, a)
  {
  }

  /** The display rules only ever grow `headCssLinks` at its end. */
  predicate KeepsCssPrefix(r: Rules, r': Rules)
  {
    && (HeadCssLinks in r.slots <==> HeadCssLinks in r'.slots)
    && (HeadCssLinks in r.slots ==>
         if r.slots[HeadCssLinks].Arr? then
           r'.slots[HeadCssLinks].Arr? && r.slots[HeadCssLinks].items <= r'.slots[HeadCssLinks].items
         else r'.slots[HeadCssLinks] == r.slots[HeadCssLinks])
  }

  lemma KeepsCssPrefixTransitive(r: Rules, r': Rules, r'': Rules)
    requires KeepsCssPrefix(r, r') && KeepsCssPrefix(r', r'')
    ensures KeepsCssPrefix(r, r'')
  {
    if HeadCssLinks in r.slots && r.slots[HeadCssLinks].Arr? {
      var a, b, c := r.slots[HeadCssLinks].items, r'.slots[HeadCssLinks].items, r''.slots[HeadCssLinks].items;
      assert a == b[..|a|] && b == c[..|b|];
      assert a == c[..|a|];
    }
  }

  /** A view model object; the pipeline changes its display rules in place. */
  class ViewModel {
    var displayRules: Rules

    constructor (rules: Rules)
      ensures displayRules == rules
    {
      displayRules := rules;
    }
  }

  /** `viewModel.displayRules.headCssLinks.push(link)` */
  method PushCssLink(vm: ViewModel, link: string) returns (err: Option<Error>)
    requires vm.displayRules.Valid()
    modifies vm
    ensures AppendLinks(old(vm.displayRules), [link]) ==
            if err.None? then Ok(vm.displayRules) else Err(err.value)
  {
    var r := vm.displayRules;
    if HeadCssLinks in r.slots && r.slots[HeadCssLinks].Arr? {
      vm.displayRules := r.Set(HeadCssLinks, Arr(r.slots[HeadCssLinks].items + [Str(link)]));
      assert Strs([link]) == [Str(link)];
      err := None;
    } else {
      err := Some(NotAnArray(HeadCssLinks));
    }
  }
}
