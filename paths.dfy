/** The part of Node's POSIX `path` module that the resolvers use: `normalize`, `join`,
    `resolve`, `relative`, `dirname` and `extname`, with '/' as the only separator.
    An absolute path is represented by the list of its segments (no leading empty segment). */
module Paths {
  import opened Strings

  type Segments = seq<string>

  /** A segment that normalisation leaves alone. */
  predicate IsCleanSegment(s: string)
  {
    s != "" && s != "." && s != ".." && '/' !in s
  }

  predicate Clean(segs: Segments)
  {
    forall i :: 0 <= i < |segs| ==> IsCleanSegment(segs[i])
  }

  /** The shape of a normalised relative path: no empty or "." segments, no '/',
      and ".." only in a leading run. */
  predicate Normal(segs: Segments)
  {
    forall i :: 0 <= i < |segs| ==>
      segs[i] != "" && segs[i] != "." && '/' !in segs[i] &&
      (segs[i] == ".." ==> forall j :: 0 <= j < i ==> segs[j] == "..")
  }

  /** Node's `normalizeString`: the segments are pushed onto `acc` left to right; "" and "."
      are dropped, ".." pops a real segment, and otherwise is kept only when the path
      may climb above its start (relative paths) and dropped at the root (absolute paths). */
  function NormalizeSegments(acc: Segments, segs: Segments, allowAboveRoot: bool): Segments
    decreases |segs|
  {
    if segs == [] then acc
    else
      var s := segs[0];
      if s == "" || s == "." then NormalizeSegments(acc, segs[1..], allowAboveRoot)
      else if s == ".." then
        if |acc| > 0 && acc[|acc| - 1] != ".." then
          NormalizeSegments(acc[..|acc| - 1], segs[1..], allowAboveRoot)
        else if allowAboveRoot then
          NormalizeSegments(acc + [".."], segs[1..], allowAboveRoot)
        else
          NormalizeSegments(acc, segs[1..], allowAboveRoot)
      else
        NormalizeSegments(acc + [s], segs[1..], allowAboveRoot)
  }

  /** Normalising an absolute path (no climbing above the root) from clean segments gives
      clean segments. */
  lemma {:induction false} NormalizeSegmentsClean(acc: Segments, segs: Segments)
    requires forall i :: 0 <= i < |segs| ==> '/' !in segs[i]
    requires Clean(acc)
    ensures Clean(NormalizeSegments(acc, segs, false))
    decreases |segs|
  {
    if segs != [] {
      var s := segs[0];
      assert forall i :: 0 <= i < |segs[1..]| ==> segs[1..][i] == segs[i + 1];
      if s == "" || s == "." || s == ".." {
        if s == ".." && |acc| > 0 && acc[|acc| - 1] != ".." {
          assert Clean(acc[..|acc| - 1]) by {
            assert forall i :: 0 <= i < |acc| - 1 ==> acc[..|acc| - 1][i] == acc[i];
          }
          NormalizeSegmentsClean(acc[..|acc| - 1], segs[1..]);
        } else {
          NormalizeSegmentsClean(acc, segs[1..]);
        }
      } else {
        assert Clean(acc + [s]) by {
          assert forall i :: 0 <= i < |acc| ==> (acc + [s])[i] == acc[i];
        }
        NormalizeSegmentsClean(acc + [s], segs[1..]);
      }
    }
  }

  /** Normalisation produces the normal shape. */
  lemma {:induction false} NormalizeSegmentsNormal(acc: Segments, segs: Segments, allowAboveRoot: bool)
    requires forall i :: 0 <= i < |segs| ==> '/' !in segs[i]
    requires Normal(acc)
    ensures Normal(NormalizeSegments(acc, segs, allowAboveRoot))
    decreases |segs|
  {
    if segs != [] {
      var s := segs[0];
      if s == "" || s == "." {
        NormalizeSegmentsNormal(acc, segs[1..], allowAboveRoot);
      } else if s == ".." {
        if |acc| > 0 && acc[|acc| - 1] != ".." {
          NormalizeSegmentsNormal(acc[..|acc| - 1], segs[1..], allowAboveRoot);
        } else if allowAboveRoot {
          assert Normal(acc + [".."]);
          NormalizeSegmentsNormal(acc + [".."], segs[1..], allowAboveRoot);
        } else {
          NormalizeSegmentsNormal(acc, segs[1..], allowAboveRoot);
        }
      } else {
        assert Normal(acc + [s]);
        NormalizeSegmentsNormal(acc + [s], segs[1..], allowAboveRoot);
      }
    }
  }

  /** Clean segments survive normalisation unchanged. */
  lemma {:induction false} NormalizeClean(acc: Segments, segs: Segments, allowAboveRoot: bool)
    requires Clean(segs)
    ensures NormalizeSegments(acc, segs, allowAboveRoot) == acc + segs
    decreases |segs|
  {
    if segs != [] {
      NormalizeClean(acc + [segs[0]], segs[1..], allowAboveRoot);
      assert acc + [segs[0]] + segs[1..] == acc + segs;
    }
  }

  /** Each leading ".." removes one clean segment from the accumulated path. */
  lemma {:induction false} NormalizeClimb(acc: Segments, m: nat, rest: Segments, allowAboveRoot: bool)
    requires Clean(acc) && m <= |acc|
    requires forall i :: 0 <= i < |rest| ==> '/' !in rest[i]
    ensures NormalizeSegments(acc, Repeat("..", m) + rest, allowAboveRoot)
         == NormalizeSegments(acc[..|acc| - m], rest, allowAboveRoot)
  {
    if m > 0 {
      var segs := Repeat("..", m) + rest;
      var acc' := acc[..|acc| - 1];
      assert segs[0] == ".." && segs[1..] == Repeat("..", m - 1) + rest;
      assert IsCleanSegment(acc[|acc| - 1]);
      assert NormalizeSegments(acc, segs, allowAboveRoot) == NormalizeSegments(acc', segs[1..], allowAboveRoot);
      assert Clean(acc') by {
        assert forall i :: 0 <= i < |acc'| ==> acc'[i] == acc[i];
      }
      NormalizeClimb(acc', m - 1, rest, allowAboveRoot);
      assert acc'[..|acc'| - (m - 1)] == acc[..|acc| - m];
    } else {
      assert Repeat("..", 0) + rest == rest;
      assert acc[..|acc| - 0] == acc;
    }
  }

  /** `n` copies of `s`. */
  function Repeat(s: string, n: nat): Segments
  {
    if n == 0 then [] else [s] + Repeat(s, n - 1)
  }

  /** `path.normalize(p)` */
  function Normalize(p: string): string
  {
    if p == "" then "."
    else
      var isAbsolute := p[0] == '/';
      var trailingSeparator := p[|p| - 1] == '/';
      var segs := NormalizeSegments([], Split(p, '/'), !isAbsolute);
      if segs == [] then
        if isAbsolute then "/" else if trailingSeparator then "./" else "."
      else
        (if isAbsolute then "/" else "") + JoinWith(segs, "/") + (if trailingSeparator then "/" else "")
  }

  /** The loop of `path.join`: the non-empty arguments are appended to `joined` with '/'
      between them (`joined` is empty while no argument has been taken), and the result is
      normalised, or is "." when every argument was empty. */
  function JoinFrom(joined: string, parts: seq<string>): string
    decreases |parts|
  {
    if parts == [] then
      if joined == "" then "." else Normalize(joined)
    else
      var arg := parts[0];
      var joined' := if arg == "" then joined else if joined == "" then arg else joined + "/" + arg;
      JoinFrom(joined', parts[1..])
  }

  /** `path.join(...parts)` */
  function Join(parts: seq<string>): string
  {
    JoinFrom("", parts)
  }

  /** Once started, the loop appends every remaining non-empty argument. */
  lemma {:induction false} JoinFromNonEmpty(joined: string, parts: seq<string>)
    requires joined != ""
    requires forall i :: 0 <= i < |parts| ==> parts[i] != ""
    ensures JoinFrom(joined, parts) == Normalize(JoinWith([joined] + parts, "/"))
    decreases |parts|
  {
    if parts == [] {
      assert [joined] + parts == [joined];
    } else {
      var joined' := joined + "/" + parts[0];
      JoinFromNonEmpty(joined', parts[1..]);
      assert ([joined] + parts)[1..] == parts;
      if |parts| == 1 {
        assert [joined'] + parts[1..] == [joined'];
      } else {
        assert ([joined'] + parts[1..])[1..] == parts[1..];
        assert JoinWith(parts, "/") == parts[0] + "/" + JoinWith(parts[1..], "/");
        assert joined + "/" + (parts[0] + "/" + JoinWith(parts[1..], "/"))
            == joined' + "/" + JoinWith(parts[1..], "/");
      }
    }
  }

  /** `path.join` of non-empty arguments normalises their '/'-separated concatenation. */
  lemma JoinNonEmpty(parts: seq<string>)
    requires |parts| >= 1
    requires forall i :: 0 <= i < |parts| ==> parts[i] != ""
    ensures Join(parts) == Normalize(JoinWith(parts, "/"))
  {
    JoinFromNonEmpty(parts[0], parts[1..]);
    assert [parts[0]] + parts[1..] == parts;
  }

  /** The text of an absolute path. */
  function Absolute(segs: Segments): string
  {
    "/" + JoinWith(segs, "/")
  }

  /** The segments of an absolute path text, as `path.resolve` normalises it. */
  function AbsoluteSegments(p: string): Segments
  {
    NormalizeSegments([], Split(p, '/'), false)
  }

  lemma AbsoluteSegmentsClean(p: string)
    ensures Clean(AbsoluteSegments(p))
  {
    SplitParts(p, '/');
    NormalizeSegmentsClean([], Split(p, '/'));
  }

  /** `path.resolve(p)` when the working directory is `cwd`. */
  function Resolve(p: string, cwd: Segments): Segments
  {
    var s := Split(p, '/');
    if p == "" then AbsoluteSegments(Absolute(cwd))
    else if p[0] == '/' then NormalizeSegments([], s, false)
    else AbsoluteSegments(Absolute(cwd) + "/" + p)
  }

  function CommonPrefixLength(a: Segments, b: Segments): (k: nat)
    ensures k <= |a| && k <= |b|
  {
    if a == [] || b == [] || a[0] != b[0] then 0
    else 1 + CommonPrefixLength(a[1..], b[1..])
  }

  /** The common prefix is as long as it can be. */
  lemma {:induction false} CommonPrefix(a: Segments, b: Segments)
    ensures var k := CommonPrefixLength(a, b);
      a[..k] == b[..k] && (k < |a| && k < |b| ==> a[k] != b[k])
  {
    if !(a == [] || b == [] || a[0] != b[0]) {
      CommonPrefix(a[1..], b[1..]);
      var k := CommonPrefixLength(a, b);
      assert a[..k] == [a[0]] + a[1..][..k - 1];
      assert b[..k] == [b[0]] + b[1..][..k - 1];
    }
  }

  /** `path.relative(from, to)` for two resolved absolute paths, as its list of segments
      (the empty list is the empty string Node returns for equal paths). */
  function Relative(from: Segments, to: Segments): (r: Segments)
  {
    var k := CommonPrefixLength(from, to);
    Repeat("..", |from| - k) + to[k..]
  }

  /** Resolving the relative path against `from` leads back to `to`. */
  lemma RelativeResolves(from: Segments, to: Segments)
    requires Clean(from) && Clean(to)
    ensures NormalizeSegments(from, Relative(from, to), false) == to
  {
    var k := CommonPrefixLength(from, to);
    var rest := to[k..];
    assert Relative(from, to) == Repeat("..", |from| - k) + rest;
    CommonPrefix(from, to);
    CleanDrop(to, k);
    ClimbThenDescend(from, k, rest);
    assert from[..k] + rest == to;
  }

  lemma CleanDrop(segs: Segments, k: nat)
    requires Clean(segs) && k <= |segs|
    ensures Clean(segs[k..])
  {
    forall i | 0 <= i < |segs| - k ensures IsCleanSegment(segs[k..][i]) {
      assert segs[k..][i] == segs[k + i];
    }
  }

  /** Climbing from `from` to its first `k` segments and descending into `rest`. */
  lemma ClimbThenDescend(from: Segments, k: nat, rest: Segments)
    requires Clean(from) && Clean(rest) && k <= |from|
    ensures NormalizeSegments(from, Repeat("..", |from| - k) + rest, false) == from[..k] + rest
  {
    NormalizeClimb(from, |from| - k, rest, false);
    assert from[..|from| - (|from| - k)] == from[..k];
    NormalizeClean(from[..k], rest, false);
  }

  /** A path below `from` is written relative to it without climbing. */
  lemma RelativeBelow(from: Segments, rest: Segments)
    requires |rest| >= 1
    ensures Relative(from, from + rest) == rest
  {
    var k := CommonPrefixLength(from, from + rest);
    CommonPrefix(from, from + rest);
    assert (from + rest)[..|from|] == from;
    assert (from + rest)[|from|..] == rest;
  }

  /** `path.dirname` of the text of a relative path with the segments `rel`. */
  function Dirname(rel: Segments): string
  {
    if |rel| <= 1 then "." else JoinWith(rel[..|rel| - 1], "/")
  }

  /** Index of the last occurrence of `c` in `s`, or -1. */
  function LastIndexOf(s: string, c: char): (k: int)
    ensures -1 <= k < |s|
  {
    if s == [] then -1
    else if s[|s| - 1] == c then |s| - 1
    else LastIndexOf(s[..|s| - 1], c)
  }

  /** The index found holds `c` and nothing after it does. */
  lemma {:induction false} LastIndexOfChar(s: string, c: char)
    ensures var k := LastIndexOf(s, c);
      (k >= 0 ==> s[k] == c) && forall i :: k < i < |s| ==> s[i] != c
  {
    if s != [] && s[|s| - 1] != c {
      LastIndexOfChar(s[..|s| - 1], c);
    }
  }

  /** `path.extname(name)` of a file name as a directory listing gives it (a single path
      segment, without '/'): from its last '.' to the end, unless that dot is its first
      character or the name is "..". */
  function Extname(base: string): string
  {
    var k := LastIndexOf(base, '.');
    if k <= 0 || base == ".." then "" else base[k..]
  }

  /** An extension is empty, or a dot and a dot-free tail that end the name, after at least
      one other character. */
  lemma ExtnameShape(base: string)
    ensures var ext := Extname(base);
      ext == "" || (ext[0] == '.' && EndsWith(base, ext) && |ext| < |base| && '.' !in ext[1..])
  {
    LastIndexOfChar(base, '.');
    var k := LastIndexOf(base, '.');
    if k > 0 && base != ".." {
      var ext := base[k..];
      assert forall i :: 1 <= i < |ext| ==> ext[i] == base[k + i];
    }
  }



  // ----- Clean paths: normalisation and joining are plain concatenation -----

  lemma SplitAbsolute(segs: Segments)
    requires Clean(segs)
    ensures Split(Absolute(segs), '/') == [""] + (if segs == [] then [""] else segs)
  {
    if segs == [] {
      assert Absolute(segs) == "" + ['/'] + "";
      SplitAtSeparator("", '/', "");
    } else {
      assert Absolute(segs) == "" + ['/'] + JoinWith(segs, "/");
      SplitAtSeparator("", '/', JoinWith(segs, "/"));
      SplitJoin(segs, '/');
    }
  }

  /** Resolving the text of a clean absolute path gives its segments back. */
  lemma AbsoluteRoundTrip(segs: Segments)
    requires Clean(segs)
    ensures AbsoluteSegments(Absolute(segs)) == segs
  {
    SplitAbsolute(segs);
    var s := Split(Absolute(segs), '/');
    assert s[0] == "" && s[1..] == if segs == [] then [""] else segs;
    assert NormalizeSegments([], s, false) == NormalizeSegments([], s[1..], false);
    if segs != [] {
      NormalizeClean([], segs, false);
    } else {
      assert s[1..][1..] == [];
    }
  }

  /** `path.normalize` of a non-empty text without a trailing '/', in terms of its normalised segments. */
  lemma NormalizeOf(p: string, segs: Segments)
    requires p != "" && p[|p| - 1] != '/'
    requires NormalizeSegments([], Split(p, '/'), p[0] != '/') == segs && segs != []
    ensures Normalize(p) == (if p[0] == '/' then "/" else "") + JoinWith(segs, "/")
  {
  }

  lemma JoinCleanNonEmpty(segs: Segments)
    requires Clean(segs) && |segs| >= 1
    ensures JoinWith(segs, "/") != ""
    ensures JoinWith(segs, "/")[0] != '/'
    ensures JoinWith(segs, "/")[|JoinWith(segs, "/")| - 1] != '/'
  {
    if |segs| > 1 {
      JoinCleanNonEmpty(segs[1..]);
    }
  }

  /** `path.normalize` leaves the text of a clean relative path unchanged. */
  lemma NormalizeCleanRelative(segs: Segments)
    requires Clean(segs) && |segs| >= 1
    ensures Normalize(JoinWith(segs, "/")) == JoinWith(segs, "/")
  {
    var p := JoinWith(segs, "/");
    JoinCleanNonEmpty(segs);
    SplitJoin(segs, '/');
    NormalizeClean([], segs, true);
    NormalizeOf(p, segs);
  }

  /** `path.normalize` leaves the text of a clean absolute path unchanged. */
  lemma NormalizeCleanAbsolute(segs: Segments)
    requires Clean(segs) && |segs| >= 1
    ensures Normalize(Absolute(segs)) == Absolute(segs)
  {
    var p := Absolute(segs);
    JoinCleanNonEmpty(segs);
    SplitAbsolute(segs);
    var s := Split(p, '/');
    assert s[0] == "" && s[1..] == segs;
    assert NormalizeSegments([], s, false) == NormalizeSegments([], s[1..], false);
    NormalizeClean([], segs, false);
    assert p[|p| - 1] == JoinWith(segs, "/")[|JoinWith(segs, "/")| - 1];
    NormalizeOf(p, segs);
  }

  /** `path.join` of clean relative pieces is their concatenation with '/'. */
  lemma JoinCleanRelative(parts: seq<Segments>)
    requires |parts| >= 1
    requires forall i :: 0 <= i < |parts| ==> Clean(parts[i]) && |parts[i]| >= 1
    ensures Join(Texts(parts)) == JoinWith(ConcatAll(parts), "/")
  {
    TextsNonEmpty(parts);
    JoinNonEmpty(Texts(parts));
    ConcatAllJoin(parts);
    assert Clean(ConcatAll(parts)) && |ConcatAll(parts)| >= 1 by { ConcatAllClean(parts); }
    NormalizeCleanRelative(ConcatAll(parts));
  }

  /** `path.join(Absolute(dir), p)` for a clean directory and a clean relative path. */
  lemma JoinUnderAbsolute(dir: Segments, rel: Segments)
    requires Clean(dir) && Clean(rel) && |dir| >= 1 && |rel| >= 1
    ensures Join([Absolute(dir), JoinWith(rel, "/")]) == Absolute(dir + rel)
  {
    var a, b, full := Absolute(dir), JoinWith(rel, "/"), dir + rel;
    JoinCleanNonEmpty(rel);
    JoinTwo(a, b);
    AbsoluteAppend(dir, rel);
    CleanAppend(dir, rel);
    NormalizeCleanAbsolute(full);
  }

  lemma AbsoluteAppend(dir: Segments, rel: Segments)
    requires |dir| >= 1 && |rel| >= 1
    ensures Absolute(dir) + "/" + JoinWith(rel, "/") == Absolute(dir + rel)
  {
    JoinWithAppend(dir, rel, "/");
    SlashAssoc(JoinWith(dir, "/"), JoinWith(rel, "/"));
  }

  lemma SlashAssoc(a: string, b: string)
    ensures "/" + a + "/" + b == "/" + (a + "/" + b)
  {
  }

  lemma CleanAppend(a: Segments, b: Segments)
    requires Clean(a) && Clean(b)
    ensures Clean(a + b)
  {
    forall i | 0 <= i < |a + b| ensures IsCleanSegment((a + b)[i]) {
      if i < |a| { assert (a + b)[i] == a[i]; } else { assert (a + b)[i] == b[i - |a|]; }
    }
  }

  lemma JoinTwo(a: string, b: string)
    requires a != "" && b != ""
    ensures Join([a, b]) == Normalize(a + "/" + b)
  {
    JoinNonEmpty([a, b]);
    assert JoinWith([a, b], "/") == a + "/" + b;
  }

  function Texts(parts: seq<Segments>): (r: seq<string>)
    ensures |r| == |parts|
  {
    if parts == [] then [] else [JoinWith(parts[0], "/")] + Texts(parts[1..])
  }

  function ConcatAll(parts: seq<Segments>): Segments
  {
    if parts == [] then [] else parts[0] + ConcatAll(parts[1..])
  }

  lemma {:induction false} TextsNonEmpty(parts: seq<Segments>)
    requires forall i :: 0 <= i < |parts| ==> Clean(parts[i]) && |parts[i]| >= 1
    ensures forall i :: 0 <= i < |parts| ==> Texts(parts)[i] != ""
  {
    forall i | 0 <= i < |parts| ensures Texts(parts)[i] != "" {
      TextAt(parts, i);
      JoinCleanNonEmpty(parts[i]);
    }
  }

  lemma {:induction false} TextAt(parts: seq<Segments>, i: nat)
    requires i < |parts|
    ensures Texts(parts)[i] == JoinWith(parts[i], "/")
  {
    if i > 0 {
      TextAt(parts[1..], i - 1);
    }
  }

  lemma {:induction false} ConcatAllClean(parts: seq<Segments>)
    requires |parts| >= 1
    requires forall i :: 0 <= i < |parts| ==> Clean(parts[i]) && |parts[i]| >= 1
    ensures Clean(ConcatAll(parts)) && |ConcatAll(parts)| >= 1
  {
    if |parts| > 1 {
      ConcatAllClean(parts[1..]);
    }
  }

  lemma {:induction false} ConcatAllJoin(parts: seq<Segments>)
    requires |parts| >= 1
    requires forall i :: 0 <= i < |parts| ==> |parts[i]| >= 1
    ensures JoinWith(Texts(parts), "/") == JoinWith(ConcatAll(parts), "/")
  {
    if |parts| == 1 {
      assert ConcatAll(parts) == parts[0];
    } else {
      ConcatAllJoin(parts[1..]);
      assert Texts(parts)[1..] == Texts(parts[1..]);
      assert |ConcatAll(parts[1..])| >= 1 by { ConcatAllLength(parts[1..]); }
      JoinWithAppend(parts[0], ConcatAll(parts[1..]), "/");
    }
  }

  lemma {:induction false} ConcatAllLength(parts: seq<Segments>)
    requires |parts| >= 1
    requires forall i :: 0 <= i < |parts| ==> |parts[i]| >= 1
    ensures |ConcatAll(parts)| >= 1
  {
  }
}
