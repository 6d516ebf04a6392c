/** The current resolver (`src/engineRoom/resolveDynamicContent.js`): it visits every
    `_content` key of the display rules, renders each component reference (a string ending
    in ".js") with its module's `getHtml`, writes the markup back into the slot, and collects
    the stylesheets found next to the component's compiled CSS into `headCssLinks`. */
module Resolver {
  import opened Strings
  import opened Values
  import opened Paths
  import opened DisplayRules
  import opened Host

  /** Written in place of the markup when a module has no `getHtml` function. */
  const Fallback := "<!-- Error: needed getHtml() -->"

  /** `srcDir` and `componentsDir` of `criticalPaths.js`. */
  function SrcDir(env: Environment): Segments
  {
    env.root + ["src"]
  }

  function ComponentsDir(env: Environment): Segments
  {
    SrcDir(env) + ["components"]
  }

  /** `path.join(componentsDir, scriptPath)`: the module a component reference loads. */
  function ModulePath(env: Environment, scriptPath: string): string
  {
    Join([Absolute(ComponentsDir(env)), scriptPath])
  }

  /** The file the module URL names, as `fileURLToPath` gives it back. */
  function ComponentFile(env: Environment, scriptPath: string): Segments
  {
    AbsoluteSegments(ModulePath(env, scriptPath))
  }

  /** `path.join('css', path.dirname(path.relative(srcDir, file)))`: the directory, relative
      to the working directory, whose listing gives the component's stylesheets. */
  function CssDir(env: Environment, file: Segments): string
  {
    Join(["css", Dirname(Relative(SrcDir(env), file))])
  }

  /** `name.replace(/\.(scss|sass)$/, '.css')` */
  function ReplaceStylesheetSuffix(name: string): (r: string)
    ensures EndsWith(name, ".scss") || EndsWith(name, ".sass") ==>
      EndsWith(r, ".css") && |r| == |name| - 1 && r[..|r| - 4] == name[..|name| - 5]
    ensures !(EndsWith(name, ".scss") || EndsWith(name, ".sass")) ==> r == name
  {
    if EndsWith(name, ".scss") || EndsWith(name, ".sass") then
      var r := name[..|name| - 5] + ".css";
      assert r[|r| - 4..] == ".css";
      r
    else name
  }

  /** The stylesheet link one directory entry contributes: none for a directory or an
      unrelated file; `dir/name` for a ".css" file; `css/dir/name` with the extension
      turned into ".css" for a ".scss" or ".sass" file. Backslashes become '/'. */
  function LinkFor(dir: string, e: DirEntry): seq<string>
  {
    if !e.isFile then []
    else
      var ext := Extname(e.name);
      if ext == ".css" then [ReplaceBackslashes(Join([dir, e.name]))]
      else if ext == ".scss" || ext == ".sass" then
        [ReplaceBackslashes(Join(["css", dir, ReplaceStylesheetSuffix(e.name)]))]
      else []
  }

  /** An entry contributes at most one link, exactly when it is a stylesheet file, and the
      link has no backslash. */
  lemma LinkForShape(dir: string, e: DirEntry)
    ensures var links := LinkFor(dir, e);
      && |links| <= 1
      && (links != [] <==> e.isFile && Extname(e.name) in [".css", ".scss", ".sass"])
      && forall i :: 0 <= i < |links| ==> '\\' !in links[i]
  {
    if e.isFile {
      ReplaceBackslashesAt(Join([dir, e.name]));
      ReplaceBackslashesAt(Join(["css", dir, ReplaceStylesheetSuffix(e.name)]));
    }
  }

  /** The links of a listing, in listing order. */
  function Links(dir: string, es: seq<DirEntry>): seq<string>
  {
    if es == [] then [] else Links(dir, es[..|es| - 1]) + LinkFor(dir, es[|es| - 1])
  }

  lemma {:induction false} LinksAppend(dir: string, a: seq<DirEntry>, b: seq<DirEntry>)
    ensures Links(dir, a + b) == Links(dir, a) + Links(dir, b)
    decreases |b|
  {
    if b == [] {
      assert a + b == a;
    } else {
      var b', last := b[..|b| - 1], b[|b| - 1];
      assert (a + b)[..|a + b| - 1] == a + b';
      assert (a + b)[|a + b| - 1] == last;
      assert Links(dir, a + b) == Links(dir, a + b') + LinkFor(dir, last);
      LinksAppend(dir, a, b');
    }
  }

  lemma LinksStep(dir: string, es: seq<DirEntry>, n: nat)
    requires n < |es|
    ensures Links(dir, es[..n + 1]) == Links(dir, es[..n]) + LinkFor(dir, es[n])
  {
    assert es[..n + 1][..n] == es[..n];
  }

  lemma LinksSplit(dir: string, es: seq<DirEntry>, n: nat)
    requires n <= |es|
    ensures Links(dir, es) == Links(dir, es[..n]) + Links(dir, es[n..])
  {
    var a, b := es[..n], es[n..];
    assert a + b == es;
    LinksAppend(dir, a, b);
  }

  /** The markup a module produces, or the fallback marker when it has no `getHtml`. */
  function Rendered(c: Component, r: Rules, partialData: Option<string>): (html: string)
    ensures c.getHtml.None? ==> html == Fallback
  {
    match c.getHtml
    case None => Fallback
    case Some(getHtml) => getHtml(r, partialData)
  }

  /** `processComponent(scriptPath, viewModel, key, index, partialData)` on display rules `r`:
      load the module, write its markup (or the fallback) into the slot, then append the
      links of the stylesheet directory's listing. */
  function ProcessSpec(env: Environment, r: Rules, scriptPath: string, key: string, index: Index,
                       partialData: Option<string>): (res: Result<Rules>)
    requires r.Valid() && key in r.slots && key != HeadCssLinks
    requires index.Element? ==> r.slots[key].Arr? && index.i < |r.slots[key].items|
    requires index.Named? ==> r.slots[key].Str?
    ensures ComponentFile(env, scriptPath) !in env.modules ==>
      res == Err(ModuleNotFound(Absolute(ComponentFile(env, scriptPath))))
    ensures ComponentFile(env, scriptPath) in env.modules && index.Named? ==>
      res == Err(CannotCreateProperty(index.name, r.slots[key].s))
    ensures res.Ok? ==>
      && ComponentFile(env, scriptPath) in env.modules
      && !index.Named?
      && CssDir(env, ComponentFile(env, scriptPath)) in env.dirs
    ensures res.Ok? ==> res.value.Valid() && res.value.keys == r.keys
    ensures res.Ok? ==> forall k :: k in r.slots && k != key && k != HeadCssLinks ==>
      res.value.slots[k] == r.slots[k]
    ensures res.Ok? ==> KeepsCssPrefix(r, res.value)
    ensures res.Ok? && index.WholeSlot? ==>
      res.value.slots[key] == Str(Rendered(env.modules[ComponentFile(env, scriptPath)], r, partialData))
    ensures res.Ok? && index.Element? ==>
      && res.value.slots[key].Arr?
      && |res.value.slots[key].items| == |r.slots[key].items|
      && res.value.slots[key].items[index.i]
         == Str(Rendered(env.modules[ComponentFile(env, scriptPath)], r, partialData))
      && forall j :: 0 <= j < |r.slots[key].items| && j != index.i ==>
           res.value.slots[key].items[j] == r.slots[key].items[j]
    ensures res.Ok? && HeadCssLinks in r.slots && r.slots[HeadCssLinks].Arr? ==>
      var dir := CssDir(env, ComponentFile(env, scriptPath));
      res.value.slots[HeadCssLinks] == Arr(r.slots[HeadCssLinks].items + Strs(Links(dir, env.dirs[dir])))
  {
    var file := ComponentFile(env, scriptPath);
    if file !in env.modules then Err(ModuleNotFound(Absolute(file)))
    else
      var html := Rendered(env.modules[file], r, partialData);
      match WriteSlot(r, key, index, html)
      case Err(e) => Err(e)
      case Ok(w) =>
        var dir := CssDir(env, file);
        if dir !in env.dirs then Err(NoSuchDirectory(dir))
        else
          var res := AppendLinks(w, Links(dir, env.dirs[dir]));
          assert res.Ok? ==> KeepsCssPrefix(r, res.value) by {
            if res.Ok? && HeadCssLinks in r.slots && r.slots[HeadCssLinks].Arr? {
              assert r.slots[HeadCssLinks].items <= res.value.slots[HeadCssLinks].items;
            }
          }
          res
  }

  // ----- The section of a `_content` key: the regular expression /(c\d+)(_content)/ -----

  /** The regular expression matches `s` at `p`, with its group `c\d+` ending before `q`. */
  predicate MatchSpan(s: string, p: int, q: int)
  {
    && 0 <= p && p + 1 < q && q + |ContentSuffix| <= |s|
    && s[p] == 'c'
    && (forall i :: p < i < q ==> IsDigit(s[i]))
    && s[q..q + |ContentSuffix|] == ContentSuffix
  }

  /** The end of the run of digits that starts at `i`. */
  function DigitRunEnd(s: string, i: nat): (j: nat)
    requires i <= |s|
    ensures i <= j <= |s|
    decreases |s| - i
  {
    if i < |s| && IsDigit(s[i]) then DigitRunEnd(s, i + 1) else i
  }

  /** The run holds only digits and is followed by a non-digit or the end. */
  lemma {:induction false} DigitRun(s: string, i: nat)
    requires i <= |s|
    ensures var j := DigitRunEnd(s, i);
      (forall k :: i <= k < j ==> IsDigit(s[k])) && (j == |s| || !IsDigit(s[j]))
    decreases |s| - i
  {
    if i < |s| && IsDigit(s[i]) {
      DigitRun(s, i + 1);
    }
  }

  /** At a given start the group can only end where the run of digits ends. */
  lemma MatchEndsAtRun(s: string, p: nat)
    requires p < |s|
    ensures forall q :: MatchSpan(s, p, q) ==> q == DigitRunEnd(s, p + 1)
  {
    var run := DigitRunEnd(s, p + 1);
    DigitRun(s, p + 1);
    forall q | MatchSpan(s, p, q) ensures q == run {
      assert s[q] == s[q..q + |ContentSuffix|][0] == '_';
      assert run < |s| ==> !IsDigit(s[run]);
    }
  }

  /** The leftmost match at or after `from`, as its span. */
  function SearchFrom(s: string, from: nat): (m: Option<(nat, nat)>)
    requires from <= |s|
    ensures m.Some? ==> from <= m.value.0 < m.value.1 <= |s|
    decreases |s| - from
  {
    if from == |s| then None
    else
      var q := DigitRunEnd(s, from + 1);
      if s[from] == 'c' && from + 1 < q && q + |ContentSuffix| <= |s| && s[q..q + |ContentSuffix|] == ContentSuffix then
        Some((from, q))
      else
        SearchFrom(s, from + 1)
  }

  /** The search finds a match, and none starts between `from` and it; or there is none. */
  lemma {:induction false} SearchFromLeftmost(s: string, from: nat)
    requires from <= |s|
    ensures var m := SearchFrom(s, from);
      && (m.Some? ==> from <= m.value.0 && MatchSpan(s, m.value.0, m.value.1))
      && (m.Some? ==> forall p, q :: from <= p < m.value.0 ==> !MatchSpan(s, p, q))
      && (m.None? ==> forall p, q :: from <= p ==> !MatchSpan(s, p, q))
    decreases |s| - from
  {
    if from < |s| {
      var q := DigitRunEnd(s, from + 1);
      DigitRun(s, from + 1);
      if s[from] == 'c' && from + 1 < q && q + |ContentSuffix| <= |s| && s[q..q + |ContentSuffix|] == ContentSuffix {
        assert SearchFrom(s, from) == Some((from, q));
        assert MatchSpan(s, from, q);
      } else {
        var m := SearchFrom(s, from + 1);
        assert SearchFrom(s, from) == m;
        MatchEndsAtRun(s, from);
        SearchFromLeftmost(s, from + 1);
        forall p, q' | from <= p && (m.Some? ==> p < m.value.0)
          ensures !MatchSpan(s, p, q')
        {
          if p == from {
            assert q' != q ==> !MatchSpan(s, from, q');
          }
        }
      }
    }
  }

  /** The match at `p` is the first one. */
  ghost predicate Leftmost(s: string, p: int, q: int)
  {
    MatchSpan(s, p, q) && forall p', q' :: p' < p ==> !MatchSpan(s, p', q')
  }

  /** `key.match(/(c\d+)(_content)/)?.[1]`: the section a `_content` key belongs to. */
  function FindSection(key: string): Option<string>
  {
    match SearchFrom(key, 0)
    case None => None
    case Some((p, q)) => Some(key[p..q])
  }

  /** The section is the group of the leftmost match, and there is one exactly when the
      expression matches somewhere in the key. */
  lemma FindSectionLeftmost(key: string)
    ensures FindSection(key).None? <==> forall p, q :: !MatchSpan(key, p, q)
    ensures FindSection(key).Some? ==> exists p, q :: Leftmost(key, p, q) && FindSection(key).value == key[p..q]
  {
    SearchFromLeftmost(key, 0);
    match SearchFrom(key, 0)
    case None =>
    case Some((p, q)) =>
      assert Leftmost(key, p, q);
  }

  /** A key written "c", digits, "_content" belongs to the section "c" + digits. */
  lemma SectionOfContentKey(digits: string)
    requires |digits| >= 1 && forall i :: 0 <= i < |digits| ==> IsDigit(digits[i])
    ensures FindSection("c" + digits + ContentSuffix) == Some("c" + digits)
  {
    var key := "c" + digits + ContentSuffix;
    var q := 1 + |digits|;
    assert key[q..q + |ContentSuffix|] == ContentSuffix;
    assert forall i :: 0 < i < q ==> key[i] == digits[i - 1];
    assert MatchSpan(key, 0, q);
    SearchFromLeftmost(key, 0);
    var m := SearchFrom(key, 0);
    assert m.Some? && m.value.0 == 0;
    MatchEndsAtRun(key, 0);
    assert key[0..q] == "c" + digits;
  }

  // ----- The walk over the display rules -----

  /** How the scalar `.js` branch calls `processComponent`: as the code is written (the data
      key arrives as `index` and `partialData` is undefined), or as the parallel array
      branch and the earlier resolver do it (`index` null, the data key as `partialData`). */
  datatype ScalarCall = AsWritten | Intended

  /** The `partialData` the walk passes for a `_content` key: its section followed by
      "_ejsData". */
  function PartialData(key: string): string
    requires FindSection(key).Some?
  {
    FindSection(key).value + "_ejsData"
  }

  /** What a resolved element or scalar holds: a component reference has been replaced by
      the markup its module renders with the data key `partialData` (the fallback marker when
      the module has no `getHtml`); anything else is kept. */
  ghost predicate ResolvedElement(env: Environment, partialData: Option<string>, before: Value, after: Value)
  {
    if IsComponentRef(before) then
      var file := ComponentFile(env, before.s);
      && file in env.modules
      && after.Str?
      && Markup(env.modules[file], partialData, after.s)
      && (env.modules[file].getHtml.None? ==> after == Str(Fallback))
    else after == before
  }

  /** `html` is what the module's `getHtml` returns for the data key `partialData` and the
      display rules as they stand at the call. */
  ghost predicate Markup(c: Component, partialData: Option<string>, html: string)
  {
    exists r: Rules :: html == Rendered(c, r, partialData)
  }

  /** What a resolved `_content` slot holds: an array keeps its length and each element is
      resolved in its own position with the data key `dataKey`; a scalar reference is
      resolved as a whole with that data key (only with the intended call); any other value
      is kept. */
  ghost predicate ResolvedSlot(env: Environment, call: ScalarCall, dataKey: string, before: Value, after: Value)
  {
    if before.Arr? then
      && after.Arr?
      && |after.items| == |before.items|
      && forall i :: 0 <= i < |before.items| ==> ResolvedElement(env, Some(dataKey), before.items[i], after.items[i])
    else if IsComponentRef(before) then
      call == Intended && ResolvedElement(env, Some(dataKey), before, after)
    else after == before
  }

  /** The inner loop over an array slot, from position `i` on. */
  function ArraySlot(env: Environment, r: Rules, key: string, i: nat, dataKey: string): Result<Rules>
    requires r.Valid() && key in r.slots && key != HeadCssLinks
    requires r.slots[key].Arr? && i <= |r.slots[key].items|
    decreases |r.slots[key].items| - i, 1
  {
    var items := r.slots[key].items;
    if i == |items| then Ok(r)
    else if IsComponentRef(items[i]) then ArrayElement(env, r, key, i, dataKey)
    else ArraySlot(env, r, key, i + 1, dataKey)
  }

  /** The component reference at position `i` of the array, then the rest of the loop. */
  function ArrayElement(env: Environment, r: Rules, key: string, i: nat, dataKey: string): Result<Rules>
    requires r.Valid() && key in r.slots && key != HeadCssLinks
    requires r.slots[key].Arr? && i < |r.slots[key].items| && IsComponentRef(r.slots[key].items[i])
    decreases |r.slots[key].items| - i, 0
  {
    match ProcessSpec(env, r, r.slots[key].items[i].s, key, Element(i), Some(dataKey))
    case Err(e) => Err(e)
    case Ok(r') => ArraySlot(env, r', key, i + 1, dataKey)
  }

  /** The inner loop writes only the slot it walks and the end of `headCssLinks`. */
  lemma {:induction false} ArraySlotFrame(env: Environment, r: Rules, key: string, i: nat, dataKey: string)
    requires r.Valid() && key in r.slots && key != HeadCssLinks
    requires r.slots[key].Arr? && i <= |r.slots[key].items|
    ensures var res := ArraySlot(env, r, key, i, dataKey);
      res.Ok? ==>
        && res.value.Valid() && res.value.keys == r.keys
        && (forall k :: k in r.slots && k != key && k != HeadCssLinks ==> res.value.slots[k] == r.slots[k])
        && KeepsCssPrefix(r, res.value)
    decreases |r.slots[key].items| - i
  {
    var items := r.slots[key].items;
    if i < |items| {
      if IsComponentRef(items[i]) {
        var p := ProcessSpec(env, r, items[i].s, key, Element(i), Some(dataKey));
        assert ArraySlot(env, r, key, i, dataKey) == ArrayElement(env, r, key, i, dataKey);
        if p.Ok? {
          var res := ArraySlot(env, p.value, key, i + 1, dataKey);
          assert ArrayElement(env, r, key, i, dataKey) == res;
          ArraySlotFrame(env, p.value, key, i + 1, dataKey);
          if res.Ok? { KeepsCssPrefixTransitive(r, p.value, res.value); }
        }
      } else {
        assert ArraySlot(env, r, key, i, dataKey) == ArraySlot(env, r, key, i + 1, dataKey);
        ArraySlotFrame(env, r, key, i + 1, dataKey);
      }
    }
  }

  /** The inner loop keeps the array's length and the elements before `i`, and resolves
      every element from `i` on. */
  lemma {:induction false} ArraySlotElements(env: Environment, r: Rules, key: string, i: nat, dataKey: string)
    requires r.Valid() && key in r.slots && key != HeadCssLinks
    requires r.slots[key].Arr? && i <= |r.slots[key].items|
    ensures var res := ArraySlot(env, r, key, i, dataKey);
      res.Ok? ==>
        && key in res.value.slots && res.value.slots[key].Arr?
        && |res.value.slots[key].items| == |r.slots[key].items|
        && (forall j :: 0 <= j < i ==> res.value.slots[key].items[j] == r.slots[key].items[j])
        && (forall j :: i <= j < |r.slots[key].items| ==>
              ResolvedElement(env, Some(dataKey), r.slots[key].items[j], res.value.slots[key].items[j]))
    decreases |r.slots[key].items| - i
  {
    var items := r.slots[key].items;
    if i < |items| {
      if IsComponentRef(items[i]) {
        var p := ProcessSpec(env, r, items[i].s, key, Element(i), Some(dataKey));
        assert ArraySlot(env, r, key, i, dataKey) == ArrayElement(env, r, key, i, dataKey);
        if p.Ok? {
          var items' := p.value.slots[key].items;
          var res := ArraySlot(env, p.value, key, i + 1, dataKey);
          assert ArrayElement(env, r, key, i, dataKey) == res;
          ArraySlotElements(env, p.value, key, i + 1, dataKey);
          if res.Ok? {
            var final := res.value.slots[key].items;
            assert final[i] == items'[i];
            assert ResolvedElement(env, Some(dataKey), items[i], final[i]);
            forall j | 0 <= j < i ensures final[j] == items[j] {
              assert final[j] == items'[j];
            }
            forall j | i < j < |items| ensures ResolvedElement(env, Some(dataKey), items[j], final[j]) {
              assert items'[j] == items[j];
            }
          }
        }
      } else {
        assert ArraySlot(env, r, key, i, dataKey) == ArraySlot(env, r, key, i + 1, dataKey);
        ArraySlotElements(env, r, key, i + 1, dataKey);
      }
    }
  }

  /** One `_content` slot, whose value is `value`, with the data key of its section. */
  function ResolveSlot(env: Environment, call: ScalarCall, r: Rules, key: string, value: Value,
                       dataKey: string): Result<Rules>
    requires r.Valid() && key in r.slots && key != HeadCssLinks && r.slots[key] == value
  {
    if value.Arr? then
      ArraySlot(env, r, key, 0, dataKey)
    else if IsComponentRef(value) then
      match call
      case AsWritten => ProcessSpec(env, r, value.s, key, Named(dataKey), None)
      case Intended => ProcessSpec(env, r, value.s, key, WholeSlot, Some(dataKey))
    else
      Ok(r)
  }

  /** Resolving a slot writes only that slot and the end of `headCssLinks`, and leaves the
      slot resolved. */
  lemma ResolveSlotDone(env: Environment, call: ScalarCall, r: Rules, key: string, value: Value, dataKey: string)
    requires r.Valid() && key in r.slots && key != HeadCssLinks && r.slots[key] == value
    ensures var res := ResolveSlot(env, call, r, key, value, dataKey);
      res.Ok? ==>
        && res.value.Valid() && res.value.keys == r.keys
        && (forall k :: k in r.slots && k != key && k != HeadCssLinks ==> res.value.slots[k] == r.slots[k])
        && KeepsCssPrefix(r, res.value)
        && ResolvedSlot(env, call, dataKey, value, res.value.slots[key])
  {
    if value.Arr? {
      ArraySlotFrame(env, r, key, 0, dataKey);
      ArraySlotElements(env, r, key, 0, dataKey);
    } else if !IsComponentRef(value) {
      assert KeepsCssPrefix(r, r);
    }
  }

  predicate DistinctKeys(es: seq<(string, Value)>)
  {
    forall i, j :: 0 <= i < j < |es| ==> es[i].0 != es[j].0
  }

  /** The `_content` entries not yet visited still hold their values in `r`. */
  ghost predicate Ready(r: Rules, es: seq<(string, Value)>, k: nat)
  {
    forall j :: k <= j < |es| && IsContentKey(es[j].0) ==> es[j].0 in r.slots && r.slots[es[j].0] == es[j].1
  }

  /** The walk from entry `k` on does not visit (so does not write) the slot `key`. */
  predicate Unvisited(es: seq<(string, Value)>, k: nat, key: string)
  {
    !IsContentKey(key) || forall j :: k <= j < |es| ==> es[j].0 != key
  }

  /** After entry `k` has been resolved into `r'`, the later entries are still ready. */
  lemma StillReady(r: Rules, r': Rules, es: seq<(string, Value)>, k: nat)
    requires k < |es| && DistinctKeys(es) && Ready(r, es, k) && r'.keys == r.keys && r'.Valid() && r.Valid()
    requires forall key :: key in r.slots && key != es[k].0 && key != HeadCssLinks ==> r'.slots[key] == r.slots[key]
    ensures Ready(r', es, k + 1)
  {
    HeadCssLinksIsNotContent();
    forall j | k + 1 <= j < |es| && IsContentKey(es[j].0)
      ensures es[j].0 in r'.slots && r'.slots[es[j].0] == es[j].1
    {
      assert es[j].0 != es[k].0;
    }
  }

  /** The outer loop over the entries `es` taken from the display rules before the walk,
      from entry `k` on; entries whose key does not end in "_content" are skipped. */
  function Walk(env: Environment, call: ScalarCall, r: Rules, es: seq<(string, Value)>, k: nat): Result<Rules>
    requires r.Valid() && k <= |es| && DistinctKeys(es) && Ready(r, es, k)
    decreases |es| - k, 2
  {
    if k == |es| then Ok(r)
    else if !IsContentKey(es[k].0) then Walk(env, call, r, es, k + 1)
    else Visit(env, call, r, es, k)
  }

  /** The `_content` entry `k`: its section gives the data key. */
  function Visit(env: Environment, call: ScalarCall, r: Rules, es: seq<(string, Value)>, k: nat): Result<Rules>
    requires r.Valid() && k < |es| && DistinctKeys(es) && Ready(r, es, k) && IsContentKey(es[k].0)
    decreases |es| - k, 1
  {
    match FindSection(es[k].0)
    case None => Err(NoSectionMatch(es[k].0))
    case Some(section) => VisitSlot(env, call, r, es, k, section + "_ejsData")
  }

  /** The slot of the `_content` entry `k` is resolved with its data key, and the walk goes
      on with the next entry. */
  function VisitSlot(env: Environment, call: ScalarCall, r: Rules, es: seq<(string, Value)>, k: nat,
                     dataKey: string): Result<Rules>
    requires r.Valid() && k < |es| && DistinctKeys(es) && Ready(r, es, k) && IsContentKey(es[k].0)
    decreases |es| - k, 0
  {
    var (key, value) := es[k];
    HeadCssLinksIsNotContent();
    ResolveSlotDone(env, call, r, key, value, dataKey);
    match ResolveSlot(env, call, r, key, value, dataKey)
    case Err(e) => Err(e)
    case Ok(r') =>
      StillReady(r, r', es, k);
      Walk(env, call, r', es, k + 1)
  }

  /** `r'` is `r` after the walk has written the `_content` entry `k`: that slot, and the
      end of `headCssLinks`, are all that changed, and the later entries are still ready. */
  ghost predicate Framed(r: Rules, es: seq<(string, Value)>, k: nat, r': Rules)
    requires k < |es|
  {
    var key := es[k].0;
    && r'.Valid() && r'.keys == r.keys
    && (forall other :: other in r.slots && other != key && other != HeadCssLinks ==> other in r'.slots && r'.slots[other] == r.slots[other])
    && KeepsCssPrefix(r, r')
    && Ready(r', es, k + 1)
  }

  /** `r'` is `r` with the `_content` entry `k` resolved. */
  ghost predicate Stepped(env: Environment, call: ScalarCall, r: Rules, es: seq<(string, Value)>, k: nat, r': Rules)
    requires k < |es|
  {
    var (key, value) := es[k];
    && Framed(r, es, k, r')
    && FindSection(key).Some?
    && key in r'.slots && ResolvedSlot(env, call, PartialData(key), value, r'.slots[key])
  }

  /** A walk that reaches a `_content` entry and succeeds has resolved that entry and
      continued from the next one. */
  lemma WalkStep(env: Environment, call: ScalarCall, r: Rules, es: seq<(string, Value)>, k: nat)
    requires r.Valid() && k < |es| && DistinctKeys(es) && Ready(r, es, k) && IsContentKey(es[k].0)
    ensures Walk(env, call, r, es, k).Ok? ==>
      exists r' :: Stepped(env, call, r, es, k, r') && Walk(env, call, r, es, k) == Walk(env, call, r', es, k + 1)
  {
    var (key, value) := es[k];
    assert Walk(env, call, r, es, k) == Visit(env, call, r, es, k);
    if FindSection(key).Some? {
      HeadCssLinksIsNotContent();
      var dataKey := FindSection(key).value + "_ejsData";
      assert Visit(env, call, r, es, k) == VisitSlot(env, call, r, es, k, dataKey);
      ResolveSlotDone(env, call, r, key, value, dataKey);
      var s := ResolveSlot(env, call, r, key, value, dataKey);
      if s.Ok? {
        StillReady(r, s.value, es, k);
        assert Stepped(env, call, r, es, k, s.value);
      }
    }
  }

  /** The walk passes over an entry that is not a `_content` entry. */
  lemma WalkSkip(env: Environment, call: ScalarCall, r: Rules, es: seq<(string, Value)>, k: nat)
    requires r.Valid() && k < |es| && DistinctKeys(es) && Ready(r, es, k) && !IsContentKey(es[k].0)
    ensures Walk(env, call, r, es, k) == Walk(env, call, r, es, k + 1)
  {
  }

  /** The part of `WalkStep` about what the step leaves in place. */
  lemma WalkStepFramed(env: Environment, call: ScalarCall, r: Rules, es: seq<(string, Value)>, k: nat)
    requires r.Valid() && k < |es| && DistinctKeys(es) && Ready(r, es, k) && IsContentKey(es[k].0)
    ensures Walk(env, call, r, es, k).Ok? ==>
      exists r' :: Framed(r, es, k, r') && Walk(env, call, r, es, k) == Walk(env, call, r', es, k + 1)
  {
    WalkStep(env, call, r, es, k);
    if Walk(env, call, r, es, k).Ok? {
      var r' :| Stepped(env, call, r, es, k, r') && Walk(env, call, r, es, k) == Walk(env, call, r', es, k + 1);
      assert Framed(r, es, k, r');
    }
  }

  /** What the walk does at a `_content` entry, as the loop of `resolveDynamicContent`
      goes through it case by case. */
  lemma WalkVisit(env: Environment, call: ScalarCall, r: Rules, es: seq<(string, Value)>, k: nat)
    requires r.Valid() && k < |es| && DistinctKeys(es) && Ready(r, es, k) && IsContentKey(es[k].0)
    requires es[k].0 != HeadCssLinks && es[k].0 in r.slots && r.slots[es[k].0] == es[k].1
    ensures FindSection(es[k].0).None? ==> Walk(env, call, r, es, k) == Err(NoSectionMatch(es[k].0))
    ensures FindSection(es[k].0).Some? ==>
      var s := ResolveSlot(env, call, r, es[k].0, es[k].1, FindSection(es[k].0).value + "_ejsData");
      && (s.Err? ==> Walk(env, call, r, es, k) == Err(s.error))
      && (s.Ok? ==> s.value.Valid() && Ready(s.value, es, k + 1) && Walk(env, call, r, es, k) == Walk(env, call, s.value, es, k + 1))
  {
    assert Walk(env, call, r, es, k) == Visit(env, call, r, es, k);
    if FindSection(es[k].0).Some? {
      HeadCssLinksIsNotContent();
      var dataKey := FindSection(es[k].0).value + "_ejsData";
      assert Visit(env, call, r, es, k) == VisitSlot(env, call, r, es, k, dataKey);
      ResolveSlotDone(env, call, r, es[k].0, es[k].1, dataKey);
      var s := ResolveSlot(env, call, r, es[k].0, es[k].1, dataKey);
      if s.Ok? {
        StillReady(r, s.value, es, k);
      }
    }
  }

  /** `res` comes from `r` by a walk from entry `k` on: it has the same keys, the walk
      wrote only the `_content` slots it visits and the end of `headCssLinks`. */
  ghost predicate Untouched(r: Rules, es: seq<(string, Value)>, k: nat, res: Rules)
  {
    && res.Valid() && res.keys == r.keys
    && (forall key :: key in r.slots && key != HeadCssLinks && Unvisited(es, k, key) ==>
          key in res.slots && res.slots[key] == r.slots[key])
    && KeepsCssPrefix(r, res)
  }

  /** A step that resolves entry `k` followed by a walk from `k + 1` is a walk from `k`. */
  lemma UntouchedStep(r: Rules, r': Rules, res: Rules, es: seq<(string, Value)>, k: nat)
    requires k < |es| && IsContentKey(es[k].0) && Framed(r, es, k, r') && Untouched(r', es, k + 1, res)
    ensures Untouched(r, es, k, res)
  {
    KeepsCssPrefixTransitive(r, r', res);
    forall other | other in r.slots && other != HeadCssLinks && Unvisited(es, k, other)
      ensures other in res.slots && res.slots[other] == r.slots[other]
    {
      assert other != es[k].0;
      assert Unvisited(es, k + 1, other);
    }
  }

  /** The walk writes only the `_content` slots it visits and the end of `headCssLinks`. */
  lemma {:induction false} WalkFrame(env: Environment, call: ScalarCall, r: Rules, es: seq<(string, Value)>, k: nat)
    requires r.Valid() && k <= |es| && DistinctKeys(es) && Ready(r, es, k)
    ensures Walk(env, call, r, es, k).Ok? ==> Untouched(r, es, k, Walk(env, call, r, es, k).value)
    decreases |es| - k
  {
    if k < |es| {
      var res := Walk(env, call, r, es, k);
      if !IsContentKey(es[k].0) {
        WalkSkip(env, call, r, es, k);
        WalkFrame(env, call, r, es, k + 1);
      } else {
        WalkStepFramed(env, call, r, es, k);
        if res.Ok? {
          var r' :| Framed(r, es, k, r') && res == Walk(env, call, r', es, k + 1);
          WalkFrame(env, call, r', es, k + 1);
          UntouchedStep(r, r', res.value, es, k);
        }
      }
    }
  }

  /** Every `_content` entry from `k` on names a section and ends up resolved. */
  lemma {:induction false} WalkResolves(env: Environment, call: ScalarCall, r: Rules, es: seq<(string, Value)>, k: nat)
    requires r.Valid() && k <= |es| && DistinctKeys(es) && Ready(r, es, k)
    ensures var res := Walk(env, call, r, es, k);
      res.Ok? ==> forall j :: k <= j < |es| && IsContentKey(es[j].0) ==>
        FindSection(es[j].0).Some? && es[j].0 in res.value.slots
        && ResolvedSlot(env, call, PartialData(es[j].0), es[j].1, res.value.slots[es[j].0])
    decreases |es| - k
  {
    if k < |es| {
      var key := es[k].0;
      var res := Walk(env, call, r, es, k);
      if !IsContentKey(key) {
        WalkSkip(env, call, r, es, k);
        WalkResolves(env, call, r, es, k + 1);
      } else {
        WalkStep(env, call, r, es, k);
        if res.Ok? {
          var r' :| Stepped(env, call, r, es, k, r') && res == Walk(env, call, r', es, k + 1);
          WalkResolves(env, call, r', es, k + 1);
          WalkFrame(env, call, r', es, k + 1);
          HeadCssLinksIsNotContent();
          assert Unvisited(es, k + 1, key);
          assert res.value.slots[key] == r'.slots[key];
        }
      }
    }
  }

  /** `resolveDynamicContent(viewModel)` on display rules `r`. */
  function ResolveSpec(env: Environment, call: ScalarCall, r: Rules): Result<Rules>
    requires r.Valid()
  {
    Walk(env, call, r, r.Entries(), 0)
  }

  /** The resolver keeps the keys and their order, and writes only the `_content` slots and
      the end of `headCssLinks`. */
  lemma ResolveSpecFrame(env: Environment, call: ScalarCall, r: Rules)
    requires r.Valid()
    ensures var res := ResolveSpec(env, call, r);
      res.Ok? ==>
        && res.value.Valid() && res.value.keys == r.keys
        && (forall key :: key in r.slots && !IsContentKey(key) && key != HeadCssLinks ==>
              res.value.slots[key] == r.slots[key])
        && KeepsCssPrefix(r, res.value)
  {
    var es := r.Entries();
    WalkFrame(env, call, r, es, 0);
    var res := Walk(env, call, r, es, 0);
    if res.Ok? {
      forall key | key in r.slots && !IsContentKey(key) && key != HeadCssLinks
        ensures res.value.slots[key] == r.slots[key]
      {
        assert Unvisited(es, 0, key);
      }
    }
  }

  /** Every `_content` key names a section and its slot ends up resolved; as written, the
      resolver succeeds only when no `_content` slot holds a component reference as a
      scalar. */
  lemma ResolveSpecResolves(env: Environment, call: ScalarCall, r: Rules)
    requires r.Valid()
    ensures var res := ResolveSpec(env, call, r);
      res.Ok? ==>
        && (forall key :: key in r.slots && IsContentKey(key) ==>
              FindSection(key).Some? && key in res.value.slots
              && ResolvedSlot(env, call, PartialData(key), r.slots[key], res.value.slots[key]))
        && (call == AsWritten ==> forall key :: key in r.slots && IsContentKey(key) ==>
              !IsComponentRef(r.slots[key]))
  {
    var es := r.Entries();
    WalkResolves(env, call, r, es, 0);
    var res := Walk(env, call, r, es, 0);
    if res.Ok? {
      forall key | key in r.slots && IsContentKey(key)
        ensures FindSection(key).Some? && key in res.value.slots
              && ResolvedSlot(env, call, PartialData(key), r.slots[key], res.value.slots[key])
      {
        var j :| 0 <= j < |r.keys| && r.keys[j] == key;
        assert es[j] == (key, r.slots[key]);
      }
    }
  }

  // ----- The resolver as it runs: in place, on the view model -----

  /** The loop over the stylesheet directory's listing: `headCssLinks` receives the links
      of the listing in order, or the first push fails. */
  method CollectCssLinks(vm: ViewModel, relativePath: string, dirContent: seq<DirEntry>) returns (err: Option<Error>)
    requires vm.displayRules.Valid()
    modifies vm
    ensures AppendLinks(old(vm.displayRules), Links(relativePath, dirContent))
         == if err.None? then Ok(vm.displayRules) else Err(err.value)
  {
    ghost var written := vm.displayRules;
    for n := 0 to |dirContent|
      invariant vm.displayRules.Valid()
      invariant AppendLinks(written, Links(relativePath, dirContent[..n])) == Ok(vm.displayRules)
    {
      var item := dirContent[n];
      LinksStep(relativePath, dirContent, n);
      if !item.isFile {
        assert Links(relativePath, dirContent[..n]) + [] == Links(relativePath, dirContent[..n]);
        continue;
      }
      var ext := Extname(item.name);
      var cssPath: string;
      if ext == ".css" {
        cssPath := ReplaceBackslashes(Join([relativePath, item.name]));
      } else if ext == ".scss" || ext == ".sass" {
        var cssFileName := ReplaceStylesheetSuffix(item.name);
        cssPath := ReplaceBackslashes(Join(["css", relativePath, cssFileName]));
      } else {
        assert Links(relativePath, dirContent[..n]) + [] == Links(relativePath, dirContent[..n]);
        continue;
      }
      assert LinkFor(relativePath, item) == [cssPath];
      AppendLinksConcat(written, Links(relativePath, dirContent[..n]), [cssPath]);
      err := PushCssLink(vm, cssPath);
      if err.Some? {
        LinksSplit(relativePath, dirContent, n + 1);
        AppendLinksFailed(written, Links(relativePath, dirContent[..n + 1]), Links(relativePath, dirContent[n + 1..]));
        return;
      }
    }
    assert dirContent[..|dirContent|] == dirContent;
    err := None;
  }

  /** `processComponent`: the view model's display rules become those `ProcessSpec` gives, or
      the call fails with its error. */
  method ProcessComponent(vm: ViewModel, env: Environment, scriptPath: string, key: string, index: Index,
                          partialData: Option<string>) returns (err: Option<Error>)
    requires vm.displayRules.Valid() && key in vm.displayRules.slots && key != HeadCssLinks
    requires index.Element? ==> vm.displayRules.slots[key].Arr? && index.i < |vm.displayRules.slots[key].items|
    requires index.Named? ==> vm.displayRules.slots[key].Str?
    modifies vm
    ensures ProcessSpec(env, old(vm.displayRules), scriptPath, key, index, partialData)
         == if err.None? then Ok(vm.displayRules) else Err(err.value)
  {
    ghost var r := vm.displayRules;
    var file := ComponentFile(env, scriptPath);
    if file !in env.modules {
      return Some(ModuleNotFound(Absolute(file)));
    }
    var component := env.modules[file];
    var html: string;
    if component.getHtml.Some? {
      html := component.getHtml.value(vm.displayRules, partialData);
    } else {
      html := Fallback;
    }
    assert html == Rendered(component, r, partialData);
    match index {
      case Named(name) =>
        return Some(CannotCreateProperty(name, vm.displayRules.slots[key].s));
      case Element(i) =>
        vm.displayRules := vm.displayRules.Set(key, Arr(vm.displayRules.slots[key].items[i := Str(html)]));
      case WholeSlot =>
        vm.displayRules := vm.displayRules.Set(key, Str(html));
    }
    assert WriteSlot(r, key, index, html) == Ok(vm.displayRules);

    var relativePath := Dirname(Relative(SrcDir(env), file));
    relativePath := Join(["css", relativePath]);
    if relativePath !in env.dirs {
      return Some(NoSuchDirectory(relativePath));
    }
    err := CollectCssLinks(vm, relativePath, env.dirs[relativePath]);
  }

  /** The inner loop over an array slot. */
  method ResolveArraySlot(vm: ViewModel, env: Environment, key: string, partialData: string) returns (err: Option<Error>)
    requires vm.displayRules.Valid() && key in vm.displayRules.slots && key != HeadCssLinks
    requires vm.displayRules.slots[key].Arr?
    modifies vm
    ensures ArraySlot(env, old(vm.displayRules), key, 0, partialData)
         == if err.None? then Ok(vm.displayRules) else Err(err.value)
  {
    ghost var before := vm.displayRules;
    var length := |vm.displayRules.slots[key].items|;
    for i := 0 to length
      invariant vm.displayRules.Valid() && key in vm.displayRules.slots
      invariant vm.displayRules.slots[key].Arr? && |vm.displayRules.slots[key].items| == length
      invariant ArraySlot(env, before, key, 0, partialData) == ArraySlot(env, vm.displayRules, key, i, partialData)
    {
      var element := vm.displayRules.slots[key].items[i];
      if IsComponentRef(element) {
        err := ProcessComponent(vm, env, element.s, key, Element(i), Some(partialData));
        if err.Some? {
          return;
        }
      }
    }
    err := None;
  }

  /** The body of the outer loop for one `_content` slot. */
  method ResolveSlotInPlace(vm: ViewModel, env: Environment, call: ScalarCall, key: string, value: Value,
                            partialData: string) returns (err: Option<Error>)
    requires vm.displayRules.Valid() && key in vm.displayRules.slots && key != HeadCssLinks
    requires vm.displayRules.slots[key] == value
    modifies vm
    ensures ResolveSlot(env, call, old(vm.displayRules), key, value, partialData)
         == if err.None? then Ok(vm.displayRules) else Err(err.value)
  {
    if value.Arr? {
      err := ResolveArraySlot(vm, env, key, partialData);
    } else if IsComponentRef(value) {
      if call == AsWritten {
        err := ProcessComponent(vm, env, value.s, key, Named(partialData), None);
      } else {
        err := ProcessComponent(vm, env, value.s, key, WholeSlot, Some(partialData));
      }
    } else {
      err := None;
    }
  }

  /** `resolveDynamicContent(viewModel)`: the view model's display rules become those
      `ResolveSpec` gives, or the call fails with its error. */
  method ResolveDynamicContent(vm: ViewModel, env: Environment, call: ScalarCall) returns (err: Option<Error>)
    requires vm.displayRules.Valid()
    modifies vm
    ensures ResolveSpec(env, call, old(vm.displayRules)) == if err.None? then Ok(vm.displayRules) else Err(err.value)
  {
    ghost var r0 := vm.displayRules;
    var entries := vm.displayRules.Entries();
    HeadCssLinksIsNotContent();
    for k := 0 to |entries|
      invariant vm.displayRules.Valid()
      invariant Ready(vm.displayRules, entries, k)
      invariant Walk(env, call, r0, entries, 0) == Walk(env, call, vm.displayRules, entries, k)
    {
      var (key, value) := entries[k];
      if !EndsWith(key, ContentSuffix) {
        continue;
      }
      WalkVisit(env, call, vm.displayRules, entries, k);
      var found := FindSection(key);
      if found.None? {
        return Some(NoSectionMatch(key));
      }
      var partialData := found.value + "_ejsData";
      err := ResolveSlotInPlace(vm, env, call, key, value, partialData);
      if err.Some? {
        return;
      }
    }
    err := None;
  }

  // ----- Properties of the model -----

  /** A value with no component reference in it, at the top or as an array element. */
  predicate NoComponentRefs(v: Value)
  {
    !IsComponentRef(v) && (v.Arr? ==> forall i :: 0 <= i < |v.items| ==> !IsComponentRef(v.items[i]))
  }

  lemma {:induction false} ArraySlotWithoutComponents(env: Environment, r: Rules, key: string, i: nat, dataKey: string)
    requires r.Valid() && key in r.slots && key != HeadCssLinks
    requires r.slots[key].Arr? && i <= |r.slots[key].items|
    requires forall j :: i <= j < |r.slots[key].items| ==> !IsComponentRef(r.slots[key].items[j])
    ensures ArraySlot(env, r, key, i, dataKey) == Ok(r)
    decreases |r.slots[key].items| - i
  {
    if i < |r.slots[key].items| {
      ArraySlotWithoutComponents(env, r, key, i + 1, dataKey);
    }
  }

  lemma SlotWithoutComponents(env: Environment, call: ScalarCall, r: Rules, key: string, value: Value, dataKey: string)
    requires r.Valid() && key in r.slots && key != HeadCssLinks && r.slots[key] == value
    requires NoComponentRefs(value)
    ensures ResolveSlot(env, call, r, key, value, dataKey) == Ok(r)
  {
    if value.Arr? {
      ArraySlotWithoutComponents(env, r, key, 0, dataKey);
    }
  }

  lemma {:induction false} WalkWithoutComponents(env: Environment, call: ScalarCall, r: Rules, es: seq<(string, Value)>, k: nat)
    requires r.Valid() && k <= |es| && DistinctKeys(es) && Ready(r, es, k)
    requires forall j :: k <= j < |es| && IsContentKey(es[j].0) ==>
      FindSection(es[j].0).Some? && NoComponentRefs(es[j].1)
    ensures Walk(env, call, r, es, k) == Ok(r)
    decreases |es| - k
  {
    if k < |es| {
      var (key, value) := es[k];
      if IsContentKey(key) {
        HeadCssLinksIsNotContent();
        WalkVisit(env, call, r, es, k);
        SlotWithoutComponents(env, call, r, key, value, FindSection(key).value + "_ejsData");
      } else {
        WalkSkip(env, call, r, es, k);
      }
      WalkWithoutComponents(env, call, r, es, k + 1);
    }
  }

  /** Display rules whose `_content` keys all name a section and hold no component
      reference come out of the resolver unchanged. */
  lemma NothingToResolve(env: Environment, call: ScalarCall, r: Rules)
    requires r.Valid()
    requires forall key :: key in r.slots && IsContentKey(key) ==> FindSection(key).Some? && NoComponentRefs(r.slots[key])
    ensures ResolveSpec(env, call, r) == Ok(r)
  {
    WalkWithoutComponents(env, call, r, r.Entries(), 0);
  }

  /** As written, a scalar component reference makes the resolver fail as soon as its module
      has loaded: the data key is written as a property of the reference string. */
  lemma ScalarReferenceAsWritten(env: Environment, r: Rules, key: string, scriptPath: string, dataKey: string)
    requires r.Valid() && key in r.slots && key != HeadCssLinks
    requires r.slots[key] == Str(scriptPath) && EndsWith(scriptPath, ".js")
    requires ComponentFile(env, scriptPath) in env.modules
    ensures ResolveSlot(env, AsWritten, r, key, Str(scriptPath), dataKey)
         == Err(CannotCreateProperty(dataKey, scriptPath))
  {
  }

  /** With the intended call a scalar component reference is replaced by the module's markup,
      computed with the slot's data key. */
  lemma ScalarReferenceIntended(env: Environment, r: Rules, key: string, scriptPath: string, dataKey: string)
    requires r.Valid() && key in r.slots && key != HeadCssLinks
    requires r.slots[key] == Str(scriptPath) && EndsWith(scriptPath, ".js")
    requires ComponentFile(env, scriptPath) in env.modules
    requires CssDir(env, ComponentFile(env, scriptPath)) in env.dirs
    requires HeadCssLinks in r.slots && r.slots[HeadCssLinks].Arr?
    ensures var res := ResolveSlot(env, Intended, r, key, Str(scriptPath), dataKey);
      && res.Ok?
      && res.value.slots[key] == Str(Rendered(env.modules[ComponentFile(env, scriptPath)], r, Some(dataKey)))
  {
  }

  /** The project layout as `criticalPaths.js` builds it, with a component reference
      `dir/.../file` made of plain segments. */
  predicate PlainSegments(segs: Segments)
  {
    Clean(segs) && forall i :: 0 <= i < |segs| ==> '\\' !in segs[i]
  }

  lemma PlainAppend(a: Segments, b: Segments)
    requires PlainSegments(a) && PlainSegments(b)
    ensures PlainSegments(a + b)
  {
    CleanAppend(a, b);
    assert forall i :: 0 <= i < |a + b| ==> (a + b)[i] == if i < |a| then a[i] else b[i - |a|];
  }

  lemma PlainText(segs: Segments)
    requires PlainSegments(segs)
    ensures ReplaceBackslashes(JoinWith(segs, "/")) == JoinWith(segs, "/")
  {
    JoinWithExcludes(segs, "/", '\\');
    ReplaceBackslashesIdentity(JoinWith(segs, "/"));
  }

  /** `path.join` of two plain relative paths. */
  lemma JoinPlain(a: Segments, b: Segments)
    requires PlainSegments(a) && PlainSegments(b) && |a| >= 1 && |b| >= 1
    ensures Join([JoinWith(a, "/"), JoinWith(b, "/")]) == JoinWith(a + b, "/")
  {
    var parts := [a, b];
    assert Texts(parts) == [JoinWith(a, "/"), JoinWith(b, "/")] by {
      assert Texts(parts)[1..] == Texts([b]);
    }
    assert ConcatAll(parts) == a + b by {
      assert parts[1..] == [b];
      assert ConcatAll([b]) == b + ConcatAll([]);
    }
    JoinCleanRelative(parts);
  }

  /** `path.join` of three plain relative paths. */
  lemma JoinPlain3(a: Segments, b: Segments, c: Segments)
    requires PlainSegments(a) && PlainSegments(b) && PlainSegments(c)
    requires |a| >= 1 && |b| >= 1 && |c| >= 1
    ensures Join([JoinWith(a, "/"), JoinWith(b, "/"), JoinWith(c, "/")]) == JoinWith(a + b + c, "/")
  {
    var parts := [a, b, c];
    assert Texts(parts) == [JoinWith(a, "/"), JoinWith(b, "/"), JoinWith(c, "/")] by {
      assert parts[1..] == [b, c];
      assert [b, c][1..] == [c];
      assert Texts([b, c]) == [JoinWith(b, "/")] + Texts([c]);
    }
    assert ConcatAll(parts) == a + b + c by {
      assert parts[1..] == [b, c];
      assert [b, c][1..] == [c];
      assert ConcatAll([c]) == c + ConcatAll([]);
    }
    JoinCleanRelative(parts);
  }

  lemma PlainLiterals()
    ensures PlainSegments(["src", "components"]) && PlainSegments(["components"])
    ensures PlainSegments(["css"]) && PlainSegments(["css", "components"])
  {
  }

  /** The module a reference `dir/.../file` below `src/components` loads. */
  lemma ModuleLocation(env: Environment, dir: Segments, file: string)
    requires PlainSegments(env.root) && PlainSegments(dir) && PlainSegments([file])
    ensures ComponentFile(env, JoinWith(dir + [file], "/")) == ComponentsDir(env) + dir + [file]
  {
    var rel := dir + [file];
    PlainAppend(dir, [file]);
    var cd := ComponentsDir(env);
    PlainLiterals();
    PlainAppend(env.root, ["src", "components"]);
    assert cd == env.root + ["src", "components"];
    JoinUnderAbsolute(cd, rel);
    PlainAppend(cd, rel);
    AbsoluteRoundTrip(cd + rel);
    assert cd + rel == ComponentsDir(env) + dir + [file];
  }

  /** The stylesheet directory of a module file `dir/.../file` below `src/components`. */
  lemma StylesheetLocation(env: Environment, dir: Segments, file: string)
    requires PlainSegments(dir)
    ensures CssDir(env, ComponentsDir(env) + dir + [file]) == JoinWith(["css", "components"] + dir, "/")
  {
    var below := ["components"] + dir + [file];
    assert ComponentsDir(env) + dir + [file] == SrcDir(env) + below;
    RelativeBelow(SrcDir(env), below);
    assert below[..|below| - 1] == ["components"] + dir;
    PlainLiterals();
    PlainAppend(["components"], dir);
    JoinPlain(["css"], ["components"] + dir);
    assert ["css"] + (["components"] + dir) == ["css", "components"] + dir;
  }

  /** A ".css" file listed in the plain directory `base` is linked as `base/name`. */
  lemma CssLinkIn(base: Segments, name: string)
    requires PlainSegments(base) && |base| >= 1 && PlainSegments([name]) && Extname(name) == ".css"
    ensures LinkFor(JoinWith(base, "/"), DirEntry(name, true)) == [JoinWith(base + [name], "/")]
  {
    assert [name][0] == name;
    assert JoinWith([name], "/") == name;
    JoinPlain(base, [name]);
    PlainAppend(base, [name]);
    PlainText(base + [name]);
  }

  lemma StylesheetSuffixPlain(name: string)
    requires PlainSegments([name]) && (EndsWith(name, ".scss") || EndsWith(name, ".sass"))
    ensures PlainSegments([ReplaceStylesheetSuffix(name)])
  {
    assert [name][0] == name;
    var stem := name[..|name| - 5];
    var css := stem + ".css";
    assert ReplaceStylesheetSuffix(name) == css;
    assert forall i :: 0 <= i < |stem| ==> stem[i] == name[i];
    assert forall i :: 0 <= i < |css| ==> css[i] == if i < |stem| then stem[i] else ".css"[i - |stem|];
    assert IsCleanSegment(css);
    assert [css][0] == css;
  }

  /** A ".scss" or ".sass" file listed in the plain directory `base` is linked as
      `css/base/name` with the extension replaced by ".css". */
  lemma SassLinkIn(base: Segments, name: string)
    requires PlainSegments(base) && |base| >= 1 && PlainSegments([name])
    requires Extname(name) == ".scss" || Extname(name) == ".sass"
    ensures LinkFor(JoinWith(base, "/"), DirEntry(name, true))
         == [JoinWith(["css"] + base + [ReplaceStylesheetSuffix(name)], "/")]
  {
    assert [name][0] == name;
    var css := ReplaceStylesheetSuffix(name);
    assert EndsWith(name, Extname(name));
    StylesheetSuffixPlain(name);
    assert JoinWith(["css"], "/") == "css" && JoinWith([css], "/") == css;
    PlainLiterals();
    JoinPlain3(["css"], base, [css]);
    PlainAppend(["css"], base);
    PlainAppend(["css"] + base, [css]);
    PlainText(["css"] + base + [css]);
  }

  lemma DoubledCssPrefix(dir: Segments, css: string)
    ensures ["css"] + (["css", "components"] + dir) + [css] == ["css", "css", "components"] + dir + [css]
  {
  }

  /** The links a listing entry of a component's stylesheet directory gives: ".css" files
      are linked as `css/components/dir/.../name`; ".scss" and ".sass" files as
      `css/css/components/dir/.../base.css`, with the doubled "css" the code writes. */
  lemma ComponentCssLinks(env: Environment, dir: Segments, file: string, name: string)
    requires PlainSegments(env.root) && PlainSegments(dir) && PlainSegments([file]) && PlainSegments([name])
    ensures var cssDir := CssDir(env, ComponentFile(env, JoinWith(dir + [file], "/")));
      && (Extname(name) == ".css" ==>
            LinkFor(cssDir, DirEntry(name, true)) == [JoinWith(["css", "components"] + dir + [name], "/")])
      && (Extname(name) == ".scss" || Extname(name) == ".sass" ==>
            LinkFor(cssDir, DirEntry(name, true))
            == [JoinWith(["css", "css", "components"] + dir + [ReplaceStylesheetSuffix(name)], "/")])
  {
    ModuleLocation(env, dir, file);
    StylesheetLocation(env, dir, file);
    var base := ["css", "components"] + dir;
    assert CssDir(env, ComponentFile(env, JoinWith(dir + [file], "/"))) == JoinWith(base, "/");
    PlainLiterals();
    PlainAppend(["css", "components"], dir);
    if Extname(name) == ".css" {
      CssLinkIn(base, name);
    } else if Extname(name) == ".scss" || Extname(name) == ".sass" {
      SassLinkIn(base, name);
      DoubledCssPrefix(dir, ReplaceStylesheetSuffix(name));
    }
  }
}
