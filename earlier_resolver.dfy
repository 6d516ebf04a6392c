/** The earlier resolver (`engineRoom/resolveDynamicContent.js`): it visits every `_content`
    key of the display rules, renders each component reference (a string ending in ".js")
    with its module's `getHtml`, writes the markup back into the slot, and collects the
    ".css" files found beside the component into `headCssLinks`. It differs from the
    current resolver in where it looks for modules and stylesheets, in passing no data key,
    and in having no section lookup. */
module EarlierResolver {
  import opened Strings
  import opened Values
  import opened Paths
  import opened DisplayRules
  import opened Host
  import R = Resolver

  /** `fileURLToPath(pathToFileURL(path.resolve(scriptPath)))`: a component reference is
      resolved against the working directory. */
  function ComponentFile(env: Environment, scriptPath: string): Segments
  {
    Resolve(scriptPath, env.cwd)
  }

  /** `path.dirname(path.relative(path.join(__dirname, '..'), file))`: the component's
      directory relative to the project directory, which is also the argument handed to
      `readdirSync` (so it is read relative to the working directory). */
  function CssDir(env: Environment, file: Segments): string
  {
    Dirname(Relative(env.root, file))
  }

  /** The stylesheet link one directory entry contributes: `css/dir/name` for a ".css"
      file, with backslashes turned into '/'; nothing for anything else. */
  function LinkFor(dir: string, e: DirEntry): seq<string>
  {
    if e.isFile && Extname(e.name) == ".css" then [ReplaceBackslashes(Join(["css", dir, e.name]))]
    else []
  }

  /** An entry contributes at most one link, exactly when it is a ".css" file, and the link
      has no backslash. */
  lemma LinkForShape(dir: string, e: DirEntry)
    ensures var links := LinkFor(dir, e);
      && |links| <= 1
      && (links != [] <==> e.isFile && Extname(e.name) == ".css")
      && forall i :: 0 <= i < |links| ==> '\\' !in links[i]
  {
    ReplaceBackslashesAt(Join(["css", dir, e.name]));
  }

  /** The links of a listing, in listing order. */
  function Links(dir: string, es: seq<DirEntry>): seq<string>
  {
    if es == [] then [] else Links(dir, es[..|es| - 1]) + LinkFor(dir, es[|es| - 1])
  }

  lemma {:induction false} LinksAppend(dir: string, a: seq<DirEntry>, b: seq<DirEntry>)
    ensures Links(dir, a + b) == Links(dir, a) + Links(dir, b)
    decreases |b|
  {
    if b == [] {
      assert a + b == a;
    } else {
      var b', last := b[..|b| - 1], b[|b| - 1];
      assert (a + b)[..|a + b| - 1] == a + b';
      assert (a + b)[|a + b| - 1] == last;
      assert Links(dir, a + b) == Links(dir, a + b') + LinkFor(dir, last);
      LinksAppend(dir, a, b');
    }
  }

  lemma LinksStep(dir: string, es: seq<DirEntry>, n: nat)
    requires n < |es|
    ensures Links(dir, es[..n + 1]) == Links(dir, es[..n]) + LinkFor(dir, es[n])
  {
    assert es[..n + 1][..n] == es[..n];
  }

  lemma LinksSplit(dir: string, es: seq<DirEntry>, n: nat)
    requires n <= |es|
    ensures Links(dir, es) == Links(dir, es[..n]) + Links(dir, es[n..])
  {
    var a, b := es[..n], es[n..];
    assert a + b == es;
    LinksAppend(dir, a, b);
  }

  /** `processComponent(scriptPath, viewModel, key, index)` on display rules `r`: load the
      module, write its markup (or the fallback) into the slot or into position `index` of
      it, then append the links of the component directory's listing. `getHtml` receives
      the view model alone. */
  function ProcessSpec(env: Environment, r: Rules, scriptPath: string, key: string, index: Index): (res: Result<Rules>)
    requires r.Valid() && key in r.slots && key != HeadCssLinks && !index.Named?
    requires index.Element? ==> r.slots[key].Arr? && index.i < |r.slots[key].items|
    ensures ComponentFile(env, scriptPath) !in env.modules ==>
      res == Err(ModuleNotFound(Absolute(ComponentFile(env, scriptPath))))
    ensures res.Ok? ==>
      && ComponentFile(env, scriptPath) in env.modules
      && CssDir(env, ComponentFile(env, scriptPath)) in env.dirs
    ensures res.Ok? ==> res.value.Valid() && res.value.keys == r.keys
    ensures res.Ok? ==> forall k :: k in r.slots && k != key && k != HeadCssLinks ==>
      res.value.slots[k] == r.slots[k]
    ensures res.Ok? ==> KeepsCssPrefix(r, res.value)
    ensures res.Ok? && index.WholeSlot? ==>
      res.value.slots[key] == Str(R.Rendered(env.modules[ComponentFile(env, scriptPath)], r, None))
    ensures res.Ok? && index.Element? ==>
      && res.value.slots[key].Arr?
      && |res.value.slots[key].items| == |r.slots[key].items|
      && res.value.slots[key].items[index.i]
         == Str(R.Rendered(env.modules[ComponentFile(env, scriptPath)], r, None))
      && forall j :: 0 <= j < |r.slots[key].items| && j != index.i ==>
           res.value.slots[key].items[j] == r.slots[key].items[j]
    ensures res.Ok? && HeadCssLinks in r.slots && r.slots[HeadCssLinks].Arr? ==>
      var dir := CssDir(env, ComponentFile(env, scriptPath));
      res.value.slots[HeadCssLinks] == Arr(r.slots[HeadCssLinks].items + Strs(Links(dir, env.dirs[dir])))
  {
    var file := ComponentFile(env, scriptPath);
    if file !in env.modules then Err(ModuleNotFound(Absolute(file)))
    else
      var html := R.Rendered(env.modules[file], r, None);
      match WriteSlot(r, key, index, html)
      case Err(e) => Err(e)
      case Ok(w) =>
        var dir := CssDir(env, file);
        if dir !in env.dirs then Err(NoSuchDirectory(dir))
        else
          var res := AppendLinks(w, Links(dir, env.dirs[dir]));
          assert res.Ok? ==> KeepsCssPrefix(r, res.value) by {
            if res.Ok? && HeadCssLinks in r.slots && r.slots[HeadCssLinks].Arr? {
              assert r.slots[HeadCssLinks].items <= res.value.slots[HeadCssLinks].items;
            }
          }
          res
  }

  // ----- The walk over the display rules -----

  /** What a resolved element or scalar holds: a component reference has been replaced by
      the markup its module renders from the view model alone, with no data key (the
      fallback marker when the module has no `getHtml`); anything else is kept. */
  ghost predicate ResolvedElement(env: Environment, before: Value, after: Value)
  {
    if IsComponentRef(before) then
      var file := ComponentFile(env, before.s);
      && file in env.modules
      && after.Str?
      && R.Markup(env.modules[file], None, after.s)
      && (env.modules[file].getHtml.None? ==> after == Str(R.Fallback))
    else after == before
  }

  /** What a resolved `_content` slot holds: an array keeps its length and each element is
      resolved in its own position; a scalar is resolved as a whole. */
  ghost predicate ResolvedSlot(env: Environment, before: Value, after: Value)
  {
    if before.Arr? then
      && after.Arr?
      && |after.items| == |before.items|
      && forall i :: 0 <= i < |before.items| ==> ResolvedElement(env, before.items[i], after.items[i])
    else ResolvedElement(env, before, after)
  }

  /** The inner loop over an array slot, from position `i` on. */
  function ArraySlot(env: Environment, r: Rules, key: string, i: nat): Result<Rules>
    requires r.Valid() && key in r.slots && key != HeadCssLinks
    requires r.slots[key].Arr? && i <= |r.slots[key].items|
    decreases |r.slots[key].items| - i, 1
  {
    var items := r.slots[key].items;
    if i == |items| then Ok(r)
    else if IsComponentRef(items[i]) then ArrayElement(env, r, key, i)
    else ArraySlot(env, r, key, i + 1)
  }

  /** The component reference at position `i` of the array, then the rest of the loop. */
  function ArrayElement(env: Environment, r: Rules, key: string, i: nat): Result<Rules>
    requires r.Valid() && key in r.slots && key != HeadCssLinks
    requires r.slots[key].Arr? && i < |r.slots[key].items| && IsComponentRef(r.slots[key].items[i])
    decreases |r.slots[key].items| - i, 0
  {
    match ProcessSpec(env, r, r.slots[key].items[i].s, key, Element(i))
    case Err(e) => Err(e)
    case Ok(r') => ArraySlot(env, r', key, i + 1)
  }

  /** The inner loop writes only the slot it walks and the end of `headCssLinks`. */
  lemma {:induction false} ArraySlotFrame(env: Environment, r: Rules, key: string, i: nat)
    requires r.Valid() && key in r.slots && key != HeadCssLinks
    requires r.slots[key].Arr? && i <= |r.slots[key].items|
    ensures var res := ArraySlot(env, r, key, i);
      res.Ok? ==>
        && res.value.Valid() && res.value.keys == r.keys
        && (forall k :: k in r.slots && k != key && k != HeadCssLinks ==> res.value.slots[k] == r.slots[k])
        && KeepsCssPrefix(r, res.value)
    decreases |r.slots[key].items| - i
  {
    var items := r.slots[key].items;
    if i < |items| {
      if IsComponentRef(items[i]) {
        var p := ProcessSpec(env, r, items[i].s, key, Element(i));
        assert ArraySlot(env, r, key, i) == ArrayElement(env, r, key, i);
        if p.Ok? {
          var res := ArraySlot(env, p.value, key, i + 1);
          assert ArrayElement(env, r, key, i) == res;
          ArraySlotFrame(env, p.value, key, i + 1);
          if res.Ok? { KeepsCssPrefixTransitive(r, p.value, res.value); }
        }
      } else {
        assert ArraySlot(env, r, key, i) == ArraySlot(env, r, key, i + 1);
        ArraySlotFrame(env, r, key, i + 1);
      }
    }
  }

  /** The inner loop keeps the array's length and the elements before `i`, and resolves
      every element from `i` on. */
  lemma {:induction false} ArraySlotElements(env: Environment, r: Rules, key: string, i: nat)
    requires r.Valid() && key in r.slots && key != HeadCssLinks
    requires r.slots[key].Arr? && i <= |r.slots[key].items|
    ensures var res := ArraySlot(env, r, key, i);
      res.Ok? ==>
        && key in res.value.slots && res.value.slots[key].Arr?
        && |res.value.slots[key].items| == |r.slots[key].items|
        && (forall j :: 0 <= j < i ==> res.value.slots[key].items[j] == r.slots[key].items[j])
        && (forall j :: i <= j < |r.slots[key].items| ==>
              ResolvedElement(env, r.slots[key].items[j], res.value.slots[key].items[j]))
    decreases |r.slots[key].items| - i
  {
    var items := r.slots[key].items;
    if i < |items| {
      if IsComponentRef(items[i]) {
        var p := ProcessSpec(env, r, items[i].s, key, Element(i));
        assert ArraySlot(env, r, key, i) == ArrayElement(env, r, key, i);
        if p.Ok? {
          var items' := p.value.slots[key].items;
          var res := ArraySlot(env, p.value, key, i + 1);
          assert ArrayElement(env, r, key, i) == res;
          ArraySlotElements(env, p.value, key, i + 1);
          if res.Ok? {
            var final := res.value.slots[key].items;
            assert final[i] == items'[i];
            assert ResolvedElement(env, items[i], final[i]);
            forall j | 0 <= j < i ensures final[j] == items[j] {
              assert final[j] == items'[j];
            }
            forall j | i < j < |items| ensures ResolvedElement(env, items[j], final[j]) {
              assert items'[j] == items[j];
            }
          }
        }
      } else {
        assert ArraySlot(env, r, key, i) == ArraySlot(env, r, key, i + 1);
        ArraySlotElements(env, r, key, i + 1);
      }
    }
  }

  /** One `_content` slot, whose value is `value`. */
  function ResolveSlot(env: Environment, r: Rules, key: string, value: Value): Result<Rules>
    requires r.Valid() && key in r.slots && key != HeadCssLinks && r.slots[key] == value
  {
    if value.Arr? then ArraySlot(env, r, key, 0)
    else if IsComponentRef(value) then ProcessSpec(env, r, value.s, key, WholeSlot)
    else Ok(r)
  }

  /** Resolving a slot writes only that slot and the end of `headCssLinks`, and leaves the
      slot resolved. */
  lemma ResolveSlotDone(env: Environment, r: Rules, key: string, value: Value)
    requires r.Valid() && key in r.slots && key != HeadCssLinks && r.slots[key] == value
    ensures var res := ResolveSlot(env, r, key, value);
      res.Ok? ==>
        && res.value.Valid() && res.value.keys == r.keys
        && (forall k :: k in r.slots && k != key && k != HeadCssLinks ==> res.value.slots[k] == r.slots[k])
        && KeepsCssPrefix(r, res.value)
        && ResolvedSlot(env, value, res.value.slots[key])
  {
    if value.Arr? {
      ArraySlotFrame(env, r, key, 0);
      ArraySlotElements(env, r, key, 0);
    }
  }

  /** The outer loop over the entries `es` taken from the display rules before the walk,
      from entry `k` on; entries whose key does not end in "_content" are skipped. */
  function Walk(env: Environment, r: Rules, es: seq<(string, Value)>, k: nat): Result<Rules>
    requires r.Valid() && k <= |es| && R.DistinctKeys(es) && R.Ready(r, es, k)
    decreases |es| - k, 1
  {
    if k == |es| then Ok(r)
    else if !IsContentKey(es[k].0) then Walk(env, r, es, k + 1)
    else Visit(env, r, es, k)
  }

  /** The `_content` entry `k`: its slot is resolved, and the walk goes on with the next
      entry. */
  function Visit(env: Environment, r: Rules, es: seq<(string, Value)>, k: nat): Result<Rules>
    requires r.Valid() && k < |es| && R.DistinctKeys(es) && R.Ready(r, es, k) && IsContentKey(es[k].0)
    decreases |es| - k, 0
  {
    var (key, value) := es[k];
    HeadCssLinksIsNotContent();
    ResolveSlotDone(env, r, key, value);
    match ResolveSlot(env, r, key, value)
    case Err(e) => Err(e)
    case Ok(r') =>
      R.StillReady(r, r', es, k);
      Walk(env, r', es, k + 1)
  }

  /** The walk passes over an entry that is not a `_content` entry. */
  lemma WalkSkip(env: Environment, r: Rules, es: seq<(string, Value)>, k: nat)
    requires r.Valid() && k < |es| && R.DistinctKeys(es) && R.Ready(r, es, k) && !IsContentKey(es[k].0)
    ensures Walk(env, r, es, k) == Walk(env, r, es, k + 1)
  {
  }

  /** What the walk does at a `_content` entry, as the loop of `resolveDynamicContent` goes
      through it. */
  lemma WalkVisit(env: Environment, r: Rules, es: seq<(string, Value)>, k: nat)
    requires r.Valid() && k < |es| && R.DistinctKeys(es) && R.Ready(r, es, k) && IsContentKey(es[k].0)
    requires es[k].0 != HeadCssLinks && es[k].0 in r.slots && r.slots[es[k].0] == es[k].1
    ensures var s := ResolveSlot(env, r, es[k].0, es[k].1);
      && (s.Err? ==> Walk(env, r, es, k) == Err(s.error))
      && (s.Ok? ==> s.value.Valid() && R.Ready(s.value, es, k + 1) && Walk(env, r, es, k) == Walk(env, s.value, es, k + 1))
  {
    assert Walk(env, r, es, k) == Visit(env, r, es, k);
    ResolveSlotDone(env, r, es[k].0, es[k].1);
    var s := ResolveSlot(env, r, es[k].0, es[k].1);
    if s.Ok? {
      R.StillReady(r, s.value, es, k);
    }
  }

  /** `r'` is `r` with the `_content` entry `k` resolved. */
  ghost predicate Stepped(env: Environment, r: Rules, es: seq<(string, Value)>, k: nat, r': Rules)
    requires k < |es|
  {
    var (key, value) := es[k];
    R.Framed(r, es, k, r') && key in r'.slots && ResolvedSlot(env, value, r'.slots[key])
  }

  /** A walk that reaches a `_content` entry and succeeds has resolved that entry and
      continued from the next one. */
  lemma WalkStep(env: Environment, r: Rules, es: seq<(string, Value)>, k: nat)
    requires r.Valid() && k < |es| && R.DistinctKeys(es) && R.Ready(r, es, k) && IsContentKey(es[k].0)
    ensures Walk(env, r, es, k).Ok? ==>
      exists r' :: Stepped(env, r, es, k, r') && Walk(env, r, es, k) == Walk(env, r', es, k + 1)
  {
    var (key, value) := es[k];
    assert Walk(env, r, es, k) == Visit(env, r, es, k);
    HeadCssLinksIsNotContent();
    ResolveSlotDone(env, r, key, value);
    var s := ResolveSlot(env, r, key, value);
    if s.Ok? {
      R.StillReady(r, s.value, es, k);
      assert Stepped(env, r, es, k, s.value);
    }
  }

  /** The part of `WalkStep` about what the step leaves in place. */
  lemma WalkStepFramed(env: Environment, r: Rules, es: seq<(string, Value)>, k: nat)
    requires r.Valid() && k < |es| && R.DistinctKeys(es) && R.Ready(r, es, k) && IsContentKey(es[k].0)
    ensures Walk(env, r, es, k).Ok? ==>
      exists r' :: R.Framed(r, es, k, r') && Walk(env, r, es, k) == Walk(env, r', es, k + 1)
  {
    WalkStep(env, r, es, k);
    if Walk(env, r, es, k).Ok? {
      var r' :| Stepped(env, r, es, k, r') && Walk(env, r, es, k) == Walk(env, r', es, k + 1);
      assert R.Framed(r, es, k, r');
    }
  }

  /** The walk writes only the `_content` slots it visits and the end of `headCssLinks`. */
  lemma {:induction false} WalkFrame(env: Environment, r: Rules, es: seq<(string, Value)>, k: nat)
    requires r.Valid() && k <= |es| && R.DistinctKeys(es) && R.Ready(r, es, k)
    ensures Walk(env, r, es, k).Ok? ==> R.Untouched(r, es, k, Walk(env, r, es, k).value)
    decreases |es| - k
  {
    if k < |es| {
      var res := Walk(env, r, es, k);
      if !IsContentKey(es[k].0) {
        WalkSkip(env, r, es, k);
        WalkFrame(env, r, es, k + 1);
      } else {
        WalkStepFramed(env, r, es, k);
        if res.Ok? {
          var r' :| R.Framed(r, es, k, r') && res == Walk(env, r', es, k + 1);
          WalkFrame(env, r', es, k + 1);
          R.UntouchedStep(r, r', res.value, es, k);
        }
      }
    }
  }

  /** Every `_content` entry from `k` on ends up resolved. */
  lemma {:induction false} WalkResolves(env: Environment, r: Rules, es: seq<(string, Value)>, k: nat)
    requires r.Valid() && k <= |es| && R.DistinctKeys(es) && R.Ready(r, es, k)
    ensures var res := Walk(env, r, es, k);
      res.Ok? ==> forall j :: k <= j < |es| && IsContentKey(es[j].0) ==>
        es[j].0 in res.value.slots && ResolvedSlot(env, es[j].1, res.value.slots[es[j].0])
    decreases |es| - k
  {
    if k < |es| {
      var key := es[k].0;
      var res := Walk(env, r, es, k);
      if !IsContentKey(key) {
        WalkSkip(env, r, es, k);
        WalkResolves(env, r, es, k + 1);
      } else {
        WalkStep(env, r, es, k);
        if res.Ok? {
          var r' :| Stepped(env, r, es, k, r') && res == Walk(env, r', es, k + 1);
          WalkResolves(env, r', es, k + 1);
          WalkFrame(env, r', es, k + 1);
          HeadCssLinksIsNotContent();
          assert R.Unvisited(es, k + 1, key);
          assert res.value.slots[key] == r'.slots[key];
        }
      }
    }
  }

  /** `resolveDynamicContent(viewModel)` on display rules `r`. */
  function ResolveSpec(env: Environment, r: Rules): Result<Rules>
    requires r.Valid()
  {
    Walk(env, r, r.Entries(), 0)
  }

  /** The resolver keeps the keys and their order, and writes only the `_content` slots and
      the end of `headCssLinks`. */
  lemma ResolveSpecFrame(env: Environment, r: Rules)
    requires r.Valid()
    ensures var res := ResolveSpec(env, r);
      res.Ok? ==>
        && res.value.Valid() && res.value.keys == r.keys
        && (forall key :: key in r.slots && !IsContentKey(key) && key != HeadCssLinks ==>
              res.value.slots[key] == r.slots[key])
        && KeepsCssPrefix(r, res.value)
  {
    var es := r.Entries();
    WalkFrame(env, r, es, 0);
    var res := Walk(env, r, es, 0);
    if res.Ok? {
      forall key | key in r.slots && !IsContentKey(key) && key != HeadCssLinks
        ensures res.value.slots[key] == r.slots[key]
      {
        assert R.Unvisited(es, 0, key);
      }
    }
  }

  /** Every `_content` slot ends up resolved. */
  lemma ResolveSpecResolves(env: Environment, r: Rules)
    requires r.Valid()
    ensures var res := ResolveSpec(env, r);
      res.Ok? ==> forall key :: key in r.slots && IsContentKey(key) ==>
        key in res.value.slots && ResolvedSlot(env, r.slots[key], res.value.slots[key])
  {
    var es := r.Entries();
    WalkResolves(env, r, es, 0);
    var res := Walk(env, r, es, 0);
    if res.Ok? {
      forall key | key in r.slots && IsContentKey(key)
        ensures key in res.value.slots && ResolvedSlot(env, r.slots[key], res.value.slots[key])
      {
        var j :| 0 <= j < |r.keys| && r.keys[j] == key;
        assert es[j] == (key, r.slots[key]);
      }
    }
  }

  // ----- The resolver as it runs: in place, on the view model -----

  /** The loop over the listing: `headCssLinks` receives the links of the listing in
      order, or the first push fails. */
  method CollectCssLinks(vm: ViewModel, relativePath: string, dirContent: seq<DirEntry>) returns (err: Option<Error>)
    requires vm.displayRules.Valid()
    modifies vm
    ensures AppendLinks(old(vm.displayRules), Links(relativePath, dirContent))
         == if err.None? then Ok(vm.displayRules) else Err(err.value)
  {
    ghost var written := vm.displayRules;
    for n := 0 to |dirContent|
      invariant vm.displayRules.Valid()
      invariant AppendLinks(written, Links(relativePath, dirContent[..n])) == Ok(vm.displayRules)
    {
      var item := dirContent[n];
      LinksStep(relativePath, dirContent, n);
      if item.isFile && Extname(item.name) == ".css" {
        var cssPath := ReplaceBackslashes(Join(["css", relativePath, item.name]));
        assert LinkFor(relativePath, item) == [cssPath];
        AppendLinksConcat(written, Links(relativePath, dirContent[..n]), [cssPath]);
        err := PushCssLink(vm, cssPath);
        if err.Some? {
          LinksSplit(relativePath, dirContent, n + 1);
          AppendLinksFailed(written, Links(relativePath, dirContent[..n + 1]), Links(relativePath, dirContent[n + 1..]));
          return;
        }
      } else {
        assert Links(relativePath, dirContent[..n]) + [] == Links(relativePath, dirContent[..n]);
      }
    }
    assert dirContent[..|dirContent|] == dirContent;
    err := None;
  }

  /** `processComponent`: the view model's display rules become those `ProcessSpec` gives, or
      the call fails with its error. */
  method ProcessComponent(vm: ViewModel, env: Environment, scriptPath: string, key: string, index: Index)
    returns (err: Option<Error>)
    requires vm.displayRules.Valid() && key in vm.displayRules.slots && key != HeadCssLinks && !index.Named?
    requires index.Element? ==> vm.displayRules.slots[key].Arr? && index.i < |vm.displayRules.slots[key].items|
    modifies vm
    ensures ProcessSpec(env, old(vm.displayRules), scriptPath, key, index)
         == if err.None? then Ok(vm.displayRules) else Err(err.value)
  {
    ghost var r := vm.displayRules;
    var file := ComponentFile(env, scriptPath);
    if file !in env.modules {
      return Some(ModuleNotFound(Absolute(file)));
    }
    var component := env.modules[file];
    var html: string;
    if component.getHtml.Some? {
      html := component.getHtml.value(vm.displayRules, None);
    } else {
      html := R.Fallback;
    }
    assert html == R.Rendered(component, r, None);
    if index.Element? {
      vm.displayRules := vm.displayRules.Set(key, Arr(vm.displayRules.slots[key].items[index.i := Str(html)]));
    } else {
      vm.displayRules := vm.displayRules.Set(key, Str(html));
    }
    assert WriteSlot(r, key, index, html) == Ok(vm.displayRules);
    var relativePath := Dirname(Relative(env.root, file));
    if relativePath !in env.dirs {
      return Some(NoSuchDirectory(relativePath));
    }
    err := CollectCssLinks(vm, relativePath, env.dirs[relativePath]);
  }

  /** The inner loop over an array slot. */
  method ResolveArraySlot(vm: ViewModel, env: Environment, key: string) returns (err: Option<Error>)
    requires vm.displayRules.Valid() && key in vm.displayRules.slots && key != HeadCssLinks
    requires vm.displayRules.slots[key].Arr?
    modifies vm
    ensures ArraySlot(env, old(vm.displayRules), key, 0)
         == if err.None? then Ok(vm.displayRules) else Err(err.value)
  {
    ghost var before := vm.displayRules;
    var length := |vm.displayRules.slots[key].items|;
    for i := 0 to length
      invariant vm.displayRules.Valid() && key in vm.displayRules.slots
      invariant vm.displayRules.slots[key].Arr? && |vm.displayRules.slots[key].items| == length
      invariant ArraySlot(env, before, key, 0) == ArraySlot(env, vm.displayRules, key, i)
    {
      var element := vm.displayRules.slots[key].items[i];
      if IsComponentRef(element) {
        assert ArraySlot(env, vm.displayRules, key, i) == ArrayElement(env, vm.displayRules, key, i);
        err := ProcessComponent(vm, env, element.s, key, Element(i));
        if err.Some? {
          return;
        }
      }
    }
    err := None;
  }

  /** `resolveDynamicContent(viewModel)`: the view model's display rules become those
      `ResolveSpec` gives, or the call fails with its error. */
  method ResolveDynamicContent(vm: ViewModel, env: Environment) returns (err: Option<Error>)
    requires vm.displayRules.Valid()
    modifies vm
    ensures ResolveSpec(env, old(vm.displayRules)) == if err.None? then Ok(vm.displayRules) else Err(err.value)
  {
    ghost var r0 := vm.displayRules;
    var entries := vm.displayRules.Entries();
    HeadCssLinksIsNotContent();
    for k := 0 to |entries|
      invariant vm.displayRules.Valid()
      invariant R.Ready(vm.displayRules, entries, k)
      invariant Walk(env, r0, entries, 0) == Walk(env, vm.displayRules, entries, k)
    {
      var (key, value) := entries[k];
      if !EndsWith(key, ContentSuffix) {
        continue;
      }
      WalkVisit(env, vm.displayRules, entries, k);
      if value.Arr? {
        err := ResolveArraySlot(vm, env, key);
      } else if IsComponentRef(value) {
        err := ProcessComponent(vm, env, value.s, key, WholeSlot);
      } else {
        err := None;
      }
      if err.Some? {
        return;
      }
    }
    err := None;
  }

  // ----- Properties of the model -----

  lemma {:induction false} ArraySlotWithoutComponents(env: Environment, r: Rules, key: string, i: nat)
    requires r.Valid() && key in r.slots && key != HeadCssLinks
    requires r.slots[key].Arr? && i <= |r.slots[key].items|
    requires forall j :: i <= j < |r.slots[key].items| ==> !IsComponentRef(r.slots[key].items[j])
    ensures ArraySlot(env, r, key, i) == Ok(r)
    decreases |r.slots[key].items| - i
  {
    if i < |r.slots[key].items| {
      ArraySlotWithoutComponents(env, r, key, i + 1);
    }
  }

  lemma SlotWithoutComponents(env: Environment, r: Rules, key: string, value: Value)
    requires r.Valid() && key in r.slots && key != HeadCssLinks && r.slots[key] == value
    requires R.NoComponentRefs(value)
    ensures ResolveSlot(env, r, key, value) == Ok(r)
  {
    if value.Arr? {
      ArraySlotWithoutComponents(env, r, key, 0);
    }
  }

  lemma {:induction false} WalkWithoutComponents(env: Environment, r: Rules, es: seq<(string, Value)>, k: nat)
    requires r.Valid() && k <= |es| && R.DistinctKeys(es) && R.Ready(r, es, k)
    requires forall j :: k <= j < |es| && IsContentKey(es[j].0) ==> R.NoComponentRefs(es[j].1)
    ensures Walk(env, r, es, k) == Ok(r)
    decreases |es| - k
  {
    if k < |es| {
      var (key, value) := es[k];
      if IsContentKey(key) {
        HeadCssLinksIsNotContent();
        WalkVisit(env, r, es, k);
        SlotWithoutComponents(env, r, key, value);
      } else {
        WalkSkip(env, r, es, k);
      }
      WalkWithoutComponents(env, r, es, k + 1);
    }
  }

  /** Display rules whose `_content` slots hold no component reference come out of the
      resolver unchanged. */
  lemma NothingToResolve(env: Environment, r: Rules)
    requires r.Valid()
    requires forall key :: key in r.slots && IsContentKey(key) ==> R.NoComponentRefs(r.slots[key])
    ensures ResolveSpec(env, r) == Ok(r)
  {
    WalkWithoutComponents(env, r, r.Entries(), 0);
  }

  /** A reference `dir/.../file` is looked up below the working directory. */
  lemma ModuleLocation(env: Environment, rel: Segments)
    requires R.PlainSegments(env.cwd) && |env.cwd| >= 1 && R.PlainSegments(rel) && |rel| >= 1
    ensures ComponentFile(env, JoinWith(rel, "/")) == env.cwd + rel
  {
    var p := JoinWith(rel, "/");
    JoinCleanNonEmpty(rel);
    AbsoluteAppend(env.cwd, rel);
    CleanAppend(env.cwd, rel);
    AbsoluteRoundTrip(env.cwd + rel);
  }

  /** The stylesheet directory of a module file `dir/.../file` below the project directory
      is `dir/...`, relative to the project directory. */
  lemma StylesheetLocation(env: Environment, dir: Segments, file: string)
    requires |dir| >= 1
    ensures CssDir(env, env.root + dir + [file]) == JoinWith(dir, "/")
  {
    var below := dir + [file];
    assert env.root + dir + [file] == env.root + below;
    RelativeBelow(env.root, below);
    assert below[..|below| - 1] == dir;
  }

  /** A ".css" file listed in the plain directory `base` is linked as `css/base/name`. */
  lemma CssLinkIn(base: Segments, name: string)
    requires R.PlainSegments(base) && |base| >= 1 && R.PlainSegments([name]) && Extname(name) == ".css"
    ensures LinkFor(JoinWith(base, "/"), DirEntry(name, true)) == [JoinWith(["css"] + base + [name], "/")]
  {
    assert [name][0] == name;
    assert JoinWith(["css"], "/") == "css" && JoinWith([name], "/") == name;
    R.PlainLiterals();
    R.JoinPlain3(["css"], base, [name]);
    R.PlainAppend(["css"], base);
    R.PlainAppend(["css"] + base, [name]);
    R.PlainText(["css"] + base + [name]);
  }

  /** Unlike the current resolver, the earlier one ignores ".scss" and ".sass" files. */
  lemma SassIgnored(dir: string, name: string)
    requires Extname(name) == ".scss" || Extname(name) == ".sass"
    ensures LinkFor(dir, DirEntry(name, true)) == []
    ensures R.LinkFor(dir, DirEntry(name, true)) != []
  {
  }
}
