/** The request path of the server for a matched route: the base view model, the check of
    a route model against it, the merge of the two, the resolver, and the assembly of the
    display rules that the layout template receives. */
module Server {
  import opened Strings
  import opened Values
  import opened DisplayRules
  import opened Host
  import R = Resolver

  const DataSuffix := "_ejsData"

  // ----- createBaseViewModel -----

  /** The keys of the base display rules, in the order the literal lists them. */
  const BaseKeys: seq<string> := [
    "c1", "c2", "c3",
    "c11_content", "c13_content", "c21_content", "c23_content",
    "c31_content", "c32_content", "c33_content",
    "c11_ejsData", "c13_ejsData", "c21_ejsData", "c23_ejsData",
    "c31_ejsData", "c32_ejsData", "c33_ejsData",
    "headCssLinks"]

  /** The value the literal gives the base key at position `j`. */
  function BaseValueAt(j: nat): Value
  {
    if j < 3 then Arr([Bool(false), Bool(false)])
    else if j < 10 then Null
    else if j < 17 then Obj([])
    else Arr([])
  }

  lemma BaseKeysDistinct()
    ensures forall i, j :: 0 <= i < j < |BaseKeys| ==> BaseKeys[i] != BaseKeys[j]
  {
  }

  /** The display rules of a fresh base view model. */
  function BaseRules(): (r: Rules)
    ensures r.Valid() && r.keys == BaseKeys
  {
    BaseKeysDistinct();
    Rules(BaseKeys, map j | 0 <= j < |BaseKeys| :: BaseKeys[j] := BaseValueAt(j))
  }

  /** `createBaseViewModel()`: a new object on every call. */
  method CreateBaseViewModel() returns (vm: ViewModel)
    ensures fresh(vm) && vm.displayRules == BaseRules()
  {
    vm := new ViewModel(BaseRules());
  }

  /** The sections the base model names, each with its `_content` and `_ejsData` key. */
  const BaseSections: seq<string> := ["11", "13", "21", "23", "31", "32", "33"]

  /** The three partial flags come first and are `[false, false]`, then the seven
      `_content` slots, all null, then the seven `_ejsData` slots, all empty objects, and
      last `headCssLinks`, an empty array. */
  lemma BaseValues()
    ensures forall j :: 0 <= j < 3 ==> BaseRules().slots[BaseKeys[j]] == Arr([Bool(false), Bool(false)])
    ensures forall j :: 3 <= j < 10 ==> BaseRules().slots[BaseKeys[j]] == Null
    ensures forall j :: 10 <= j < 17 ==> BaseRules().slots[BaseKeys[j]] == Obj([])
    ensures BaseKeys[17] == HeadCssLinks && BaseRules().slots[HeadCssLinks] == Arr([])
  {
  }

  // ----- The merge `{ ...base, ...route }` -----

  /** The keys of `keys` that `present` does not hold, in order. */
  function Fresh(keys: seq<string>, present: seq<string>): seq<string>
  {
    if keys == [] then []
    else (if keys[0] in present then [] else [keys[0]]) + Fresh(keys[1..], present)
  }

  lemma {:induction false} FreshGrow(keys: seq<string>, present: seq<string>, key: string)
    requires key !in keys
    ensures Fresh(keys, present + [key]) == Fresh(keys, present)
  {
    if keys != [] {
      FreshGrow(keys[1..], present, key);
    }
  }

  /** Spreading the properties `keys` of `route`, in order, onto `acc`. */
  function SpreadFrom(acc: Rules, route: Rules, keys: seq<string>): (m: Rules)
    requires acc.Valid() && route.Valid()
    requires forall i :: 0 <= i < |keys| ==> keys[i] in route.slots
    ensures m.Valid()
    decreases |keys|
  {
    if keys == [] then acc
    else SpreadFrom(acc.Set(keys[0], route.slots[keys[0]]), route, keys[1..])
  }

  /** `{ ...base, ...route }` */
  function Merge(base: Rules, route: Rules): (m: Rules)
    requires base.Valid() && route.Valid()
    ensures m.Valid()
  {
    SpreadFrom(base, route, route.keys)
  }

  lemma {:induction false} SpreadFromSlots(acc: Rules, route: Rules, keys: seq<string>)
    requires acc.Valid() && route.Valid()
    requires forall i :: 0 <= i < |keys| ==> keys[i] in route.slots
    ensures var m := SpreadFrom(acc, route, keys);
      && (forall key :: key in keys ==> key in m.slots && m.slots[key] == route.slots[key])
      && (forall key :: key in acc.slots && key !in keys ==> key in m.slots && m.slots[key] == acc.slots[key])
      && (forall key :: key in m.slots <==> key in acc.slots || key in keys)
    decreases |keys|
  {
    if keys != [] {
      var acc' := acc.Set(keys[0], route.slots[keys[0]]);
      SpreadFromSlots(acc', route, keys[1..]);
      var m := SpreadFrom(acc, route, keys);
      assert m == SpreadFrom(acc', route, keys[1..]);
      forall key | key in keys ensures key in m.slots && m.slots[key] == route.slots[key] {
        if key !in keys[1..] {
          assert key == keys[0];
        }
      }
    }
  }

  /** The key order after spreading `keys` onto an object whose keys are `present`. */
  function SpreadKeys(present: seq<string>, keys: seq<string>): seq<string>
    decreases |keys|
  {
    if keys == [] then present
    else SpreadKeys(if keys[0] in present then present else present + [keys[0]], keys[1..])
  }

  lemma {:induction false} SpreadKeysFresh(present: seq<string>, keys: seq<string>)
    requires forall i, j :: 0 <= i < j < |keys| ==> keys[i] != keys[j]
    ensures SpreadKeys(present, keys) == present + Fresh(keys, present)
    decreases |keys|
  {
    if keys != [] {
      var key, rest := keys[0], keys[1..];
      assert forall i, j :: 0 <= i < j < |rest| ==> rest[i] != rest[j] by {
        forall i, j | 0 <= i < j < |rest| ensures rest[i] != rest[j] {
          assert rest[i] == keys[i + 1] && rest[j] == keys[j + 1];
        }
      }
      if key in present {
        SpreadKeysFresh(present, rest);
      } else {
        SpreadKeysFresh(present + [key], rest);
        assert key !in rest by {
          forall j | 0 <= j < |rest| ensures rest[j] != key {
            assert rest[j] == keys[j + 1];
          }
        }
        FreshGrow(rest, present, key);
        assert present + [key] + Fresh(rest, present) == present + ([key] + Fresh(rest, present));
      }
    }
  }

  lemma {:induction false} SpreadFromKeys(acc: Rules, route: Rules, keys: seq<string>)
    requires acc.Valid() && route.Valid()
    requires forall i :: 0 <= i < |keys| ==> keys[i] in route.slots
    ensures SpreadFrom(acc, route, keys).keys == SpreadKeys(acc.keys, keys)
    decreases |keys|
  {
    if keys != [] {
      var acc' := acc.Set(keys[0], route.slots[keys[0]]);
      SpreadFromKeys(acc', route, keys[1..]);
      assert acc'.keys == if keys[0] in acc.keys then acc.keys else acc.keys + [keys[0]];
    }
  }

  /** The merge gives every route key the route's value and every other base key its base
      value; it has exactly the keys of both, the base keys first in their order and then
      the route's new keys in theirs. */
  lemma MergeSpread(base: Rules, route: Rules)
    requires base.Valid() && route.Valid()
    ensures var m := Merge(base, route);
      && (forall key :: key in route.slots ==> key in m.slots && m.slots[key] == route.slots[key])
      && (forall key :: key in base.slots && key !in route.slots ==> key in m.slots && m.slots[key] == base.slots[key])
      && (forall key :: key in m.slots <==> key in base.slots || key in route.slots)
      && m.keys == base.keys + Fresh(route.keys, base.keys)
  {
    SpreadFromSlots(base, route, route.keys);
    SpreadFromKeys(base, route, route.keys);
    SpreadKeysFresh(base.keys, route.keys);
  }

  // ----- consistencyCheck -----

  /** `key.split('_')[0] + '_ejsData'` */
  function DataKeyOf(key: string): string
  {
    Split(key, '_')[0] + DataSuffix
  }

  /** For the keys the base model has, the split agrees with the section the resolver
      finds with its regular expression. */
  lemma DataKeyOfSection(digits: string)
    requires |digits| >= 1 && forall i :: 0 <= i < |digits| ==> IsDigit(digits[i])
    ensures DataKeyOf("c" + digits + ContentSuffix) == "c" + digits + DataSuffix
    ensures R.FindSection("c" + digits + ContentSuffix) == Some("c" + digits)
  {
    var head := "c" + digits;
    assert '_' !in head by {
      forall i | 0 <= i < |head| ensures head[i] != '_' {
        if i > 0 { assert head[i] == digits[i - 1]; }
      }
    }
    assert "c" + digits + ContentSuffix == head + ['_'] + "content";
    SplitAtSeparator(head, '_', "content");
    R.SectionOfContentKey(digits);
  }

  /** The base keys of the route model that fail the check: a `_content` key whose route
      value is an array, without an array of the same length at its data key. */
  predicate Mismatch(route: Rules, key: string)
  {
    && IsContentKey(key) && key in route.slots && route.slots[key].Arr?
    && var dataKey := DataKeyOf(key);
       !(dataKey in route.slots && route.slots[dataKey].Arr?
         && |route.slots[dataKey].items| == |route.slots[key].items|)
  }

  /** The position of the first key from `i` on that fails the check. */
  function FirstMismatch(route: Rules, keys: seq<string>, i: nat): (m: Option<nat>)
    requires i <= |keys|
    ensures m.Some? ==> i <= m.value < |keys|
    decreases |keys| - i
  {
    if i == |keys| then None
    else if Mismatch(route, keys[i]) then Some(i)
    else FirstMismatch(route, keys, i + 1)
  }

  lemma {:induction false} FirstMismatchIsFirst(route: Rules, keys: seq<string>, i: nat)
    requires i <= |keys|
    ensures FirstMismatch(route, keys, i).None? <==> forall j :: i <= j < |keys| ==> !Mismatch(route, keys[j])
    ensures var m := FirstMismatch(route, keys, i);
      m.Some? ==> Mismatch(route, keys[m.value]) && forall j :: i <= j < m.value ==> !Mismatch(route, keys[j])
    decreases |keys| - i
  {
    if i < |keys| && !Mismatch(route, keys[i]) {
      FirstMismatchIsFirst(route, keys, i + 1);
    }
  }

  function MismatchMessage(dataKey: string, key: string): string
  {
    dataKey + " must be the same length array (of object) as " + key + "!"
  }

  const ConsistentPrefix := "\U{2713} routeModel is consistent on "

  /** The success text, with `thisName` written as a template literal writes it. */
  function ConsistentMessage(route: Rules): string
  {
    ConsistentPrefix
      + if "thisName" in route.slots then ToStr(route.slots["thisName"]) else "undefined"
  }

  /** What the check over `keys` resolves to: the error for the first key that fails, or
      the success text. */
  function CheckWith(route: Rules, keys: seq<string>): Result<string>
  {
    match FirstMismatch(route, keys, 0)
    case Some(i) => Err(Inconsistent(MismatchMessage(DataKeyOf(keys[i]), keys[i])))
    case None => Ok(ConsistentMessage(route))
  }

  /** What `consistencyCheck(routeModel)` resolves to: the check over the base keys. */
  function CheckSpec(route: Rules): Result<string>
  {
    CheckWith(route, BaseKeys)
  }

  /** The key at `i` fails, no key before it does, and the error names it. */
  predicate FirstFailure(route: Rules, keys: seq<string>, i: nat)
    requires i < |keys|
  {
    && Mismatch(route, keys[i])
    && (forall j :: 0 <= j < i ==> !Mismatch(route, keys[j]))
    && CheckWith(route, keys) == Err(Inconsistent(MismatchMessage(DataKeyOf(keys[i]), keys[i])))
  }

  /** The check fails exactly when a key fails, and then it names the first such key and
      its data key. */
  lemma CheckFails(route: Rules, keys: seq<string>)
    ensures CheckWith(route, keys).Err? <==> exists i :: 0 <= i < |keys| && Mismatch(route, keys[i])
    ensures CheckWith(route, keys).Err? ==> exists i :: 0 <= i < |keys| && FirstFailure(route, keys, i)
    ensures CheckWith(route, keys).Ok? ==> CheckWith(route, keys).value == ConsistentMessage(route)
  {
    FirstMismatchIsFirst(route, keys, 0);
    var m := FirstMismatch(route, keys, 0);
    if m.Some? {
      assert FirstFailure(route, keys, m.value);
    }
  }

  lemma {:induction false} FirstMismatchAgrees(route: Rules, route': Rules, keys: seq<string>, i: nat)
    requires i <= |keys|
    requires forall j :: i <= j < |keys| ==> (Mismatch(route, keys[j]) <==> Mismatch(route', keys[j]))
    ensures FirstMismatch(route, keys, i) == FirstMismatch(route', keys, i)
    decreases |keys| - i
  {
    if i < |keys| {
      FirstMismatchAgrees(route, route', keys, i + 1);
    }
  }

  /** The base `_content` keys are the seven at positions 3 to 9. */
  lemma BaseContentKeys()
    ensures forall j :: 0 <= j < |BaseKeys| ==> (IsContentKey(BaseKeys[j]) <==> 3 <= j < 10)
  {
    forall j | 0 <= j < |BaseKeys| ensures IsContentKey(BaseKeys[j]) <==> 3 <= j < 10 {
      var key := BaseKeys[j];
      if j < 3 {
        assert |key| < |ContentSuffix|;
      } else if j < 10 {
        assert key[3..] == ContentSuffix;
      } else if j < 17 {
        assert key[3..][7] == 'a' != ContentSuffix[7];
      } else {
        HeadCssLinksIsNotContent();
      }
    }
  }

  /** Positions 3 to 9 hold the `_content` key of each base section, and seven places on
      its `_ejsData` key. */
  lemma BaseSectionKeys()
    ensures forall d :: 0 <= d < |BaseSections| ==>
      BaseKeys[d + 3] == "c" + BaseSections[d] + ContentSuffix && BaseKeys[d + 10] == "c" + BaseSections[d] + DataSuffix
  {
    BaseSectionContentKeys();
    BaseSectionDataKeys();
  }

  lemma BaseSectionContentKeys()
    ensures forall d :: 0 <= d < |BaseSections| ==> BaseKeys[d + 3] == "c" + BaseSections[d] + ContentSuffix
  {
  }

  lemma BaseSectionDataKeys()
    ensures forall d :: 0 <= d < |BaseSections| ==> BaseKeys[d + 10] == "c" + BaseSections[d] + DataSuffix
  {
  }

  /** The data key of each base `_content` key is the `_ejsData` key of its section. */
  lemma BaseDataKeys()
    ensures forall j :: 3 <= j < 10 ==> DataKeyOf(BaseKeys[j]) == BaseKeys[j + 7]
  {
    BaseSectionKeys();
    forall j | 3 <= j < 10 ensures DataKeyOf(BaseKeys[j]) == BaseKeys[j + 7] {
      var d := BaseSections[j - 3];
      assert BaseKeys[j] == "c" + d + ContentSuffix && BaseKeys[j + 7] == "c" + d + DataSuffix;
      assert |d| == 2 && IsDigit(d[0]) && IsDigit(d[1]);
      DataKeyOfSection(d);
    }
  }

  /** What the consistency check and the route model of `/` need to know of the base keys. */
  predicate LaidOutAsBase(ks: seq<string>)
  {
    && |ks| == |BaseKeys|
    && (forall i, j :: 0 <= i < j < |ks| ==> ks[i] != ks[j])
    && (forall j :: 0 <= j < |ks| ==> ks[j] != "thisName")
    && (forall j :: 0 <= j < |ks| ==> (IsContentKey(ks[j]) <==> 3 <= j < 10))
    && (forall j :: 3 <= j < 10 ==> DataKeyOf(ks[j]) == ks[j + 7])
  }

  lemma BaseLaidOutAsBase()
    ensures LaidOutAsBase(BaseKeys)
  {
    BaseKeysDistinct();
    BaseKeysOtherThanName();
    BaseContentKeys();
    BaseDataKeys();
  }

  lemma BaseKeysOtherThanName()
    ensures forall j :: 0 <= j < |BaseKeys| ==> BaseKeys[j] != "thisName"
  {
  }

  /** Only the base keys are looked at: a key the base model does not have (such as
      `c12_content`) never changes the verdict, whatever the route gives it. */
  lemma RouteOnlyKeysIgnored(route: Rules, key: string, v: Value)
    requires route.Valid() && key !in BaseKeys && key != "thisName"
    ensures CheckSpec(route.Set(key, v)) == CheckSpec(route)
  {
    BaseLaidOutAsBase();
    OtherKeysIgnored(route, BaseKeys, key, v);
  }

  lemma OtherKeysIgnored(route: Rules, ks: seq<string>, key: string, v: Value)
    requires route.Valid() && LaidOutAsBase(ks) && key !in ks && key != "thisName"
    ensures CheckWith(route.Set(key, v), ks) == CheckWith(route, ks)
  {
    var route' := route.Set(key, v);
    forall j | 0 <= j < |ks| ensures Mismatch(route, ks[j]) <==> Mismatch(route', ks[j]) {
      assert ks[j] in ks;
      if IsContentKey(ks[j]) {
        assert ks[j + 7] in ks;
      }
    }
    FirstMismatchAgrees(route, route', ks, 0);
  }

  /** The loop of `consistencyCheck` over `keys`: the position of the first key that fails,
      if any. */
  method FindInconsistency(route: Rules, keys: seq<string>) returns (failed: Option<nat>)
    ensures failed == FirstMismatch(route, keys, 0)
  {
    for i := 0 to |keys|
      invariant FirstMismatch(route, keys, 0) == FirstMismatch(route, keys, i)
    {
      var key := keys[i];
      ghost var next := FirstMismatch(route, keys, i + 1);
      assert FirstMismatch(route, keys, i) == if Mismatch(route, key) then Some(i) else next;
      if EndsWith(key, ContentSuffix) {
        if key in route.slots && route.slots[key].Arr? {
          var needLength := |route.slots[key].items|;
          var ejsDataKey := Split(key, '_')[0] + DataSuffix;
          if !(ejsDataKey in route.slots && route.slots[ejsDataKey].Arr?)
             || |route.slots[ejsDataKey].items| != needLength
          {
            assert Mismatch(route, key);
            return Some(i);
          }
        }
      }
      assert !Mismatch(route, key);
    }
    failed := None;
  }

  /** `consistencyCheck(routeModel)`: reads the route model and leaves it as it was. */
  method ConsistencyCheck(routeModel: ViewModel) returns (res: Result<string>)
    ensures res == CheckSpec(routeModel.displayRules)
  {
    var checkModel := CreateBaseViewModel();
    var keys := checkModel.displayRules.keys;
    var failed := FindInconsistency(routeModel.displayRules, keys);
    if failed.Some? {
      var key := keys[failed.value];
      var ejsDataKey := Split(key, '_')[0] + DataSuffix;
      res := Err(Inconsistent(MismatchMessage(ejsDataKey, key)));
    } else {
      res := Ok(ConsistentMessage(routeModel.displayRules));
    }
    assert res == CheckWith(routeModel.displayRules, keys);
    assert keys == BaseKeys;
  }

  // ----- The route model of `/` -----

  /** The values of `handlerHome.displayRules` in the order written. */
  const HandlerHomeValues: seq<Value> := [
    Str("handlerHome"),
    Arr([Bool(true), Bool(false)]),
    Arr([Bool(true), Bool(true)]),
    Arr([Bool(false), Bool(true)]),
    Arr([Str("testComponent/test.js")]),
    Str("<p>c21_content ejstest: <%= ejstest %>+<%= ejstestb %></p>"),
    Str("<p>c23_content from viewModel</p>"),
    Str("<p>c33_content from viewModel</p>"),
    Str("<p>c32_content from viewModel</p>"),
    Arr([Obj([("testString", Str("apple theft"))])]),
    Obj([("ejstest", Str("apple theft")), ("ejstestb", Str("apple theft_b"))])]

  /** `handlerHome.displayRules` as an object literal over keys laid out as the base keys
      are: every key but `thisName` is also a key of the base view model, given here as its
      position there. */
  function HomeOver(ks: seq<string>, vs: seq<Value>): Rules
    requires |ks| == |BaseKeys| && |vs| == 11
  {
    Rules(["thisName", ks[0], ks[1], ks[2], ks[3], ks[5], ks[6], ks[9], ks[8], ks[10], ks[12]],
      map["thisName" := vs[0],
          ks[0] := vs[1],     // c1
          ks[1] := vs[2],     // c2
          ks[2] := vs[3],     // c3
          ks[3] := vs[4],     // c11_content
          ks[5] := vs[5],     // c21_content
          ks[6] := vs[6],     // c23_content
          ks[9] := vs[7],     // c33_content
          ks[8] := vs[8],     // c32_content
          ks[10] := vs[9],    // c11_ejsData
          ks[12] := vs[10]])  // c21_ejsData
  }

  /** The shape of the values of `handlerHome.displayRules` that the check looks at: one
      array of length one under `c11_content` and under its data key, strings under the
      other `_content` keys. */
  predicate HomeShaped(vs: seq<Value>)
  {
    && |vs| == 11
    && vs[4].Arr? && |vs[4].items| == 1 && vs[9].Arr? && |vs[9].items| == 1
    && vs[5].Str? && vs[6].Str? && vs[7].Str? && vs[8].Str?
  }

  lemma HandlerHomeShaped()
    ensures HomeShaped(HandlerHomeValues)
  {
  }

  /** Over keys laid out as the base keys, the route model of `/` passes the check: its one
      array slot, `c11_content`, has a data array of the same length, `c13_content` and
      `c31_content` are unset and the other `_content` slots hold strings. */
  lemma HomeConsistentOver(ks: seq<string>, vs: seq<Value>)
    requires LaidOutAsBase(ks) && HomeShaped(vs)
    ensures forall j :: 0 <= j < |ks| ==> !Mismatch(HomeOver(ks, vs), ks[j])
  {
    forall j | 0 <= j < |ks| ensures !Mismatch(HomeOver(ks, vs), ks[j]) {
      if 3 <= j < 10 {
        HomeContentOver(ks, vs, j);
      }
    }
  }

  lemma HomeContentOver(ks: seq<string>, vs: seq<Value>, j: nat)
    requires LaidOutAsBase(ks) && HomeShaped(vs) && 3 <= j < 10
    ensures !Mismatch(HomeOver(ks, vs), ks[j])
  {
    if j == 4 || j == 7 {
      HomeUnsetOver(ks, vs, j);
    } else if j == 3 {
      HomeArrayOver(ks, vs);
    } else {
      HomeStringOver(ks, vs, j);
    }
  }

  lemma HomeArrayOver(ks: seq<string>, vs: seq<Value>)
    requires LaidOutAsBase(ks) && HomeShaped(vs)
    ensures !Mismatch(HomeOver(ks, vs), ks[3])
  {
    assert DataKeyOf(ks[3]) == ks[10];
  }

  lemma HomeStringOver(ks: seq<string>, vs: seq<Value>, j: nat)
    requires LaidOutAsBase(ks) && HomeShaped(vs) && j in {5, 6, 8, 9}
    ensures HomeOver(ks, vs).slots[ks[j]].Str?
  {
  }

  lemma HomeUnsetOver(ks: seq<string>, vs: seq<Value>, j: nat)
    requires LaidOutAsBase(ks) && |vs| == 11 && (j == 4 || j == 7)
    ensures ks[j] !in HomeOver(ks, vs).slots
  {
  }

  /** `handlerHome.displayRules` */
  function HandlerHome(): Rules
  {
    HomeOver(BaseKeys, HandlerHomeValues)
  }

  /** The name of the route model of `/`. */
  lemma HandlerHomeName()
    ensures ConsistentMessage(HandlerHome()) == ConsistentPrefix + "handlerHome"
  {
    assert HandlerHomeValues[0] == Str("handlerHome");
  }

  /** The route model of `/` passes the check. */
  lemma HandlerHomeConsistent()
    ensures CheckSpec(HandlerHome()) == Ok(ConsistentPrefix + "handlerHome")
  {
    BaseLaidOutAsBase();
    HandlerHomeShaped();
    HomeConsistentOver(BaseKeys, HandlerHomeValues);
    FirstMismatchIsFirst(HandlerHome(), BaseKeys, 0);
    HandlerHomeName();
  }

  // ----- render: the display rules the layout template receives -----

  /** A `_content` slot holding an array becomes `slot.join('')`; anything else is kept. */
  function JoinedSlot(key: string, v: Value): Value
  {
    if IsContentKey(key) && v.Arr? then Str(JoinArray(v.items, "")) else v
  }

  function JoinContent(r: Rules): (j: Rules)
    requires r.Valid()
    ensures j.Valid() && j.keys == r.keys
  {
    Rules(r.keys, map key | key in r.slots :: JoinedSlot(key, r.slots[key]))
  }

  /** `vs.flat(Infinity)`, with `FlattenValue(v)` the elements `v` contributes. */
  function Flatten(vs: seq<Value>): seq<Value>
    decreases vs, 1
  {
    if vs == [] then [] else FlattenValue(vs[0]) + Flatten(vs[1..])
  }

  function FlattenValue(v: Value): seq<Value>
    decreases v, 0
  {
    if v.Arr? then Flatten(v.items) else [v]
  }

  predicate IsFlat(vs: seq<Value>)
  {
    forall i :: 0 <= i < |vs| ==> !vs[i].Arr?
  }

  lemma {:induction false} FlattenAppend(a: seq<Value>, b: seq<Value>)
    ensures Flatten(a + b) == Flatten(a) + Flatten(b)
  {
    if a != [] {
      assert (a + b)[1..] == a[1..] + b;
      FlattenAppend(a[1..], b);
    } else {
      assert a + b == b;
    }
  }

  /** The flattened sequence holds no array. */
  lemma {:induction false} FlattenIsFlat(vs: seq<Value>)
    ensures IsFlat(Flatten(vs))
    decreases vs, 1
  {
    if vs != [] {
      FlattenValueIsFlat(vs[0]);
      FlattenIsFlat(vs[1..]);
    }
  }

  lemma {:induction false} FlattenValueIsFlat(v: Value)
    ensures IsFlat(FlattenValue(v))
    decreases v, 0
  {
    if v.Arr? {
      FlattenIsFlat(v.items);
    }
  }

  /** A sequence without arrays flattens to itself. */
  lemma {:induction false} FlattenOfFlat(vs: seq<Value>)
    requires IsFlat(vs)
    ensures Flatten(vs) == vs
  {
    if vs != [] {
      FlattenOfFlat(vs[1..]);
      assert [vs[0]] + vs[1..] == vs;
    }
  }

  /** Flattening twice is flattening once. */
  lemma FlattenIdempotent(vs: seq<Value>)
    ensures Flatten(Flatten(vs)) == Flatten(vs)
  {
    FlattenIsFlat(vs);
    FlattenOfFlat(Flatten(vs));
  }

  /** Nested arrays of links flatten to their strings left to right. */
  lemma FlattenLinks(a: seq<string>, b: seq<string>, c: seq<string>)
    ensures Flatten(Strs(a) + [Arr(Strs(b))] + Strs(c)) == Strs(a + b + c)
  {
    var sa, sb, sc := Strs(a), Strs(b), Strs(c);
    assert Flatten(sa + [Arr(sb)]) == sa + sb by {
      FlattenAppend(sa, [Arr(sb)]);
      assert IsFlat(sa) && IsFlat(sb);
      FlattenOfFlat(sa);
      FlattenOfFlat(sb);
      assert Flatten([Arr(sb)]) == FlattenValue(Arr(sb)) + Flatten([]);
    }
    assert Flatten(sa + [Arr(sb)] + sc) == sa + sb + sc by {
      FlattenAppend(sa + [Arr(sb)], sc);
      assert IsFlat(sc);
      FlattenOfFlat(sc);
    }
    StrsAppend(a, b);
    StrsAppend(a + b, c);
  }

  /** `appendTimestampToCss(links)` with `Date.now()` given as `ts`. */
  function AppendTimestamp(links: seq<Value>, ts: int): (out: seq<Value>)
    ensures |out| == |links|
    ensures forall i :: 0 <= i < |links| ==> out[i] == Str(ToStr(links[i]) + "?v=" + IntToString(ts + i))
  {
    seq(|links|, i requires 0 <= i < |links| => Str(ToStr(links[i]) + "?v=" + IntToString(ts + i)))
  }

  /** Distinct positions get distinct tokens, so their timestamped links differ whatever
      the links are. */
  lemma TimestampsDistinct(links: seq<Value>, ts: int, i: nat, j: nat)
    requires i < |links| && j < |links| && i != j
    ensures IntToString(ts + i) != IntToString(ts + j)
    ensures AppendTimestamp(links, ts)[i] != AppendTimestamp(links, ts)[j]
  {
    if IntToString(ts + i) == IntToString(ts + j) {
      IntToStringInjective(ts + i, ts + j);
    }
    var out := AppendTimestamp(links, ts);
    if out[i] == out[j] {
      TimestampedEqual(ToStr(links[i]), ToStr(links[j]), IntToString(ts + i), IntToString(ts + j));
    }
  }

  /** A timestamped link determines the link and the token. */
  lemma TimestampedEqual(a: string, b: string, ta: string, tb: string)
    requires forall k :: 0 <= k < |ta| ==> ta[k] == '-' || IsDigit(ta[k])
    requires forall k :: 0 <= k < |tb| ==> tb[k] == '-' || IsDigit(tb[k])
    requires a + "?v=" + ta == b + "?v=" + tb
    ensures a == b && ta == tb
  {
    var s := a + "?v=" + ta;
    TimestampTail(a, ta);
    TimestampTail(b, tb);
    // The `?` the timestamp adds is the last one, so both links end at the same place.
    assert s[|a|] == '?' && s[|b|] == (b + "?v=" + tb)[|b|] == '?';
    assert |a| == |b|;
    assert a == s[..|a|] && b == (b + "?v=" + tb)[..|b|];
    assert ta == s[|a| + 3..] && tb == (b + "?v=" + tb)[|b| + 3..];
  }

  /** No `?` follows the one the timestamp adds. */
  lemma TimestampTail(link: string, token: string)
    requires forall k :: 0 <= k < |token| ==> token[k] == '-' || IsDigit(token[k])
    ensures forall p :: |link| < p < |link + "?v=" + token| ==> (link + "?v=" + token)[p] != '?'
  {
    var s := link + "?v=" + token;
    forall p | |link| < p < |s| ensures s[p] != '?' {
      if p >= |link| + 3 {
        assert s[p] == token[p - |link| - 3];
      }
    }
  }

  /** A link without `?` splits at the `?` the timestamp adds. */
  lemma TimestampSplit(link: string, token: string)
    requires '?' !in link
    requires forall k :: 0 <= k < |token| ==> token[k] == '-' || IsDigit(token[k])
    ensures Split(link + "?v=" + token, '?') == [link, "v=" + token]
  {
    assert link + "?v=" + token == link + ['?'] + ("v=" + token);
    SplitAtSeparator(link, '?', "v=" + token);
    assert '?' !in "v=" + token by {
      forall k | 0 <= k < |"v=" + token| ensures ("v=" + token)[k] != '?' {
        if k >= 2 { assert ("v=" + token)[k] == token[k - 2]; }
      }
    }
    SplitWithoutSeparator("v=" + token, '?');
  }

  /** What `render(viewModel)` leaves in the display rules before the template runs: the
      content arrays joined, then `headCssLinks` flattened (twice) and timestamped. */
  function RenderSpec(r: Rules, ts: int): Result<Rules>
    requires r.Valid()
  {
    var j := JoinContent(r);
    if HeadCssLinks in j.slots && j.slots[HeadCssLinks].Arr? then
      var flat := Flatten(j.slots[HeadCssLinks].items);
      Ok(j.Set(HeadCssLinks, Arr(AppendTimestamp(Flatten(flat), ts))))
    else
      Err(NotAnArray(HeadCssLinks))
  }

  /** Rendering keeps the keys, joins every `_content` array into the concatenation of its
      elements, keeps every other slot but `headCssLinks`, and fails exactly when
      `headCssLinks` is not an array. */
  lemma RenderContent(r: Rules, ts: int)
    requires r.Valid()
    ensures RenderSpec(r, ts).Err? <==> !(HeadCssLinks in r.slots && r.slots[HeadCssLinks].Arr?)
    ensures RenderSpec(r, ts).Err? ==> RenderSpec(r, ts).error == NotAnArray(HeadCssLinks)
    ensures var res := RenderSpec(r, ts);
      res.Ok? ==>
        && res.value.Valid() && res.value.keys == r.keys
        && (forall key :: key in r.slots && IsContentKey(key) && r.slots[key].Arr? ==>
              res.value.slots[key] == Str(JoinArray(r.slots[key].items, "")))
        && (forall key :: key in r.slots && key != HeadCssLinks && !(IsContentKey(key) && r.slots[key].Arr?) ==>
              res.value.slots[key] == r.slots[key])
  {
    HeadCssLinksIsNotContent();
  }

  /** A `_content` array of strings is rendered as their concatenation in order. */
  lemma RenderJoinsStrings(r: Rules, ts: int, key: string, parts: seq<string>)
    requires r.Valid() && RenderSpec(r, ts).Ok?
    requires key in r.slots && IsContentKey(key) && r.slots[key] == Arr(Strs(parts))
    ensures RenderSpec(r, ts).value.slots[key] == Str(Concat(parts))
  {
    RenderContent(r, ts);
    JoinArrayOfStrings(parts, "");
  }

  /** After rendering, `headCssLinks` holds the flattened links in order, each with the
      timestamp of its position. */
  lemma RenderLinks(r: Rules, ts: int)
    requires r.Valid() && RenderSpec(r, ts).Ok?
    ensures var links := Flatten(r.slots[HeadCssLinks].items);
      var out := RenderSpec(r, ts).value.slots[HeadCssLinks];
      && IsFlat(links)
      && out.Arr? && |out.items| == |links|
      && forall i :: 0 <= i < |links| ==> out.items[i] == Str(ToStr(links[i]) + "?v=" + IntToString(ts + i))
  {
    HeadCssLinksIsNotContent();
    FlattenIdempotent(r.slots[HeadCssLinks].items);
    FlattenIsFlat(r.slots[HeadCssLinks].items);
  }

  /** The `keys.forEach` pass of `render`: each `_content` array is joined in place. */
  method JoinContentSlots(vm: ViewModel)
    requires vm.displayRules.Valid()
    modifies vm
    ensures vm.displayRules == JoinContent(old(vm.displayRules))
  {
    ghost var r0 := vm.displayRules;
    var keys := vm.displayRules.keys;
    for i := 0 to |keys|
      invariant vm.displayRules.Valid() && vm.displayRules.keys == keys
      invariant forall j :: 0 <= j < i ==> vm.displayRules.slots[keys[j]] == JoinedSlot(keys[j], r0.slots[keys[j]])
      invariant forall j :: i <= j < |keys| ==> vm.displayRules.slots[keys[j]] == r0.slots[keys[j]]
    {
      var key := keys[i];
      if EndsWith(key, ContentSuffix) {
        var v := vm.displayRules.slots[key];
        if v.Arr? {
          vm.displayRules := vm.displayRules.Set(key, Str(JoinArray(v.items, "")));
        }
      }
      assert vm.displayRules.slots[key] == JoinedSlot(key, r0.slots[key]);
      assert forall j :: 0 <= j < |keys| && j != i ==> keys[j] != key;
    }
    var joined := JoinContent(r0);
    forall key | key in joined.slots ensures vm.displayRules.slots[key] == joined.slots[key] {
      var k :| 0 <= k < |keys| && keys[k] == key;
    }
    assert vm.displayRules.slots == joined.slots;
  }

  /** `render(viewModel)` up to the template call. */
  method Render(vm: ViewModel, ts: int) returns (err: Option<Error>)
    requires vm.displayRules.Valid()
    modifies vm
    ensures RenderSpec(old(vm.displayRules), ts) == if err.None? then Ok(vm.displayRules) else Err(err.value)
  {
    JoinContentSlots(vm);
    var r := vm.displayRules;
    if !(HeadCssLinks in r.slots && r.slots[HeadCssLinks].Arr?) {
      return Some(NotAnArray(HeadCssLinks));
    }
    vm.displayRules := r.Set(HeadCssLinks, Arr(Flatten(r.slots[HeadCssLinks].items)));
    var flat := vm.displayRules.slots[HeadCssLinks].items;
    vm.displayRules := vm.displayRules.Set(HeadCssLinks, Arr(AppendTimestamp(Flatten(flat), ts)));
    assert vm.displayRules.slots == r.slots[HeadCssLinks := Arr(AppendTimestamp(Flatten(flat), ts))];
    err := None;
  }

  // ----- handleRoute -----

  /** The display rules `handleRoute` renders: the merge, resolved with the scalar call
      `call`, then rendered. */
  function HandleSpec(env: Environment, call: R.ScalarCall, route: Rules, ts: int): Result<Rules>
    requires route.Valid()
  {
    var merged := Merge(BaseRules(), route);
    match R.ResolveSpec(env, call, merged)
    case Err(e) => Err(e)
    case Ok(resolved) =>
      R.ResolveSpecFrame(env, call, merged);
      RenderSpec(resolved, ts)
  }

  /** What a matched request answers with once both findings are corrected: the check's
      error, or the rendered rules, with the intended scalar call. */
  function RequestSpec(env: Environment, route: Rules, ts: int): Result<Rules>
    requires route.Valid()
  {
    match CheckSpec(route)
    case Err(e) => Err(e)
    case Ok(_) => HandleSpec(env, R.Intended, route, ts)
  }

  /** A route model shares its arrays with the merge, so the resolver's writes into the
      elements of an array slot, and its pushes onto a `headCssLinks` array the route
      supplies, land in the route model: each array slot of the route takes the resolved
      value. */
  function SharedAfter(route: Rules, resolved: Rules): (r: Rules)
    requires route.Valid()
    requires forall key :: key in route.slots ==> key in resolved.slots
    ensures r.Valid() && r.keys == route.keys
  {
    Rules(route.keys, map key | key in route.slots ::
      if route.slots[key].Arr? then resolved.slots[key] else route.slots[key])
  }

  /** The route model after one request as written. */
  function RouteAfter(env: Environment, route: Rules): (r: Rules)
    requires route.Valid()
    ensures r.Valid() && r.keys == route.keys
  {
    var merged := Merge(BaseRules(), route);
    match R.ResolveSpec(env, R.AsWritten, merged)
    case Err(_) => route
    case Ok(resolved) =>
      MergeSpread(BaseRules(), route);
      R.ResolveSpecFrame(env, R.AsWritten, merged);
      SharedAfter(route, resolved)
  }

  /** `handleRoute` as written: the route model's arrays are shared with the view model. */
  method HandleRoute(routeModel: ViewModel, env: Environment, ts: int) returns (res: Result<Rules>)
    requires routeModel.displayRules.Valid()
    modifies routeModel
    ensures res == HandleSpec(env, R.AsWritten, old(routeModel.displayRules), ts)
    ensures routeModel.displayRules == RouteAfter(env, old(routeModel.displayRules))
  {
    var route := routeModel.displayRules;
    var viewModel := CreateBaseViewModel();
    var displayRules := Merge(viewModel.displayRules, route);
    viewModel.displayRules := displayRules;
    var err := R.ResolveDynamicContent(viewModel, env, R.AsWritten);
    if err.Some? {
      return Err(err.value);
    }
    MergeSpread(BaseRules(), route);
    R.ResolveSpecFrame(env, R.AsWritten, displayRules);
    routeModel.displayRules := SharedAfter(route, viewModel.displayRules);
    err := Render(viewModel, ts);
    res := if err.None? then Ok(viewModel.displayRules) else Err(err.value);
  }

  /** `handleRoute` corrected: it works on a copy of the route model, which is left as it
      was, and resolves a scalar reference with the intended call. */
  method HandleRouteIsolated(routeModel: ViewModel, env: Environment, ts: int) returns (res: Result<Rules>)
    requires routeModel.displayRules.Valid()
    ensures res == HandleSpec(env, R.Intended, routeModel.displayRules, ts)
  {
    var viewModel := CreateBaseViewModel();
    var displayRules := Merge(viewModel.displayRules, routeModel.displayRules);
    viewModel.displayRules := displayRules;
    var err := R.ResolveDynamicContent(viewModel, env, R.Intended);
    if err.Some? {
      return Err(err.value);
    }
    R.ResolveSpecFrame(env, R.Intended, displayRules);
    err := Render(viewModel, ts);
    res := if err.None? then Ok(viewModel.displayRules) else Err(err.value);
  }

  /** A matched request: the consistency check, then the corrected `handleRoute`. */
  method Serve(routeModel: ViewModel, env: Environment, ts: int) returns (res: Result<Rules>)
    requires routeModel.displayRules.Valid()
    ensures res == RequestSpec(env, routeModel.displayRules, ts)
  {
    var check := ConsistencyCheck(routeModel);
    if check.Err? {
      return Err(check.error);
    }
    res := HandleRouteIsolated(routeModel, env, ts);
  }

  /** Two requests for the same route at the same time answer alike. This holds because
      `Serve` changes nothing (it has no `modifies` clause); it is the contrast with
      `HandleRoute` as written, after which the next request differs
      (`SharedArraysAsWritten`). */
  method ServeTwice(routeModel: ViewModel, env: Environment, ts: int) returns (first: Result<Rules>, second: Result<Rules>)
    requires routeModel.displayRules.Valid()
    ensures first == second == RequestSpec(env, routeModel.displayRules, ts)
  {
    first := Serve(routeModel, env, ts);
    second := Serve(routeModel, env, ts);
  }

  /** No module's markup ends in ".js". */
  ghost predicate MarkupOnly(env: Environment)
  {
    forall file, r: Rules, partialData: Option<string> :: file in env.modules ==>
      !EndsWith(R.Rendered(env.modules[file], r, partialData), ".js")
  }

  /** Under markup-only modules, a resolved element is no component reference, and a
      reference is always replaced. */
  lemma ResolvedIsMarkup(env: Environment, partialData: Option<string>, before: Value, after: Value)
    requires MarkupOnly(env) && R.ResolvedElement(env, partialData, before, after)
    ensures !IsComponentRef(after)
    ensures IsComponentRef(before) ==> after != before
  {
    if IsComponentRef(before) {
      var c := env.modules[R.ComponentFile(env, before.s)];
      var rr :| after.s == R.Rendered(c, rr, partialData);
    }
  }

  /** Every `_content` slot of a fresh base view model is `null`. */
  lemma BaseContentNull(k: string)
    requires k in BaseRules().slots && IsContentKey(k)
    ensures BaseRules().slots[k] == Null
  {
    BaseValues();
    BaseContentKeys();
    var j :| 0 <= j < |BaseKeys| && BaseKeys[j] == k;
  }

  /** After one request as written, the next merge holds no component reference under any
      `_content` key. */
  lemma SecondMergeSlot(env: Environment, route: Rules, k: string)
    requires route.Valid() && MarkupOnly(env)
    requires R.ResolveSpec(env, R.AsWritten, Merge(BaseRules(), route)).Ok?
    requires k in Merge(BaseRules(), RouteAfter(env, route)).slots && IsContentKey(k)
    ensures R.FindSection(k).Some? && R.NoComponentRefs(Merge(BaseRules(), RouteAfter(env, route)).slots[k])
  {
    var base := BaseRules();
    var m1 := Merge(base, route);
    var res1 := R.ResolveSpec(env, R.AsWritten, m1).value;
    MergeSpread(base, route);
    R.ResolveSpecFrame(env, R.AsWritten, m1);
    R.ResolveSpecResolves(env, R.AsWritten, m1);
    var route' := RouteAfter(env, route);
    assert route' == SharedAfter(route, res1);
    var m2 := Merge(base, route');
    MergeSpread(base, route');
    assert k in m1.slots;
    if k in route.slots && route.slots[k].Arr? {
      var before, now := route.slots[k].items, res1.slots[k].items;
      assert m2.slots[k] == res1.slots[k];
      forall j | 0 <= j < |now| ensures !IsComponentRef(now[j]) {
        ResolvedIsMarkup(env, Some(R.PartialData(k)), before[j], now[j]);
      }
    } else if k in route.slots {
      assert m2.slots[k] == m1.slots[k];
    } else {
      BaseContentNull(k);
    }
  }

  /** As written, a request that renders a component from an array slot replaces the
      reference in the route model itself; the next request for that route then finds no
      component to render and collects no stylesheet link. */
  lemma SharedArraysAsWritten(env: Environment, route: Rules, key: string, i: nat)
    requires route.Valid() && MarkupOnly(env)
    requires R.ResolveSpec(env, R.AsWritten, Merge(BaseRules(), route)).Ok?
    requires key in route.slots && IsContentKey(key) && route.slots[key].Arr?
    requires i < |route.slots[key].items| && IsComponentRef(route.slots[key].items[i])
    requires HeadCssLinks !in route.slots
    ensures RouteAfter(env, route) != route
    ensures R.ResolveSpec(env, R.AsWritten, Merge(BaseRules(), route)) != Ok(Merge(BaseRules(), route))
    ensures var merged := Merge(BaseRules(), RouteAfter(env, route));
      && R.ResolveSpec(env, R.AsWritten, merged) == Ok(merged)
      && HeadCssLinks in merged.slots && merged.slots[HeadCssLinks] == Arr([])
  {
    var base := BaseRules();
    var m1 := Merge(base, route);
    var res1 := R.ResolveSpec(env, R.AsWritten, m1).value;
    MergeSpread(base, route);
    R.ResolveSpecFrame(env, R.AsWritten, m1);
    R.ResolveSpecResolves(env, R.AsWritten, m1);
    var route' := RouteAfter(env, route);
    assert route' == SharedAfter(route, res1);
    // The first request replaced the reference at position i.
    ResolvedIsMarkup(env, Some(R.PartialData(key)), route.slots[key].items[i], res1.slots[key].items[i]);
    assert route'.slots[key] != route.slots[key];
    assert res1.slots[key] != m1.slots[key];
    // The second request has nothing to resolve.
    var m2 := Merge(base, route');
    forall k | k in m2.slots && IsContentKey(k)
      ensures R.FindSection(k).Some? && R.NoComponentRefs(m2.slots[k])
    {
      SecondMergeSlot(env, route, k);
    }
    R.NothingToResolve(env, R.AsWritten, m2);
    MergeSpread(base, route');
    BaseValues();
  }
}
