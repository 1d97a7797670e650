/** Generated patches change what differs and nothing else. */
module PatchNeeds {
  import opened Text
  import opened Json
  import opened JsonPointer
  import opened JsonOrder
  import opened JsonPatch
  import opened JsonPatchRefinement
  import opened PatchGeneration
  import opened PatchRoundTrip
  import Rfc = Rfc6902

  type Tokens = Rfc.Tokens

  // ----- no patch for trees that stand for the same value -----

  /** Main result: nothing is generated exactly when the two trees stand for the same value. */
  lemma {:induction false} NothingGenerated(path: string, from: Json, goal: Json, cs: bool, keys: set<string>)
    requires ToldApart(keys, cs) && WellFormed(from, keys) && WellFormed(goal, keys)
    ensures CreatePatches(path, from, goal, cs) == [] <==> Meaning(from) == Meaning(goal)
    decreases from, 1, 0
  {
    match (from, goal) {
      case (Array(fs), Array(ts)) => NothingForItems(from, path, fs, ts, 0, cs, keys);
      case (Object(fs), Object(ts)) =>
        SortMembersBelow(from, cs);
        SortMembersKeeps(fs, cs, keys);
        SortMembersKeeps(ts, cs, keys);
        NothingForMembers(from, path, SortMembers(fs, cs), SortMembers(ts, cs), cs, keys);
      case _ =>
    }
  }

  lemma {:induction false} NothingForItems(a: Json, path: string, fs: seq<Json>, ts: seq<Json>, index: nat, cs: bool, keys: set<string>)
    requires ToldApart(keys, cs)
    requires forall i :: 0 <= i < |fs| ==> fs[i] < a && WellFormed(fs[i], keys)
    requires forall i :: 0 <= i < |ts| ==> WellFormed(ts[i], keys)
    ensures CreateItemPatches(a, path, fs, ts, index, cs) == [] <==> MeaningAll(fs) == MeaningAll(ts)
    decreases a, 0, |fs|
  {
    hide ToldApart, ComposePatch, Decimal;
    if fs != [] && ts != [] {
      NothingGenerated(path + ("/" + Decimal(index)), fs[0], ts[0], cs, keys);
      NothingForItems(a, path, fs[1..], ts[1..], index + 1, cs, keys);
      MeaningFirst(fs);
      MeaningFirst(ts);
      hide Meaning, MeaningAll, WellFormed, CreatePatches;
      ConsMeaning(Meaning(fs[0]), MeaningAll(fs[1..]), Meaning(ts[0]), MeaningAll(ts[1..]));
    } else {
      hide Meaning, WellFormed, CreatePatches;
      assert |MeaningAll(fs)| == |fs| && |MeaningAll(ts)| == |ts|;
    }
  }

  lemma {:induction false} NothingForMembers(a: Json, path: string, fs: seq<Member>, ts: seq<Member>, cs: bool, keys: set<string>)
    requires ToldApart(keys, cs) && Below(fs, a)
    requires WellFormedMembers(fs, keys) && Ascending(fs, cs)
    requires WellFormedMembers(ts, keys) && Ascending(ts, cs)
    ensures CreateMemberPatches(a, path, fs, ts, cs) == [] <==> MapOf(fs) == MapOf(ts)
    decreases a, 0, |fs|
  {
    if fs == [] {
      if ts != [] { assert ts[0].key in MapOf(ts); }
    } else if ts == [] {
      assert fs[0].key in MapOf(fs);
    } else {
      TailMembers(fs, cs, keys);
      TailMembers(ts, cs, keys);
      CompareStringsOrder(fs[0].key, ts[0].key, fs[0].key, cs);
      if fs[0].key == ts[0].key {
        NothingGenerated(path + ("/" + Encode(fs[0].key)), fs[0].value, ts[0].value, cs, keys);
        NothingForMembers(a, path, fs[1..], ts[1..], cs, keys);
        MapConsEqual(fs[0].key, Meaning(fs[0].value), MapOf(fs[1..]), Meaning(ts[0].value), MapOf(ts[1..]));
        hide Meaning, WellFormed, CreatePatches, Encode;
      } else if CompareStrings(fs[0].key, ts[0].key, cs) < 0 {
        SmallerKeyAbsent(fs[0].key, ts, cs);
        assert fs[0].key in MapOf(fs);
      } else {
        SmallerKeyAbsent(ts[0].key, fs, cs);
        assert ts[0].key in MapOf(ts);
      }
    }
  }

  // ----- what a patch is needed for -----

  /** The value at the path is another one, and the patch gives the new one. */
  ghost predicate Replaces(p: Json, v: Value, w: Value, path: Tokens, y: Json) {
    && p == ComposePatch("replace", Join(path), None, Some(y))
    && Rfc.Get(v, path).Some? && Rfc.Get(w, path) == Some(Meaning(y)) && Rfc.Get(v, path) != Rfc.Get(w, path)
  }

  /** Only the source has a child with this token. */
  ghost predicate Removes(p: Json, v: Value, w: Value, path: Tokens, token: string) {
    && p == ComposePatch("remove", Join(path), Some(token), None)
    && Rfc.Get(v, path).Some? && Rfc.Get(w, path).Some?
    && Rfc.Step(Rfc.Get(v, path).value, token).Some? && Rfc.Step(Rfc.Get(w, path).value, token).None?
  }

  /** Only the target has a member with this key, or it has this element behind all those of the source. */
  ghost predicate AddsMissing(p: Json, v: Value, w: Value, path: Tokens, token: string, y: Json) {
    && p == ComposePatch("add", Join(path), Some(token), Some(y))
    && match (Rfc.Get(v, path), Rfc.Get(w, path))
       case (Some(VObject(m)), Some(VObject(n))) => token !in m && token in n && n[token] == Meaning(y)
       case (Some(VArray(xs)), Some(VArray(ys))) => token == "-" && |xs| < |ys| && Meaning(y) in ys[|xs|..]
       case _ => false
  }

  ghost predicate Needed(p: Json, v: Value, w: Value) {
    || (exists path: Tokens, y: Json :: Replaces(p, v, w, path, y))
    || (exists path: Tokens, token: string :: Removes(p, v, w, path, token))
    || (exists path: Tokens, token: string, y: Json :: AddsMissing(p, v, w, path, token, y))
  }

  ghost predicate AllNeeded(ps: seq<Json>, v: Value, w: Value) {
    forall i :: 0 <= i < |ps| ==> Needed(ps[i], v, w)
  }

  lemma NeededJoin(ps: seq<Json>, qs: seq<Json>, v: Value, w: Value)
    requires AllNeeded(ps, v, w) && AllNeeded(qs, v, w)
    ensures AllNeeded(ps + qs, v, w)
  {
    hide Needed;
  }

  lemma NeededOne(p: Json, v: Value, w: Value)
    requires Needed(p, v, w)
    ensures AllNeeded([p], v, w)
  {
    hide Needed;
  }

  // ----- every generated patch is needed -----

  /** The elements still to be compared, and where they stand in both arrays. */
  ghost predicate ItemsLeft(fs: seq<Json>, ts: seq<Json>, index: nat, xs: seq<Value>, ys: seq<Value>) {
    && |fs| <= |xs| && |ts| <= |ys| && MeaningAll(fs) == xs[|xs| - |fs|..] && MeaningAll(ts) == ys[|ys| - |ts|..]
    && (fs != [] && ts != [] ==> index == |xs| - |fs| == |ys| - |ts|)
    && (fs != [] && ts == [] ==> index == |ys| < |xs|)
    && (fs == [] && ts != [] ==> |xs| <= |ys| - |ts|)
  }

  lemma ItemsLeftFirst(fs: seq<Json>, ts: seq<Json>, index: nat, xs: seq<Value>, ys: seq<Value>)
    requires ItemsLeft(fs, ts, index, xs, ys)
    ensures fs != [] && ts != [] ==>
              && index < |xs| && index < |ys| && xs[index] == Meaning(fs[0]) && ys[index] == Meaning(ts[0])
              && ItemsLeft(fs[1..], ts[1..], index + 1, xs, ys)
    ensures fs != [] && ts == [] ==> |ys| == index < |xs| && ItemsLeft(fs[1..], ts, index, xs, ys)
    ensures fs == [] && ts != [] ==> |xs| < |ys| && Meaning(ts[0]) in ys[|xs|..] && ItemsLeft(fs, ts[1..], index + 1, xs, ys)
  {
    if fs != [] { MeaningFirst(fs); }
    if ts != [] {
      MeaningFirst(ts);
      assert ys[|ys| - |ts|] == Meaning(ts[0]);
      if fs == [] {
        assert ys[|xs|..][|ys| - |ts| - |xs|] == Meaning(ts[0]);
      }
    }
    hide Meaning, MeaningAll;
  }

  lemma {:induction false} GeneratedNeeded(v: Value, w: Value, path: Tokens, from: Json, goal: Json, cs: bool, keys: set<string>)
    requires ToldApart(keys, cs) && WellFormed(from, keys) && WellFormed(goal, keys)
    requires Rfc.Get(v, path) == Some(Meaning(from)) && Rfc.Get(w, path) == Some(Meaning(goal))
    ensures AllNeeded(CreatePatches(Join(path), from, goal, cs), v, w)
    decreases from, 1, 0, 0
  {
    hide *;
    if from.Array? && goal.Array? {
      ArraysCreated(Join(path), from, goal, cs);
      ArrayStart(from, goal, keys);
      ItemsNeeded(v, w, path, from, from.items, goal.items, 0, MeaningAll(from.items), MeaningAll(goal.items), cs, keys);
    } else if from.Object? && goal.Object? {
      var (fs, ts) := (SortMembers(from.members, cs), SortMembers(goal.members, cs));
      ObjectStart(Join(path), from, goal, cs, keys);
      MembersNeeded(v, w, path, from, fs, ts, MapOf(fs), MapOf(ts), cs, keys);
    } else {
      OtherNeeded(v, w, path, from, goal, cs, keys);
    }
  }

  lemma {:induction false} OtherNeeded(v: Value, w: Value, path: Tokens, from: Json, goal: Json, cs: bool, keys: set<string>)
    requires ToldApart(keys, cs) && WellFormed(from, keys) && WellFormed(goal, keys)
    requires !(from.Array? && goal.Array?) && !(from.Object? && goal.Object?)
    requires Rfc.Get(v, path) == Some(Meaning(from)) && Rfc.Get(w, path) == Some(Meaning(goal))
    ensures AllNeeded(CreatePatches(Join(path), from, goal, cs), v, w)
  {
    hide *;
    OtherPatches(Join(path), from, goal, cs);
    if CreatePatches(Join(path), from, goal, cs) == [] {
      NoneNeeded(v, w);
    } else {
      NothingGenerated(Join(path), from, goal, cs, keys);
      ReplaceNeeded(v, w, path, from, goal);
    }
  }

  lemma NoneNeeded(v: Value, w: Value)
    ensures AllNeeded([], v, w)
  {
  }

  lemma ArrayStart(from: Json, goal: Json, keys: set<string>)
    requires from.Array? && goal.Array? && WellFormed(from, keys) && WellFormed(goal, keys)
    ensures ItemsLeft(from.items, goal.items, 0, MeaningAll(from.items), MeaningAll(goal.items))
    ensures Meaning(from) == VArray(MeaningAll(from.items)) && Meaning(goal) == VArray(MeaningAll(goal.items))
    ensures AllWellFormed(from.items, keys) && AllWellFormed(goal.items, keys)
  {
  }

  ghost predicate AllWellFormed(items: seq<Json>, keys: set<string>) {
    forall i :: 0 <= i < |items| ==> WellFormed(items[i], keys)
  }

  lemma WellFormedFirst(items: seq<Json>, keys: set<string>)
    requires AllWellFormed(items, keys) && items != []
    ensures WellFormed(items[0], keys) && AllWellFormed(items[1..], keys)
  {
    hide WellFormed;
  }

  lemma ReplaceNeeded(v: Value, w: Value, path: Tokens, from: Json, goal: Json)
    requires Rfc.Get(v, path) == Some(Meaning(from)) && Rfc.Get(w, path) == Some(Meaning(goal))
    ensures Meaning(from) != Meaning(goal) ==> AllNeeded([ComposePatch("replace", Join(path), None, Some(goal))], v, w)
  {
    var p := ComposePatch("replace", Join(path), None, Some(goal));
    hide Rfc.Get, Meaning, ComposePatch, Join, AllNeeded;
    if Meaning(from) != Meaning(goal) {
      assert Replaces(p, v, w, path, goal);
      hide Replaces;
      NeededOne(p, v, w);
    }
  }

  lemma RemoveNeeded(v: Value, w: Value, path: Tokens, token: string)
    requires Rfc.Get(v, path).Some? && Rfc.Get(w, path).Some?
    requires Rfc.Step(Rfc.Get(v, path).value, token).Some? && Rfc.Step(Rfc.Get(w, path).value, token).None?
    ensures AllNeeded([ComposePatch("remove", Join(path), Some(token), None)], v, w)
  {
    var p := ComposePatch("remove", Join(path), Some(token), None);
    hide Rfc.Get, Rfc.Step, ComposePatch, Join;
    assert Removes(p, v, w, path, token);
  }

  lemma AddNeeded(v: Value, w: Value, path: Tokens, token: string, y: Json)
    requires AddsMissing(ComposePatch("add", Join(path), Some(token), Some(y)), v, w, path, token, y)
    ensures AllNeeded([ComposePatch("add", Join(path), Some(token), Some(y))], v, w)
  {
    hide AddsMissing, ComposePatch, Join;
  }

  lemma IndexSteps(xs: seq<Value>, i: nat)
    ensures Rfc.Step(VArray(xs), Decimal(i)) == if i < |xs| then Some(xs[i]) else None
  {
    RfcIndexOfDecimal(i);
    hide RfcIndex, Decimal;
  }

  lemma {:induction false} ItemsNeeded(v: Value, w: Value, path: Tokens, a: Json, fs: seq<Json>, ts: seq<Json>, index: nat,
                                       xs: seq<Value>, ys: seq<Value>, cs: bool, keys: set<string>)
    requires ToldApart(keys, cs) && AllWellFormed(fs, keys) && AllWellFormed(ts, keys) && ItemsLeft(fs, ts, index, xs, ys)
    requires forall i :: 0 <= i < |fs| ==> fs[i] < a
    requires Rfc.Get(v, path) == Some(VArray(xs)) && Rfc.Get(w, path) == Some(VArray(ys))
    ensures AllNeeded(CreateItemPatches(a, Join(path), fs, ts, index, cs), v, w)
    decreases a, 0, |fs| + |ts|, 0
  {
    hide *;
    if fs == [] && ts == [] {
      NoItems(a, path, index, cs);
      NoneNeeded(v, w);
    } else {
      ItemPatchesStep(a, path, fs, ts, index, cs);
      ItemsLeftFirst(fs, ts, index, xs, ys);
      IndexSteps(xs, index);
      IndexSteps(ys, index);
      if fs != [] { WellFormedFirst(fs, keys); }
      if ts != [] { WellFormedFirst(ts, keys); }
      if fs != [] && ts != [] {
        Rfc.GetChild(v, path, Decimal(index));
        Rfc.GetChild(w, path, Decimal(index));
        GeneratedNeeded(v, w, path + [Decimal(index)], fs[0], ts[0], cs, keys);
        ItemsNeeded(v, w, path, a, fs[1..], ts[1..], index + 1, xs, ys, cs, keys);
        NeededJoin(CreatePatches(Join(path + [Decimal(index)]), fs[0], ts[0], cs),
                   CreateItemPatches(a, Join(path), fs[1..], ts[1..], index + 1, cs), v, w);
      } else if fs != [] {
        RemoveNeeded(v, w, path, Decimal(index));
        ItemsNeeded(v, w, path, a, fs[1..], ts, index, xs, ys, cs, keys);
        NeededJoin([ComposePatch("remove", Join(path), Some(Decimal(index)), None)],
                   CreateItemPatches(a, Join(path), fs[1..], ts, index, cs), v, w);
      } else {
        DashMissing(v, w, path, ts[0], xs, ys);
        AddNeeded(v, w, path, "-", ts[0]);
        ItemsNeeded(v, w, path, a, fs, ts[1..], index + 1, xs, ys, cs, keys);
        NeededJoin([ComposePatch("add", Join(path), Some("-"), Some(ts[0]))],
                   CreateItemPatches(a, Join(path), fs, ts[1..], index + 1, cs), v, w);
      }
    }
  }

  lemma DashMissing(v: Value, w: Value, path: Tokens, y: Json, xs: seq<Value>, ys: seq<Value>)
    requires Rfc.Get(v, path) == Some(VArray(xs)) && Rfc.Get(w, path) == Some(VArray(ys)) && |xs| < |ys| && Meaning(y) in ys[|xs|..]
    ensures AddsMissing(ComposePatch("add", Join(path), Some("-"), Some(y)), v, w, path, "-", y)
  {
    hide Rfc.Get, Meaning, ComposePatch, Join;
  }

  lemma MemberMissing(v: Value, w: Value, path: Tokens, k: string, y: Json, m: map<string, Value>, n: map<string, Value>)
    requires Rfc.Get(v, path) == Some(VObject(m)) && Rfc.Get(w, path) == Some(VObject(n)) && k !in m && k in n && n[k] == Meaning(y)
    ensures AddsMissing(ComposePatch("add", Join(path), Some(k), Some(y)), v, w, path, k, y)
  {
    hide Rfc.Get, Meaning, ComposePatch, Join;
  }

  /** The members still to be compared, of both objects. */
  ghost predicate MembersLeft(fs: seq<Member>, ts: seq<Member>, m: map<string, Value>, n: map<string, Value>, cs: bool, keys: set<string>) {
    && WellFormedMembers(fs, keys) && Ascending(fs, cs) && Holds(m, fs)
    && WellFormedMembers(ts, keys) && Ascending(ts, cs) && Holds(n, ts)
    && m.Keys * KeysOf(ts) <= KeysOf(fs) && n.Keys * KeysOf(fs) <= KeysOf(ts)
  }

  lemma ObjectStart(path: string, from: Json, goal: Json, cs: bool, keys: set<string>)
    requires ToldApart(keys, cs) && from.Object? && goal.Object? && WellFormed(from, keys) && WellFormed(goal, keys)
    ensures var (fs, ts) := (SortMembers(from.members, cs), SortMembers(goal.members, cs));
            && Below(fs, from) && CreatePatches(path, from, goal, cs) == CreateMemberPatches(from, path, fs, ts, cs)
            && MembersLeft(fs, ts, MapOf(fs), MapOf(ts), cs, keys)
            && Meaning(from) == VObject(MapOf(fs)) && Meaning(goal) == VObject(MapOf(ts))
  {
    var (fs, ts) := (SortMembers(from.members, cs), SortMembers(goal.members, cs));
    SortMembersBelow(from, cs);
    SortMembersKeeps(from.members, cs, keys);
    SortMembersKeeps(goal.members, cs, keys);
    AllMembers(fs, ts);
    AllMembers(ts, fs);
    MapOfUnique(fs);
    MapOfUnique(ts);
    hide SortMembers, CreateMemberPatches, MapOf, Holds, Ascending;
  }

  lemma HeldFirst(fs: seq<Member>, m: map<string, Value>, cs: bool, keys: set<string>)
    requires fs != [] && WellFormedMembers(fs, keys) && Ascending(fs, cs) && Holds(m, fs)
    ensures fs[0].key in m && m[fs[0].key] == Meaning(fs[0].value) && WellFormed(fs[0].value, keys)
    ensures WellFormedMembers(fs[1..], keys) && Ascending(fs[1..], cs) && Holds(m, fs[1..])
    ensures KeysOf(fs) == {fs[0].key} + KeysOf(fs[1..]) && fs[0].key !in KeysOf(fs[1..])
  {
    TailMembers(fs, cs, keys);
    KeysOfCons(fs);
    hide Meaning, Ascending, WellFormed;
  }

  lemma SmallerMissing(k: string, ms: seq<Member>, cs: bool, keys: set<string>)
    requires WellFormedMembers(ms, keys) && Ascending(ms, cs) && (ms != [] ==> CompareStrings(k, ms[0].key, cs) < 0)
    ensures k !in KeysOf(ms)
  {
    SmallerKeyAbsent(k, ms, cs);
    MapOfUnique(ms);
    hide MapOf, CompareStrings;
  }

  /** One step over the heads of both lists. */
  lemma MembersLeftNext(fs: seq<Member>, ts: seq<Member>, m: map<string, Value>, n: map<string, Value>, cs: bool, keys: set<string>)
    requires ToldApart(keys, cs) && MembersLeft(fs, ts, m, n, cs, keys) && (fs != [] || ts != [])
    ensures var d := HeadDifference(fs, ts, cs);
            && (d == 0 ==>
                  && fs != [] && ts != [] && fs[0].key == ts[0].key && MembersLeft(fs[1..], ts[1..], m, n, cs, keys)
                  && fs[0].key in m && m[fs[0].key] == Meaning(fs[0].value) && fs[0].key in n && n[fs[0].key] == Meaning(ts[0].value)
                  && WellFormed(fs[0].value, keys) && WellFormed(ts[0].value, keys))
            && (d < 0 ==> fs != [] && fs[0].key in m && fs[0].key !in n && MembersLeft(fs[1..], ts, m, n, cs, keys))
            && (d > 0 ==>
                  && ts != [] && ts[0].key !in m && ts[0].key in n && n[ts[0].key] == Meaning(ts[0].value)
                  && MembersLeft(fs, ts[1..], m, n, cs, keys))
  {
    var d := HeadDifference(fs, ts, cs);
    if fs != [] { HeldFirst(fs, m, cs, keys); }
    if ts != [] { HeldFirst(ts, n, cs, keys); }
    if fs != [] && ts != [] {
      CompareStringsOrder(fs[0].key, ts[0].key, fs[0].key, cs);
      assert fs[0].key in keys && ts[0].key in keys;
    }
    hide Meaning, CompareStrings, Ascending, Holds, WellFormedMembers, KeysOf;
    if d < 0 {
      SmallerMissing(fs[0].key, ts, cs, keys);
    } else if d > 0 {
      SmallerMissing(ts[0].key, fs, cs, keys);
    }
  }

  lemma {:induction false} MembersNeeded(v: Value, w: Value, path: Tokens, a: Json, fs: seq<Member>, ts: seq<Member>,
                                         m: map<string, Value>, n: map<string, Value>, cs: bool, keys: set<string>)
    requires ToldApart(keys, cs) && Below(fs, a) && MembersLeft(fs, ts, m, n, cs, keys)
    requires Rfc.Get(v, path) == Some(VObject(m)) && Rfc.Get(w, path) == Some(VObject(n))
    ensures AllNeeded(CreateMemberPatches(a, Join(path), fs, ts, cs), v, w)
    decreases a, 0, |fs| + |ts|, 0
  {
    if fs == [] && ts == [] {
      NoMembers(a, path, m, cs);
      NoneNeeded(v, w);
    } else {
      MemberPatchesStep(a, path, fs, ts, cs);
      MembersLeftNext(fs, ts, m, n, cs, keys);
      BelowNext(fs, a);
      hide *;
      var d := HeadDifference(fs, ts, cs);
      if d == 0 {
        var k := fs[0].key;
        MemberSteps(v, w, path, k, m, n);
        GeneratedNeeded(v, w, path + [k], fs[0].value, ts[0].value, cs, keys);
        MembersNeeded(v, w, path, a, fs[1..], ts[1..], m, n, cs, keys);
        NeededJoin(CreatePatches(Join(path + [k]), fs[0].value, ts[0].value, cs),
                   CreateMemberPatches(a, Join(path), fs[1..], ts[1..], cs), v, w);
      } else if d < 0 {
        MemberSteps(v, w, path, fs[0].key, m, n);
        RemoveNeeded(v, w, path, fs[0].key);
        MembersNeeded(v, w, path, a, fs[1..], ts, m, n, cs, keys);
        NeededJoin([ComposePatch("remove", Join(path), Some(fs[0].key), None)],
                   CreateMemberPatches(a, Join(path), fs[1..], ts, cs), v, w);
      } else {
        MemberMissing(v, w, path, ts[0].key, ts[0].value, m, n);
        AddNeeded(v, w, path, ts[0].key, ts[0].value);
        MembersNeeded(v, w, path, a, fs, ts[1..], m, n, cs, keys);
        NeededJoin([ComposePatch("add", Join(path), Some(ts[0].key), Some(ts[0].value))],
                   CreateMemberPatches(a, Join(path), fs, ts[1..], cs), v, w);
      }
    }
  }

  lemma BelowNext(fs: seq<Member>, a: Json)
    requires Below(fs, a)
    ensures fs != [] ==> fs[0].value < a && Below(fs[1..], a)
  {
  }

  lemma MemberSteps(v: Value, w: Value, path: Tokens, k: string, m: map<string, Value>, n: map<string, Value>)
    requires Rfc.Get(v, path) == Some(VObject(m)) && Rfc.Get(w, path) == Some(VObject(n))
    ensures Rfc.Step(VObject(m), k) == (if k in m then Some(m[k]) else None) && Rfc.Step(VObject(n), k) == if k in n then Some(n[k]) else None
    ensures Rfc.Get(v, path + [k]) == Rfc.Step(VObject(m), k) && Rfc.Get(w, path + [k]) == Rfc.Step(VObject(n), k)
  {
    Rfc.GetChild(v, path, k);
    Rfc.GetChild(w, path, k);
    hide Rfc.Get;
  }
}
