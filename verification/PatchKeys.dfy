/** For which keys generated patches lead from every source to every target. */
module PatchKeys {
  import opened Text
  import opened Json
  import opened JsonPointer
  import opened JsonOrder
  import opened JsonPatch
  import opened JsonPatchRefinement
  import opened PatchGeneration
  import opened JsonTails
  import opened LivePatch
  import opened PatchRoundTrip
  import Sorting
  import SortTails

  /** The generated patches apply to the source without error, and the result stands for the target. */
  ghost predicate Reaches(from: Json, goal: Json, cs: bool) {
    var r := ApplyAllLive(Fresh(from), CreatePatches("", from, goal, cs), cs);
    r.status == 0 && Meaning(Erase(r.doc)) == Meaning(goal)
  }

  /** The same for all trees with keys from the set. */
  ghost predicate AllReached(keys: set<string>, cs: bool) {
    forall from, goal :: WellFormed(from, keys) && WellFormed(goal, keys) ==> Reaches(from, goal, cs)
  }

  ghost predicate AllUndamaged(keys: set<string>) {
    forall k :: k in keys ==> Undamaged(k)
  }

  function One(key: string): Member { Member(key, Number(1)) }

  function Two(key: string): Member { Member(key, Number(2)) }

  /** Without a test pointers do not matter. */
  lemma ReachesIs(from: Json, goal: Json, cs: bool)
    ensures var r := ApplyAll(from, CreatePatches("", from, goal, cs), cs);
            Reaches(from, goal, cs) <==> r.status == 0 && Meaning(r.doc) == Meaning(goal)
  {
    hide CreatePatches, ApplyAllLive, ApplyAll, Meaning, Settled, Erase;
    EraseFresh(from);
    NoTestsCreated("", from, goal, cs);
    NoTestsRefine(Fresh(from), CreatePatches("", from, goal, cs), cs);
  }

  lemma SortTwo(x: Member, y: Member, cs: bool)
    ensures SortMembers([x, y], cs) == if CompareStrings(x.key, y.key, cs) < 0 then [x, y] else [y, x]
    ensures SortMembers([x], cs) == [x] && SortMembers([], cs) == []
  {
    var xs := [x, y];
    assert xs[..1] == [x] && xs[1..] == [y];
    assert [x][1..] == [] && [y][1..] == [];
    assert KeyOf(xs[0]) == x.key && KeyOf(xs[1]) == y.key;
    hide CompareStrings;
    assert Sorting.StrictlyIncreasing(xs, KeyOf, cs) <==> CompareStrings(KeyOf(xs[0]), KeyOf(xs[0 + 1]), cs) < 0;
    SortTails.SortHalves(xs, KeyOf, cs);
    assert Sorting.Sort([x], KeyOf, cs) == [x] && Sorting.Sort([y], KeyOf, cs) == [y];
    var none: seq<Member> := [];
    assert Sorting.Merge(none, [y], KeyOf, cs) == [y] && Sorting.Merge([x], none, KeyOf, cs) == [x];
    assert Sorting.Merge([x], [y], KeyOf, cs) == if CompareStrings(x.key, y.key, cs) < 0 then [x] + [y] else [y] + [x];
  }

  lemma MapOfTwo(x: Member, y: Member)
    ensures MapOf([x]) == map[x.key := Meaning(x.value)]
    ensures x.key != y.key ==> MapOf([x, y]) == map[x.key := Meaning(x.value), y.key := Meaning(y.value)]
  {
    assert [x][1..] == [] && [x, y][1..] == [y] && [y][1..] == [];
    assert MapOf([y]) == map[y.key := Meaning(y.value)];
  }

  lemma {:induction false} PairWellFormed(x: Member, y: Member, keys: set<string>)
    requires x.key in keys && y.key in keys && x.key != y.key && x.value.Number? && y.value.Number?
    ensures WellFormed(Object([]), keys) && WellFormed(Object([x]), keys) && WellFormed(Object([x, y]), keys)
  {
    assert WellFormed(x.value, keys) && WellFormed(y.value, keys);
    assert WellFormedMembers([], keys) && WellFormedMembers([x], keys) && WellFormedMembers([x, y], keys);
  }

  // ----- keys that differ in case only, when case is regarded -----

  lemma RemovalCreated(a: string, b: string)
    requires a != b
    ensures CreatePatches("", Object([One(a), Two(b)]), Object([One(a)]), true) == [ComposePatch("remove", Join([]), Some(b), None)]
  {
    var (from, x, y) := (Object([One(a), Two(b)]), One(a), Two(b));
    SortTwo(x, y, true);
    SortMembersBelow(from, true);
    var (fs, ts) := (SortMembers(from.members, true), SortMembers([x], true));
    StrCmpZero(a, b);
    StrCmpZero(a, a);
    StrCmpAntisymmetric(a, b);
    assert CreatePatches("", from, Object([x]), true) == CreateMemberPatches(from, "", fs, ts, true);
    assert CreatePatches(Join([] + [a]), x.value, x.value, true) == [];
    assert CreateMemberPatches(from, "", [], [], true) == [];
    assert Join([]) == "" && Below([x], from) && Below([y], from);
    assert [x][1..] == [] && [y][1..] == [];
    hide SortMembers, ComposePatch, Join, StrCmp, CreateMemberPatches, CreatePatches;
    if fs == [x, y] {
      MemberPatchesStep(from, [], [x, y], [x], true);
      MemberPatchesStep(from, [], [y], [], true);
      assert [x, y][1..] == [y];
    } else {
      MemberPatchesStep(from, [], [y, x], [x], true);
      MemberPatchesStep(from, [], [x], [x], true);
      assert [y, x][1..] == [x];
    }
  }

  /** Removing the second of two members whose keys differ in case only removes the first. */
  lemma RemovalMistaken(a: string, b: string)
    requires a != b && Lower(a) == Lower(b) && Undamaged(b)
    ensures ApplyPatch(Object([One(a), Two(b)]), ComposePatch("remove", Join([]), Some(b), None), true) == Applied(0, Object([Two(b)]))
  {
    var doc := Object([One(a), Two(b)]);
    assert SameKey(a, b, false);
    assert FindKey(doc.members, b, false) == Some(0);
    assert RemoveAt(doc.members, 0) == [Two(b)];
    assert DetachChild(doc, b) == Detached(Number(1), Object([Two(b)]));
    assert Parent([b]) == [] && Last([b]) == b && Join([]) == "" && [] + [b] == [b];
    assert Locate(doc, "", true) == Some([]);
    hide ComposePatch, Join, GetMember, Encode, DetachChild, Undamaged, FindKey, ApplyMove, ApplyCopy, ApplyTest, ApplyWithValue, Locate;
    ComposedFields("remove", [], Some(b), None, true);
    DetachPathAt(doc, [b], [], true);
    SplitJoin([b]);
  }

  lemma RemovalFails(a: string, b: string, keys: set<string>)
    requires a in keys && b in keys && a != b && Lower(a) == Lower(b) && Undamaged(b)
    ensures !AllReached(keys, true)
  {
    var (from, goal) := (Object([One(a), Two(b)]), Object([One(a)]));
    PairWellFormed(One(a), Two(b), keys);
    MapOfTwo(One(a), Two(b));
    MapOfTwo(Two(b), One(a));
    assert b in MapOf([Two(b)]) && b !in MapOf([One(a)]);
    assert Meaning(Object([Two(b)])) != Meaning(goal);
    hide MapOf, Meaning, WellFormed, Reaches, ApplyPatch, ComposePatch, CreatePatches, Join, Undamaged, Lower;
    RemovalCreated(a, b);
    RemovalMistaken(a, b);
    ApplyOne(from, ComposePatch("remove", Join([]), Some(b), None), true);
    ReachesIs(from, goal, true);
    assert !Reaches(from, goal, true);
  }

  // ----- keys that differ in case only, when case is not regarded -----

  lemma AdditionsCreated(a: string, b: string)
    requires Lower(a) == Lower(b)
    ensures CreatePatches("", Object([]), Object([One(a), Two(b)]), false)
            == [ComposePatch("add", Join([]), Some(b), Some(Number(2))), ComposePatch("add", Join([]), Some(a), Some(Number(1)))]
  {
    var (from, x, y) := (Object([]), One(a), Two(b));
    StrCmpZero(Lower(a), Lower(b));
    SortTwo(x, y, false);
    assert SortMembers([x, y], false) == [y, x];
    assert CreatePatches("", from, Object([x, y]), false) == CreateMemberPatches(from, "", [], [y, x], false);
    assert CreateMemberPatches(from, "", [], [], false) == [];
    assert Join([]) == "" && [y, x][1..] == [x] && [x][1..] == [];
    hide SortMembers, ComposePatch, Join, CompareStrings, CreateMemberPatches, CreatePatches;
    MemberPatchesStep(from, [], [], [y, x], false);
    MemberPatchesStep(from, [], [], [x], false);
  }

  /** Adding a member takes one whose key differs in case only away. */
  lemma AdditionReplaces(a: string, b: string)
    requires Lower(a) == Lower(b) && Undamaged(a)
    ensures ApplyPatch(Object([Two(b)]), ComposePatch("add", Join([]), Some(a), Some(Number(1))), false) == Applied(0, Object([One(a)]))
  {
    var doc := Object([Two(b)]);
    assert SameKey(b, a, false);
    assert FindKey(doc.members, a, false) == Some(0);
    assert RemoveAt(doc.members, 0) + [One(a)] == [One(a)];
    assert AddChild(doc, a, Number(1), false) == Applied(0, Object([One(a)]));
    assert [] + [a] == [a];
    hide ComposePatch, Join, GetMember, Encode, DecodeInPlace, AddChild, AddPath, Undamaged, FindKey, ApplyMove, ApplyCopy, ApplyTest;
    ComposedFields("add", [], Some(a), Some(Number(1)), false);
    DecodeInPlaceExact(a);
    AddPathOne(doc, a, Number(1), false);
  }

  lemma AdditionsFail(a: string, b: string, keys: set<string>)
    requires a in keys && b in keys && a != b && Lower(a) == Lower(b) && Undamaged(a) && Undamaged(b)
    ensures !AllReached(keys, false)
  {
    var (from, goal) := (Object([]), Object([One(a), Two(b)]));
    var (p, q) := (ComposePatch("add", Join([]), Some(b), Some(Number(2))), ComposePatch("add", Join([]), Some(a), Some(Number(1))));
    PairWellFormed(One(a), Two(b), keys);
    MapOfTwo(One(a), Two(b));
    assert b in MapOf([One(a), Two(b)]) && b !in MapOf([One(a)]);
    assert Meaning(Object([One(a)])) != Meaning(goal);
    hide MapOf, Meaning, WellFormed, Reaches, ApplyPatch, ComposePatch, CreatePatches, Join, Undamaged, Lower, Encode, DecodeInPlace;
    AdditionsCreated(a, b);
    AddToEmpty(b, Number(2), false);
    DecodeInPlaceExact(b);
    AdditionReplaces(a, b);
    BothApplied(from, p, q, false);
    ReachesIs(from, goal, false);
    assert !Reaches(from, goal, false);
  }

  lemma BothApplied(doc: Json, p: Json, q: Json, cs: bool)
    ensures ApplyAll(doc, [p, q], cs)
            == var r := ApplyPatch(doc, p, cs); if r.status != 0 then r else ApplyAll(r.doc, [q], cs)
    ensures ApplyPatch(doc, q, cs).status == 0 ==> ApplyAll(doc, [q], cs) == ApplyPatch(doc, q, cs)
  {
    assert [p, q][1..] == [q] && [q][1..] == [];
    hide ApplyPatch;
  }

  // ----- the main result -----

  lemma DamagedFails(k: string, keys: set<string>, cs: bool)
    requires k in keys && !Undamaged(k)
    ensures !AllReached(keys, cs)
  {
    KeyConditionIsExact(k, Number(1), cs);
    OneWellFormed(k, keys);
    hide Undamaged, WellFormed, CreatePatches, ApplyAllLive, Meaning, Erase;
    assert !Reaches(Object([]), Object([Member(k, Number(1))]), cs);
  }

  lemma {:induction false} OneWellFormed(k: string, keys: set<string>)
    requires k in keys
    ensures WellFormed(Object([]), keys) && WellFormed(Object([Member(k, Number(1))]), keys)
  {
    assert WellFormed(Number(1), keys);
    assert WellFormedMembers([], keys) && WellFormedMembers([Member(k, Number(1))], keys);
  }

  /** Main result: generated patches lead from every source to every target with keys from the set, in either case mode, exactly when no two
      keys of the set differ only in case and every key survives unescaping. */
  lemma KeySetIsExact(keys: set<string>, cs: bool)
    ensures AllReached(keys, cs) <==> CaseDistinct(keys) && AllUndamaged(keys)
  {
    hide Undamaged, WellFormed, CreatePatches, ApplyAllLive, Meaning, Erase, Lower;
    if !AllUndamaged(keys) {
      var k :| k in keys && !Undamaged(k);
      DamagedFails(k, keys, cs);
    } else if !CaseDistinct(keys) {
      var a, b :| a in keys && b in keys && Lower(a) == Lower(b) && a != b;
      if cs {
        RemovalFails(a, b, keys);
      } else {
        AdditionsFail(a, b, keys);
      }
    } else {
      assert Join([]) == "";
      forall from, goal | WellFormed(from, keys) && WellFormed(goal, keys)
        ensures Reaches(from, goal, cs)
      {
        UndamagedKeysSurvive([], from, goal, cs, keys);
        GeneratedPatchesApply(from, from, goal, cs, keys);
      }
    }
  }
}
