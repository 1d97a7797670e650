/** What sorting the members of an object, and comparing trees, does to the prev pointer of the head of a member list. */
module SortTails {
  import opened Text
  import opened Json
  import opened JsonOrder
  import opened JsonTails
  import Sorting

  // ----- sorting -----

  function LiveKey(m: LiveMember): string { m.key }

  function SortLive(ms: seq<LiveMember>, cs: bool): (r: seq<LiveMember>)
    ensures |r| == |ms|
  {
    Sorting.SortPermutes(ms, LiveKey, cs);
    Sorting.Sort(ms, LiveKey, cs)
  }

  lemma {:induction false} MergeErases(xs: seq<LiveMember>, ys: seq<LiveMember>, cs: bool)
    ensures EraseMembers(Sorting.Merge(xs, ys, LiveKey, cs)) == Sorting.Merge(EraseMembers(xs), EraseMembers(ys), KeyOf, cs)
    decreases |xs| + |ys|
  {
    if xs != [] && ys != [] {
      EraseCons(xs);
      EraseCons(ys);
      if CompareStrings(xs[0].key, ys[0].key, cs) < 0 {
        MergeErases(xs[1..], ys, cs);
        EraseCons([xs[0]] + Sorting.Merge(xs[1..], ys, LiveKey, cs));
      } else {
        MergeErases(xs, ys[1..], cs);
        EraseCons([ys[0]] + Sorting.Merge(xs, ys[1..], LiveKey, cs));
      }
    }
  }

  lemma {:induction false} EraseCons(ms: seq<LiveMember>)
    requires ms != []
    ensures EraseMembers(ms) == [EraseMember(ms[0])] + EraseMembers(ms[1..])
    ensures EraseMembers(ms)[1..] == EraseMembers(ms[1..])
  {
    hide Erase;
  }

  lemma {:induction false} EraseSlices(ms: seq<LiveMember>, n: nat)
    requires n <= |ms|
    ensures EraseMembers(ms[..n]) == EraseMembers(ms)[..n]
    ensures EraseMembers(ms[n..]) == EraseMembers(ms)[n..]
  {
    hide Erase;
  }

  lemma {:induction false} IncreasingErases(ms: seq<LiveMember>, cs: bool)
    ensures Sorting.StrictlyIncreasing(ms, LiveKey, cs) <==> Sorting.StrictlyIncreasing(EraseMembers(ms), KeyOf, cs)
  {
    hide CompareStrings;
    assert forall i :: 0 <= i < |ms| ==> KeyOf(EraseMembers(ms)[i]) == LiveKey(ms[i]);
  }

  lemma {:induction false} SortHalves<T>(xs: seq<T>, key: T -> string, cs: bool)
    ensures var mid := (|xs| + 1) / 2;
            Sorting.Sort(xs, key, cs)
            == if |xs| <= 1 || Sorting.StrictlyIncreasing(xs, key, cs) then xs
               else Sorting.Merge(Sorting.Sort(xs[..mid], key, cs), Sorting.Sort(xs[mid..], key, cs), key, cs)
  {
  }

  /** Sorting moves the items as it moves the members. */
  lemma {:induction false} SortErases(ms: seq<LiveMember>, cs: bool)
    ensures EraseMembers(SortLive(ms, cs)) == SortMembers(EraseMembers(ms), cs)
    decreases |ms|
  {
    hide Sorting.Sort, Sorting.Merge, Sorting.StrictlyIncreasing, EraseMembers;
    IncreasingErases(ms, cs);
    SortHalves(ms, LiveKey, cs);
    SortHalves(EraseMembers(ms), KeyOf, cs);
    if |ms| > 1 && !Sorting.StrictlyIncreasing(ms, LiveKey, cs) {
      var mid := (|ms| + 1) / 2;
      EraseSlices(ms, mid);
      SortErases(ms[..mid], cs);
      SortErases(ms[mid..], cs);
      MergeErases(SortLive(ms[..mid], cs), SortLive(ms[mid..], cs), cs);
    }
  }

  /** Where the item with a key is. */
  function PositionOf(ms: seq<LiveMember>, key: string): nat {
    match FindKey(EraseMembers(ms), key, true)
    case None => 0
    case Some(i) => i
  }

  /** The pointer after sorting: the head keeps its own, another item that becomes the head has none. Items are told by their keys. */
  function SortedTail(ms: seq<LiveMember>, tail: Tail, cs: bool): Tail {
    if ms == [] then tail
    else
      var ns := SortLive(ms, cs);
      if ns[0].key != ms[0].key then NoTail
      else
        match tail
        case TailAt(i) => if i < |ms| then TailAt(PositionOf(ns, ms[i].key)) else tail
        case _ => tail
  }

  /** The first and the last member are where they were. */
  predicate EndsKept(ms: seq<Member>, cs: bool) {
    var ns := SortMembers(ms, cs);
    Sorting.SortPermutes(ms, KeyOf, cs);
    ms == [] || (ns[0] == ms[0] && ns[|ns| - 1] == ms[|ms| - 1])
  }

  lemma {:induction false} SameKeySameMember(ms: seq<Member>, ns: seq<Member>, i: nat, j: nat)
    requires UniqueKeys(ms) && multiset(ms) == multiset(ns) && i < |ms| && j < |ns|
    ensures ms[i].key == ns[j].key <==> ms[i] == ns[j]
  {
    if ms[i].key == ns[j].key {
      assert ns[j] in multiset(ms);
      var k :| 0 <= k < |ms| && ms[k] == ns[j];
    }
  }

  lemma {:induction false} PositionIs(ms: seq<LiveMember>, i: nat)
    requires UniqueKeys(EraseMembers(ms)) && i < |ms|
    ensures PositionOf(ms, ms[i].key) == i
  {
    var r := FindKey(EraseMembers(ms), ms[i].key, true);
    assert EraseMembers(ms)[i].key == ms[i].key;
  }

  /** A position found among the sorted items. */
  lemma {:induction false} PositionFound(ms: seq<LiveMember>, ns: seq<LiveMember>, i: nat)
    requires multiset(EraseMembers(ms)) == multiset(EraseMembers(ns)) && i < |ms|
    ensures PositionOf(ns, ms[i].key) < |ns| && ns[PositionOf(ns, ms[i].key)].key == ms[i].key
  {
    assert EraseMembers(ms)[i] in multiset(EraseMembers(ns));
    var j :| 0 <= j < |ns| && EraseMembers(ns)[j] == EraseMembers(ms)[i];
  }

  lemma {:induction false} SortedLists(ms: seq<LiveMember>, cs: bool, keys: set<string>)
    requires ToldApart(keys, cs) && WellFormedMembers(EraseMembers(ms), keys)
    ensures EraseMembers(SortLive(ms, cs)) == SortMembers(EraseMembers(ms), cs)
    ensures multiset(EraseMembers(ms)) == multiset(EraseMembers(SortLive(ms, cs)))
    ensures UniqueKeys(EraseMembers(ms)) && UniqueKeys(EraseMembers(SortLive(ms, cs)))
  {
    SortErases(ms, cs);
    SortMembersKeeps(EraseMembers(ms), cs, keys);
    Sorting.SortPermutes(EraseMembers(ms), KeyOf, cs);
  }

  lemma {:induction false} SortedTailIs(ms: seq<LiveMember>, tail: Tail, cs: bool)
    requires ms != [] && Ready(|ms|, tail)
    ensures Ready(|ms|, SortedTail(ms, tail, cs))
            <==> SortLive(ms, cs)[0].key == ms[0].key && PositionOf(SortLive(ms, cs), ms[|ms| - 1].key) == |ms| - 1
  {
    hide SortLive, PositionOf;
  }

  lemma {:induction false} EndsKeptIs(ms: seq<Member>, ns: seq<Member>, cs: bool)
    requires ms != [] && ns == SortMembers(ms, cs)
    ensures |ns| == |ms| && (EndsKept(ms, cs) <==> ns[0] == ms[0] && ns[|ns| - 1] == ms[|ms| - 1])
  {
    Sorting.SortPermutes(ms, KeyOf, cs);
    hide Sorting.Sort;
  }

  lemma {:induction false} EmptyReady(tail: Tail, cs: bool)
    ensures Ready(0, SortedTail([], tail, cs)) && EndsKept([], cs)
  {
  }

  lemma {:induction false} SortedEnds(ms: seq<LiveMember>, ns: seq<LiveMember>, cs: bool, keys: set<string>)
    requires ms != [] && ns == SortLive(ms, cs) && ToldApart(keys, cs) && WellFormedMembers(EraseMembers(ms), keys)
    ensures EndsKept(EraseMembers(ms), cs) <==> ns[0].key == ms[0].key && ns[|ns| - 1].key == ms[|ms| - 1].key
  {
    hide WellFormedMembers, SortLive, SortMembers, EndsKept, UniqueKeys, ToldApart, Erase;
    var (es, fs, n) := (EraseMembers(ms), EraseMembers(ns), |ms|);
    SortedLists(ms, cs, keys);
    EndsKeptIs(es, fs, cs);
    SameKeySameMember(es, fs, 0, 0);
    SameKeySameMember(es, fs, n - 1, n - 1);
  }

  lemma {:induction false} LastPosition(ms: seq<LiveMember>, ns: seq<LiveMember>, cs: bool, keys: set<string>)
    requires ms != [] && ns == SortLive(ms, cs) && ToldApart(keys, cs) && WellFormedMembers(EraseMembers(ms), keys)
    ensures PositionOf(ns, ms[|ms| - 1].key) == |ns| - 1 <==> ns[|ns| - 1].key == ms[|ms| - 1].key
  {
    hide *;
    SortedLists(ms, cs, keys);
    PositionIs(ns, |ns| - 1);
    PositionFound(ms, ns, |ms| - 1);
  }

  /** sort_object leaves the pointer right exactly when the first and the last member stay in place. */
  lemma {:induction false} SortedTailExact(ms: seq<LiveMember>, tail: Tail, cs: bool, keys: set<string>)
    requires Ready(|ms|, tail) && ToldApart(keys, cs) && WellFormedMembers(EraseMembers(ms), keys)
    ensures Ready(|ms|, SortedTail(ms, tail, cs)) <==> EndsKept(EraseMembers(ms), cs)
  {
    hide *;
    if ms == [] {
      EmptyReady(tail, cs);
      assert EraseMembers(ms) == [];
    } else {
      SortedTailIs(ms, tail, cs);
      SortedEnds(ms, SortLive(ms, cs), cs, keys);
      LastPosition(ms, SortLive(ms, cs), cs, keys);
    }
  }

  /** An object whose first member sorting moves. */
  ghost predicate HeadMoves(ms: seq<Member>, cs: bool) {
    ms != [] && SortMembers(ms, cs) != [] && SortMembers(ms, cs)[0] != ms[0]
  }

  lemma HeadLosesTail(lms: seq<LiveMember>, tail: Tail, ms: seq<Member>, cs: bool, keys: set<string>)
    requires ToldApart(keys, cs) && WellFormedMembers(ms, keys) && HeadMoves(ms, cs) && EraseMembers(lms) == ms
    ensures SortedTail(lms, tail, cs) == NoTail
  {
    SortedLists(lms, cs, keys);
    var ns := SortLive(lms, cs);
    hide SortLive, SortMembers, WellFormedMembers, UniqueKeys;
    SameKeySameMember(ms, EraseMembers(ns), 0, 0);
    assert ms[0].key == lms[0].key && EraseMembers(ns)[0].key == ns[0].key;
  }

  /** For example {"b": 1, "a": 2}. */
  lemma {:induction false} BackwardsPair(cs: bool, keys: set<string>)
    requires keys == {"a", "b", "c"}
    ensures ToldApart(keys, cs)
    ensures var ms := [Member("b", Number(1)), Member("a", Number(2))];
            WellFormedMembers(ms, keys) && HeadMoves(ms, cs)
  {
    var ms := [Member("b", Number(1)), Member("a", Number(2))];
    assert Lower("a")[0] == 'a' && Lower("b")[0] == 'b' && Lower("c")[0] == 'c';
    assert CompareStrings("b", "a", cs) > 0 && CompareStrings(KeyOf(ms[0]), KeyOf(ms[1]), cs) > 0;
    SortMembersKeeps(ms, cs, keys);
    Sorting.SortPermutes(ms, KeyOf, cs);
  }

  // ----- what comparing does to a tree -----

  ghost predicate BelowLive(ms: seq<LiveMember>, a: Json) {
    forall i :: 0 <= i < |ms| ==> Erase(ms[i].value) < a
  }

  lemma {:induction false} SortLiveBelow(a: Json, ms: seq<LiveMember>, cs: bool)
    requires a == Object(EraseMembers(ms))
    ensures BelowLive(SortLive(ms, cs), a)
  {
    var ns := SortLive(ms, cs);
    SortErases(ms, cs);
    SortMembersBelow(a, cs);
    assert forall i :: 0 <= i < |ns| ==> EraseMembers(ns)[i].value == Erase(ns[i].value);
  }

  /** compare_json on its first argument: objects are sorted on the way, up to the first difference. */
  function CompareEffect(a: Live, b: Json, cs: bool): Live
    decreases Erase(a), 1, 0
  {
    match (Open(a), b)
    case (LiveArray(items), Array(ys)) =>
      assert forall i :: 0 <= i < |items| ==> Erase(items[i]) == EraseItems(items)[i];
      LiveArray(ItemsEffect(Erase(a), items, ys, cs))
    case (LiveObject(ms, tail), Object(ns)) =>
      SortLiveBelow(Erase(a), ms, cs);
      LiveObject(MembersEffect(Erase(a), SortLive(ms, cs), SortMembers(ns, cs), cs), SortedTail(ms, tail, cs))
    case _ => a
  }

  function ItemsEffect(ghost a: Json, xs: seq<Live>, ys: seq<Json>, cs: bool): (r: seq<Live>)
    requires forall i :: 0 <= i < |xs| ==> Erase(xs[i]) < a
    ensures |r| == |xs|
    decreases a, 0, |xs|
  {
    if xs == [] || ys == [] then xs
    else
      [CompareEffect(xs[0], ys[0], cs)]
      + (if CompareJson(Erase(xs[0]), ys[0], cs) then ItemsEffect(a, xs[1..], ys[1..], cs) else xs[1..])
  }

  function MembersEffect(ghost a: Json, xs: seq<LiveMember>, ys: seq<Member>, cs: bool): (r: seq<LiveMember>)
    requires BelowLive(xs, a)
    ensures |r| == |xs| && forall i :: 0 <= i < |r| ==> r[i].key == xs[i].key
    decreases a, 0, |xs|
  {
    if xs == [] || ys == [] || CompareStrings(xs[0].key, ys[0].key, cs) != 0 then xs
    else
      [LiveMember(xs[0].key, CompareEffect(xs[0].value, ys[0].value, cs))]
      + (if CompareJson(Erase(xs[0].value), ys[0].value, cs) then MembersEffect(a, xs[1..], ys[1..], cs) else xs[1..])
  }

  /** One node stands for what another stands for. */
  ghost predicate SameValue(x: Live, y: Live, keys: set<string>) {
    WellFormed(Erase(x), keys) && WellFormed(Erase(y), keys) && Meaning(Erase(x)) == Meaning(Erase(y))
  }

  lemma {:induction false} SameItems(xs: seq<Live>, ys: seq<Live>, keys: set<string>)
    requires |xs| == |ys| < SIZE_LIMIT && forall i :: 0 <= i < |xs| ==> SameValue(xs[i], ys[i], keys)
    ensures WellFormed(Array(EraseItems(ys)), keys) && Meaning(Array(EraseItems(xs))) == Meaning(Array(EraseItems(ys)))
  {
    assert forall i :: 0 <= i < |xs| ==> SameValue(xs[i], ys[i], keys);
    assert MeaningAll(EraseItems(xs)) == MeaningAll(EraseItems(ys));
  }

  lemma {:induction false} SameMemberValues(u: seq<Member>, v: seq<Member>, keys: set<string>)
    requires |u| == |v| && WellFormedMembers(u, keys)
    requires forall i :: 0 <= i < |u| ==> u[i].key == v[i].key && Meaning(u[i].value) == Meaning(v[i].value) && WellFormed(v[i].value, keys)
    ensures WellFormedMembers(v, keys) && MapOf(u) == MapOf(v)
  {
    hide Meaning, WellFormed, MapOf;
    assert UniqueKeys(v);
    MapOfUnique(u);
    MapOfUnique(v);
    assert KeysOf(u) == KeysOf(v);
  }

  ghost predicate AllSame(xs: seq<LiveMember>, ys: seq<LiveMember>, keys: set<string>) {
    |xs| == |ys| && forall i :: 0 <= i < |xs| ==> xs[i].key == ys[i].key && SameValue(xs[i].value, ys[i].value, keys)
  }

  lemma {:induction false} AllSameCons(x: LiveMember, y: LiveMember, xs: seq<LiveMember>, ys: seq<LiveMember>, keys: set<string>)
    requires x.key == y.key && SameValue(x.value, y.value, keys) && AllSame(xs, ys, keys)
    ensures AllSame([x] + xs, [y] + ys, keys)
  {
    hide SameValue;
  }

  lemma {:induction false} SameMembers(xs: seq<LiveMember>, ys: seq<LiveMember>, keys: set<string>)
    requires WellFormedMembers(EraseMembers(xs), keys) && AllSame(xs, ys, keys)
    ensures WellFormedMembers(EraseMembers(ys), keys) && MapOf(EraseMembers(xs)) == MapOf(EraseMembers(ys))
  {
    var (u, v) := (EraseMembers(xs), EraseMembers(ys));
    forall i | 0 <= i < |xs|
      ensures u[i].key == v[i].key && Meaning(u[i].value) == Meaning(v[i].value) && WellFormed(v[i].value, keys)
    {
      assert u[i] == EraseMember(xs[i]) && v[i] == EraseMember(ys[i]);
      assert SameValue(xs[i].value, ys[i].value, keys);
    }
    assert |u| == |v|;
    hide *;
    SameMemberValues(u, v, keys);
  }

  /** Comparing keeps what a tree stands for. */
  lemma {:induction false} CompareEffectKeeps(a: Live, b: Json, cs: bool, keys: set<string>)
    requires ToldApart(keys, cs) && WellFormed(Erase(a), keys)
    ensures SameValue(a, CompareEffect(a, b, cs), keys)
    decreases Erase(a), 1, 0
  {
    match (Open(a), b) {
      case (LiveArray(items), Array(ys)) =>
        assert forall i :: 0 <= i < |items| ==> Erase(items[i]) == EraseItems(items)[i];
        ItemsEffectKeeps(Erase(a), items, ys, cs, keys);
        SameItems(items, ItemsEffect(Erase(a), items, ys, cs), keys);
        hide ItemsEffect, Open;
      case (LiveObject(ms, tail), Object(ns)) => ObjectEffectKeeps(a, ms, tail, ns, cs, keys);
      case _ =>
    }
  }

  lemma {:induction false} ObjectEffectIs(a: Live, ms: seq<LiveMember>, tail: Tail, ns: seq<Member>, cs: bool)
    requires Open(a) == LiveObject(ms, tail)
    ensures Erase(a) == Object(EraseMembers(ms)) && BelowLive(SortLive(ms, cs), Erase(a))
    ensures CompareEffect(a, Object(ns), cs)
            == LiveObject(MembersEffect(Erase(a), SortLive(ms, cs), SortMembers(ns, cs), cs), SortedTail(ms, tail, cs))
  {
    SortLiveBelow(Erase(a), ms, cs);
    hide MembersEffect, SortLive, SortMembers, SortedTail;
  }

  lemma {:induction false} SameObjects(ms: seq<LiveMember>, ns: seq<LiveMember>, x: Live, y: Live, keys: set<string>)
    requires WellFormedMembers(EraseMembers(ms), keys) && WellFormedMembers(EraseMembers(ns), keys)
    requires MapOf(EraseMembers(ms)) == MapOf(EraseMembers(ns))
    requires Erase(x) == Object(EraseMembers(ms)) && Erase(y) == Object(EraseMembers(ns))
    ensures SameValue(x, y, keys)
  {
  }

  lemma {:induction false} ObjectEffectKeeps(a: Live, ms: seq<LiveMember>, tail: Tail, ns: seq<Member>, cs: bool, keys: set<string>)
    requires ToldApart(keys, cs) && WellFormed(Erase(a), keys) && Open(a) == LiveObject(ms, tail)
    ensures SameValue(a, CompareEffect(a, Object(ns), cs), keys)
    decreases Erase(a), 0
  {
    assert WellFormedMembers(EraseMembers(ms), keys);
    hide *;
    var sorted := SortLive(ms, cs);
    ObjectEffectIs(a, ms, tail, ns, cs);
    SortErases(ms, cs);
    SortMembersKeeps(EraseMembers(ms), cs, keys);
    MembersEffectKeeps(Erase(a), sorted, SortMembers(ns, cs), cs, keys);
    var after := MembersEffect(Erase(a), sorted, SortMembers(ns, cs), cs);
    SameMembers(sorted, after, keys);
    EraseObject(LiveObject(after, SortedTail(ms, tail, cs)));
    SameObjects(ms, after, a, CompareEffect(a, Object(ns), cs), keys);
  }

  lemma {:induction false} ItemsEffectKeeps(a: Json, xs: seq<Live>, ys: seq<Json>, cs: bool, keys: set<string>)
    requires ToldApart(keys, cs)
    requires forall i :: 0 <= i < |xs| ==> Erase(xs[i]) < a && WellFormed(Erase(xs[i]), keys)
    ensures forall i :: 0 <= i < |xs| ==> SameValue(xs[i], ItemsEffect(a, xs, ys, cs)[i], keys)
    decreases a, 0, |xs|
  {
    if xs != [] && ys != [] {
      CompareEffectKeeps(xs[0], ys[0], cs, keys);
      ItemsEffectKeeps(a, xs[1..], ys[1..], cs, keys);
    }
  }

  lemma {:induction false} AllSameSelf(xs: seq<LiveMember>, keys: set<string>)
    requires WellFormedMembers(EraseMembers(xs), keys)
    ensures AllSame(xs, xs, keys)
  {
    forall i | 0 <= i < |xs|
      ensures SameValue(xs[i].value, xs[i].value, keys)
    {
      assert EraseMembers(xs)[i] == EraseMember(xs[i]);
    }
    hide SameValue;
  }

  lemma {:induction false} MemberParts(xs: seq<LiveMember>, keys: set<string>)
    requires WellFormedMembers(EraseMembers(xs), keys) && xs != []
    ensures WellFormed(Erase(xs[0].value), keys) && WellFormedMembers(EraseMembers(xs[1..]), keys)
  {
    assert EraseMembers(xs)[0] == EraseMember(xs[0]);
    EraseCons(xs);
    TailMembers(EraseMembers(xs), true, keys);
    hide WellFormed, EraseMembers;
  }

  lemma {:induction false} MembersEffectStep(a: Json, xs: seq<LiveMember>, ys: seq<Member>, cs: bool)
    requires BelowLive(xs, a) && xs != []
    ensures Erase(xs[0].value) < a && BelowLive(xs[1..], a)
    ensures MembersEffect(a, xs, ys, cs) == xs
            || (ys != []
                && MembersEffect(a, xs, ys, cs)
                   == [LiveMember(xs[0].key, CompareEffect(xs[0].value, ys[0].value, cs))]
                      + if CompareJson(Erase(xs[0].value), ys[0].value, cs) then MembersEffect(a, xs[1..], ys[1..], cs) else xs[1..])
  {
    hide CompareEffect, CompareJson, CompareStrings;
  }

  lemma {:induction false} MembersEffectKeeps(a: Json, xs: seq<LiveMember>, ys: seq<Member>, cs: bool, keys: set<string>)
    requires ToldApart(keys, cs) && BelowLive(xs, a) && WellFormedMembers(EraseMembers(xs), keys)
    ensures AllSame(xs, MembersEffect(a, xs, ys, cs), keys)
    decreases a, 0, |xs|
  {
    hide *;
    AllSameSelf(xs, keys);
    if xs == [] {
      MembersEffectNothing(a, ys, cs);
    } else {
      MemberParts(xs, keys);
      MembersEffectStep(a, xs, ys, cs);
      if ys != [] {
        var y := LiveMember(xs[0].key, CompareEffect(xs[0].value, ys[0].value, cs));
        CompareEffectKeeps(xs[0].value, ys[0].value, cs, keys);
        AllSameSelf(xs[1..], keys);
        MembersEffectKeeps(a, xs[1..], ys[1..], cs, keys);
        assert xs == [xs[0]] + xs[1..];
        AllSameCons(xs[0], y, xs[1..], xs[1..], keys);
        AllSameCons(xs[0], y, xs[1..], MembersEffect(a, xs[1..], ys[1..], cs), keys);
      }
    }
  }

  lemma {:induction false} MembersEffectNothing(a: Json, ys: seq<Member>, cs: bool)
    requires BelowLive([], a)
    ensures MembersEffect(a, [], ys, cs) == []
  {
  }

  // ----- when comparing leaves the pointers right -----

  /** Sorting leaves the first and the last member of every object of the tree in place. */
  ghost predicate EndsKeptThroughout(j: Json, cs: bool) {
    match j
    case Array(items) => EndsKeptItems(items, cs)
    case Object(ms) => EndsKept(ms, cs) && EndsKeptBelow(ms, cs)
    case _ => true
  }

  ghost predicate EndsKeptItems(items: seq<Json>, cs: bool) {
    forall i :: 0 <= i < |items| ==> EndsKeptThroughout(items[i], cs)
  }

  ghost predicate EndsKeptBelow(ms: seq<Member>, cs: bool) {
    forall i :: 0 <= i < |ms| ==> assert ms[i].value < ms[i]; EndsKeptThroughout(ms[i].value, cs)
  }

  lemma {:induction false} SortedSettled(ms: seq<LiveMember>, cs: bool)
    requires SettledMembers(ms)
    ensures SettledMembers(SortLive(ms, cs))
  {
    Sorting.SortPermutes(ms, LiveKey, cs);
    var ns := SortLive(ms, cs);
    forall i | 0 <= i < |ns|
      ensures Settled(ns[i].value)
    {
      assert ns[i] in multiset(ms);
      var j :| 0 <= j < |ms| && ms[j] == ns[i];
    }
    hide SortLive;
  }

  lemma {:induction false} SortedEndsBelow(ms: seq<Member>, ns: seq<Member>, cs: bool)
    requires multiset(ms) == multiset(ns) && EndsKeptBelow(ms, cs)
    ensures EndsKeptBelow(ns, cs)
  {
    forall i | 0 <= i < |ns|
      ensures EndsKeptThroughout(ns[i].value, cs)
    {
      assert ns[i] in multiset(ms);
      var j :| 0 <= j < |ms| && ms[j] == ns[i];
    }
  }

  /** A comparison that finds two trees equal has sorted every object, and leaves every pointer right exactly when no sort has moved the
      first or the last member of its object. */
  lemma {:induction false} CompareEffectSettled(a: Live, b: Json, cs: bool, keys: set<string>)
    requires ToldApart(keys, cs) && WellFormed(Erase(a), keys) && Settled(a) && CompareJson(Erase(a), b, cs)
    ensures Settled(CompareEffect(a, b, cs)) <==> EndsKeptThroughout(Erase(a), cs)
    decreases Erase(a), 1, 0
  {
    OpenSettled(a);
    match (Open(a), b) {
      case (LiveArray(items), Array(ys)) =>
        assert forall i :: 0 <= i < |items| ==> Erase(items[i]) == EraseItems(items)[i];
        ItemsEffectSettled(Erase(a), items, ys, cs, keys);
        hide ItemsEffect, Open, CompareJson;
      case (LiveObject(ms, tail), Object(ns)) => ObjectEffectSettled(a, ms, tail, ns, cs, keys);
      case _ =>
    }
  }

  lemma {:induction false} ItemsEffectSettled(a: Json, xs: seq<Live>, ys: seq<Json>, cs: bool, keys: set<string>)
    requires ToldApart(keys, cs)
    requires forall i :: 0 <= i < |xs| ==> Erase(xs[i]) < a && WellFormed(Erase(xs[i]), keys)
    requires SettledItems(xs) && CompareItems(a, EraseItems(xs), ys, cs)
    ensures SettledItems(ItemsEffect(a, xs, ys, cs)) <==> EndsKeptItems(EraseItems(xs), cs)
    decreases a, 0, |xs|
  {
    if xs != [] {
      EraseFirst(xs);
      SettledFirst(xs);
      EndsFirst(EraseItems(xs), cs);
      assert CompareJson(Erase(xs[0]), ys[0], cs) && CompareItems(a, EraseItems(xs[1..]), ys[1..], cs);
      CompareEffectSettled(xs[0], ys[0], cs, keys);
      ItemsEffectSettled(a, xs[1..], ys[1..], cs, keys);
      var t := ItemsEffect(a, xs[1..], ys[1..], cs);
      var z := CompareEffect(xs[0], ys[0], cs);
      assert ItemsEffect(a, xs, ys, cs) == [z] + t;
      assert ([z] + t)[1..] == t;
      SettledFirst([z] + t);
    }
  }

  lemma {:induction false} EraseFirst(xs: seq<Live>)
    requires xs != []
    ensures EraseItems(xs)[0] == Erase(xs[0]) && EraseItems(xs)[1..] == EraseItems(xs[1..])
  {
    hide Erase;
  }

  lemma {:induction false} SettledFirst(xs: seq<Live>)
    requires xs != []
    ensures SettledItems(xs) <==> Settled(xs[0]) && SettledItems(xs[1..])
  {
    hide Settled;
    assert forall i :: 0 < i < |xs| ==> xs[i] == xs[1..][i - 1];
  }

  lemma {:induction false} EndsFirst(xs: seq<Json>, cs: bool)
    requires xs != []
    ensures EndsKeptItems(xs, cs) <==> EndsKeptThroughout(xs[0], cs) && EndsKeptItems(xs[1..], cs)
  {
    hide EndsKeptThroughout;
    assert forall i :: 0 < i < |xs| ==> xs[i] == xs[1..][i - 1];
  }

  lemma {:induction false} ObjectEffectSettled(a: Live, ms: seq<LiveMember>, tail: Tail, ns: seq<Member>, cs: bool, keys: set<string>)
    requires ToldApart(keys, cs) && WellFormed(Erase(a), keys) && Open(a) == LiveObject(ms, tail)
    requires Ready(|ms|, tail) && SettledMembers(ms) && CompareJson(Erase(a), Object(ns), cs)
    ensures Settled(CompareEffect(a, Object(ns), cs)) <==> EndsKeptThroughout(Erase(a), cs)
    decreases Erase(a), 0
  {
    var (es, sorted) := (EraseMembers(ms), SortLive(ms, cs));
    assert WellFormedMembers(es, keys) && Erase(a) == Object(es);
    assert EndsKeptThroughout(Erase(a), cs) <==> EndsKept(es, cs) && EndsKeptBelow(es, cs);
    assert CompareMembers(Erase(a), SortMembers(es, cs), SortMembers(ns, cs), cs) by {
      SortMembersBelow(Erase(a), cs);
    }
    SortLiveBelow(Erase(a), ms, cs);
    var after := MembersEffect(Erase(a), sorted, SortMembers(ns, cs), cs);
    assert Settled(LiveObject(after, SortedTail(ms, tail, cs)))
           <==> Ready(|after|, SortedTail(ms, tail, cs)) && SettledMembers(after);
    hide *;
    ObjectEffectIs(a, ms, tail, ns, cs);
    SortErases(ms, cs);
    SortMembersKeeps(es, cs, keys);
    SortedSettled(ms, cs);
    SortedTailExact(ms, tail, cs, keys);
    MembersEffectSettled(Erase(a), sorted, SortMembers(ns, cs), cs, keys);
    SortedLists(ms, cs, keys);
    if EndsKeptBelow(es, cs) {
      SortedEndsBelow(es, EraseMembers(sorted), cs);
    }
    if EndsKeptBelow(EraseMembers(sorted), cs) {
      SortedEndsBelow(EraseMembers(sorted), es, cs);
    }
  }

  lemma {:induction false} MembersAgree(a: Json, xs: seq<LiveMember>, ys: seq<Member>, cs: bool)
    requires BelowLive(xs, a) && Below(EraseMembers(xs), a) && xs != [] && CompareMembers(a, EraseMembers(xs), ys, cs)
    ensures Erase(xs[0].value) < a && BelowLive(xs[1..], a) && Below(EraseMembers(xs[1..]), a)
    ensures ys != [] && CompareJson(Erase(xs[0].value), ys[0].value, cs) && CompareMembers(a, EraseMembers(xs[1..]), ys[1..], cs)
    ensures MembersEffect(a, xs, ys, cs)
            == [LiveMember(xs[0].key, CompareEffect(xs[0].value, ys[0].value, cs))] + MembersEffect(a, xs[1..], ys[1..], cs)
  {
    EraseCons(xs);
    assert EraseMembers(xs)[0] == EraseMember(xs[0]);
    hide CompareEffect, CompareJson, CompareStrings, EraseMembers;
  }

  lemma {:induction false} MembersEffectSettled(a: Json, xs: seq<LiveMember>, ys: seq<Member>, cs: bool, keys: set<string>)
    requires ToldApart(keys, cs) && BelowLive(xs, a) && WellFormedMembers(EraseMembers(xs), keys) && SettledMembers(xs)
    requires Below(EraseMembers(xs), a) && CompareMembers(a, EraseMembers(xs), ys, cs)
    ensures SettledMembers(MembersEffect(a, xs, ys, cs)) <==> EndsKeptBelow(EraseMembers(xs), cs)
    decreases a, 0, |xs|
  {
    if xs != [] {
      EraseCons(xs);
      assert EraseMembers(xs)[0].value == Erase(xs[0].value);
      hide *;
      MembersAgree(a, xs, ys, cs);
      MemberParts(xs, keys);
      SettledCons(xs);
      EndsCons(EraseMembers(xs), cs);
      CompareEffectSettled(xs[0].value, ys[0].value, cs, keys);
      MembersEffectSettled(a, xs[1..], ys[1..], cs, keys);
      var z := LiveMember(xs[0].key, CompareEffect(xs[0].value, ys[0].value, cs));
      var t := MembersEffect(a, xs[1..], ys[1..], cs);
      assert ([z] + t)[1..] == t;
      SettledCons([z] + t);
    }
  }

  lemma {:induction false} SettledCons(ms: seq<LiveMember>)
    requires ms != []
    ensures SettledMembers(ms) <==> Settled(ms[0].value) && SettledMembers(ms[1..])
  {
    hide Settled;
    assert forall i :: 0 < i < |ms| ==> ms[i] == ms[1..][i - 1];
  }

  lemma {:induction false} EndsCons(ms: seq<Member>, cs: bool)
    requires ms != []
    ensures EndsKeptBelow(ms, cs) <==> EndsKeptThroughout(ms[0].value, cs) && EndsKeptBelow(ms[1..], cs)
  {
    hide EndsKeptThroughout;
    assert forall i :: 0 < i < |ms| ==> ms[i] == ms[1..][i - 1];
  }
}
