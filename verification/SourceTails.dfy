/** For which sources the patches of generate_merge_patch can be merged into the source itself. */
module SourceTails {
  import opened Text
  import opened Json
  import opened JsonOrder
  import opened JsonTails
  import opened SortTails
  import opened LivePatch
  import opened MergePatches
  import opened LiveMerge
  import Sorting
  import Rfc = Rfc7396

  /** Sorting leaves the first and the last member in place, in every object that is reached through objects. */
  ghost predicate ObjectsKeepEnds(j: Json) {
    match j
    case Object(ms) => EndsKept(ms, false) && MembersKeepEnds(ms)
    case _ => true
  }

  ghost predicate MembersKeepEnds(ms: seq<Member>) {
    forall i :: 0 <= i < |ms| ==> assert ms[i].value < ms[i]; ObjectsKeepEnds(ms[i].value)
  }

  // ----- marks: what comparing and generating leave as it is -----

  /** Whether an object has its pointer right once it has been sorted, and the same of the objects that are its members. */
  datatype Marks = NoObject | Marked(ready: bool, below: map<string, Marks>)

  ghost function LiveKeys(ms: seq<LiveMember>): set<string> {
    set i | 0 <= i < |ms| :: ms[i].key
  }

  lemma {:induction false} PositionIn(ms: seq<LiveMember>, k: string)
    requires k in LiveKeys(ms)
    ensures PositionOf(ms, k) < |ms| && ms[PositionOf(ms, k)].key == k
  {
    var i :| 0 <= i < |ms| && ms[i].key == k;
    assert EraseMembers(ms)[i].key == k;
  }

  lemma {:induction false} ChildBelow(a: Json, ms: seq<LiveMember>, i: nat)
    requires a == Object(EraseMembers(ms)) && i < |ms|
    ensures Erase(ms[i].value) < a
  {
    assert EraseMembers(ms)[i] == EraseMember(ms[i]);
  }

  ghost function MarksOf(l: Live): Marks
    decreases Erase(l), 2
  {
    match Open(l)
    case LiveObject(ms, tail) =>
      assert Erase(l) == Object(EraseMembers(ms));
      Marked(Ready(|ms|, SortedTail(ms, tail, false)), AllMarks(Erase(l), ms))
    case _ => NoObject
  }

  ghost function AllMarks(a: Json, ms: seq<LiveMember>): map<string, Marks>
    requires a == Object(EraseMembers(ms))
    decreases a, 1
  {
    map k | k in LiveKeys(ms) :: MarksAt(a, ms, k)
  }

  ghost function MarksAt(a: Json, ms: seq<LiveMember>, k: string): Marks
    requires a == Object(EraseMembers(ms)) && k in LiveKeys(ms)
    decreases a, 0
  {
    PositionIn(ms, k);
    ChildBelow(a, ms, PositionOf(ms, k));
    MarksOf(ms[PositionOf(ms, k)].value)
  }

  ghost predicate AllReady(m: Marks) {
    match m
    case NoObject => true
    case Marked(r, below) => r && forall k :: k in below ==> AllReady(below[k])
  }

  lemma {:induction false} MarksHere(l: Live, ms: seq<LiveMember>, tail: Tail)
    requires Open(l) == LiveObject(ms, tail)
    ensures Erase(l) == Object(EraseMembers(ms))
    ensures MarksOf(l) == Marked(Ready(|ms|, SortedTail(ms, tail, false)), AllMarks(Erase(l), ms))
  {
    assert Erase(l) == Object(EraseMembers(ms));
    hide SortedTail, AllMarks, LiveKeys, Erase, Open, EraseMembers, Ready;
  }

  lemma {:induction false} MarksBelow(a: Json, ms: seq<LiveMember>, i: nat)
    requires a == Object(EraseMembers(ms)) && UniqueKeys(EraseMembers(ms)) && i < |ms|
    ensures ms[i].key in AllMarks(a, ms) && AllMarks(a, ms)[ms[i].key] == MarksOf(ms[i].value)
  {
    PositionIs(ms, i);
    hide PositionOf, MarksOf, EraseMembers, UniqueKeys;
  }

  lemma {:induction false} MarksUnfold(l: Live, ms: seq<LiveMember>, tail: Tail)
    requires Open(l) == LiveObject(ms, tail) && UniqueKeys(EraseMembers(ms))
    ensures MarksOf(l).Marked? && MarksOf(l).ready == Ready(|ms|, SortedTail(ms, tail, false)) && MarksOf(l).below.Keys == LiveKeys(ms)
    ensures forall i :: 0 <= i < |ms| ==> ms[i].key in MarksOf(l).below && MarksOf(l).below[ms[i].key] == MarksOf(ms[i].value)
  {
    assert Erase(l) == Object(EraseMembers(ms)) ==> AllMarks(Erase(l), ms).Keys == LiveKeys(ms);
    hide *;
    MarksHere(l, ms, tail);
    forall i | 0 <= i < |ms|
      ensures ms[i].key in MarksOf(l).below && MarksOf(l).below[ms[i].key] == MarksOf(ms[i].value)
    {
      MarksBelow(Erase(l), ms, i);
    }
  }

  lemma {:induction false} MarksEqual(x: Live, xs: seq<LiveMember>, s: Tail, y: Live, ys: seq<LiveMember>, t: Tail)
    requires Open(x) == LiveObject(xs, s) && Open(y) == LiveObject(ys, t)
    requires UniqueKeys(EraseMembers(xs)) && UniqueKeys(EraseMembers(ys)) && LiveKeys(xs) == LiveKeys(ys)
    requires Ready(|xs|, SortedTail(xs, s, false)) == Ready(|ys|, SortedTail(ys, t, false))
    requires forall i, j :: 0 <= i < |xs| && 0 <= j < |ys| && xs[i].key == ys[j].key ==> MarksOf(xs[i].value) == MarksOf(ys[j].value)
    ensures MarksOf(x) == MarksOf(y)
  {
    hide MarksOf, Ready, SortedTail, UniqueKeys, EraseMembers, Open;
    MarksUnfold(x, xs, s);
    MarksUnfold(y, ys, t);
    var (m, n) := (MarksOf(x).below, MarksOf(y).below);
    forall k | k in m
      ensures m[k] == n[k]
    {
      var i :| 0 <= i < |xs| && xs[i].key == k;
      var j :| 0 <= j < |ys| && ys[j].key == k;
    }
    assert m == n;
  }

  /** What happens to a tree keeps its marks, and its right pointers when everything is ready to be sorted. */
  ghost predicate Kept(x: Live, y: Live) {
    MarksOf(x) == MarksOf(y) && (ObjectsSettled(x) && AllReady(MarksOf(x)) ==> ObjectsSettled(y))
  }

  ghost predicate AllKept(xs: seq<LiveMember>, ys: seq<LiveMember>) {
    |xs| == |ys| && forall i :: 0 <= i < |xs| ==> xs[i].key == ys[i].key && Kept(xs[i].value, ys[i].value)
  }

  // ----- the two orders are one -----

  lemma {:induction false} SameSigns(x: string, y: string, cs: bool, keys: set<string>)
    requires FoldOrderAgrees(keys) && x in keys && y in keys
    ensures CompareStrings(x, y, cs) <= 0 ==> CompareStrings(x, y, false) <= 0
    ensures CompareStrings(x, y, false) == 0 ==> x == y
  {
    CompareStringsOrder(x, y, x, cs);
    CompareStringsOrder(x, y, x, false);
    FoldOrderDistinct(keys);
  }

  /** Elements that are sorted by one comparison are sorted by the other. */
  lemma {:induction false} OneOrder<T>(xs: seq<T>, key: T -> string, cs: bool, keys: set<string>)
    requires FoldOrderAgrees(keys) && forall i :: 0 <= i < |xs| ==> key(xs[i]) in keys
    requires forall i, j :: 0 <= i < |xs| && 0 <= j < |xs| && key(xs[i]) == key(xs[j]) ==> xs[i] == xs[j]
    ensures Sorting.Sort(xs, key, cs) == Sorting.Sort(xs, key, false)
  {
    var (a, b) := (Sorting.Sort(xs, key, cs), Sorting.Sort(xs, key, false));
    Sorting.SortPermutes(xs, key, cs);
    Sorting.SortPermutes(xs, key, false);
    Sorting.SortSorts(xs, key, cs);
    Sorting.SortSorts(xs, key, false);
    hide Sorting.Sort;
    forall x | x in a
      ensures x in xs
    {
      assert x in multiset(a);
    }
    forall i, j | 0 <= i < |a| && 0 <= j < |a|
      ensures CompareStrings(key(a[i]), key(a[j]), cs) <= 0 ==> CompareStrings(key(a[i]), key(a[j]), false) <= 0
      ensures CompareStrings(key(a[i]), key(a[j]), false) == 0 ==> a[i] == a[j]
    {
      assert a[i] in xs && a[j] in xs;
      SameSigns(key(a[i]), key(a[j]), cs, keys);
    }
    hide CompareStrings, FoldOrderAgrees;
    Sorting.SortedUnique(a, b, key, false);
  }

  lemma {:induction false} LiveOneOrder(ms: seq<LiveMember>, tail: Tail, cs: bool, keys: set<string>)
    requires FoldOrderAgrees(keys) && WellFormedMembers(EraseMembers(ms), keys)
    ensures SortLive(ms, cs) == SortLive(ms, false) && SortedTail(ms, tail, cs) == SortedTail(ms, tail, false)
  {
    var es := EraseMembers(ms);
    assert forall i :: 0 <= i < |ms| ==> es[i].key == ms[i].key;
    hide Sorting.Sort, FoldOrderAgrees, EraseMembers, PositionOf;
    OneOrder(ms, LiveKey, cs, keys);
  }

  /** Members that are in order are left alone, and so is their pointer. */
  lemma {:induction false} SortedAgain(ms: seq<LiveMember>, tail: Tail)
    requires Ascending(EraseMembers(ms), false) && UniqueKeys(EraseMembers(ms))
    ensures SortLive(ms, false) == ms && SortedTail(ms, tail, false) == tail
  {
    var es := EraseMembers(ms);
    assert Sorting.StrictlyIncreasing(es, KeyOf, false);
    IncreasingErases(ms, false);
    SortHalves(ms, LiveKey, false);
    hide Sorting.Sort, Sorting.StrictlyIncreasing, EraseMembers, PositionOf, Ascending;
    if ms != [] && tail.TailAt? && tail.position < |ms| {
      PositionIs(ms, tail.position);
    }
  }

  // ----- a sorted object -----

  lemma {:induction false} KeysKept(xs: seq<LiveMember>, ys: seq<LiveMember>)
    requires |xs| == |ys| && forall i :: 0 <= i < |xs| ==> xs[i].key == ys[i].key
    ensures LiveKeys(xs) == LiveKeys(ys)
    ensures UniqueKeys(EraseMembers(xs)) ==> UniqueKeys(EraseMembers(ys))
    ensures Ascending(EraseMembers(xs), false) ==> Ascending(EraseMembers(ys), false)
  {
    var (es, fs) := (EraseMembers(xs), EraseMembers(ys));
    assert forall i :: 0 <= i < |xs| ==> es[i].key == fs[i].key;
    hide CompareStrings, EraseMembers;
    forall k | k in LiveKeys(xs) + LiveKeys(ys)
      ensures k in LiveKeys(xs) && k in LiveKeys(ys)
    {
      var i :| 0 <= i < |xs| && xs[i].key == k;
      assert ys[i].key == k;
    }
  }

  lemma {:induction false} KeysTell(ms: seq<LiveMember>)
    requires UniqueKeys(EraseMembers(ms))
    ensures forall x, y :: x in ms && y in ms && x.key == y.key ==> x == y
  {
    var es := EraseMembers(ms);
    assert forall i :: 0 <= i < |ms| ==> es[i].key == ms[i].key;
    hide EraseMembers;
    forall x, y | x in ms && y in ms && x.key == y.key
      ensures x == y
    {
      var i :| 0 <= i < |ms| && ms[i] == x;
      var j :| 0 <= j < |ms| && ms[j] == y;
      assert es[i].key == es[j].key;
    }
  }

  lemma {:induction false} SameElements<T>(xs: seq<T>, ys: seq<T>)
    requires multiset(xs) == multiset(ys)
    ensures forall x :: x in xs <==> x in ys
  {
    forall x
      ensures x in xs <==> x in ys
    {
      assert x in multiset(xs) <==> x in multiset(ys);
    }
  }

  lemma {:induction false} SortedFrom(ms: seq<LiveMember>, ns: seq<LiveMember>)
    requires UniqueKeys(EraseMembers(ms)) && multiset(ms) == multiset(ns)
    ensures LiveKeys(ms) == LiveKeys(ns)
    ensures forall j :: 0 <= j < |ns| ==> ns[j] in ms
    ensures forall i, j :: 0 <= i < |ms| && 0 <= j < |ns| && ms[i].key == ns[j].key ==> ms[i] == ns[j]
  {
    KeysTell(ms);
    SameElements(ms, ns);
    hide EraseMembers, UniqueKeys;
    assert LiveKeys(ms) == set m | m in ms :: m.key;
    assert LiveKeys(ns) == set m | m in ns :: m.key;
  }

  lemma {:induction false} ReadyBelow(x: Live, ms: seq<LiveMember>, tail: Tail)
    requires Open(x) == LiveObject(ms, tail) && UniqueKeys(EraseMembers(ms))
    requires ObjectsSettled(x) && AllReady(MarksOf(x))
    ensures Ready(|ms|, SortedTail(ms, tail, false))
    ensures forall m :: m in ms ==> ObjectsSettled(m.value) && AllReady(MarksOf(m.value))
  {
    OpenObjects(x);
    MarksUnfold(x, ms, tail);
    hide MarksOf, Open, SortedTail, UniqueKeys, EraseMembers, Ready;
  }

  lemma {:induction false} SettledIs(ms: seq<LiveMember>, tail: Tail)
    requires Ready(|ms|, tail) && forall i :: 0 <= i < |ms| ==> ObjectsSettled(ms[i].value)
    ensures ObjectsSettled(LiveObject(ms, tail))
  {
  }

  /** What sorting does to the members of an object. */
  lemma {:induction false} SortedOnce(ms: seq<LiveMember>, tail: Tail, cs: bool, keys: set<string>)
    requires FoldOrderAgrees(keys) && WellFormedMembers(EraseMembers(ms), keys)
    ensures var ns := SortLive(ms, cs);
            && UniqueKeys(EraseMembers(ms)) && multiset(ms) == multiset(ns)
            && UniqueKeys(EraseMembers(ns)) && Ascending(EraseMembers(ns), false)
            && SortedTail(ms, tail, cs) == SortedTail(ms, tail, false)
  {
    hide *;
    FoldOrderDistinct(keys);
    LiveOneOrder(ms, tail, cs, keys);
    SortedLists(ms, cs, keys);
    SortMembersKeeps(EraseMembers(ms), false, keys);
    SortedLists(ms, false, keys);
    LivePermutes(ms, cs);
  }

  lemma {:induction false} LivePermutes(ms: seq<LiveMember>, cs: bool)
    ensures multiset(ms) == multiset(SortLive(ms, cs))
  {
    Sorting.SortPermutes(ms, LiveKey, cs);
    hide Sorting.Sort;
  }

  /** Sorting an object and then keeping its members. */
  lemma {:induction false} SortedKeeps(x: Live, ms: seq<LiveMember>, tail: Tail, after: seq<LiveMember>, cs: bool, keys: set<string>)
    requires FoldOrderAgrees(keys) && WellFormedMembers(EraseMembers(ms), keys) && Open(x) == LiveObject(ms, tail)
    requires AllKept(SortLive(ms, cs), after)
    ensures Kept(x, LiveObject(after, SortedTail(ms, tail, cs)))
  {
    var (ns, t) := (SortLive(ms, cs), SortedTail(ms, tail, cs));
    var y := LiveObject(after, t);
    assert Open(y) == y && |ns| == |ms|;
    hide SortLive, SortedTail, MarksOf, ObjectsSettled, AllReady, Open, FoldOrderAgrees, WellFormedMembers, EraseMembers, UniqueKeys, Ascending,
         Ready, LiveKeys;
    SortedOnce(ms, tail, cs, keys);
    SortedFrom(ms, ns);
    KeysKept(ns, after);
    SortedAgain(after, t);
    MarksEqual(x, ms, tail, y, after, t);
    if ObjectsSettled(x) && AllReady(MarksOf(x)) {
      ReadyBelow(x, ms, tail);
      assert forall j :: 0 <= j < |ns| ==> ns[j] in ms;
      SettledIs(after, t);
    }
  }

  lemma {:induction false} KeptSelf(xs: seq<LiveMember>)
    ensures AllKept(xs, xs)
  {
    hide MarksOf, ObjectsSettled;
  }

  lemma {:induction false} KeptTwice(x: Live, y: Live, z: Live)
    requires Kept(x, y) && Kept(y, z)
    ensures Kept(x, z)
  {
    hide MarksOf, ObjectsSettled;
  }

  lemma {:induction false} KeptCons(x: LiveMember, y: LiveMember, xs: seq<LiveMember>, ys: seq<LiveMember>)
    requires x.key == y.key && Kept(x.value, y.value) && AllKept(xs, ys)
    ensures AllKept([x] + xs, [y] + ys)
  {
    hide Kept;
  }

  lemma {:induction false} KeptOther(x: Live, y: Live)
    requires !Open(x).LiveObject? && !Open(y).LiveObject?
    ensures Kept(x, y)
  {
    assert !y.LiveObject?;
  }

  // ----- comparing -----

  lemma {:induction false} ComparingKeeps(a: Live, b: Json, cs: bool, keys: set<string>)
    requires FoldOrderAgrees(keys) && WellFormed(Erase(a), keys)
    ensures Kept(a, CompareEffect(a, b, cs))
    decreases Erase(a), 1, 0
  {
    match (Open(a), b) {
      case (LiveArray(items), Array(ys)) => KeptOther(a, CompareEffect(a, b, cs));
      case (LiveObject(ms, tail), Object(ns)) =>
        assert WellFormedMembers(EraseMembers(ms), keys);
        hide *;
        ObjectEffectIs(a, ms, tail, ns, cs);
        SortErases(ms, cs);
        FoldOrderDistinct(keys);
        SortMembersKeeps(EraseMembers(ms), cs, keys);
        ComparingMembersKeeps(Erase(a), SortLive(ms, cs), SortMembers(ns, cs), cs, keys);
        SortedKeeps(a, ms, tail, MembersEffect(Erase(a), SortLive(ms, cs), SortMembers(ns, cs), cs), cs, keys);
      case _ => assert CompareEffect(a, b, cs) == a;
    }
  }

  lemma {:induction false} ComparingMembersKeeps(a: Json, xs: seq<LiveMember>, ys: seq<Member>, cs: bool, keys: set<string>)
    requires FoldOrderAgrees(keys) && BelowLive(xs, a) && WellFormedMembers(EraseMembers(xs), keys)
    ensures AllKept(xs, MembersEffect(a, xs, ys, cs))
    decreases a, 0, |xs|
  {
    hide *;
    KeptSelf(xs);
    if xs == [] {
      MembersEffectNothing(a, ys, cs);
    } else {
      MemberParts(xs, keys);
      MembersEffectStep(a, xs, ys, cs);
      if ys != [] {
        var y := LiveMember(xs[0].key, CompareEffect(xs[0].value, ys[0].value, cs));
        ComparingKeeps(xs[0].value, ys[0].value, cs, keys);
        KeptSelf(xs[1..]);
        ComparingMembersKeeps(a, xs[1..], ys[1..], cs, keys);
        assert xs == [xs[0]] + xs[1..];
        KeptCons(xs[0], y, xs[1..], xs[1..]);
        KeptCons(xs[0], y, xs[1..], MembersEffect(a, xs[1..], ys[1..], cs));
      }
    }
  }

  // ----- generating -----

  lemma {:induction false} GeneratingKeeps(l: Live, goal: Json, cs: bool, keys: set<string>)
    requires FoldOrderAgrees(keys) && WellFormed(Erase(l), keys)
    ensures Kept(l, SourceAfter(l, goal, cs))
    decreases goal, 1, 0
  {
    var o := Open(l);
    if o.LiveObject? && goal.Object? {
      var (ms, ns) := (o.members, SortMembers(goal.members, cs));
      assert WellFormedMembers(EraseMembers(ms), keys);
      SortMembersBelow(goal, cs);
      var after := MembersAfter(goal, SortLive(ms, cs), ns, cs);
      assert SourceAfter(l, goal, cs) == LiveObject(after, SortedTail(ms, o.tail, cs));
      hide *;
      FoldOrderDistinct(keys);
      SortErases(ms, cs);
      SortMembersKeeps(EraseMembers(ms), cs, keys);
      GeneratingMembersKeeps(goal, SortLive(ms, cs), ns, cs, keys);
      SortedKeeps(l, ms, o.tail, after, cs, keys);
    }
  }

  lemma {:induction false} MembersAfterStep(b: Json, xs: seq<LiveMember>, ys: seq<Member>, cs: bool)
    requires Below(ys, b) && xs != [] && ys != []
    ensures ys[0].value < b && Below(ys[1..], b)
    ensures var diff := StrCmp(xs[0].key, ys[0].key);
            MembersAfter(b, xs, ys, cs)
            == if diff < 0 then [xs[0]] + MembersAfter(b, xs[1..], ys, cs)
               else if diff > 0 then MembersAfter(b, xs, ys[1..], cs)
               else [LiveMember(xs[0].key, MemberAfter(b, xs[0].value, ys[0].value, cs))] + MembersAfter(b, xs[1..], ys[1..], cs)
  {
    hide MemberAfter, StrCmp;
  }

  lemma {:induction false} GeneratingMembersKeeps(b: Json, xs: seq<LiveMember>, ys: seq<Member>, cs: bool, keys: set<string>)
    requires FoldOrderAgrees(keys) && Below(ys, b) && WellFormedMembers(EraseMembers(xs), keys)
    ensures AllKept(xs, MembersAfter(b, xs, ys, cs))
    decreases b, 0, |xs| + |ys|
  {
    KeptSelf(xs);
    if xs != [] && ys != [] {
      hide *;
      MembersAfterStep(b, xs, ys, cs);
      MemberParts(xs, keys);
      KeptSelf([xs[0]]);
      assert xs == [xs[0]] + xs[1..];
      if StrCmp(xs[0].key, ys[0].key) < 0 {
        GeneratingMembersKeeps(b, xs[1..], ys, cs, keys);
        KeptFirst(xs[0]);
        KeptCons(xs[0], xs[0], xs[1..], MembersAfter(b, xs[1..], ys, cs));
      } else if StrCmp(xs[0].key, ys[0].key) > 0 {
        GeneratingMembersKeeps(b, xs, ys[1..], cs, keys);
      } else {
        GeneratingMemberKeeps(b, xs[0].value, ys[0].value, cs, keys);
        GeneratingMembersKeeps(b, xs[1..], ys[1..], cs, keys);
        KeptCons(xs[0], LiveMember(xs[0].key, MemberAfter(b, xs[0].value, ys[0].value, cs)), xs[1..], MembersAfter(b, xs[1..], ys[1..], cs));
      }
    }
  }

  lemma {:induction false} KeptFirst(x: LiveMember)
    ensures Kept(x.value, x.value)
  {
    hide MarksOf, ObjectsSettled;
  }

  lemma {:induction false} GeneratingMemberKeeps(b: Json, x: Live, y: Json, cs: bool, keys: set<string>)
    requires FoldOrderAgrees(keys) && y < b && WellFormed(Erase(x), keys)
    ensures Kept(x, MemberAfter(b, x, y, cs))
    decreases b, 0, 0
  {
    var compared := CompareEffect(x, y, cs);
    assert MemberAfter(b, x, y, cs) == if CompareJson(Erase(x), y, cs) then compared else SourceAfter(compared, y, false);
    hide *;
    FoldOrderDistinct(keys);
    ComparingKeeps(x, y, cs, keys);
    CompareEffectKeeps(x, y, cs, keys);
    SameValueIs(x, compared, keys);
    if !CompareJson(Erase(x), y, cs) {
      GeneratingKeeps(compared, y, false, keys);
      KeptTwice(x, compared, SourceAfter(compared, y, false));
    }
  }

  // ----- marks of a source that has just been built -----

  lemma {:induction false} FreshMembers(ms: seq<Member>) returns (lms: seq<LiveMember>)
    ensures Open(Fresh(Object(ms))) == LiveObject(lms, LastOf(|ms|)) && EraseMembers(lms) == ms && |lms| == |ms|
    ensures forall i :: 0 <= i < |ms| ==> lms[i] == LiveMember(ms[i].key, Fresh(ms[i].value))
  {
    lms := Open(Fresh(Object(ms))).members;
  }

  lemma {:induction false} AllReadyIs(m: Marks, lms: seq<LiveMember>)
    requires m.Marked? && m.below.Keys == LiveKeys(lms)
    requires forall i :: 0 <= i < |lms| ==> lms[i].key in m.below && m.below[lms[i].key] == MarksOf(lms[i].value)
    ensures AllReady(m) <==> m.ready && forall i :: 0 <= i < |lms| ==> AllReady(MarksOf(lms[i].value))
  {
    hide MarksOf;
    if m.ready && forall i :: 0 <= i < |lms| ==> AllReady(MarksOf(lms[i].value)) {
      forall k | k in m.below
        ensures AllReady(m.below[k])
      {
        var i :| 0 <= i < |lms| && lms[i].key == k;
      }
    }
  }

  lemma {:induction false} WellFormedUnique(ms: seq<Member>, keys: set<string>)
    requires WellFormedMembers(ms, keys)
    ensures UniqueKeys(ms) && forall i :: 0 <= i < |ms| ==> ms[i].key in keys && WellFormed(ms[i].value, keys)
  {
  }

  /** A new tree is ready to be sorted exactly when sorting keeps the ends of its objects. */
  lemma {:induction false} FreshMarks(j: Json, keys: set<string>)
    requires CaseDistinct(keys) && WellFormed(j, keys)
    ensures AllReady(MarksOf(Fresh(j))) <==> ObjectsKeepEnds(j)
    decreases j
  {
    if j.Object? {
      var ms := j.members;
      assert j == Object(ms) && WellFormedMembers(ms, keys) && ToldApart(keys, false);
      assert ObjectsKeepEnds(j) <==> EndsKept(ms, false) && MembersKeepEnds(ms);
      assert MembersKeepEnds(ms) <==> forall i :: 0 <= i < |ms| ==> ObjectsKeepEnds(ms[i].value);
      assert Ready(|ms|, LastOf(|ms|));
      forall i | 0 <= i < |ms|
        ensures AllReady(MarksOf(Fresh(ms[i].value))) <==> ObjectsKeepEnds(ms[i].value)
      {
        assert ms[i].value < ms[i];
        FreshMarks(ms[i].value, keys);
      }
      hide *;
      WellFormedUnique(ms, keys);
      var lms := FreshMembers(ms);
      MarksUnfold(Fresh(j), lms, LastOf(|ms|));
      AllReadyIs(MarksOf(Fresh(j)), lms);
      SortedTailExact(lms, LastOf(|ms|), false, keys);
    }
  }

  // ----- a target that is lost -----

  ghost function WrongMember(ms: seq<Member>): (i: nat)
    requires !MembersKeepEnds(ms)
    ensures i < |ms| && ms[i].value < ms[i] && !ObjectsKeepEnds(ms[i].value)
  {
    var i: nat :| i < |ms| && !ObjectsKeepEnds(ms[i].value);
    assert ms[i].value < ms[i];
    i
  }

  /** The source with a new member in an object whose ends sorting does not keep. */
  ghost function LostGoal(from: Json, n: string): (r: Json)
    requires !ObjectsKeepEnds(from)
    ensures r.Object?
  {
    if !EndsKept(from.members, false) then Object(from.members + [Member(n, Number(1))])
    else
      var i := WrongMember(from.members);
      Object(from.members[i := Member(from.members[i].key, LostGoal(from.members[i].value, n))])
  }

  /** The patch that adds this member. */
  ghost function Addition(from: Json, n: string): (r: Json)
    requires !ObjectsKeepEnds(from)
    ensures r.Object?
  {
    if !EndsKept(from.members, false) then Object([Member(n, Number(1))])
    else
      var i := WrongMember(from.members);
      Object([Member(from.members[i].key, Addition(from.members[i].value, n))])
  }

  /** What leads from one value to another. */
  ghost predicate Leads(x: Value, patch: Value, y: Value) {
    x != y && Rfc.Diff(x, y) == patch && Rfc.NullsKept(Some(x), y)
  }

  lemma {:induction false} UpdateLeads(fm: map<string, Value>, k: string, patch: Value, y: Value)
    requires k in fm && y != VNull && Leads(fm[k], patch, y)
    ensures Leads(VObject(fm), VObject(map[k := patch]), VObject(fm[k := y]))
  {
    var tm := fm[k := y];
    assert fm[k] != tm[k];
    var dm := Rfc.Diff(VObject(fm), VObject(tm)).members;
    forall q
      ensures q in dm <==> q == k
      ensures q == k ==> q in dm && dm[q] == patch
    {
      Rfc.DiffAt(fm, tm, q);
    }
    hide Rfc.Diff;
    assert dm == map[k := patch];
    forall q | q in tm && q != k
      ensures if tm[q] == VNull then Rfc.Lookup(fm, q) == Some(VNull) else Rfc.NullsKept(Rfc.Lookup(fm, q), tm[q])
    {
      Rfc.NullsKeptSelf(tm[q]);
    }
  }

  lemma {:induction false} AdditionLeads(fm: map<string, Value>, n: string, x: Value)
    requires n !in fm && x.VNumber?
    ensures Leads(VObject(fm), VObject(map[n := x]), VObject(fm[n := x]))
  {
    var tm := fm[n := x];
    assert n in tm;
    DiffOfAddition(fm, n, x);
    hide Rfc.Diff;
    forall q | q in tm
      ensures if tm[q] == VNull then Rfc.Lookup(fm, q) == Some(VNull) else Rfc.NullsKept(Rfc.Lookup(fm, q), tm[q])
    {
      if q in fm {
        Rfc.NullsKeptSelf(tm[q]);
      }
    }
  }

  lemma {:induction false} OneMeaning(k: string, w: Json)
    ensures Meaning(Object([Member(k, w)])) == VObject(map[k := Meaning(w)])
  {
    var ms := [Member(k, w)];
    assert ms[1..] == [] && MapOf(ms[1..]) == map[];
    assert MapOf(ms) == map[][k := Meaning(w)];
  }

  lemma {:induction false} MeaningOfObject(ms: seq<Member>)
    ensures Meaning(Object(ms)) == VObject(MapOf(ms))
  {
  }

  lemma {:induction false} UpdatedWellFormed(ms: seq<Member>, i: nat, v: Json, keys: set<string>)
    requires WellFormedMembers(ms, keys) && i < |ms| && WellFormed(v, keys)
    ensures WellFormed(Object(ms[i := Member(ms[i].key, v)]), keys)
    ensures MapOf(ms[i := Member(ms[i].key, v)]) == MapOf(ms)[ms[i].key := Meaning(v)]
    ensures ms[i].key in MapOf(ms) && MapOf(ms)[ms[i].key] == Meaning(ms[i].value)
  {
    MapOfUpdate(ms, i, v);
    MapOfUnique(ms);
    hide MapOf;
  }

  lemma {:induction false} KeysOnly(ms: seq<Member>, n: string, keys: set<string>)
    requires WellFormedMembers(ms, keys) && n !in keys
    ensures n !in MapOf(ms)
  {
    MapOfUnique(ms);
    hide MapOf;
  }

  lemma {:induction false} LostGoalIs(from: Json, n: string, keys: set<string>)
    requires !ObjectsKeepEnds(from) && WellFormed(from, keys) && n !in keys
    ensures WellFormed(LostGoal(from, n), keys + {n}) && WellFormed(Addition(from, n), keys + {n})
    ensures Leads(Meaning(from), Meaning(Addition(from, n)), Meaning(LostGoal(from, n)))
    decreases from
  {
    var (ms, all) := (from.members, keys + {n});
    assert from == Object(ms) && WellFormedMembers(ms, keys) && WellFormed(Number(1), all) && Meaning(Number(1)) == VNumber(1);
    MoreKeys(from, keys, all);
    assert WellFormedMembers(ms, all);
    if !EndsKept(ms, false) {
      assert LostGoal(from, n) == Object(ms + [Member(n, Number(1))]) && Addition(from, n) == Object([Member(n, Number(1))]);
      hide *;
      KeysOnly(ms, n, keys);
      AddedMember(ms, n, Number(1), all);
      OneMemberWellFormed(n, Number(1), all);
      OneMeaning(n, Number(1));
      AdditionLeads(MapOf(ms), n, VNumber(1));
    } else {
      var i := WrongMember(ms);
      var (k, x) := (ms[i].key, ms[i].value);
      LostGoalIs(x, n, keys);
      var (g, w) := (LostGoal(x, n), Addition(x, n));
      assert LostGoal(from, n) == Object(ms[i := Member(k, g)]) && Addition(from, n) == Object([Member(k, w)]) && k in all;
      assert Meaning(g) != VNull;
      hide *;
      UpdatedWellFormed(ms, i, g, all);
      OneMemberWellFormed(k, w, all);
      OneMeaning(k, w);
      MeaningOfObject(ms);
      MeaningOfObject(ms[i := Member(k, g)]);
      UpdateLeads(MapOf(ms), k, Meaning(w), Meaning(g));
    }
  }

  lemma {:induction false} NumberIs(j: Json, x: int)
    requires Meaning(j) == VNumber(x)
    ensures j == Number(x)
  {
  }

  /** Only one patch stands for the addition. */
  lemma {:induction false} AdditionOnly(p: Json, from: Json, n: string, keys: set<string>)
    requires !ObjectsKeepEnds(from) && WellFormed(p, keys) && Meaning(p) == Meaning(Addition(from, n))
    ensures p == Addition(from, n)
    decreases from
  {
    if !EndsKept(from.members, false) {
      OneMeaning(n, Number(1));
      SingleMember(p, n, VNumber(1), keys);
      NumberIs(p.members[0].value, 1);
    } else {
      var i := WrongMember(from.members);
      var (k, x) := (from.members[i].key, from.members[i].value);
      OneMeaning(k, Addition(x, n));
      SingleMember(p, k, Meaning(Addition(x, n)), keys);
      assert p.members[0].value < p.members[0] && WellFormed(p.members[0].value, keys);
      AdditionOnly(p.members[0].value, x, n, keys);
    }
  }

  // ----- losing it -----

  lemma {:induction false} MembersAfterAt(b: Json, xs: seq<LiveMember>, ys: seq<Member>, i: nat, j: nat, cs: bool)
    requires Below(ys, b) && i < |xs| && j < |ys| && xs[i].key == ys[j].key && ys[j].value < b
    requires Ascending(EraseMembers(xs), true) && Ascending(ys, true)
    ensures i < |MembersAfter(b, xs, ys, cs)|
    ensures MembersAfter(b, xs, ys, cs)[i] == LiveMember(xs[i].key, MemberAfter(b, xs[i].value, ys[j].value, cs))
    decreases i + j
  {
    hide *;
    MembersAfterStep(b, xs, ys, cs);
    HeadsOf(xs, ys, i, j);
    EraseCons(xs);
    TailAscends(EraseMembers(xs));
    TailAscends(ys);
    var diff := StrCmp(xs[0].key, ys[0].key);
    if diff < 0 {
      MembersAfterAt(b, xs[1..], ys, i - 1, j, cs);
    } else if diff > 0 {
      MembersAfterAt(b, xs, ys[1..], i, j - 1, cs);
    } else if i > 0 {
      MembersAfterAt(b, xs[1..], ys[1..], i - 1, j - 1, cs);
    }
  }

  lemma {:induction false} TailAscends(ms: seq<Member>)
    requires ms != [] && Ascending(ms, true)
    ensures Ascending(ms[1..], true)
  {
    hide CompareStrings;
  }

  /** How the heads of two ascending lists stand to each other, from a key that both have. */
  lemma {:induction false} HeadsOf(xs: seq<LiveMember>, ys: seq<Member>, i: nat, j: nat)
    requires i < |xs| && j < |ys| && xs[i].key == ys[j].key && Ascending(EraseMembers(xs), true) && Ascending(ys, true)
    ensures StrCmp(xs[0].key, ys[0].key) < 0 ==> i > 0
    ensures StrCmp(xs[0].key, ys[0].key) > 0 ==> j > 0
    ensures StrCmp(xs[0].key, ys[0].key) == 0 ==> (i == 0 <==> j == 0)
  {
    var es := EraseMembers(xs);
    assert es[0].key == xs[0].key && es[i].key == xs[i].key;
    assert i > 0 ==> StrCmp(xs[0].key, xs[i].key) < 0;
    assert j > 0 ==> StrCmp(ys[0].key, ys[j].key) < 0;
    StrCmpAntisymmetric(xs[0].key, ys[0].key);
    StrCmpZero(xs[0].key, ys[0].key);
    StrCmpZero(xs[0].key, xs[0].key);
    StrCmpZero(xs[i].key, xs[i].key);
    StrCmpAntisymmetric(xs[0].key, xs[i].key);
    StrCmpAntisymmetric(ys[0].key, ys[j].key);
  }

  lemma {:induction false} OpenObject(l: Live)
    requires Meaning(Erase(l)).VObject?
    ensures Open(l).LiveObject? && Erase(l) == Object(EraseMembers(Open(l).members))
    ensures Meaning(Erase(l)) == VObject(MapOf(EraseMembers(Open(l).members)))
  {
  }

  lemma {:induction false} SourceObject(l: Live, ms: seq<LiveMember>, tail: Tail, goal: Json, s: bool)
    requires Open(l) == LiveObject(ms, tail) && goal.Object?
    ensures Below(SortMembers(goal.members, s), goal)
    ensures SourceAfter(l, goal, s)
            == LiveObject(MembersAfter(goal, SortLive(ms, s), SortMembers(goal.members, s), s), SortedTail(ms, tail, s))
  {
    SortMembersBelow(goal, s);
    hide MembersAfter, SortLive, SortMembers, SortedTail;
  }

  /** The sorted goal has its members somewhere. */
  lemma {:induction false} GoalMember(ms: seq<Member>, i: nat, s: bool) returns (j: nat)
    requires i < |ms|
    ensures j < |SortMembers(ms, s)| && SortMembers(ms, s)[j] == ms[i]
  {
    Sorting.SortPermutes(ms, KeyOf, s);
    hide Sorting.Sort;
    SameElements(ms, SortMembers(ms, s));
    assert ms[i] in SortMembers(ms, s);
    j :| 0 <= j < |SortMembers(ms, s)| && SortMembers(ms, s)[j] == ms[i];
  }

  lemma {:induction false} EraseAt(ms: seq<LiveMember>, i: nat)
    requires i < |ms|
    ensures EraseMembers(ms)[i] == Member(ms[i].key, Erase(ms[i].value))
  {
  }

  lemma {:induction false} MemberWithKey(ms: seq<Member>, k: string) returns (i: nat)
    requires UniqueKeys(ms) && k in MapOf(ms)
    ensures i < |ms| && ms[i].key == k && MapOf(ms)[k] == Meaning(ms[i].value)
  {
    MapOfUnique(ms);
    i :| 0 <= i < |ms| && ms[i].key == k;
  }

  lemma {:induction false} SameMarksBelow(l: Live, ms: seq<LiveMember>, tail: Tail, fs: seq<Member>, b: nat, i: nat)
    requires Open(l) == LiveObject(ms, tail) && UniqueKeys(EraseMembers(ms)) && UniqueKeys(fs) && MarksOf(l) == MarksOf(Fresh(Object(fs)))
    requires b < |ms| && i < |fs| && ms[b].key == fs[i].key
    ensures MarksOf(ms[b].value) == MarksOf(Fresh(fs[i].value))
  {
    hide *;
    MarksUnfold(l, ms, tail);
    var lms := FreshMembers(fs);
    MarksUnfold(Fresh(Object(fs)), lms, LastOf(|fs|));
    assert lms[i] == LiveMember(fs[i].key, Fresh(fs[i].value));
  }

  lemma {:induction false} SamePlace(ms: seq<Member>, fs: seq<Member>, i: nat) returns (b: nat)
    requires UniqueKeys(ms) && UniqueKeys(fs) && MapOf(ms) == MapOf(fs) && i < |fs|
    ensures b < |ms| && ms[b].key == fs[i].key && Meaning(ms[b].value) == Meaning(fs[i].value)
  {
    hide *;
    MapOfUnique(fs);
    b := MemberWithKey(ms, fs[i].key);
  }

  /** The member of the live source that a member of the source is, once it has been sorted. */
  lemma {:induction false} SourceMember(l: Live, ms: seq<LiveMember>, tail: Tail, from: Json, i: nat, s: bool, keys: set<string>)
    returns (a: nat)
    requires WellFormed(Erase(l), keys) && Open(l) == LiveObject(ms, tail)
    requires from.Object? && WellFormed(from, keys) && i < |from.members|
    requires Meaning(Erase(l)) == Meaning(from) && MarksOf(l) == MarksOf(Fresh(from))
    ensures a < |ms| && SortLive(ms, s)[a].key == from.members[i].key
    ensures var c := SortLive(ms, s)[a].value;
            WellFormed(Erase(c), keys) && Meaning(Erase(c)) == Meaning(from.members[i].value)
            && MarksOf(c) == MarksOf(Fresh(from.members[i].value))
  {
    var (fs, es) := (from.members, EraseMembers(ms));
    assert from == Object(fs) && Erase(l) == Object(es);
    assert WellFormedMembers(fs, keys) && WellFormedMembers(es, keys);
    hide *;
    MeaningOfObject(fs);
    MeaningOfObject(es);
    WellFormedUnique(fs, keys);
    WellFormedUnique(es, keys);
    var b := SamePlace(es, fs, i);
    EraseAt(ms, b);
    SameMarksBelow(l, ms, tail, fs, b, i);
    a := SortedPlace(ms, b, s);
  }

  lemma {:induction false} SortedPlace(ms: seq<LiveMember>, b: nat, s: bool) returns (a: nat)
    requires b < |ms|
    ensures a < |SortLive(ms, s)| && SortLive(ms, s)[a] == ms[b]
  {
    hide SortLive;
    LivePermutes(ms, s);
    SameElements(ms, SortLive(ms, s));
    assert ms[b] in SortLive(ms, s);
    a :| 0 <= a < |SortLive(ms, s)| && SortLive(ms, s)[a] == ms[b];
  }

  /** A source that still has the marks of the source it was built as, when the patch is generated for a target that is lost. */
  ghost predicate Loser(l: Live, from: Json, n: string, keys: set<string>) {
    && !ObjectsKeepEnds(from) && WellFormed(from, keys) && n !in keys
    && WellFormed(Erase(l), keys) && Meaning(Erase(l)) == Meaning(from) && MarksOf(l) == MarksOf(Fresh(from))
  }

  lemma {:induction false} ReadyMark(from: Json, keys: set<string>)
    requires CaseDistinct(keys) && WellFormed(from, keys) && from.Object?
    ensures MarksOf(Fresh(from)).Marked? && (MarksOf(Fresh(from)).ready <==> EndsKept(from.members, false))
  {
    var fs := from.members;
    assert from == Object(fs) && WellFormedMembers(fs, keys) && Ready(|fs|, LastOf(|fs|)) && ToldApart(keys, false);
    hide *;
    var lms := FreshMembers(fs);
    WellFormedUnique(fs, keys);
    MarksUnfold(Fresh(from), lms, LastOf(|fs|));
    SortedTailExact(lms, LastOf(|fs|), false, keys);
  }

  /** The object that generating leaves of an object, with a pointer that is right or wrong as its mark says. */
  lemma {:induction false} SourceTop(l: Live, ms: seq<LiveMember>, tail: Tail, goal: Json, s: bool, keys: set<string>)
    requires FoldOrderAgrees(keys) && WellFormed(Erase(l), keys) && Open(l) == LiveObject(ms, tail) && goal.Object?
    ensures Below(SortMembers(goal.members, s), goal)
    ensures var r := SourceAfter(l, goal, s);
            && r.LiveObject? && |r.members| == |ms| && r.members == MembersAfter(goal, SortLive(ms, s), SortMembers(goal.members, s), s)
            && (Ready(|r.members|, r.tail) <==> MarksOf(l).Marked? && MarksOf(l).ready)
            && WellFormed(Erase(r), keys)
  {
    assert WellFormedMembers(EraseMembers(ms), keys);
    var r := SourceAfter(l, goal, s);
    assert AllKept(SortLive(ms, s), r.members) ==> |r.members| == |ms|;
    assert SameValue(l, r, keys) ==> WellFormed(Erase(r), keys);
    hide *;
    FoldOrderDistinct(keys);
    SourceObject(l, ms, tail, goal, s);
    SortErases(ms, s);
    SortMembersKeeps(EraseMembers(ms), s, keys);
    GeneratingMembersKeeps(goal, SortLive(ms, s), SortMembers(goal.members, s), s, keys);
    LiveOneOrder(ms, tail, s, keys);
    WellFormedUnique(EraseMembers(ms), keys);
    MarksUnfold(l, ms, tail);
    SourceAfterKeeps(l, goal, s, keys);
  }

  lemma {:induction false} FewerKeys(keys: set<string>, more: set<string>)
    requires FoldOrderAgrees(more) && keys <= more
    ensures FoldOrderAgrees(keys)
  {
  }

  lemma {:induction false} SourceLosesAt(l: Live, from: Json, n: string, s: bool, cs: bool, keys: set<string>)
    requires FoldOrderAgrees(keys + {n}) && Loser(l, from, n, keys)
    ensures !MergesRight(SourceAfter(l, LostGoal(from, n), s), Addition(from, n), cs)
    decreases from, 1
  {
    var (fs, all, goal) := (from.members, keys + {n}, LostGoal(from, n));
    assert from == Object(fs);
    assert !EndsKept(fs, false) ==> Addition(from, n) == Object([Member(n, Number(1))]);
    MeaningOfObject(fs);
    OpenObject(l);
    var (ms, tail) := (Open(l).members, Open(l).tail);
    assert Open(l) == LiveObject(ms, tail);
    FewerKeys(keys, all);
    FoldOrderDistinct(all);
    FoldOrderDistinct(keys);
    if !EndsKept(fs, false) {
      assert n !in keys && WellFormed(from, keys) && WellFormed(Erase(l), keys) && MarksOf(l) == MarksOf(Fresh(from));
      hide *;
      ReadyMark(from, keys);
      SourceTop(l, ms, tail, goal, s, keys);
      TopLoses(SourceAfter(l, goal, s), n, cs, keys);
    } else {
      hide *;
      SourceLosesBelow(l, ms, tail, from, n, s, cs, keys);
    }
  }

  lemma {:induction false} Differs(x: Json, g: Json, y: Live, cs: bool, keys: set<string>)
    requires ToldApart(keys, cs) && WellFormed(g, keys) && WellFormed(Erase(y), keys)
    requires Meaning(Erase(y)) == Meaning(x) != Meaning(g)
    ensures !CompareJson(Erase(y), g, cs)
  {
    CompareJsonMeaning(Erase(y), g, cs, keys);
    hide *;
  }

  lemma {:induction false} ChildLoser(c: Live, x: Json, n: string, s: bool, cs: bool, b: Json, keys: set<string>)
    requires FoldOrderAgrees(keys + {n}) && Loser(c, x, n, keys) && LostGoal(x, n) < b
    ensures !MergesRight(MemberAfter(b, c, LostGoal(x, n), s), Addition(x, n), cs)
    decreases x, 2
  {
    var (all, g, compared) := (keys + {n}, LostGoal(x, n), CompareEffect(c, LostGoal(x, n), s));
    assert MemberAfter(b, c, g, s) == if CompareJson(Erase(c), g, s) then compared else SourceAfter(compared, g, false);
    assert !ObjectsKeepEnds(x) && WellFormed(x, keys) && n !in keys && WellFormed(Erase(c), keys);
    assert Meaning(Erase(c)) == Meaning(x) && MarksOf(c) == MarksOf(Fresh(x));
    LostGoalIs(x, n, keys);
    assert Meaning(x) != Meaning(g);
    FewerKeys(keys, all);
    FoldOrderDistinct(all);
    FoldOrderDistinct(keys);
    assert Kept(c, compared) ==> MarksOf(compared) == MarksOf(c);
    assert Loser(compared, x, n, keys)
      <== MarksOf(compared) == MarksOf(c) && WellFormed(Erase(compared), keys) && Meaning(Erase(compared)) == Meaning(Erase(c));
    hide *;
    MoreKeys(Erase(c), keys, all);
    Differs(x, g, c, s, all);
    ComparingKeeps(c, g, s, keys);
    CompareEffectKeeps(c, g, s, keys);
    SameValueIs(c, compared, keys);
    SourceLosesAt(compared, x, n, false, cs, keys);
  }

  lemma {:induction false} AscendByStrCmp(ms: seq<Member>, s: bool, keys: set<string>)
    requires FoldOrderAgrees(keys) && WellFormedMembers(ms, keys)
    ensures Ascending(SortMembers(ms, s), true)
  {
    hide *;
    FoldOrderDistinct(keys);
    SortMembersKeeps(ms, s, keys);
    AscendingByStrCmp(SortMembers(ms, s), s, keys);
  }

  /** The member that is generated for is the one that the goal changes. */
  lemma {:induction false} ChangedMember(l: Live, ms: seq<LiveMember>, tail: Tail, from: Json, i: nat, g: Json, s: bool, keys: set<string>,
                                         all: set<string>)
    returns (a: nat)
    requires FoldOrderAgrees(keys) && FoldOrderAgrees(all) && WellFormed(Erase(l), keys) && Open(l) == LiveObject(ms, tail)
    requires from.Object? && WellFormed(from, keys) && i < |from.members|
    requires Meaning(Erase(l)) == Meaning(from) && MarksOf(l) == MarksOf(Fresh(from))
    requires WellFormed(Object(from.members[i := Member(from.members[i].key, g)]), all)
    ensures a < |ms| && SortLive(ms, s)[a].key == from.members[i].key
    ensures var c := SortLive(ms, s)[a].value;
            WellFormed(Erase(c), keys) && Meaning(Erase(c)) == Meaning(from.members[i].value)
            && MarksOf(c) == MarksOf(Fresh(from.members[i].value))
    ensures var (k, goal) := (from.members[i].key, Object(from.members[i := Member(from.members[i].key, g)]));
            var r := SourceAfter(l, goal, s);
            && r.LiveObject? && a < |r.members| && g < goal
            && r.members[a] == LiveMember(k, MemberAfter(goal, SortLive(ms, s)[a].value, g, s))
  {
    var k := from.members[i].key;
    var gs := from.members[i := Member(k, g)];
    assert WellFormedMembers(gs, all) && WellFormedMembers(EraseMembers(ms), keys);
    assert gs[i].value < Object(gs) && gs[i].value == g;
    hide *;
    a := SourceMember(l, ms, tail, from, i, s, keys);
    SourceTop(l, ms, tail, Object(gs), s, keys);
    var j := GoalMember(gs, i, s);
    AscendByStrCmp(gs, s, all);
    AscendByStrCmp(EraseMembers(ms), s, keys);
    SortErases(ms, s);
    MembersAfterAt(Object(gs), SortLive(ms, s), SortMembers(gs, s), a, j, s);
  }

  lemma {:induction false} LoserParts(l: Live, from: Json, n: string, keys: set<string>)
    requires Loser(l, from, n, keys)
    ensures !ObjectsKeepEnds(from) && WellFormed(from, keys) && n !in keys
    ensures WellFormed(Erase(l), keys) && Meaning(Erase(l)) == Meaning(from) && MarksOf(l) == MarksOf(Fresh(from))
  {
  }

  lemma {:induction false} LoserOf(l: Live, from: Json, n: string, keys: set<string>)
    requires !ObjectsKeepEnds(from) && WellFormed(from, keys) && n !in keys
    requires WellFormed(Erase(l), keys) && Meaning(Erase(l)) == Meaning(from) && MarksOf(l) == MarksOf(Fresh(from))
    ensures Loser(l, from, n, keys)
  {
  }

  lemma {:induction false} LostGoalStep(from: Json, n: string)
    requires !ObjectsKeepEnds(from) && EndsKept(from.members, false)
    ensures !MembersKeepEnds(from.members)
    ensures var i := WrongMember(from.members);
            var (k, x) := (from.members[i].key, from.members[i].value);
            && LostGoal(from, n) == Object(from.members[i := Member(k, LostGoal(x, n))])
            && Addition(from, n) == Object([Member(k, Addition(x, n))])
  {
    hide EndsKept, MembersKeepEnds;
  }

  lemma {:induction false} MembersParts(ms: seq<Member>, keys: set<string>)
    requires WellFormed(Object(ms), keys)
    ensures forall i :: 0 <= i < |ms| ==> ms[i].key in keys && WellFormed(ms[i].value, keys)
  {
  }

  lemma {:induction false} SourceLosesBelow(l: Live, ms: seq<LiveMember>, tail: Tail, from: Json, n: string, s: bool, cs: bool, keys: set<string>)
    requires FoldOrderAgrees(keys + {n}) && Loser(l, from, n, keys) && Open(l) == LiveObject(ms, tail)
    requires from.Object? && EndsKept(from.members, false)
    ensures !MergesRight(SourceAfter(l, LostGoal(from, n), s), Addition(from, n), cs)
    decreases from, 0
  {
    var (fs, all) := (from.members, keys + {n});
    var i := WrongMember(fs);
    var (k, x) := (fs[i].key, fs[i].value);
    var (g, w, goal) := (LostGoal(x, n), Addition(x, n), LostGoal(from, n));
    assert from == Object(fs);
    hide *;
    LoserParts(l, from, n, keys);
    LostGoalStep(from, n);
    MembersParts(fs, keys);
    FewerKeys(keys, all);
    FoldOrderDistinct(all);
    FoldOrderDistinct(keys);
    LostGoalIs(from, n, keys);
    LostGoalIs(x, n, keys);
    ReadyMark(from, keys);
    SourceTop(l, ms, tail, goal, s, keys);
    var r := SourceAfter(l, goal, s);
    var a := ChangedMember(l, ms, tail, from, i, g, s, keys, all);
    LoserOf(SortLive(ms, s)[a].value, x, n, keys);
    ChildLoser(SortLive(ms, s)[a].value, x, n, s, cs, goal, keys);
    MoreKeys(Erase(r), keys, all);
    ChildLoses(r, a, w, cs, all);
  }

  // ----- the main result -----

  /** Merging the generated patch into the source itself gives the target. */
  ghost predicate SourceReaches(from: Json, goal: Json, cs: bool) {
    Meaning(Erase(PatchedLive(SourceAfter(Fresh(from), goal, cs), GenerateMergePatch(from, goal, cs), cs))) == Meaning(goal)
  }

  /** The same for every target that a merge patch can reach. */
  ghost predicate SourceReachesAll(from: Json, cs: bool, keys: set<string>) {
    forall goal :: WellFormed(goal, keys) && Rfc.NullsKept(Some(Meaning(from)), Meaning(goal)) ==> SourceReaches(from, goal, cs)
  }

  lemma {:induction false} EndsReach(from: Json, goal: Json, cs: bool, keys: set<string>)
    requires FoldOrderAgrees(keys) && WellFormed(from, keys) && WellFormed(goal, keys) && ObjectsKeepEnds(from)
    requires Rfc.NullsKept(Some(Meaning(from)), Meaning(goal))
    ensures SourceReaches(from, goal, cs)
  {
    var l := Fresh(from);
    assert Erase(l) == from && ObjectsSettled(l);
    assert Kept(l, SourceAfter(l, goal, cs)) && AllReady(MarksOf(l)) ==> ObjectsSettled(SourceAfter(l, goal, cs));
    hide Erase, ObjectsSettled, Kept, AllReady, MarksOf, SourceAfter, GenerateMergePatch, PatchedLive, Meaning, WellFormed, FoldOrderAgrees,
         ObjectsKeepEnds, Rfc.NullsKept;
    FoldOrderDistinct(keys);
    FreshMarks(from, keys);
    GeneratingKeeps(l, goal, cs, keys);
    MergeIntoSource(l, goal, cs, keys);
  }

  lemma {:induction false} LostPatch(from: Json, n: string, cs: bool, keys: set<string>)
    requires FoldOrderAgrees(keys + {n}) && n !in keys && WellFormed(from, keys) && !ObjectsKeepEnds(from)
    ensures GenerateMergePatch(from, LostGoal(from, n), cs) == Some(Addition(from, n))
  {
    assert forall x, patch, y :: Leads(x, patch, y) ==> x != y && Rfc.Diff(x, y) == patch;
    hide *;
    LostGoalIs(from, n, keys);
    MoreKeys(from, keys, keys + {n});
    GenerateRefines(from, LostGoal(from, n), cs, keys + {n});
    AdditionOnly(GenerateMergePatch(from, LostGoal(from, n), cs).value, from, n, keys + {n});
  }

  lemma {:induction false} NotReached(r: Live, from: Json, patch: Json, goal: Json, cs: bool)
    requires !MergesRight(r, patch, cs) && Meaning(Erase(r)) == Meaning(from) && Leads(Meaning(from), Meaning(patch), Meaning(goal))
    ensures Meaning(Erase(MergeLive(Some(r), patch, cs))) != Meaning(goal)
  {
    hide Meaning, Erase, MergeLive, Rfc.Merge, Rfc.Diff, Rfc.NullsKept;
    Rfc.MergeDiffExact(Meaning(from), Meaning(goal));
  }

  lemma {:induction false} LoserIs(from: Json, n: string, keys: set<string>)
    requires n !in keys && WellFormed(from, keys) && !ObjectsKeepEnds(from)
    ensures Erase(Fresh(from)) == from && Loser(Fresh(from), from, n, keys)
  {
    hide WellFormed, Meaning, MarksOf;
  }

  lemma {:induction false} LostGoalLost(from: Json, n: string, cs: bool, keys: set<string>)
    requires FoldOrderAgrees(keys + {n}) && n !in keys && WellFormed(from, keys) && !ObjectsKeepEnds(from)
    ensures var goal := LostGoal(from, n);
            && WellFormed(goal, keys + {n}) && Rfc.NullsKept(Some(Meaning(from)), Meaning(goal))
            && !SourceReaches(from, goal, cs)
  {
    var (l, goal, patch) := (Fresh(from), LostGoal(from, n), Addition(from, n));
    var r := SourceAfter(l, goal, cs);
    assert GenerateMergePatch(from, goal, cs) == Some(patch)
      ==> (SourceReaches(from, goal, cs) <==> Meaning(Erase(MergeLive(Some(r), patch, cs))) == Meaning(goal));
    assert forall x, y, z :: Leads(x, y, z) ==> Rfc.NullsKept(Some(x), z);
    hide *;
    FewerKeys(keys, keys + {n});
    FoldOrderDistinct(keys);
    LoserIs(from, n, keys);
    LostGoalIs(from, n, keys);
    LostPatch(from, n, cs, keys);
    SourceLosesAt(l, from, n, cs, cs, keys);
    SourceAfterKeeps(l, goal, cs, keys);
    SameValueIs(l, r, keys);
    NotReached(r, from, patch, goal, cs);
  }

  /** Main result: the patches that are generated for a source, as it was parsed or duplicated, can be merged into the source itself for every
      target that a merge patch can reach, with one more key than the source has, exactly when sorting keeps the ends of its objects. */
  lemma {:induction false} SourceReachesExactly(from: Json, n: string, cs: bool, keys: set<string>)
    requires FoldOrderAgrees(keys + {n}) && n !in keys && WellFormed(from, keys)
    ensures ObjectsKeepEnds(from) <==> SourceReachesAll(from, cs, keys + {n})
  {
    hide ObjectsKeepEnds, SourceReaches, WellFormed, FoldOrderAgrees, Meaning, Rfc.NullsKept;
    if ObjectsKeepEnds(from) {
      MoreKeys(from, keys, keys + {n});
      forall goal | WellFormed(goal, keys + {n}) && Rfc.NullsKept(Some(Meaning(from)), Meaning(goal))
        ensures SourceReaches(from, goal, cs)
      {
        EndsReach(from, goal, cs, keys + {n});
      }
    } else {
      LostGoalLost(from, n, cs, keys);
    }
  }
}