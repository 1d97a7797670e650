/** merge_patch on trees with the prev pointers of their member lists, and what generate_merge_patch leaves behind for it. */
module LiveMerge {
  import opened Text
  import opened Json
  import opened JsonOrder
  import opened JsonTails
  import opened SortTails
  import opened LivePatch
  import opened MergePatches
  import Rfc = Rfc7396

  // ----- merge_patch -----

  /** merge_patch; patches are duplicated, and detached members keep their pointers. */
  function MergeLive(target: Option<Live>, patch: Json, cs: bool): Live
    decreases patch, 1, 0
  {
    if !patch.Object? then Fresh(patch)
    else
      assert forall i :: 0 <= i < |patch.members| ==> patch.members[i].value < patch.members[i];
      match BaseOf(target)
      case LiveObject(ms, tail) => MergeLiveMembers(patch, ms, tail, patch.members, cs)
      case l => l
  }

  /** The object that is merged into: a target that is no object is replaced by an empty one. */
  function BaseOf(target: Option<Live>): (r: Live)
    ensures r.LiveObject?
    ensures Erase(r) == if target.Some? && Erase(target.value).Object? then Erase(target.value) else Object([])
  {
    if target.Some? && Open(target.value).LiveObject? then Open(target.value) else LiveObject([], NoTail)
  }

  function FoundLive(ms: seq<LiveMember>, key: string, cs: bool): (r: Option<Live>)
    ensures EraseIfAny(r) == Lookup(EraseMembers(ms), key, cs)
  {
    match FindKey(EraseMembers(ms), key, cs)
    case None => None
    case Some(i) => Some(ms[i].value)
  }

  function EraseIfAny(l: Option<Live>): Option<Json> {
    match l case None => None case Some(x) => Some(Erase(x))
  }

  function MergeLiveMembers(ghost patch: Json, ms: seq<LiveMember>, tail: Tail, ps: seq<Member>, cs: bool): Live
    requires Below(ps, patch)
    decreases patch, 0, |ps|
  {
    if ps == [] then LiveObject(ms, tail)
    else
      var (kept, t) := LiveWithout(ms, tail, ps[0].key, cs);
      if ps[0].value.Null? then MergeLiveMembers(patch, kept, t, ps[1..], cs)
      else
        match Append(kept, t, LiveMember(ps[0].key, MergeLive(FoundLive(ms, ps[0].key, cs), ps[0].value, cs)))
        case LiveObject(ns, u) => MergeLiveMembers(patch, ns, u, ps[1..], cs)
        case l => l
  }

  // ----- objects with right pointers -----

  /** The pointers of all objects that can be reached through objects are right. Merging does not look into arrays. */
  ghost predicate ObjectsSettled(l: Live) {
    match l
    case LiveObject(ms, tail) => Ready(|ms|, tail) && AllObjectsSettled(ms)
    case _ => true
  }

  ghost predicate AllObjectsSettled(ms: seq<LiveMember>) {
    forall i :: 0 <= i < |ms| ==> assert ms[i].value < ms[i]; ObjectsSettled(ms[i].value)
  }

  lemma {:induction false} SettledObjects(l: Live)
    requires Settled(l)
    ensures ObjectsSettled(l)
  {
    match l {
      case LiveObject(ms, _) =>
        forall i | 0 <= i < |ms|
          ensures ObjectsSettled(ms[i].value)
        {
          assert ms[i].value < ms[i];
          SettledObjects(ms[i].value);
        }
      case _ =>
    }
  }

  lemma {:induction false} OpenObjects(l: Live)
    ensures ObjectsSettled(Open(l)) <==> ObjectsSettled(l)
  {
    if l.Fresh? {
      OpenSettled(l);
      SettledObjects(Open(l));
    }
  }

  lemma {:induction false} WithoutObjects(ms: seq<LiveMember>, tail: Tail, key: string, cs: bool)
    requires Ready(|ms|, tail) && AllObjectsSettled(ms)
    ensures var (kept, t) := LiveWithout(ms, tail, key, cs); Ready(|kept|, t) && AllObjectsSettled(kept)
    ensures FoundLive(ms, key, cs).Some? ==> ObjectsSettled(FoundLive(ms, key, cs).value)
  {
    match FindKey(EraseMembers(ms), key, cs) {
      case None =>
      case Some(i) => ReadyWithout(|ms|, tail, i);
    }
  }

  lemma {:induction false} AppendObjects(ms: seq<LiveMember>, tail: Tail, m: LiveMember)
    requires Ready(|ms|, tail) && AllObjectsSettled(ms) && ObjectsSettled(m.value)
    ensures Append(ms, tail, m) == LiveObject(ms + [m], TailAt(|ms|)) && Ready(|ms + [m]|, TailAt(|ms|)) && AllObjectsSettled(ms + [m])
    ensures EraseMembers(ms + [m]) == EraseMembers(ms) + [EraseMember(m)]
  {
    AppendReady(ms, tail, m);
    EraseAppend(ms, m);
    hide ObjectsSettled, EraseMembers;
    assert forall i :: 0 <= i < |ms| ==> (ms + [m])[i] == ms[i];
  }

  lemma {:induction false} BaseSettled(target: Option<Live>)
    requires target.Some? ==> ObjectsSettled(target.value)
    ensures BaseOf(target).LiveObject? && Ready(|BaseOf(target).members|, BaseOf(target).tail) && AllObjectsSettled(BaseOf(target).members)
  {
    if target.Some? {
      OpenObjects(target.value);
    }
  }

  /** With right pointers merging does what it is for, and leaves them right. */
  lemma {:induction false} MergeLiveSettled(target: Option<Live>, patch: Json, cs: bool)
    requires target.Some? ==> ObjectsSettled(target.value)
    ensures Erase(MergeLive(target, patch, cs)) == MergePatch(EraseIfAny(target), patch, cs)
    ensures ObjectsSettled(MergeLive(target, patch, cs))
    decreases patch, 1, 0
  {
    if patch.Object? {
      assert forall i :: 0 <= i < |patch.members| ==> patch.members[i].value < patch.members[i];
      BaseSettled(target);
      var base := BaseOf(target);
      hide BaseOf;
      MergeMembersSettled(patch, base.members, base.tail, patch.members, cs);
      hide MergeLiveMembers, MergeMembers;
    }
  }

  lemma {:induction false} MergeLiveStep(patch: Json, ms: seq<LiveMember>, tail: Tail, ps: seq<Member>, cs: bool)
    requires ps != [] && Below(ps, patch)
    ensures Below(ps[1..], patch) && ps[0].value < patch
    ensures var (kept, t) := LiveWithout(ms, tail, ps[0].key, cs);
            && (ps[0].value.Null? ==> MergeLiveMembers(patch, ms, tail, ps, cs) == MergeLiveMembers(patch, kept, t, ps[1..], cs))
            && (!ps[0].value.Null? ==>
                  var r := Append(kept, t, LiveMember(ps[0].key, MergeLive(FoundLive(ms, ps[0].key, cs), ps[0].value, cs)));
                  r.LiveObject? && MergeLiveMembers(patch, ms, tail, ps, cs) == MergeLiveMembers(patch, r.members, r.tail, ps[1..], cs))
  {
    hide FoundLive, LiveWithout, MergeLive;
  }

  lemma {:induction false} WithoutErases(ms: seq<LiveMember>, tail: Tail, key: string, cs: bool)
    ensures EraseMembers(LiveWithout(ms, tail, key, cs).0) == Without(EraseMembers(ms), key, cs)
  {
  }

  lemma {:induction false} MergeMembersSettled(patch: Json, ms: seq<LiveMember>, tail: Tail, ps: seq<Member>, cs: bool)
    requires Below(ps, patch) && Ready(|ms|, tail) && AllObjectsSettled(ms)
    ensures Erase(MergeLiveMembers(patch, ms, tail, ps, cs)) == Object(MergeMembers(patch, EraseMembers(ms), ps, cs))
    ensures ObjectsSettled(MergeLiveMembers(patch, ms, tail, ps, cs))
    decreases patch, 0, |ps|
  {
    if ps != [] {
      hide *;
      var (k, v) := (ps[0].key, ps[0].value);
      MergeLiveStep(patch, ms, tail, ps, cs);
      MergeMembersStep(patch, EraseMembers(ms), ps, cs);
      WithoutObjects(ms, tail, k, cs);
      WithoutErases(ms, tail, k, cs);
      var (kept, t) := LiveWithout(ms, tail, k, cs);
      if v.Null? {
        MergeMembersSettled(patch, kept, t, ps[1..], cs);
      } else {
        var m := LiveMember(k, MergeLive(FoundLive(ms, k, cs), v, cs));
        MergeLiveSettled(FoundLive(ms, k, cs), v, cs);
        AppendObjects(kept, t, m);
        EraseMemberIs(m);
        MergeMembersSettled(patch, kept + [m], TailAt(|kept|), ps[1..], cs);
      }
    }
  }

  lemma {:induction false} EraseMemberIs(m: LiveMember)
    ensures EraseMember(m) == Member(m.key, Erase(m.value))
  {
  }

  // ----- wrong pointers lose members -----

  ghost function WrongChild(ms: seq<LiveMember>): (i: nat)
    requires !AllObjectsSettled(ms)
    ensures i < |ms| && !ObjectsSettled(ms[i].value)
  {
    assert exists i: nat :: i < |ms| && !ObjectsSettled(ms[i].value);
    var i: nat :| i < |ms| && !ObjectsSettled(ms[i].value);
    i
  }

  /** A patch that a tree with a wrong pointer loses a member of: it adds the new key where the pointer is wrong. */
  ghost function Witness(l: Live, n: string): Json
    requires !ObjectsSettled(l)
  {
    if !Ready(|l.members|, l.tail) then Object([Member(n, Number(1))])
    else
      var i := WrongChild(l.members);
      assert l.members[i].value < l.members[i];
      Object([Member(l.members[i].key, Witness(l.members[i].value, n))])
  }

  /** Merging one member into an object. */
  lemma {:induction false} MergeOneLive(l: Live, key: string, v: Json, cs: bool)
    requires l.LiveObject? && !v.Null?
    ensures var (kept, t) := LiveWithout(l.members, l.tail, key, cs);
            MergeLive(Some(l), Object([Member(key, v)]), cs)
            == Append(kept, t, LiveMember(key, MergeLive(FoundLive(l.members, key, cs), v, cs)))
  {
    var ps := [Member(key, v)];
    var patch := Object(ps);
    assert forall i :: 0 <= i < |ps| ==> ps[i].value < ps[i];
    assert Below(ps, patch) && ps[1..] == [] && BaseOf(Some(l)) == l;
    MergeLiveStep(patch, l.members, l.tail, ps, cs);
    hide FoundLive, LiveWithout;
  }

  lemma {:induction false} MergeOne(ms: seq<Member>, key: string, v: Json, cs: bool)
    requires !v.Null?
    ensures MergePatch(Some(Object(ms)), Object([Member(key, v)]), cs)
            == Object(Without(ms, key, cs) + [Member(key, MergePatch(Lookup(ms, key, cs), v, cs))])
  {
    var ps := [Member(key, v)];
    var patch := Object(ps);
    assert forall i :: 0 <= i < |ps| ==> ps[i].value < ps[i];
    assert Below(ps, patch) && Below(ps[1..], patch) && ps[1..] == [];
    MergeMembersStep(patch, ms, ps, cs);
    hide Without, Lookup;
  }

  ghost predicate MergesRight(l: Live, patch: Json, cs: bool) {
    Meaning(Erase(MergeLive(Some(l), patch, cs))) == Rfc.Merge(Some(Meaning(Erase(l))), Meaning(patch))
  }

  lemma {:induction false} MergesRightIs(l: Live, patch: Json, cs: bool, keys: set<string>)
    requires ToldApart(keys, cs) && WellFormed(Erase(l), keys) && WellFormed(patch, keys)
    ensures MergesRight(l, patch, cs) <==> Meaning(Erase(MergeLive(Some(l), patch, cs))) == Meaning(MergePatch(Some(Erase(l)), patch, cs))
    ensures WellFormed(MergePatch(Some(Erase(l)), patch, cs), keys)
  {
    hide Meaning, WellFormed, Rfc.Merge, MergePatch, MergeLive, ToldApart;
    MergePatchRefines(Some(Erase(l)), patch, cs, keys);
  }

  lemma {:induction false} OneMemberWellFormed(key: string, v: Json, keys: set<string>)
    requires key in keys && WellFormed(v, keys)
    ensures WellFormed(Object([Member(key, v)]), keys)
  {
  }

  lemma {:induction false} NewKeyNotFound(ms: seq<Member>, n: string, cs: bool, keys: set<string>)
    requires WellFormedMembers(ms, keys) && n !in keys && ToldApart(keys + {n}, cs)
    ensures FindKey(ms, n, cs).None?
  {
  }

  lemma {:induction false} TopLoses(l: Live, n: string, cs: bool, keys: set<string>)
    requires l.LiveObject? && !Ready(|l.members|, l.tail)
    requires WellFormed(Erase(l), keys) && n !in keys && ToldApart(keys + {n}, cs)
    ensures !MergesRight(l, Object([Member(n, Number(1))]), cs)
  {
    var (all, ms, patch) := (keys + {n}, EraseMembers(l.members), Object([Member(n, Number(1))]));
    assert Erase(l) == Object(ms) && WellFormedMembers(ms, keys) && WellFormed(Number(1), all);
    NewKeyNotFound(ms, n, cs, keys);
    assert LiveWithout(l.members, l.tail, n, cs) == (l.members, l.tail) && Without(ms, n, cs) == ms;
    hide *;
    MoreKeys(Erase(l), keys, all);
    OneMemberWellFormed(n, Number(1), all);
    MergesRightIs(l, patch, cs, all);
    MergeOneLive(l, n, Number(1), cs);
    MergeOne(ms, n, Number(1), cs);
    var m := LiveMember(n, MergeLive(FoundLive(l.members, n, cs), Number(1), cs));
    AppendLoses(l.members, l.tail, m);
    EraseObject(Append(l.members, l.tail, m));
    FewerMembers(Erase(MergeLive(Some(l), patch, cs)), MergePatch(Some(Erase(l)), patch, cs), all);
  }

  /** What happens to one member is seen in the whole. */
  lemma {:induction false} MemberDiffers(kept: seq<Member>, key: string, x: Json, y: Json)
    requires UniqueKeys(kept) && key !in MapOf(kept) && Meaning(x) != Meaning(y)
    ensures Meaning(Object(kept + [Member(key, x)])) != Meaning(Object(kept + [Member(key, y)]))
  {
    MapOfAppend(kept, Member(key, x));
    MapOfAppend(kept, Member(key, y));
    var m := MapOf(kept);
    assert m[key := Meaning(x)][key] != m[key := Meaning(y)][key];
    hide MapOf;
  }

  lemma {:induction false} MemberFound(ms: seq<LiveMember>, i: nat, cs: bool, keys: set<string>)
    requires WellFormedMembers(EraseMembers(ms), keys) && ToldApart(keys, cs) && i < |ms|
    ensures ms[i].key in keys && WellFormed(Erase(ms[i].value), keys)
    ensures FindKey(EraseMembers(ms), ms[i].key, cs) == Some(i) && FoundLive(ms, ms[i].key, cs) == Some(ms[i].value)
  {
    assert EraseMembers(ms)[i] == EraseMember(ms[i]);
  }

  lemma {:induction false} MemberWithout(ms: seq<LiveMember>, tail: Tail, i: nat, cs: bool)
    requires Ready(|ms|, tail) && i < |ms| && FindKey(EraseMembers(ms), ms[i].key, cs) == Some(i)
    ensures var (kept, t) := LiveWithout(ms, tail, ms[i].key, cs);
            && EraseMembers(kept) == Without(EraseMembers(ms), ms[i].key, cs) && Ready(|kept|, t)
            && Lookup(EraseMembers(ms), ms[i].key, cs) == Some(Erase(ms[i].value))
  {
    ReadyWithout(|ms|, tail, i);
    assert EraseMembers(ms)[i] == EraseMember(ms[i]);
    hide FindKey, Erase;
  }

  /** The member at position i, taken out and put back merged. */
  lemma {:induction false} MergeMemberAt(l: Live, i: nat, w: Json, cs: bool, keys: set<string>)
    requires l.LiveObject? && Ready(|l.members|, l.tail) && i < |l.members| && !w.Null?
    requires WellFormedMembers(EraseMembers(l.members), keys) && ToldApart(keys, cs)
    ensures var (k, child, kept) := (l.members[i].key, l.members[i].value, Without(EraseMembers(l.members), l.members[i].key, cs));
            && Erase(MergeLive(Some(l), Object([Member(k, w)]), cs))
               == Object(kept + [Member(k, Erase(MergeLive(Some(child), w, cs)))])
            && MergePatch(Some(Object(EraseMembers(l.members))), Object([Member(k, w)]), cs)
               == Object(kept + [Member(k, MergePatch(Some(Erase(child)), w, cs))])
  {
    var (ms, lms, k) := (EraseMembers(l.members), l.members, l.members[i].key);
    var (kept, t) := LiveWithout(lms, l.tail, k, cs);
    hide *;
    MemberFound(lms, i, cs, keys);
    MemberWithout(lms, l.tail, i, cs);
    MergeOneLive(l, k, w, cs);
    MergeOne(ms, k, w, cs);
    AppendExact(kept, t, LiveMember(k, MergeLive(Some(lms[i].value), w, cs)));
  }

  lemma {:induction false} ChildLoses(l: Live, i: nat, w: Json, cs: bool, keys: set<string>)
    requires l.LiveObject? && Ready(|l.members|, l.tail) && i < |l.members|
    requires WellFormed(Erase(l), keys) && ToldApart(keys, cs) && WellFormed(w, keys) && w.Object?
    requires !MergesRight(l.members[i].value, w, cs)
    ensures !MergesRight(l, Object([Member(l.members[i].key, w)]), cs)
  {
    var (ms, k, child) := (EraseMembers(l.members), l.members[i].key, l.members[i].value);
    assert Erase(l) == Object(ms) && WellFormedMembers(ms, keys);
    hide *;
    MemberFound(l.members, i, cs, keys);
    OneMemberWellFormed(k, w, keys);
    MergesRightIs(l, Object([Member(k, w)]), cs, keys);
    MergesRightIs(child, w, cs, keys);
    MergeMemberAt(l, i, w, cs, keys);
    WithoutMeaning(ms, k, cs, keys);
    UniqueOf(Without(ms, k, cs), keys);
    MemberDiffers(Without(ms, k, cs), k, Erase(MergeLive(Some(child), w, cs)), MergePatch(Some(Erase(child)), w, cs));
  }

  lemma {:induction false} UniqueOf(ms: seq<Member>, keys: set<string>)
    requires WellFormedMembers(ms, keys)
    ensures UniqueKeys(ms)
  {
  }

  lemma {:induction false} WitnessFails(l: Live, n: string, cs: bool, keys: set<string>)
    requires !ObjectsSettled(l) && WellFormed(Erase(l), keys) && n !in keys && ToldApart(keys + {n}, cs)
    ensures WellFormed(Witness(l, n), keys + {n}) && Witness(l, n).Object? && !MergesRight(l, Witness(l, n), cs)
    decreases l
  {
    var all := keys + {n};
    if !Ready(|l.members|, l.tail) {
      TopLoses(l, n, cs, keys);
      assert WellFormed(Number(1), all);
      OneMemberWellFormed(n, Number(1), all);
    } else {
      var i := WrongChild(l.members);
      assert l.members[i].value < l.members[i];
      assert Erase(l) == Object(EraseMembers(l.members));
      assert ToldApart(keys, cs);
      MemberFound(l.members, i, cs, keys);
      WitnessFails(l.members[i].value, n, cs, keys);
      MoreKeys(Erase(l), keys, all);
      OneMemberWellFormed(l.members[i].key, Witness(l.members[i].value, n), all);
      ChildLoses(l, i, Witness(l.members[i].value, n), cs, all);
    }
  }

  /** Main result: merging patches into a tree does what the pseudo-code of section 2 of RFC 7396 says, whatever the patch, exactly when
      the pointers of its objects are right. */
  lemma {:induction false} MergeLiveExact(l: Live, n: string, cs: bool, keys: set<string>)
    requires WellFormed(Erase(l), keys) && n !in keys && ToldApart(keys + {n}, cs)
    ensures ObjectsSettled(l) <==> forall patch :: WellFormed(patch, keys + {n}) ==> MergesRight(l, patch, cs)
  {
    var all := keys + {n};
    MoreKeys(Erase(l), keys, all);
    if ObjectsSettled(l) {
      forall patch | WellFormed(patch, all)
        ensures MergesRight(l, patch, cs)
      {
        MergeLiveSettled(Some(l), patch, cs);
        MergesRightIs(l, patch, cs, all);
      }
    } else {
      WitnessFails(l, n, cs, keys);
    }
  }

  // ----- what generate_merge_patch leaves of its source -----

  /** The source after generate_merge_patch: its objects have been sorted on the way. */
  function SourceAfter(from: Live, goal: Json, cs: bool): Live
    decreases goal, 1, 0
  {
    match (Open(from), goal)
    case (LiveObject(ms, tail), Object(ns)) =>
      SortMembersBelow(goal, cs);
      LiveObject(MembersAfter(goal, SortLive(ms, cs), SortMembers(ns, cs), cs), SortedTail(ms, tail, cs))
    case _ => from
  }

  function MembersAfter(ghost b: Json, xs: seq<LiveMember>, ys: seq<Member>, cs: bool): seq<LiveMember>
    requires Below(ys, b)
    decreases b, 0, |xs| + |ys|
  {
    if xs == [] || ys == [] then xs
    else
      var diff := StrCmp(xs[0].key, ys[0].key);
      if diff < 0 then [xs[0]] + MembersAfter(b, xs[1..], ys, cs)
      else if diff > 0 then MembersAfter(b, xs, ys[1..], cs)
      else [LiveMember(xs[0].key, MemberAfter(b, xs[0].value, ys[0].value, cs))] + MembersAfter(b, xs[1..], ys[1..], cs)
  }

  /** A member that both sides have is compared, and when that finds a difference a patch is generated for it. */
  function MemberAfter(ghost b: Json, x: Live, y: Json, cs: bool): Live
    requires y < b
    decreases b, 0, 0
  {
    var compared := CompareEffect(x, y, cs);
    if CompareJson(Erase(x), y, cs) then compared else SourceAfter(compared, y, false)
  }

  lemma {:induction false} SameTwice(x: Live, y: Live, z: Live, keys: set<string>)
    requires SameValue(x, y, keys) && SameValue(y, z, keys)
    ensures SameValue(x, z, keys)
  {
  }

  /** Generating a patch keeps what its source stands for. */
  lemma {:induction false} SourceAfterKeeps(from: Live, goal: Json, cs: bool, keys: set<string>)
    requires CaseDistinct(keys) && WellFormed(Erase(from), keys)
    ensures SameValue(from, SourceAfter(from, goal, cs), keys)
    decreases goal, 1, 0
  {
    var o := Open(from);
    if o.LiveObject? && goal.Object? {
      var (ms, ns) := (o.members, SortMembers(goal.members, cs));
      assert ToldApart(keys, cs) && WellFormedMembers(EraseMembers(ms), keys) && Erase(from) == Object(EraseMembers(ms));
      SortMembersBelow(goal, cs);
      var after := MembersAfter(goal, SortLive(ms, cs), ns, cs);
      assert SourceAfter(from, goal, cs) == LiveObject(after, SortedTail(ms, o.tail, cs));
      hide *;
      SortErases(ms, cs);
      SortMembersKeeps(EraseMembers(ms), cs, keys);
      MembersAfterKeeps(goal, SortLive(ms, cs), ns, cs, keys);
      SameMembers(SortLive(ms, cs), after, keys);
      EraseObject(LiveObject(after, SortedTail(ms, o.tail, cs)));
      SameObjects(ms, after, from, SourceAfter(from, goal, cs), keys);
    }
  }

  lemma {:induction false} MembersAfterKeeps(b: Json, xs: seq<LiveMember>, ys: seq<Member>, cs: bool, keys: set<string>)
    requires CaseDistinct(keys) && Below(ys, b) && WellFormedMembers(EraseMembers(xs), keys)
    ensures AllSame(xs, MembersAfter(b, xs, ys, cs), keys)
    decreases b, 0, |xs| + |ys|
  {
    AllSameSelf(xs, keys);
    if xs != [] && ys != [] {
      var (diff, y) := (StrCmp(xs[0].key, ys[0].key), ys[0].value);
      assert y < b && Below(ys[1..], b);
      MemberParts(xs, keys);
      assert xs == [xs[0]] + xs[1..];
      AllSameHead(xs, keys);
      if diff < 0 {
        MembersAfterKeeps(b, xs[1..], ys, cs, keys);
        AllSameCons(xs[0], xs[0], xs[1..], MembersAfter(b, xs[1..], ys, cs), keys);
      } else if diff > 0 {
        MembersAfterKeeps(b, xs, ys[1..], cs, keys);
      } else {
        MemberAfterKeeps(b, xs[0].value, y, cs, keys);
        MembersAfterKeeps(b, xs[1..], ys[1..], cs, keys);
        AllSameCons(xs[0], LiveMember(xs[0].key, MemberAfter(b, xs[0].value, y, cs)), xs[1..], MembersAfter(b, xs[1..], ys[1..], cs), keys);
      }
      hide AllSame, SameValue, MemberAfter, WellFormedMembers, EraseMembers, StrCmp;
    }
  }

  lemma {:induction false} AllSameHead(xs: seq<LiveMember>, keys: set<string>)
    requires xs != [] && AllSame(xs, xs, keys)
    ensures SameValue(xs[0].value, xs[0].value, keys)
  {
  }

  lemma {:induction false} MemberAfterKeeps(b: Json, x: Live, y: Json, cs: bool, keys: set<string>)
    requires CaseDistinct(keys) && y < b && WellFormed(Erase(x), keys)
    ensures SameValue(x, MemberAfter(b, x, y, cs), keys)
    decreases b, 0, 0
  {
    var compared := CompareEffect(x, y, cs);
    CompareEffectKeeps(x, y, cs, keys);
    hide CompareEffect, CompareJson, Meaning, WellFormed, SourceAfter;
    if !CompareJson(Erase(x), y, cs) {
      SourceAfterKeeps(compared, y, false, keys);
      SameTwice(x, compared, SourceAfter(compared, y, false), keys);
    }
  }

  /** What merging the generated patch gives; without a patch there is nothing to merge. */
  function PatchedLive(l: Live, patch: Option<Json>, cs: bool): Live {
    match patch case None => l case Some(p) => MergeLive(Some(l), p, cs)
  }

  lemma {:induction false} PatchedLiveSettled(l: Live, patch: Option<Json>, cs: bool)
    requires ObjectsSettled(l)
    ensures Erase(PatchedLive(l, patch, cs)) == Patched(Erase(l), patch, cs)
  {
    if patch.Some? {
      MergeLiveSettled(Some(l), patch.value, cs);
    }
  }

  /** Main result: merging the generated patch into a tree that stands for the source and whose objects have right pointers, as in a parsed
      or duplicated one, gives the target exactly when every null member of the target is already null in the source. */
  lemma {:induction false} MergeIntoCopy(copy: Live, from: Json, goal: Json, cs: bool, keys: set<string>)
    requires FoldOrderAgrees(keys) && WellFormed(Erase(copy), keys) && WellFormed(from, keys) && WellFormed(goal, keys)
    requires ObjectsSettled(copy) && Meaning(Erase(copy)) == Meaning(from)
    ensures Meaning(Erase(PatchedLive(copy, GenerateMergePatch(from, goal, cs), cs))) == Meaning(goal)
            <==> Rfc.NullsKept(Some(Meaning(from)), Meaning(goal))
  {
    hide *;
    PatchedLiveSettled(copy, GenerateMergePatch(from, goal, cs), cs);
    MergePatchRoundTrip(Erase(copy), from, goal, cs, keys);
  }

  /** The round trip on the source itself, when generating has left the pointers of its objects right. */
  lemma {:induction false} MergeIntoSource(from: Live, goal: Json, cs: bool, keys: set<string>)
    requires FoldOrderAgrees(keys) && WellFormed(Erase(from), keys) && WellFormed(goal, keys)
    requires ObjectsSettled(SourceAfter(from, goal, cs))
    ensures Meaning(Erase(PatchedLive(SourceAfter(from, goal, cs), GenerateMergePatch(Erase(from), goal, cs), cs))) == Meaning(goal)
            <==> Rfc.NullsKept(Some(Meaning(Erase(from))), Meaning(goal))
  {
    hide *;
    FoldOrderDistinct(keys);
    SourceAfterKeeps(from, goal, cs, keys);
    SameValueIs(from, SourceAfter(from, goal, cs), keys);
    MergeIntoCopy(SourceAfter(from, goal, cs), Erase(from), goal, cs, keys);
  }

  // ----- an addition that is lost -----

  lemma {:induction false} DiffOfAddition(fm: map<string, Value>, n: string, x: Value)
    requires n !in fm
    ensures Rfc.Diff(VObject(fm), VObject(fm[n := x])) == VObject(map[n := x])
  {
    var tm := fm[n := x];
    var dm := Rfc.Diff(VObject(fm), VObject(tm)).members;
    forall k
      ensures k in dm <==> k == n
      ensures k == n ==> k in dm && dm[k] == x
    {
      Rfc.DiffAt(fm, tm, k);
    }
    hide Rfc.Diff;
    assert dm == map[n := x];
  }

  /** An object that stands for a map of one key has one member. */
  lemma {:induction false} SingleMember(j: Json, n: string, x: Value, keys: set<string>)
    requires WellFormed(j, keys) && Meaning(j) == VObject(map[n := x])
    ensures j.Object? && |j.members| == 1 && j.members[0].key == n && Meaning(j.members[0].value) == x
    ensures j == Object([Member(n, j.members[0].value)])
  {
    MapOfSize(j.members);
    MapOfUnique(j.members);
    assert |map[n := x]| == 1;
    hide MapOf;
    assert j.members[0].key in map[n := x];
    assert j.members == [j.members[0]];
  }

  lemma {:induction false} SourceHeadless(ms: seq<Member>, goal: Json, cs: bool, keys: set<string>)
    requires CaseDistinct(keys) && WellFormed(Object(ms), keys) && HeadMoves(ms, cs) && goal.Object?
    ensures var r := SourceAfter(Fresh(Object(ms)), goal, cs);
            && r.LiveObject? && r.members != [] && r.tail == NoTail
            && WellFormed(Erase(r), keys) && Meaning(Erase(r)) == Meaning(Object(ms))
  {
    var l := Fresh(Object(ms));
    var o := Open(l);
    assert Erase(l) == Object(ms) && Erase(o) == Object(EraseMembers(o.members)) && ToldApart(keys, cs);
    assert Object(ms).members == Object(EraseMembers(o.members)).members;
    assert SourceAfter(l, goal, cs).LiveObject? && SourceAfter(l, goal, cs).tail == SortedTail(o.members, o.tail, cs);
    assert WellFormedMembers(ms, keys);
    HeadLosesTail(o.members, o.tail, ms, cs, keys);
    SourceAfterKeeps(l, goal, cs, keys);
    SameValueIs(l, SourceAfter(l, goal, cs), keys);
    NotEmpty(ms, SourceAfter(l, goal, cs), cs);
  }

  lemma {:induction false} NotEmpty(ms: seq<Member>, l: Live, cs: bool)
    requires l.LiveObject? && HeadMoves(ms, cs) && Meaning(Erase(l)) == Meaning(Object(ms))
    ensures l.members != []
  {
    assert ms[0].key in MapOf(ms);
  }

  lemma {:induction false} AppendNothing(l: Live, n: string, v: Json, cs: bool)
    requires l.LiveObject? && l.members != [] && l.tail == NoTail && FindKey(EraseMembers(l.members), n, cs).None? && !v.Null?
    ensures MergeLive(Some(l), Object([Member(n, v)]), cs) == l
  {
    MergeOneLive(l, n, v, cs);
    hide MergeLive, FoundLive, FindKey, EraseMembers;
  }

  lemma {:induction false} KeyNotFound(l: Live, n: string, cs: bool, keys: set<string>)
    requires l.LiveObject? && WellFormed(Erase(l), keys) && ToldApart(keys, cs) && n in keys
    requires Meaning(Erase(l)).VObject? && n !in Meaning(Erase(l)).members
    ensures FindKey(EraseMembers(l.members), n, cs).None?
  {
    FindKeyMeaning(EraseMembers(l.members), n, cs, keys);
    hide FindKey, MapOf;
  }

  lemma {:induction false} AddedMember(ms: seq<Member>, n: string, x: Json, keys: set<string>)
    requires WellFormed(Object(ms), keys) && n in keys && n !in MapOf(ms) && WellFormed(x, keys)
    ensures WellFormed(Object(ms + [Member(n, x)]), keys)
    ensures Meaning(Object(ms)) == VObject(MapOf(ms)) && Meaning(Object(ms + [Member(n, x)])) == VObject(MapOf(ms)[n := Meaning(x)])
    ensures Meaning(Object(ms)) != Meaning(Object(ms + [Member(n, x)]))
  {
    AppendMember(ms, Member(n, x), keys);
    assert n in MapOf(ms)[n := Meaning(x)];
    hide MapOf;
  }

  /** Merging the patch that is generated for another target into the source itself leaves the source as it was. */
  ghost predicate NothingAdded(from: Json, goal: Json, cs: bool) {
    var p := GenerateMergePatch(from, goal, cs);
    && p.Some? && Meaning(from) != Meaning(goal)
    && Meaning(Erase(MergeLive(Some(SourceAfter(Fresh(from), goal, cs)), p.value, cs))) == Meaning(from)
  }

  /** Main result: a target that has one more member than a source whose first member sorting moves is never reached by merging the
      generated patch into the source itself: the new member is lost. */
  lemma {:induction false} SourceLosesAddition(ms: seq<Member>, n: string, x: Json, cs: bool, keys: set<string>)
    requires FoldOrderAgrees(keys) && WellFormed(Object(ms), keys) && HeadMoves(ms, cs)
    requires n in keys && n !in MapOf(ms) && WellFormed(x, keys) && !x.Null?
    ensures NothingAdded(Object(ms), Object(ms + [Member(n, x)]), cs)
  {
    var (from, goal) := (Object(ms), Object(ms + [Member(n, x)]));
    var (p, l) := (GenerateMergePatch(from, goal, cs), SourceAfter(Fresh(from), goal, cs));
    NotNull(x);
    hide *;
    FoldOrderDistinct(keys);
    AddedMember(ms, n, x, keys);
    GenerateRefines(from, goal, cs, keys);
    DiffOfAddition(MapOf(ms), n, Meaning(x));
    SourceHeadless(ms, goal, cs, keys);
    AdditionLost(l, p.value, MapOf(ms), n, Meaning(x), cs, keys);
    NothingAddedIs(from, goal, cs, p, l);
  }

  lemma {:induction false} NothingAddedIs(from: Json, goal: Json, cs: bool, p: Option<Json>, l: Live)
    requires p == GenerateMergePatch(from, goal, cs) && l == SourceAfter(Fresh(from), goal, cs) && p.Some?
    requires Meaning(from) != Meaning(goal) && MergeLive(Some(l), p.value, cs) == l && Meaning(Erase(l)) == Meaning(from)
    ensures NothingAdded(from, goal, cs)
  {
    hide Meaning, Erase, MergeLive, SourceAfter, GenerateMergePatch;
  }

  lemma {:induction false} AdditionLost(l: Live, patch: Json, m: map<string, Value>, n: string, x: Value, cs: bool, keys: set<string>)
    requires ToldApart(keys, cs) && l.LiveObject? && l.members != [] && l.tail == NoTail
    requires WellFormed(Erase(l), keys) && Meaning(Erase(l)) == VObject(m) && n in keys && n !in m
    requires WellFormed(patch, keys) && Meaning(patch) == VObject(map[n := x]) && x != VNull
    ensures MergeLive(Some(l), patch, cs) == l
  {
    hide *;
    KeyNotFound(l, n, cs, keys);
    OnlyAddition(l, patch, n, x, cs, keys);
  }

  lemma {:induction false} OnlyAddition(l: Live, patch: Json, n: string, x: Value, cs: bool, keys: set<string>)
    requires l.LiveObject? && l.members != [] && l.tail == NoTail && FindKey(EraseMembers(l.members), n, cs).None?
    requires WellFormed(patch, keys) && Meaning(patch) == VObject(map[n := x]) && x != VNull
    ensures MergeLive(Some(l), patch, cs) == l
  {
    hide *;
    SingleMember(patch, n, x, keys);
    NotNull(patch.members[0].value);
    AppendNothing(l, n, patch.members[0].value, cs);
  }

  lemma {:induction false} NotNull(j: Json)
    ensures j.Null? <==> Meaning(j) == VNull
  {
  }

  /** For example {"b": 1, "a": 2} with a "c" to be added. */
  lemma {:induction false} SourceLosesC(cs: bool)
    ensures var (from, goal) := (Object([Member("b", Number(1)), Member("a", Number(2))]),
                                 Object([Member("b", Number(1)), Member("a", Number(2)), Member("c", Number(3))]));
            NothingAdded(from, goal, cs)
  {
    hide *;
    var (ms, keys) := ([Member("b", Number(1)), Member("a", Number(2))], {"a", "b", "c"});
    assert ms + [Member("c", Number(3))] == [Member("b", Number(1)), Member("a", Number(2)), Member("c", Number(3))];
    PairFits(ms, cs, keys);
    SourceLosesAddition(ms, "c", Number(3), cs, keys);
  }

  lemma {:induction false} PairFits(ms: seq<Member>, cs: bool, keys: set<string>)
    requires ms == [Member("b", Number(1)), Member("a", Number(2))] && keys == {"a", "b", "c"}
    ensures FoldOrderAgrees(keys) && WellFormed(Object(ms), keys) && HeadMoves(ms, cs)
    ensures "c" !in MapOf(ms) && WellFormed(Number(3), keys) && !Number(3).Null?
  {
    assert WellFormed(Object(ms), keys) <==> WellFormedMembers(ms, keys);
    assert WellFormed(Number(3), keys);
    hide *;
    BackwardsPair(cs, keys);
    NoC(ms);
    LowerLetters(keys);
    LowerFixedAgrees(keys);
  }

  lemma {:induction false} NoC(ms: seq<Member>)
    requires ms == [Member("b", Number(1)), Member("a", Number(2))]
    ensures "c" !in MapOf(ms)
  {
    MapOfUnique(ms);
    hide MapOf;
  }

  lemma {:induction false} LowerLetters(keys: set<string>)
    requires keys == {"a", "b", "c"}
    ensures forall k :: k in keys ==> Lower(k) == k
  {
    assert Lower("a") == "a" && Lower("b") == "b" && Lower("c") == "c";
    hide Lower;
  }
}
