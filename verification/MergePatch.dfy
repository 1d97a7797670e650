/** merge_patch and generate_merge_patch of cJSON_Utils on item trees, and RFC 7396. */
module MergePatches {
  import opened Text
  import opened Json
  import opened JsonOrder
  import Sorting
  import Rfc = Rfc7396

  // ----- merge_patch -----

  /** The members without the first one that matches the key. */
  function Without(ms: seq<Member>, key: string, cs: bool): seq<Member> {
    match FindKey(ms, key, cs)
    case None => ms
    case Some(i) => RemoveAt(ms, i)
  }

  /** merge_patch for a patch that is present; the target may be missing. */
  function MergePatch(target: Option<Json>, patch: Json, cs: bool): Json
    decreases patch, 1, 0
  {
    if !patch.Object? then patch
    else
      var base := if target.Some? && target.value.Object? then target.value.members else [];
      assert forall i :: 0 <= i < |patch.members| ==> patch.members[i].value < patch.members[i];
      Object(MergeMembers(patch, base, patch.members, cs))
  }

  /** The loop over the members of the patch: a null deletes, anything else is merged into the detached
      member and appended. */
  function MergeMembers(ghost patch: Json, ms: seq<Member>, ps: seq<Member>, cs: bool): seq<Member>
    requires Below(ps, patch)
    decreases patch, 0, |ps|
  {
    if ps == [] then ms
    else
      var kept := Without(ms, ps[0].key, cs);
      if ps[0].value.Null? then MergeMembers(patch, kept, ps[1..], cs)
      else
        var merged := MergePatch(Lookup(ms, ps[0].key, cs), ps[0].value, cs);
        MergeMembers(patch, kept + [Member(ps[0].key, merged)], ps[1..], cs)
  }

  /** merge_patch with its loop. */
  method MergePatchInto(target: Option<Json>, patch: Json, caseSensitive: bool) returns (result: Json)
    ensures result == MergePatch(target, patch, caseSensitive)
    decreases patch
  {
    if !patch.Object? {
      return patch;
    }
    var members := if target.Some? && target.value.Object? then target.value.members else [];
    var ps := patch.members;
    while ps != []
      invariant Below(ps, patch)
      invariant MergePatch(target, patch, caseSensitive) == Object(MergeMembers(patch, members, ps, caseSensitive))
      decreases |ps|
    {
      if ps[0].value.Null? {
        members := Without(members, ps[0].key, caseSensitive);
      } else {
        var replaceMe := Lookup(members, ps[0].key, caseSensitive);
        var replacement := MergePatchInto(replaceMe, ps[0].value, caseSensitive);
        members := Without(members, ps[0].key, caseSensitive) + [Member(ps[0].key, replacement)];
      }
      ps := ps[1..];
    }
    return Object(members);
  }

  function MeaningOf(j: Option<Json>): Option<Value> {
    match j case None => None case Some(v) => Some(Meaning(v))
  }

  ghost predicate WellFormedIfAny(j: Option<Json>, keys: set<string>) {
    j.Some? ==> WellFormed(j.value, keys)
  }

  lemma WithoutMeaning(ms: seq<Member>, key: string, cs: bool, keys: set<string>)
    requires ToldApart(keys, cs) && WellFormedMembers(ms, keys) && key in keys
    ensures WellFormedMembers(Without(ms, key, cs), keys)
    ensures MapOf(Without(ms, key, cs)) == MapOf(ms) - {key}
    ensures MeaningOf(Lookup(ms, key, cs)) == Rfc.Lookup(MapOf(ms), key)
    ensures WellFormedIfAny(Lookup(ms, key, cs), keys)
  {
    hide MapOf;
    FindKeyMeaning(ms, key, cs, keys);
    var r := FindKey(ms, key, cs);
    if r.Some? {
      RemoveMember(ms, r.value, keys);
    }
    hide FindKey;
  }

  /** Main result: on trees with case-distinct unique keys merge_patch computes what RFC 7396 defines. */
  lemma {:induction false} MergePatchRefines(target: Option<Json>, patch: Json, cs: bool, keys: set<string>)
    requires ToldApart(keys, cs) && WellFormedIfAny(target, keys) && WellFormed(patch, keys)
    ensures WellFormed(MergePatch(target, patch, cs), keys)
    ensures Meaning(MergePatch(target, patch, cs)) == Rfc.Merge(MeaningOf(target), Meaning(patch))
    decreases patch, 1, 0
  {
    if patch.Object? {
      var base := if target.Some? && target.value.Object? then target.value.members else [];
      assert forall i :: 0 <= i < |patch.members| ==> patch.members[i].value < patch.members[i];
      assert MergePatch(target, patch, cs) == Object(MergeMembers(patch, base, patch.members, cs));
      assert Rfc.Members(MeaningOf(target)) == MapOf(base);
      Rfc.MergeOnMembers(MeaningOf(target), MapOf(patch.members));
      hide Rfc.Merge, MapOf, MergeMembers, MergePatch;
      MergeMembersRefines(patch, base, patch.members, cs, keys);
    }
  }

  lemma FirstMember(patch: Json, ps: seq<Member>, cs: bool, keys: set<string>)
    requires ps != [] && Below(ps, patch) && WellFormedMembers(ps, keys)
    ensures ps[0].key in keys && WellFormed(ps[0].value, keys) && ps[0].value < patch
    ensures WellFormedMembers(ps[1..], keys) && Below(ps[1..], patch)
    ensures ps[0].key !in MapOf(ps[1..]) && MapOf(ps) == MapOf(ps[1..])[ps[0].key := Meaning(ps[0].value)]
    ensures Meaning(ps[0].value) == VNull <==> ps[0].value.Null?
  {
    TailMembers(ps, cs, keys);
  }

  lemma {:induction false} MergeMembersRefines(patch: Json, ms: seq<Member>, ps: seq<Member>, cs: bool, keys: set<string>)
    requires ToldApart(keys, cs) && Below(ps, patch)
    requires WellFormedMembers(ms, keys) && WellFormedMembers(ps, keys)
    ensures WellFormedMembers(MergeMembers(patch, ms, ps, cs), keys)
    ensures MapOf(MergeMembers(patch, ms, ps, cs)) == Rfc.MergeMaps(MapOf(ms), MapOf(ps))
    decreases patch, 0, |ps|
  {
    if ps == [] {
      assert Rfc.MergeMaps(MapOf(ms), map[]) == MapOf(ms);
    } else {
      hide *;
      FirstMember(patch, ps, cs, keys);
      MergeMembersStep(patch, ms, ps, cs);
      WithoutMeaning(ms, ps[0].key, cs, keys);
      Rfc.MergeMapsCons(MapOf(ms), ps[0].key, Meaning(ps[0].value), MapOf(ps[1..]));
      if ps[0].value.Null? {
        MergeMembersRefines(patch, Without(ms, ps[0].key, cs), ps[1..], cs, keys);
      } else {
        var (k, v) := (ps[0].key, ps[0].value);
        var merged := MergePatch(Lookup(ms, k, cs), v, cs);
        MergePatchRefines(Lookup(ms, k, cs), v, cs, keys);
        ReplacedMember(ms, k, merged, cs, keys);
        MergeMembersRefines(patch, Without(ms, k, cs) + [Member(k, merged)], ps[1..], cs, keys);
      }
    }
  }

  /** Detaching a member and appending its replacement. */
  lemma ReplacedMember(ms: seq<Member>, key: string, x: Json, cs: bool, keys: set<string>)
    requires ToldApart(keys, cs) && WellFormedMembers(ms, keys) && key in keys && WellFormed(x, keys)
    ensures WellFormedMembers(Without(ms, key, cs) + [Member(key, x)], keys)
    ensures MapOf(Without(ms, key, cs) + [Member(key, x)]) == MapOf(ms)[key := Meaning(x)]
  {
    hide *;
    WithoutMeaning(ms, key, cs, keys);
    AppendMember(Without(ms, key, cs), Member(key, x), keys);
    assert (MapOf(ms) - {key})[key := Meaning(x)] == MapOf(ms)[key := Meaning(x)];
  }

  lemma MergeMembersStep(patch: Json, ms: seq<Member>, ps: seq<Member>, cs: bool)
    requires ps != [] && Below(ps, patch) && Below(ps[1..], patch)
    ensures MergeMembers(patch, ms, ps, cs)
            == var kept := Without(ms, ps[0].key, cs);
               if ps[0].value.Null? then MergeMembers(patch, kept, ps[1..], cs)
               else MergeMembers(patch, kept + [Member(ps[0].key, MergePatch(Lookup(ms, ps[0].key, cs), ps[0].value, cs))], ps[1..], cs)
  {
  }

  /** Applying a merge patch twice gives the value that applying it once gives. */
  lemma MergePatchIdempotent(target: Option<Json>, patch: Json, cs: bool, keys: set<string>)
    requires ToldApart(keys, cs) && WellFormedIfAny(target, keys) && WellFormed(patch, keys)
    ensures var once := MergePatch(target, patch, cs);
            Meaning(MergePatch(Some(once), patch, cs)) == Meaning(once)
  {
    var once := MergePatch(target, patch, cs);
    hide Rfc.Merge, MergePatch, Meaning, WellFormed;
    MergePatchRefines(target, patch, cs, keys);
    MergePatchRefines(Some(once), patch, cs, keys);
    Rfc.MergeIdempotent(MeaningOf(target), Meaning(patch));
  }

  // ----- generate_merge_patch -----

  /** Which head the walk over the two sorted lists takes: it compares with strcmp whatever order sorted them. */
  function WalkDifference(fs: seq<Member>, ts: seq<Member>): int
    requires fs != [] || ts != []
  {
    if fs == [] then 1 else if ts == [] then -1 else StrCmp(fs[0].key, ts[0].key)
  }

  /** generate_merge_patch: None when no patch is needed. Below the top the keys are compared without
      regard to case. */
  function GenerateMergePatch(from: Json, to: Json, cs: bool): Option<Json>
    decreases from, 1, 0
  {
    if !(from.Object? && to.Object?) then Some(to)
    else
      SortMembersBelow(from, cs);
      var members := GenerateMembers(from, SortMembers(from.members, cs), SortMembers(to.members, cs), cs);
      if members == [] then None else Some(Object(members))
  }

  function GenerateMembers(ghost a: Json, fs: seq<Member>, ts: seq<Member>, cs: bool): seq<Member>
    requires Below(fs, a)
    decreases a, 0, |fs| + |ts|
  {
    if fs == [] && ts == [] then []
    else
      var diff := WalkDifference(fs, ts);
      if diff < 0 then
        [Member(fs[0].key, Null)] + GenerateMembers(a, fs[1..], ts, cs)
      else if diff > 0 then
        [Member(ts[0].key, ts[0].value)] + GenerateMembers(a, fs, ts[1..], cs)
      else
        ChangedMember(a, fs[0], ts[0], cs) + GenerateMembers(a, fs[1..], ts[1..], cs)
  }

  /** A key in both objects. */
  function ChangedMember(ghost a: Json, f: Member, t: Member, cs: bool): seq<Member>
    requires f.value < a
    decreases a, 0, 0
  {
    if CompareJson(f.value, t.value, cs) then []
    else match GenerateMergePatch(f.value, t.value, false)
         case None => []
         case Some(p) => [Member(t.key, p)]
  }

  /** generate_merge_patch with its loop. */
  method GenerateMergePatchLoop(from: Json, to: Json, caseSensitive: bool) returns (patch: Option<Json>)
    ensures patch == GenerateMergePatch(from, to, caseSensitive)
    decreases from
  {
    if !to.Object? || !from.Object? {
      return Some(to);
    }
    var fs, ts := SortMembers(from.members, caseSensitive), SortMembers(to.members, caseSensitive);
    SortMembersBelow(from, caseSensitive);
    var members: seq<Member> := [];
    ghost var all := GenerateMembers(from, fs, ts, caseSensitive);
    while fs != [] || ts != []
      invariant Below(fs, from)
      invariant all == members + GenerateMembers(from, fs, ts, caseSensitive)
      decreases |fs| + |ts|
    {
      var diff := WalkDifference(fs, ts);
      var added: seq<Member> := [];
      ghost var (fs0, ts0) := (fs, ts);
      if diff < 0 {
        added, fs := [Member(fs[0].key, Null)], fs[1..];
      } else if diff > 0 {
        added, ts := [Member(ts[0].key, ts[0].value)], ts[1..];
      } else {
        if !CompareJson(fs[0].value, ts[0].value, caseSensitive) {
          var p := GenerateMergePatchLoop(fs[0].value, ts[0].value, false);
          if p.Some? {
            added := [Member(ts[0].key, p.value)];
          }
        }
        fs, ts := fs[1..], ts[1..];
      }
      ghost var rest := GenerateMembers(from, fs, ts, caseSensitive);
      assert GenerateMembers(from, fs0, ts0, caseSensitive) == added + rest;
      hide GenerateMembers, SortMembers, CompareJson, StrCmp;
      AppendAssociative(members, added, rest);
      members := members + added;
    }
    assert all == members;
    return if members == [] then None else Some(Object(members));
  }

  /** strcmp and the comparison after tolower order the keys alike; then the keys are case-distinct too. */
  ghost predicate FoldOrderAgrees(keys: set<string>) {
    forall a, b :: a in keys && b in keys ==>
      (StrCmp(a, b) < 0 <==> StrCmp(Lower(a), Lower(b)) < 0) && (StrCmp(a, b) == 0 <==> StrCmp(Lower(a), Lower(b)) == 0)
  }

  lemma FoldOrderDistinct(keys: set<string>)
    requires FoldOrderAgrees(keys)
    ensures CaseDistinct(keys) && forall cs :: ToldApart(keys, cs)
  {
    forall a, b | a in keys && b in keys && Lower(a) == Lower(b)
      ensures a == b
    {
      StrCmpZero(Lower(a), Lower(b));
      StrCmpZero(a, b);
    }
  }

  /** Keys that tolower leaves alone satisfy the condition. */
  lemma LowerFixedAgrees(keys: set<string>)
    requires forall k :: k in keys ==> Lower(k) == k
    ensures FoldOrderAgrees(keys)
  {
  }

  /** Either way of sorting gives the strcmp order. */
  lemma AscendingByStrCmp(ms: seq<Member>, cs: bool, keys: set<string>)
    requires FoldOrderAgrees(keys) && WellFormedMembers(ms, keys) && Ascending(ms, cs)
    ensures Ascending(ms, true)
  {
  }

  // ----- one key at a time, on maps -----

  ghost function DiffMaps(fm: map<string, Value>, tm: map<string, Value>): map<string, Value> {
    Rfc.Diff(VObject(fm), VObject(tm)).members
  }

  lemma SameMaps(x: map<string, Value>, y: map<string, Value>)
    requires forall k :: Rfc.Lookup(x, k) == Rfc.Lookup(y, k)
    ensures x == y
  {
    forall k
      ensures k in x <==> k in y
      ensures k in x ==> x[k] == y[k]
    {
      assert Rfc.Lookup(x, k) == Rfc.Lookup(y, k);
    }
    assert x.Keys == y.Keys;
  }

  lemma DiffMapsLookup(fm: map<string, Value>, tm: map<string, Value>, k: string)
    ensures Rfc.Lookup(DiffMaps(fm, tm), k)
            == if Rfc.Lookup(fm, k) == Rfc.Lookup(tm, k) then None
               else if k !in tm then Some(VNull)
               else if k in fm then Some(Rfc.Diff(fm[k], tm[k]))
               else Some(tm[k])
  {
    Rfc.DiffAt(fm, tm, k);
  }

  /** The source has a key that the target has not. */
  lemma DiffRemoved(fm: map<string, Value>, tm: map<string, Value>, k: string, v: Value)
    requires k !in fm && k !in tm
    ensures k !in DiffMaps(fm, tm)
    ensures DiffMaps(fm[k := v], tm) == DiffMaps(fm, tm)[k := VNull]
  {
    var (x, y) := (DiffMaps(fm[k := v], tm), DiffMaps(fm, tm)[k := VNull]);
    forall j ensures Rfc.Lookup(x, j) == Rfc.Lookup(y, j) {
      DiffMapsLookup(fm[k := v], tm, j);
      DiffMapsLookup(fm, tm, j);
    }
    DiffMapsLookup(fm, tm, k);
    hide DiffMaps;
    SameMaps(x, y);
  }

  /** The target has a key that the source has not. */
  lemma DiffAdded(fm: map<string, Value>, tm: map<string, Value>, k: string, v: Value)
    requires k !in fm && k !in tm
    ensures k !in DiffMaps(fm, tm)
    ensures DiffMaps(fm, tm[k := v]) == DiffMaps(fm, tm)[k := v]
  {
    var (x, y) := (DiffMaps(fm, tm[k := v]), DiffMaps(fm, tm)[k := v]);
    forall j ensures Rfc.Lookup(x, j) == Rfc.Lookup(y, j) {
      DiffMapsLookup(fm, tm[k := v], j);
      DiffMapsLookup(fm, tm, j);
    }
    DiffMapsLookup(fm, tm, k);
    hide DiffMaps;
    SameMaps(x, y);
  }

  /** Both have the key. */
  lemma DiffBoth(fm: map<string, Value>, tm: map<string, Value>, k: string, v: Value, w: Value)
    requires k !in fm && k !in tm
    ensures k !in DiffMaps(fm, tm)
    ensures DiffMaps(fm[k := v], tm[k := w]) == if v == w then DiffMaps(fm, tm) else DiffMaps(fm, tm)[k := Rfc.Diff(v, w)]
  {
    var x := DiffMaps(fm[k := v], tm[k := w]);
    var y := if v == w then DiffMaps(fm, tm) else DiffMaps(fm, tm)[k := Rfc.Diff(v, w)];
    DiffMapsLookup(fm, tm, k);
    forall j ensures Rfc.Lookup(x, j) == Rfc.Lookup(y, j) {
      DiffMapsLookup(fm[k := v], tm[k := w], j);
      DiffMapsLookup(fm, tm, j);
    }
    hide DiffMaps;
    SameMaps(x, y);
  }

  lemma DiffEmpty(fm: map<string, Value>, tm: map<string, Value>)
    ensures DiffMaps(fm, tm) == map[] <==> fm == tm
  {
    if DiffMaps(fm, tm) == map[] {
      forall k ensures Rfc.Lookup(fm, k) == Rfc.Lookup(tm, k) {
        DiffMapsLookup(fm, tm, k);
      }
      SameMaps(fm, tm);
    }
  }

  // ----- generate_merge_patch computes the difference -----

  lemma PrependMember(m: Member, ms: seq<Member>, keys: set<string>)
    requires WellFormedMembers(ms, keys) && m.key in keys && WellFormed(m.value, keys) && m.key !in MapOf(ms)
    ensures WellFormedMembers([m] + ms, keys)
    ensures MapOf([m] + ms) == MapOf(ms)[m.key := Meaning(m.value)]
  {
    MapOfUnique(ms);
    var r := [m] + ms;
    assert r[1..] == ms;
    assert forall i :: 0 < i < |r| ==> r[i] == ms[i - 1];
    assert forall i :: 0 <= i < |ms| ==> ms[i].key in MapOf(ms);
    assert MapOf(r) == MapOf(ms)[m.key := Meaning(m.value)];
    hide MapOf, Meaning, WellFormed;
  }

  /** Lists ready for the walk. */
  ghost predicate Walkable(ms: seq<Member>, keys: set<string>) {
    WellFormedMembers(ms, keys) && Ascending(ms, true)
  }

  lemma WalkableParts(ms: seq<Member>, keys: set<string>)
    requires Walkable(ms, keys) && ms != []
    ensures Walkable(ms[1..], keys)
    ensures ms[0].key in keys && WellFormed(ms[0].value, keys)
    ensures ms[0].key !in MapOf(ms[1..]) && MapOf(ms) == MapOf(ms[1..])[ms[0].key := Meaning(ms[0].value)]
  {
    TailMembers(ms, true, keys);
  }

  lemma AbsentFromOther(key: string, ms: seq<Member>, keys: set<string>)
    requires Walkable(ms, keys) && (ms != [] ==> StrCmp(key, ms[0].key) < 0)
    ensures key !in MapOf(ms)
  {
    hide MapOf;
    SmallerKeyAbsent(key, ms, true);
  }

  ghost predicate Generated(r: seq<Member>, fs: seq<Member>, ts: seq<Member>, keys: set<string>) {
    WellFormedMembers(r, keys) && MapOf(r) == DiffMaps(MapOf(fs), MapOf(ts))
  }

  /** The generator returns the difference, and no patch exactly when the values are equal objects. */
  lemma {:induction false} GenerateRefines(from: Json, to: Json, cs: bool, keys: set<string>)
    requires FoldOrderAgrees(keys) && WellFormed(from, keys) && WellFormed(to, keys)
    ensures var r := GenerateMergePatch(from, to, cs);
            && (r.None? <==> from.Object? && to.Object? && Meaning(from) == Meaning(to))
            && (r.Some? ==> WellFormed(r.value, keys) && Meaning(r.value) == Rfc.Diff(Meaning(from), Meaning(to)))
    decreases from, 1, 0
  {
    if from.Object? && to.Object? {
      var (fs, ts) := (SortMembers(from.members, cs), SortMembers(to.members, cs));
      FoldOrderDistinct(keys);
      SortMembersBelow(from, cs);
      SortMembersKeeps(from.members, cs, keys);
      SortMembersKeeps(to.members, cs, keys);
      AscendingByStrCmp(fs, cs, keys);
      AscendingByStrCmp(ts, cs, keys);
      assert Walkable(fs, keys) && Walkable(ts, keys);
      GenerateMembersRefines(from, fs, ts, cs, keys);
      var r := GenerateMembers(from, fs, ts, cs);
      DiffEmpty(MapOf(fs), MapOf(ts));
      assert r == [] <==> MapOf(r) == map[] by { if r != [] { assert r[0].key in MapOf(r); } }
      assert Rfc.Diff(Meaning(from), Meaning(to)) == VObject(DiffMaps(MapOf(fs), MapOf(ts)));
      hide SortMembers, GenerateMembers, DiffMaps, Rfc.Diff, FoldOrderAgrees;
    }
  }

  lemma {:induction false} GenerateMembersRefines(a: Json, fs: seq<Member>, ts: seq<Member>, cs: bool, keys: set<string>)
    requires FoldOrderAgrees(keys) && Below(fs, a) && Walkable(fs, keys) && Walkable(ts, keys)
    ensures Generated(GenerateMembers(a, fs, ts, cs), fs, ts, keys)
    decreases a, 0, |fs| + |ts|, 1
  {
    if fs == [] && ts == [] {
      DiffEmpty(map[], map[]);
    } else {
      var diff := WalkDifference(fs, ts);
      if diff < 0 {
        GenerateRemoved(a, fs, ts, cs, keys);
      } else if diff > 0 {
        GenerateAdded(a, fs, ts, cs, keys);
      } else {
        GenerateBoth(a, fs, ts, cs, keys);
      }
    }
  }

  lemma {:induction false} GenerateRemoved(a: Json, fs: seq<Member>, ts: seq<Member>, cs: bool, keys: set<string>)
    requires FoldOrderAgrees(keys) && Below(fs, a) && Walkable(fs, keys) && Walkable(ts, keys)
    requires (fs != [] || ts != []) && WalkDifference(fs, ts) < 0
    ensures Generated(GenerateMembers(a, fs, ts, cs), fs, ts, keys)
    decreases a, 0, |fs| + |ts|, 0
  {
    var (k, rest) := (fs[0].key, GenerateMembers(a, fs[1..], ts, cs));
    assert GenerateMembers(a, fs, ts, cs) == [Member(k, Null)] + rest;
    assert ts != [] ==> StrCmp(k, ts[0].key) < 0;
    assert Meaning(Null) == VNull && WellFormed(Null, keys);
    assert Below(fs[1..], a);
    hide GenerateMembers, WalkDifference, StrCmp, MapOf, Meaning, WellFormed, WellFormedMembers, Walkable, FoldOrderAgrees, DiffMaps, Below;
    WalkableParts(fs, keys);
    AbsentFromOther(k, ts, keys);
    GenerateMembersRefines(a, fs[1..], ts, cs, keys);
    DiffRemoved(MapOf(fs[1..]), MapOf(ts), k, Meaning(fs[0].value));
    PrependMember(Member(k, Null), rest, keys);
  }

  lemma {:induction false} GenerateAdded(a: Json, fs: seq<Member>, ts: seq<Member>, cs: bool, keys: set<string>)
    requires FoldOrderAgrees(keys) && Below(fs, a) && Walkable(fs, keys) && Walkable(ts, keys)
    requires (fs != [] || ts != []) && WalkDifference(fs, ts) > 0
    ensures Generated(GenerateMembers(a, fs, ts, cs), fs, ts, keys)
    decreases a, 0, |fs| + |ts|, 0
  {
    var (k, rest) := (ts[0].key, GenerateMembers(a, fs, ts[1..], cs));
    var m := Member(k, ts[0].value);
    assert GenerateMembers(a, fs, ts, cs) == [m] + rest;
    assert fs != [] ==> StrCmp(k, fs[0].key) < 0 by {
      if fs != [] { StrCmpAntisymmetric(k, fs[0].key); }
    }
    hide GenerateMembers, WalkDifference, StrCmp, MapOf, Meaning, WellFormed, WellFormedMembers, Walkable, FoldOrderAgrees, DiffMaps, Below;
    WalkableParts(ts, keys);
    AbsentFromOther(k, fs, keys);
    GenerateMembersRefines(a, fs, ts[1..], cs, keys);
    DiffAdded(MapOf(fs), MapOf(ts[1..]), k, Meaning(ts[0].value));
    PrependMember(m, rest, keys);
  }

  lemma {:induction false} GenerateBoth(a: Json, fs: seq<Member>, ts: seq<Member>, cs: bool, keys: set<string>)
    requires FoldOrderAgrees(keys) && Below(fs, a) && Walkable(fs, keys) && Walkable(ts, keys)
    requires (fs != [] || ts != []) && WalkDifference(fs, ts) == 0
    ensures Generated(GenerateMembers(a, fs, ts, cs), fs, ts, keys)
    decreases a, 0, |fs| + |ts|, 0
  {
    var (k, v, w) := (fs[0].key, fs[0].value, ts[0].value);
    var rest := GenerateMembers(a, fs[1..], ts[1..], cs);
    StrCmpZero(k, ts[0].key);
    assert k == ts[0].key && v < a && Below(fs[1..], a);
    assert GenerateMembers(a, fs, ts, cs) == ChangedMember(a, fs[0], ts[0], cs) + rest;
    hide GenerateMembers, WalkDifference, StrCmp, MapOf, Meaning, WellFormed, WellFormedMembers, Walkable, FoldOrderAgrees, DiffMaps, Below;
    hide Rfc.Diff, CompareJson, GenerateMergePatch;
    WalkableParts(fs, keys);
    WalkableParts(ts, keys);
    FoldOrderDistinct(keys);
    CompareJsonMeaning(v, w, cs, keys);
    GenerateMembersRefines(a, fs[1..], ts[1..], cs, keys);
    DiffBoth(MapOf(fs[1..]), MapOf(ts[1..]), k, Meaning(v), Meaning(w));
    if Meaning(v) == Meaning(w) {
      assert [] + rest == rest;
    } else {
      GenerateRefines(v, w, false, keys);
      PrependMember(Member(k, GenerateMergePatch(v, w, false).value), rest, keys);
    }
  }

  /** What applying the generated patch gives; without a patch there is nothing to apply. */
  function Patched(from: Json, patch: Option<Json>, cs: bool): Json {
    match patch case None => from case Some(p) => MergePatch(Some(from), p, cs)
  }

  /** Merging the generated patch into a tree that stands for the source gives the target exactly when every null member of the target is
      already null in the source. */
  lemma MergePatchRoundTrip(copy: Json, from: Json, to: Json, cs: bool, keys: set<string>)
    requires FoldOrderAgrees(keys) && WellFormed(copy, keys) && WellFormed(from, keys) && WellFormed(to, keys)
    requires Meaning(copy) == Meaning(from)
    ensures Meaning(Patched(copy, GenerateMergePatch(from, to, cs), cs)) == Meaning(to)
            <==> Rfc.NullsKept(Some(Meaning(from)), Meaning(to))
  {
    hide Meaning, WellFormed, FoldOrderAgrees, MergePatch, GenerateMergePatch, Rfc.NullsKept, Rfc.Merge, Rfc.Diff;
    FoldOrderDistinct(keys);
    GenerateRefines(from, to, cs, keys);
    var r := GenerateMergePatch(from, to, cs);
    match r {
      case None => Rfc.NullsKeptSelf(Meaning(to));
      case Some(p) =>
        MergePatchRefines(Some(copy), p, cs, keys);
        Rfc.MergeDiffExact(Meaning(from), Meaning(to));
    }
  }

  // ----- the order condition is exact -----

  /** Merging generated patches works for all trees with keys from the set, as far as merge patches can work at all. */
  ghost predicate RoundTrips(keys: set<string>, cs: bool) {
    forall from, to :: WellFormed(from, keys) && WellFormed(to, keys) && Rfc.NullsKept(Some(Meaning(from)), Meaning(to)) ==>
      Meaning(Patched(from, GenerateMergePatch(from, to, cs), cs)) == Meaning(to)
  }

  /** strcmp puts the first key first, and the comparison after tolower does not. */
  predicate OutOfOrder(a: string, b: string) {
    StrCmp(a, b) < 0 && StrCmp(Lower(a), Lower(b)) >= 0
  }

  lemma SomeOutOfOrder(keys: set<string>) returns (a: string, b: string)
    requires !FoldOrderAgrees(keys)
    ensures a in keys && b in keys && OutOfOrder(a, b)
  {
    a, b :| a in keys && b in keys
            && !((StrCmp(a, b) < 0 <==> StrCmp(Lower(a), Lower(b)) < 0) && (StrCmp(a, b) == 0 <==> StrCmp(Lower(a), Lower(b)) == 0));
    StrCmpZero(a, b);
    StrCmpZero(Lower(a), Lower(b));
    StrCmpAntisymmetric(a, b);
    StrCmpAntisymmetric(Lower(a), Lower(b));
    if StrCmp(a, b) > 0 {
      a, b := b, a;
    }
  }

  function One(key: string): Member { Member(key, Number(1)) }

  lemma SortedBackwards(a: string, b: string)
    requires OutOfOrder(a, b)
    ensures SortMembers([One(a), One(b)], false) == [One(b), One(a)]
    ensures SortMembers([One(a)], false) == [One(a)]
  {
    var xs := [One(a), One(b)];
    assert xs[..1] == [One(a)] && xs[1..] == [One(b)];
    assert KeyOf(xs[0]) == a && KeyOf(xs[1]) == b;
    assert Sorting.Sort([One(a)], KeyOf, false) == [One(a)] && Sorting.Sort([One(b)], KeyOf, false) == [One(b)];
    assert Sorting.Merge([One(a)], [One(b)], KeyOf, false) == [One(b)] + Sorting.Merge([One(a)], [], KeyOf, false);
    assert !Sorting.StrictlyIncreasing(xs, KeyOf, false);
  }

  /** Of two members only the first is to stay: the walk both adds and deletes it. */
  function Losing(a: string, b: string): seq<Member> {
    [One(a), Member(b, Null), Member(a, Null)]
  }

  lemma LosingPatch(a: string, b: string)
    requires OutOfOrder(a, b)
    ensures GenerateMergePatch(Object([One(a), One(b)]), Object([One(a)]), false) == Some(Object(Losing(a, b)))
  {
    SortedBackwards(a, b);
    StrCmpAntisymmetric(a, b);
    var from := Object([One(a), One(b)]);
    SortMembersBelow(from, false);
    var fs := [One(b), One(a)];
    assert fs[1..] == [One(a)] && [One(a)][1..] == [];
    hide SortMembers, StrCmp, CompareJson;
    assert GenerateMembers(from, [One(a)], [], false) == [Member(a, Null)];
    assert GenerateMembers(from, fs, [], false) == [Member(b, Null)] + [Member(a, Null)];
    assert GenerateMembers(from, fs, [One(a)], false) == [One(a)] + [Member(b, Null), Member(a, Null)];
    assert [One(a)] + [Member(b, Null), Member(a, Null)] == Losing(a, b);
    hide GenerateMembers;
    assert from.members == [One(a), One(b)] && Object([One(a)]).members == [One(a)];
    assert Losing(a, b) != [];
  }

  lemma WithoutFirst(m: Member, rest: seq<Member>, cs: bool)
    ensures Without([m] + rest, m.key, cs) == rest
  {
    assert ([m] + rest)[0] == m && RemoveAt([m] + rest, 0) == rest;
  }

  /** Each member that the patch deletes or merges is the first one at its turn, so nothing is left. */
  lemma LosingMerge(a: string, b: string, cs: bool)
    ensures MergePatch(Some(Object([One(a), One(b)])), Object(Losing(a, b)), cs) == Object([])
  {
    var (ps, qs, rs) := (Losing(a, b), [Member(b, Null), Member(a, Null)], [Member(a, Null)]);
    var (patch, ms) := (Object(ps), [One(a), One(b)]);
    LosingSlices(a, b, patch, cs);
    hide *;
    WithoutFirst(One(a), [One(b)], cs);
    assert [One(a)] + [One(b)] == ms;
    OneIs(a);
    MergeMembersStep(patch, ms, ps, cs);
    LosingRest(a, b, patch, cs);
  }

  lemma LosingSlices(a: string, b: string, patch: Json, cs: bool)
    requires patch == Object(Losing(a, b))
    ensures var (ps, qs, rs) := (Losing(a, b), [Member(b, Null), Member(a, Null)], [Member(a, Null)]);
            && ps[1..] == qs && qs[1..] == rs && rs[1..] == [] && ps[0] == One(a)
            && Below(ps, patch) && Below(qs, patch) && Below(rs, patch) && Below([], patch)
            && (forall target :: MergePatch(target, patch, cs)
                                 == Object(MergeMembers(patch, if target.Some? && target.value.Object? then target.value.members else [], ps, cs)))
            && MergeMembers(patch, [], [], cs) == []
    ensures forall target :: MergePatch(target, Number(1), cs) == Number(1)
  {
    assert forall i :: 0 <= i < |Losing(a, b)| ==> Losing(a, b)[i].value < Losing(a, b)[i];
    assert MergeMembers(patch, [], [], cs) == [];
    hide MergeMembers;
  }

  /** What is left after the first turn: both members, and both are deleted. */
  lemma LosingRest(a: string, b: string, patch: Json, cs: bool)
    requires patch == Object(Losing(a, b)) && Below([Member(b, Null), Member(a, Null)], patch)
    ensures MergeMembers(patch, [One(b)] + [One(a)], [Member(b, Null), Member(a, Null)], cs) == []
  {
    LosingSlices(a, b, patch, cs);
    hide *;
    WithoutFirst(One(b), [One(a)], cs);
    WithoutFirst(One(a), [], cs);
    assert [One(a)] + [] == [One(a)];
    OneIs(a);
    OneIs(b);
    MergeMembersStep(patch, [One(b)] + [One(a)], [Member(b, Null), Member(a, Null)], cs);
    MergeMembersStep(patch, [One(a)], [Member(a, Null)], cs);
  }

  lemma OneIs(key: string)
    ensures One(key) == Member(key, Number(1))
  {
  }

  ghost predicate Loses(from: Json, to: Json, cs: bool, keys: set<string>) {
    && WellFormed(from, keys) && WellFormed(to, keys) && Rfc.NullsKept(Some(Meaning(from)), Meaning(to))
    && Meaning(Patched(from, GenerateMergePatch(from, to, cs), cs)) != Meaning(to)
  }

  lemma LosingTrees(a: string, b: string, keys: set<string>)
    requires a in keys && b in keys && OutOfOrder(a, b)
    ensures var (from, to) := (Object([One(a), One(b)]), Object([One(a)]));
            && WellFormed(from, keys) && WellFormed(to, keys) && Rfc.NullsKept(Some(Meaning(from)), Meaning(to))
            && Meaning(to) == VObject(map[a := VNumber(1)]) && Meaning(from) != Meaning(to)
  {
    StrCmpZero(a, b);
    assert [One(a)][1..] == [] && [One(a), One(b)][1..] == [One(b)] && [One(b)][1..] == [];
    assert MapOf([One(a)]) == map[a := VNumber(1)];
    assert b in MapOf([One(a), One(b)]);
  }

  /** Sorting without regard to case puts the keys in the other order than strcmp does: the walk then both adds and deletes the
      member that is to stay. */
  lemma OrderLosesMember(a: string, b: string, keys: set<string>)
    requires a in keys && b in keys && OutOfOrder(a, b)
    ensures Loses(Object([One(a), One(b)]), Object([One(a)]), false, keys)
  {
    LosingPatch(a, b);
    LosingMerge(a, b, false);
    LosingTrees(a, b, keys);
    assert Meaning(Object([])) == VObject(map[]);
    assert a in map[a := VNumber(1)];
    hide GenerateMergePatch, MergePatch, MapOf, WellFormed, Rfc.NullsKept, Losing;
  }

  lemma Nested(key: string, j: Json, keys: set<string>)
    requires key in keys && WellFormed(j, keys)
    ensures WellFormed(Object([Member(key, j)]), keys)
    ensures Meaning(Object([Member(key, j)])) == VObject(map[key := Meaning(j)])
  {
    var ms := [Member(key, j)];
    assert ms[1..] == [];
    assert MapOf(ms) == map[key := Meaning(j)];
  }

  lemma NestedPatch(key: string, from: Json, to: Json, p: Json)
    requires !CompareJson(from, to, true) && GenerateMergePatch(from, to, false) == Some(p)
    ensures GenerateMergePatch(Object([Member(key, from)]), Object([Member(key, to)]), true) == Some(Object([Member(key, p)]))
  {
    var (fs, ts) := ([Member(key, from)], [Member(key, to)]);
    var a := Object(fs);
    assert a.members == fs && Object(ts).members == ts;
    assert SortMembers(fs, true) == fs && SortMembers(ts, true) == ts;
    SortMembersBelow(a, true);
    StrCmpZero(key, key);
    assert fs[1..] == [] && ts[1..] == [];
    hide SortMembers, StrCmp, CompareJson;
    assert ChangedMember(a, fs[0], ts[0], true) == [Member(key, p)];
    assert GenerateMembers(a, [], [], true) == [];
    assert GenerateMembers(a, fs, ts, true) == [Member(key, p)] + [];
    assert [Member(key, p)] + [] == [Member(key, p)];
    hide GenerateMembers, ChangedMember;
  }

  lemma NestedMerge(key: string, from: Json, p: Json)
    requires !p.Null?
    ensures MergePatch(Some(Object([Member(key, from)])), Object([Member(key, p)]), true)
            == Object([Member(key, MergePatch(Some(from), p, true))])
  {
    var (ms, ps) := ([Member(key, from)], [Member(key, p)]);
    var patch := Object(ps);
    assert forall i :: 0 <= i < |ps| ==> ps[i].value < ps[i];
    assert Below(ps, patch) && ps[1..] == [];
    assert Without(ms, key, true) == [] && Lookup(ms, key, true) == Some(from);
    hide Without, Lookup;
    var merged := MergePatch(Some(from), p, true);
    assert [] + [Member(key, merged)] == [Member(key, merged)];
    assert MergeMembers(patch, ms, ps, true) == [Member(key, merged)];
  }

  /** The case sensitive generator has the same fault one level down, where it ignores case. */
  lemma OrderLosesNestedMember(a: string, b: string, keys: set<string>)
    requires a in keys && b in keys && OutOfOrder(a, b)
    ensures Loses(Object([Member(a, Object([One(a), One(b)]))]), Object([Member(a, Object([One(a)]))]), true, keys)
  {
    hide *;
    var (from, to, p) := (Object([One(a), One(b)]), Object([One(a)]), Object(Losing(a, b)));
    LosingPatch(a, b);
    LosingMerge(a, b, true);
    LosingTrees(a, b, keys);
    CaseMatters(keys);
    CompareJsonMeaning(from, to, true, keys);
    NestedPatch(a, from, to, p);
    NestedMerge(a, from, p);
    Nested(a, from, keys);
    Nested(a, to, keys);
    NestedNulls(a, from, to, keys);
    NestedDiffers(a, from, to, p, keys);
  }

  lemma CaseMatters(keys: set<string>)
    ensures ToldApart(keys, true)
  {
  }

  lemma NestedNulls(key: string, from: Json, to: Json, keys: set<string>)
    requires Rfc.NullsKept(Some(Meaning(from)), Meaning(to)) && to.Object?
    ensures Rfc.NullsKept(Some(VObject(map[key := Meaning(from)])), VObject(map[key := Meaning(to)]))
  {
  }

  lemma NestedDiffers(key: string, from: Json, to: Json, p: Json, keys: set<string>)
    requires var (f, t) := (Object([Member(key, from)]), Object([Member(key, to)]));
             && WellFormed(f, keys) && WellFormed(t, keys) && Rfc.NullsKept(Some(Meaning(f)), Meaning(t))
             && GenerateMergePatch(f, t, true) == Some(Object([Member(key, p)]))
             && MergePatch(Some(f), Object([Member(key, p)]), true) == Object([Member(key, Object([]))])
             && Meaning(t) == VObject(map[key := Meaning(to)]) && Meaning(to) == VObject(map[key := VNumber(1)])
    ensures Loses(Object([Member(key, from)]), Object([Member(key, to)]), true, keys)
  {
    var ms := [Member(key, Object([]))];
    assert ms[1..] == [];
    assert Meaning(Object([])) == VObject(map[]);
    assert MapOf(ms) == map[key := Meaning(Object([]))];
    assert Meaning(Object(ms)) == VObject(map[key := VObject(map[])]);
    assert map[key := VObject(map[])][key] != map[key := VObject(map[key := VNumber(1)])][key] by {
      assert key in map[key := VNumber(1)];
    }
    hide GenerateMergePatch, MergePatch, MapOf, WellFormed, Rfc.NullsKept;
  }

  /** Main result: merging generated patches works for all trees over a set of keys exactly when strcmp and the comparison after
      tolower agree on the order of the keys, for both generators. */
  lemma OrderConditionIsExact(keys: set<string>, cs: bool)
    ensures FoldOrderAgrees(keys) <==> RoundTrips(keys, cs)
  {
    if FoldOrderAgrees(keys) {
      forall from, to | WellFormed(from, keys) && WellFormed(to, keys) && Rfc.NullsKept(Some(Meaning(from)), Meaning(to))
        ensures Meaning(Patched(from, GenerateMergePatch(from, to, cs), cs)) == Meaning(to)
      {
        MergePatchRoundTrip(from, from, to, cs, keys);
      }
    } else {
      var a, b := SomeOutOfOrder(keys);
      hide FoldOrderAgrees, OutOfOrder, WellFormed, Meaning, Patched, GenerateMergePatch, Rfc.NullsKept;
      if cs {
        OrderLosesNestedMember(a, b, keys);
      } else {
        OrderLosesMember(a, b, keys);
      }
    }
  }

  /** For example "A" and "_". */
  lemma MixedCaseLosesMember()
    ensures Loses(Object([One("A"), One("_")]), Object([One("A")]), false, {"A", "_"})
  {
    assert Lower("A")[0] == 'a' && Lower("_")[0] == '_';
    hide Lower, Loses;
    OrderLosesMember("A", "_", {"A", "_"});
  }
}
