/** RFC 7396 on JSON values: applying a merge patch (section 2), and when a computed patch can work at all. */
module Rfc7396 {
  import opened Text
  import opened Json

  function Members(v: Option<Value>): map<string, Value> {
    if v.Some? && v.value.VObject? then v.value.members else map[]
  }

  function Lookup(m: map<string, Value>, k: string): Option<Value> {
    if k in m then Some(m[k]) else None
  }

  /** The pseudo-code of section 2: the target may be missing. */
  function Merge(target: Option<Value>, patch: Value): Value
    decreases patch
  {
    match patch
    case VObject(pm) =>
      var base := Members(target);
      VObject(map k | k in base.Keys + pm.Keys && !(k in pm && pm[k] == VNull) ::
                if k in pm then Merge(Lookup(base, k), pm[k]) else base[k])
    case _ => patch
  }

  ghost function MergeMaps(base: map<string, Value>, pm: map<string, Value>): (r: map<string, Value>)
    ensures r.Keys == set k | k in base.Keys + pm.Keys && !(k in pm && pm[k] == VNull)
    ensures forall k :: k in r ==> r[k] == if k in pm then Merge(Lookup(base, k), pm[k]) else base[k]
  {
    Merge(Some(VObject(base)), VObject(pm)).members
  }

  /** Only the members of the target matter. */
  lemma MergeOnMembers(target: Option<Value>, pm: map<string, Value>)
    ensures Merge(target, VObject(pm)) == VObject(MergeMaps(Members(target), pm))
  {
  }

  /** One member of the patch at a time. */
  lemma MergeMapsCons(base: map<string, Value>, k: string, v: Value, rest: map<string, Value>)
    requires k !in rest
    ensures v == VNull ==> MergeMaps(base, rest[k := v]) == MergeMaps(base - {k}, rest)
    ensures v != VNull ==> MergeMaps(base, rest[k := v]) == MergeMaps(base[k := Merge(Lookup(base, k), v)], rest)
  {
    var pm := rest[k := v];
    var next := if v == VNull then base - {k} else base[k := Merge(Lookup(base, k), v)];
    var (l, r) := (MergeMaps(base, pm), MergeMaps(next, rest));
    hide MergeMaps, Merge;
    assert l.Keys == r.Keys;
    forall j | j in l
      ensures l[j] == r[j]
    {
    }
  }

  /** Applying a patch a second time changes nothing. */
  lemma {:induction false} MergeIdempotent(target: Option<Value>, patch: Value)
    ensures Merge(Some(Merge(target, patch)), patch) == Merge(target, patch)
    decreases patch
  {
    if patch.VObject? {
      var pm := patch.members;
      var base := Members(target);
      var once := MergeMaps(base, pm);
      var twice := MergeMaps(once, pm);
      MergeOnMembers(target, pm);
      MergeOnMembers(Some(VObject(once)), pm);
      forall k | k in pm && pm[k] != VNull
        ensures Merge(Some(Merge(Lookup(base, k), pm[k])), pm[k]) == Merge(Lookup(base, k), pm[k])
      {
        MergeIdempotent(Lookup(base, k), pm[k]);
      }
      hide MergeMaps, Merge;
      assert twice.Keys == once.Keys;
      assert twice == once;
    }
  }

  // ----- computing a patch -----

  /** The patch that generate_merge_patch computes for two different values. */
  function Diff(from: Value, goal: Value): Value
    decreases goal
  {
    match (from, goal)
    case (VObject(fm), VObject(tm)) =>
      VObject(map k | k in fm.Keys + tm.Keys && !(k in fm && k in tm && fm[k] == tm[k]) ::
                if k in tm then (if k in fm then Diff(fm[k], tm[k]) else tm[k]) else VNull)
    case _ => goal
  }

  /** Every null member of the target, reached through objects, is already a null member of the source. */
  predicate NullsKept(from: Option<Value>, goal: Value)
    decreases goal
  {
    match goal
    case VObject(tm) =>
      forall k :: k in tm ==>
        if tm[k] == VNull then Lookup(Members(from), k) == Some(VNull)
        else NullsKept(Lookup(Members(from), k), tm[k])
    case _ => true
  }

  lemma {:induction false} NullsKeptSelf(v: Value)
    ensures NullsKept(Some(v), v)
    decreases v
  {
    if v.VObject? {
      forall k | k in v.members
        ensures NullsKept(Some(v.members[k]), v.members[k])
      {
        NullsKeptSelf(v.members[k]);
      }
    }
  }

  /** A value merged over something without members is itself exactly when it has no null members. */
  lemma {:induction false} MergeOverNothing(target: Option<Value>, goal: Value)
    requires Members(target) == map[]
    ensures Merge(target, goal) == goal <==> NullsKept(target, goal)
    decreases goal
  {
    if goal.VObject? {
      var tm := goal.members;
      MergeOnMembers(target, tm);
      var r := MergeMaps(map[], tm);
      forall k | k in tm
        ensures Merge(None, tm[k]) == tm[k] <==> NullsKept(None, tm[k])
      {
        MergeOverNothing(None, tm[k]);
      }
      hide MergeMaps, Merge;
      if r == tm {
        assert forall k :: k in tm ==> k in r;
      }
      if NullsKept(target, goal) {
        assert r.Keys == tm.Keys;
      }
    }
  }

  /** What the difference says about one key. */
  lemma DiffAt(fm: map<string, Value>, tm: map<string, Value>, k: string)
    ensures var dm := Diff(VObject(fm), VObject(tm)).members;
            && (k in dm <==> (k in fm || k in tm) && Lookup(fm, k) != Lookup(tm, k))
            && (k in dm ==> dm[k] == if k !in tm then VNull else if k in fm then Diff(fm[k], tm[k]) else tm[k])
  {
  }

  lemma DiffNull(from: Value, goal: Value)
    ensures Diff(from, goal) == VNull <==> goal == VNull
  {
  }

  /** Merging the difference gives the target exactly when every null member of the target is kept from the
      source: a merge patch cannot write a null. */
  lemma {:induction false} MergeDiffExact(from: Value, goal: Value)
    ensures Merge(Some(from), Diff(from, goal)) == goal <==> NullsKept(Some(from), goal)
    decreases goal
  {
    if !goal.VObject? {
    } else if !from.VObject? {
      MergeOverNothing(Some(from), goal);
    } else {
      var (fm, tm) := (from.members, goal.members);
      var dm := Diff(from, goal).members;
      MergeOnMembers(Some(from), dm);
      var r := MergeMaps(fm, dm);
      forall k
        ensures MergedAt(fm, tm, r, k)
      {
        MergeDiffAt(fm, tm, k, goal);
      }
      MergedExactly(fm, tm, r);
    }
  }

  ghost predicate KeptAt(fm: map<string, Value>, tm: map<string, Value>, k: string)
    requires k in tm
  {
    if tm[k] == VNull then Lookup(fm, k) == Some(VNull) else NullsKept(Lookup(fm, k), tm[k])
  }

  /** The merged map agrees with the target at a key exactly when nulls are kept there. */
  ghost predicate MergedAt(fm: map<string, Value>, tm: map<string, Value>, r: map<string, Value>, k: string) {
    Lookup(r, k) == Lookup(tm, k) <==> (k in tm ==> KeptAt(fm, tm, k))
  }

  lemma MergeDiffAt(fm: map<string, Value>, tm: map<string, Value>, k: string, goal: Value)
    requires goal == VObject(tm)
    ensures MergedAt(fm, tm, MergeMaps(fm, Diff(VObject(fm), goal).members), k)
    decreases goal, 0
  {
    DiffAt(fm, tm, k);
    var dm := Diff(VObject(fm), goal).members;
    var r := MergeMaps(fm, dm);
    hide MergeMaps, Merge, Diff, NullsKept;
    if k in tm {
      if k !in fm {
        if tm[k] != VNull {
          MergeOverNothing(None, tm[k]);
        }
      } else if fm[k] == tm[k] {
        NullsKeptSelf(tm[k]);
      } else {
        DiffNull(fm[k], tm[k]);
        MergeDiffExact(fm[k], tm[k]);
      }
    }
  }

  lemma MergedExactly(fm: map<string, Value>, tm: map<string, Value>, r: map<string, Value>)
    requires forall k :: MergedAt(fm, tm, r, k)
    ensures r == tm <==> NullsKept(Some(VObject(fm)), VObject(tm))
  {
    assert NullsKept(Some(VObject(fm)), VObject(tm)) <==> forall k :: k in tm ==> KeptAt(fm, tm, k);
    hide NullsKept, KeptAt;
    if r == tm {
      assert forall k :: k in tm ==> MergedAt(fm, tm, r, k);
    }
    if forall k :: k in tm ==> KeptAt(fm, tm, k) {
      forall k
        ensures k in r <==> k in tm
        ensures k in tm ==> r[k] == tm[k]
      {
        assert MergedAt(fm, tm, r, k);
        assert Lookup(r, k) == Lookup(tm, k);
      }
      assert r.Keys == tm.Keys;
    }
  }
}
