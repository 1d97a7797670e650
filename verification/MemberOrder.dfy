/** Where the members of an object stand after patching and merging, and what a patch that fails leaves behind. */
module MemberOrder {
  import opened Text
  import opened Json
  import opened JsonOrder
  import opened JsonPointer
  import opened JsonPatch
  import opened MergePatches

  // ----- the members that are not touched -----

  /** The members with other keys, in their order. */
  ghost function Others(ms: seq<Member>, keys: set<string>): seq<Member> {
    if ms == [] then [] else (if ms[0].key in keys then [] else [ms[0]]) + Others(ms[1..], keys)
  }

  lemma {:induction false} OthersAppend(ms: seq<Member>, m: Member, keys: set<string>)
    ensures Others(ms + [m], keys) == Others(ms, keys) + (if m.key in keys then [] else [m])
  {
    if ms == [] {
      assert ms + [m] == [m] && [m][1..] == [];
    } else {
      OthersAppend(ms[1..], m, keys);
      assert (ms + [m])[1..] == ms[1..] + [m];
    }
  }

  lemma {:induction false} OthersOfOthers(ms: seq<Member>, keys: set<string>, more: set<string>)
    ensures Others(Others(ms, keys), more) == Others(ms, keys + more)
  {
    if ms != [] {
      OthersOfOthers(ms[1..], keys, more);
      var rest := Others(ms[1..], keys);
      if ms[0].key in keys {
        assert Others(ms, keys) == [] + rest == rest;
      } else {
        assert Others(ms, keys) == [ms[0]] + rest && ([ms[0]] + rest)[1..] == rest;
      }
    }
  }

  lemma {:induction false} OthersAll(ms: seq<Member>, keys: set<string>)
    requires forall i :: 0 <= i < |ms| ==> ms[i].key !in keys
    ensures Others(ms, keys) == ms
  {
    if ms != [] {
      OthersAll(ms[1..], keys);
    }
  }

  lemma {:induction false} OthersRemoved(ms: seq<Member>, i: nat)
    requires i < |ms| && UniqueKeys(ms)
    ensures RemoveAt(ms, i) == Others(ms, {ms[i].key})
  {
    if i == 0 {
      OthersAll(ms[1..], {ms[0].key});
    } else {
      OthersRemoved(ms[1..], i - 1);
      assert RemoveAt(ms, i) == [ms[0]] + RemoveAt(ms[1..], i - 1);
    }
  }

  lemma WithoutOthers(ms: seq<Member>, key: string, cs: bool, keys: set<string>)
    requires ToldApart(keys, cs) && WellFormedMembers(ms, keys) && key in keys
    ensures Without(ms, key, cs) == Others(ms, {key})
  {
    var r := FindKey(ms, key, cs);
    if r.Some? {
      OthersRemoved(ms, r.value);
    } else {
      OthersAll(ms, {key});
    }
    hide FindKey, Others;
  }

  // ----- patching -----

  /** A member that is added becomes the last one, also when there was one with its key; the others keep their order. */
  lemma AddedLast(ms: seq<Member>, key: string, value: Json, cs: bool, keys: set<string>)
    requires ToldApart(keys, cs) && WellFormedMembers(ms, keys) && key in keys
    ensures AddChild(Object(ms), key, value, cs) == Applied(0, Object(Others(ms, {key}) + [Member(key, value)]))
  {
    hide FindKey, Others;
    WithoutOthers(ms, key, cs, keys);
  }

  /** The members that are not detached keep their order. */
  lemma DetachedOthers(ms: seq<Member>, key: string, keys: set<string>)
    requires WellFormedMembers(ms, keys) && key in keys && OnlyKey(key, keys)
    ensures var r := DetachChild(Object(ms), key);
            && (r.Detached? <==> exists i :: 0 <= i < |ms| && ms[i].key == key)
            && (r.Detached? ==> r.rest == Object(Others(ms, {key})) && Member(key, r.item) in ms)
  {
    var r := FindKey(ms, key, false);
    if r.Some? {
      OthersRemoved(ms, r.value);
      assert ms[r.value] == Member(key, ms[r.value].value);
    }
    hide FindKey, Others;
  }

  // ----- what a patch that fails leaves behind -----

  /** The text at a member of the patch. */
  function TextAtMember(patch: Json, name: string, cs: bool): Option<string> {
    match GetMember(patch, name, cs)
    case Some(String(s)) => Some(s)
    case _ => None
  }

  /** The parent that a path names, with the token behind the last slash as it is decoded in place. */
  function ParentOf(doc: Json, path: string, cs: bool): Option<(Json, string)> {
    match LastSlash(path)
    case None => None
    case Some(n) =>
      match Locate(doc, path[..n], cs)
      case None => None
      case Some(loc) => Some((At(doc, loc), DecodeInPlace(path[n + 1..])))
  }

  /** 9 says that there is nothing to add to, 11 that the token is no index, 10 that the index is behind the end. */
  lemma AddStatus(doc: Json, path: string, value: Json, cs: bool)
    ensures var (status, p) := (AddPath(doc, path, value, cs).status, ParentOf(doc, path, cs));
            && (status == 9 <==> p == None || !(p.value.0.Array? || p.value.0.Object?))
            && (status == 11 <==> p.Some? && p.value.0.Array? && p.value.1 != "-" && DecodeIndex(p.value.1) == None)
            && (status == 10 <==> p.Some? && p.value.0.Array? && p.value.1 != "-" && DecodeIndex(p.value.1).Some?
                                  && DecodeIndex(p.value.1).value > |p.value.0.items|)
  {
    hide FindKey, Locate, LastSlash, DecodeInPlace, Update, DecodeIndex;
  }

  lemma AddPathFails(doc: Json, path: string, value: Json, cs: bool)
    ensures var r := AddPath(doc, path, value, cs);
            r.status in {0, 9, 10, 11} && (r.status != 0 ==> r.doc == doc)
  {
    hide FindKey, Locate, LastSlash, DecodeInPlace, Update, DecodeIndex;
  }

  /** A status and what it says of a value that is added, or of the place where it is taken from. */
  ghost predicate WithValueSays(doc: Json, replace: bool, path: string, value: Option<Json>, cs: bool, r: Applied) {
    && r.status in {0, 7, 9, 10, 11, 13}
    && (r.status == 13 <==> replace && path != "" && DetachPath(doc, path, cs) == NotFound)
    && (r.status == 7 <==> value == None && r.status != 13)
    && (r.status != 0 && r.doc != doc ==> replace && DetachPath(doc, path, cs).Detached? && r.doc == DetachPath(doc, path, cs).rest)
  }

  lemma WithValueStatus(doc: Json, replace: bool, path: string, value: Option<Json>, cs: bool)
    ensures WithValueSays(doc, replace, path, value, cs, ApplyWithValue(doc, replace, path, value, cs))
    ensures ApplyWithValue(doc, replace, path, value, cs).status != 2
  {
    hide DetachPath, AddPath;
    if value.Some? {
      AddPathFails(doc, path, value.value, cs);
      if DetachPath(doc, path, cs).Detached? {
        AddPathFails(DetachPath(doc, path, cs).rest, path, value.value, cs);
      }
    }
  }

  ghost predicate FromSays(doc: Json, move: bool, from: Option<Json>, cs: bool, r: Applied) {
    && r.status in {0, 4, 5, 9, 10, 11}
    && (r.status == 4 <==> from == None)
    && (r.status == 5 <==> from.Some? && (!from.value.String?
                                          || (if move then DetachPath(doc, from.value.s, cs) == NotFound else Locate(doc, from.value.s, cs) == None)))
    && (r.status != 0 && r.doc != doc ==> move && from.Some? && from.value.String? && DetachPath(doc, from.value.s, cs).Detached?
                                          && r.doc == DetachPath(doc, from.value.s, cs).rest)
  }

  lemma MoveStatus(doc: Json, path: string, from: Option<Json>, cs: bool)
    ensures FromSays(doc, true, from, cs, ApplyMove(doc, path, from, cs))
    ensures ApplyMove(doc, path, from, cs).status != 2
  {
    hide DetachPath, AddPath, Locate;
    if from.Some? && from.value.String? && DetachPath(doc, from.value.s, cs).Detached? {
      AddPathFails(DetachPath(doc, from.value.s, cs).rest, path, DetachPath(doc, from.value.s, cs).item, cs);
    }
  }

  lemma CopyStatus(doc: Json, path: string, from: Option<Json>, cs: bool)
    ensures FromSays(doc, false, from, cs, ApplyCopy(doc, path, from, cs))
    ensures ApplyCopy(doc, path, from, cs).status != 2
  {
    hide DetachPath, AddPath, Locate;
    if from.Some? && from.value.String? && Locate(doc, from.value.s, cs).Some? {
      AddPathFails(doc, path, At(doc, Locate(doc, from.value.s, cs).value), cs);
    }
  }

  lemma TestStatus(doc: Json, path: string, value: Option<Json>, cs: bool)
    ensures var r := ApplyTest(doc, path, value, cs);
            r.status in {0, 1} && r.doc == doc
  {
    hide CompareJson, Locate;
  }

  /** What the number and the document of a patch say: 2 that it has no path, 3 that it has no known operation, 1 that a test has failed, 13
      that there is nothing to remove or replace, 4 and 5 that there is nothing to move or copy, 7 that there is no value. A patch that
      fails leaves the document as it was, except that a move or replacement that has taken out its item does not put it back. */
  lemma StatusSays(doc: Json, patch: Json, cs: bool)
    ensures var r := ApplyPatch(doc, patch, cs);
            var (path, op) := (TextAtMember(patch, "path", cs), TextAtMember(patch, "op", cs));
            var (value, from) := (GetMember(patch, "value", cs), GetMember(patch, "from", cs));
            && (r.status == 2 <==> path == None)
            && (r.status == 2 ==> r.doc == doc)
            && (path.Some? && op == Some("test") ==> r.status in {0, 1} && r.doc == doc)
            && (path.Some? && op == Some("remove") ==>
                  && r.status in {0, 13} && (r.status == 13 <==> path.value != "" && DetachPath(doc, path.value, cs) == NotFound)
                  && (r.status == 13 ==> r.doc == doc))
            && (path.Some? && op == Some("add") ==> WithValueSays(doc, false, path.value, value, cs, r))
            && (path.Some? && op == Some("replace") ==> WithValueSays(doc, true, path.value, value, cs, r))
            && (path.Some? && op == Some("move") ==> FromSays(doc, true, from, cs, r))
            && (path.Some? && op == Some("copy") ==> FromSays(doc, false, from, cs, r))
            && (path.Some? && (op == None || op.value !in {"test", "remove", "add", "replace", "move", "copy"}) ==> r == Applied(3, doc))
  {
    hide WithValueSays, FromSays, ApplyWithValue, ApplyMove, ApplyCopy, ApplyTest, DetachPath, Lookup;
    var r := ApplyPatch(doc, patch, cs);
    var (p, o) := (GetMember(patch, "path", cs), GetMember(patch, "op", cs));
    if p.Some? && p.value.String? {
      var path := p.value.s;
      assert TextAtMember(patch, "path", cs) == Some(path);
      TestStatus(doc, path, GetMember(patch, "value", cs), cs);
      WithValueStatus(doc, false, path, GetMember(patch, "value", cs), cs);
      WithValueStatus(doc, true, path, GetMember(patch, "value", cs), cs);
      MoveStatus(doc, path, GetMember(patch, "from", cs), cs);
      CopyStatus(doc, path, GetMember(patch, "from", cs), cs);
      if o.Some? && o.value.String? {
        assert TextAtMember(patch, "op", cs) == Some(o.value.s);
      } else {
        assert TextAtMember(patch, "op", cs) == None;
        assert r == Applied(3, doc);
      }
    }
  }

  // ----- merging -----

  /** What the members of a patch that are no nulls become. */
  ghost function MergedMembers(base: seq<Member>, ps: seq<Member>, cs: bool): seq<Member> {
    if ps == [] then []
    else
      (if ps[0].value.Null? then [] else [Member(ps[0].key, MergePatch(Lookup(base, ps[0].key, cs), ps[0].value, cs))])
      + MergedMembers(base, ps[1..], cs)
  }

  /** A lookup depends only on the members with the key. */
  lemma LookupSame(ms: seq<Member>, r: seq<Member>, key: string, cs: bool, keys: set<string>)
    requires ToldApart(keys, cs) && WellFormedMembers(ms, keys) && WellFormedMembers(r, keys) && key in keys
    requires forall m: Member :: m.key == key ==> (m in ms <==> m in r)
    ensures Lookup(r, key, cs) == Lookup(ms, key, cs)
  {
    var (i, j) := (FindKey(ms, key, cs), FindKey(r, key, cs));
    hide FindKey;
    if i.Some? {
      assert ms[i.value].key == key && ms[i.value] in ms;
    }
    if j.Some? {
      assert r[j.value].key == key && r[j.value] in r;
    }
  }

  lemma {:induction false} OthersIn(ms: seq<Member>, keys: set<string>, m: Member)
    ensures m in Others(ms, keys) <==> m in ms && m.key !in keys
  {
    if ms != [] {
      OthersIn(ms[1..], keys, m);
    }
  }

  lemma {:induction false} MergedSame(ms: seq<Member>, r: seq<Member>, ps: seq<Member>, cs: bool)
    requires forall i :: 0 <= i < |ps| ==> Lookup(r, ps[i].key, cs) == Lookup(ms, ps[i].key, cs)
    ensures MergedMembers(r, ps, cs) == MergedMembers(ms, ps, cs)
  {
    hide Lookup;
    if ps != [] {
      MergedSame(ms, r, ps[1..], cs);
    }
  }

  lemma MemberKept(ms: seq<Member>, k: string, added: seq<Member>, m: Member)
    requires m.key != k && |added| <= 1 && (added != [] ==> added[0].key == k)
    ensures m in ms <==> m in Others(ms, {k}) + added
  {
    OthersIn(ms, {k}, m);
  }

  lemma LookupKept(ms: seq<Member>, k: string, added: seq<Member>, key: string, cs: bool, keys: set<string>)
    requires ToldApart(keys, cs) && WellFormedMembers(ms, keys) && WellFormedMembers(Others(ms, {k}) + added, keys) && key in keys
    requires key != k && |added| <= 1 && (added != [] ==> added[0].key == k)
    ensures Lookup(Others(ms, {k}) + added, key, cs) == Lookup(ms, key, cs)
  {
    hide *;
    forall m: Member | m.key == key
      ensures m in ms <==> m in Others(ms, {k}) + added
    {
      MemberKept(ms, k, added, m);
    }
    LookupSame(ms, Others(ms, {k}) + added, key, cs, keys);
  }

  /** Merging a member leaves what the others are merged into. */
  lemma StepKeepsLookups(ms: seq<Member>, k: string, added: seq<Member>, ps: seq<Member>, cs: bool, keys: set<string>)
    requires ToldApart(keys, cs) && WellFormedMembers(ms, keys) && WellFormedMembers(Without(ms, k, cs) + added, keys) && k in keys
    requires |added| <= 1 && (added != [] ==> added[0].key == k)
    requires forall i :: 0 <= i < |ps| ==> ps[i].key in keys && ps[i].key != k
    ensures MergedMembers(Without(ms, k, cs) + added, ps, cs) == MergedMembers(ms, ps, cs)
  {
    hide *;
    WithoutOthers(ms, k, cs, keys);
    forall i | 0 <= i < |ps|
      ensures Lookup(Others(ms, {k}) + added, ps[i].key, cs) == Lookup(ms, ps[i].key, cs)
    {
      LookupKept(ms, k, added, ps[i].key, cs, keys);
    }
    MergedSame(ms, Others(ms, {k}) + added, ps, cs);
  }

  lemma KeysOfCons(ps: seq<Member>)
    requires ps != []
    ensures KeysOf(ps) == {ps[0].key} + KeysOf(ps[1..])
  {
    assert forall i :: 0 < i < |ps| ==> ps[i] == ps[1..][i - 1];
  }

  /** What is left over of the first step, put together. */
  lemma OthersStep(ms: seq<Member>, k: string, added: seq<Member>, rest: set<string>)
    requires |added| <= 1 && (added != [] ==> added[0].key == k) && k !in rest
    ensures Others(Others(ms, {k}) + added, rest) == Others(ms, {k} + rest) + added
  {
    OthersOfOthers(ms, {k}, rest);
    if added == [] {
      assert Others(ms, {k}) + added == Others(ms, {k});
    } else {
      OthersAppend(Others(ms, {k}), added[0], rest);
      assert added == [added[0]];
    }
  }

  /** Main result: the members that a merge patch does not name keep their order, and behind them come the merged ones in the order of the
      patch. */
  lemma {:induction false} MergeExact(patch: Json, ms: seq<Member>, ps: seq<Member>, cs: bool, keys: set<string>)
    requires ToldApart(keys, cs) && Below(ps, patch) && WellFormedMembers(ms, keys) && WellFormedMembers(ps, keys)
    ensures MergeMembers(patch, ms, ps, cs) == Others(ms, KeysOf(ps)) + MergedMembers(ms, ps, cs)
    decreases |ps|
  {
    if ps == [] {
      OthersAll(ms, {});
      assert KeysOf(ps) == {} && ms + [] == ms;
    } else {
      var (k, rest) := (ps[0].key, ps[1..]);
      var added := if ps[0].value.Null? then [] else [Member(k, MergePatch(Lookup(ms, k, cs), ps[0].value, cs))];
      assert forall i :: 0 <= i < |rest| ==> rest[i] == ps[i + 1];
      assert forall i :: 0 <= i < |rest| ==> rest[i].key in keys && rest[i].key != k;
      assert k !in KeysOf(rest);
      hide *;
      FirstMember(patch, ps, cs, keys);
      MergeMembersStep(patch, ms, ps, cs);
      StepWellFormed(patch, ms, ps, cs, keys);
      WithoutOthers(ms, k, cs, keys);
      KeysOfCons(ps);
      NothingAdded(Without(ms, k, cs));
      MergeExact(patch, Without(ms, k, cs) + added, rest, cs, keys);
      StepKeepsLookups(ms, k, added, rest, cs, keys);
      OthersStep(ms, k, added, KeysOf(rest));
      MergedCons(ms, ps, cs);
      AppendAssociative(Others(ms, {k} + KeysOf(rest)), added, MergedMembers(ms, rest, cs));
    }
  }

  lemma NothingAdded(ms: seq<Member>)
    ensures ms + [] == ms
  {
  }

  lemma MergedCons(ms: seq<Member>, ps: seq<Member>, cs: bool)
    requires ps != []
    ensures MergedMembers(ms, ps, cs)
            == (if ps[0].value.Null? then [] else [Member(ps[0].key, MergePatch(Lookup(ms, ps[0].key, cs), ps[0].value, cs))])
               + MergedMembers(ms, ps[1..], cs)
  {
    hide MergePatch, Lookup;
  }

  lemma StepWellFormed(patch: Json, ms: seq<Member>, ps: seq<Member>, cs: bool, keys: set<string>)
    requires ToldApart(keys, cs) && WellFormedMembers(ms, keys) && ps != [] && ps[0].key in keys && WellFormed(ps[0].value, keys)
    ensures WellFormedMembers(Without(ms, ps[0].key, cs), keys)
    ensures !ps[0].value.Null? ==>
              WellFormedMembers(Without(ms, ps[0].key, cs) + [Member(ps[0].key, MergePatch(Lookup(ms, ps[0].key, cs), ps[0].value, cs))], keys)
  {
    hide *;
    WithoutMeaning(ms, ps[0].key, cs, keys);
    if !ps[0].value.Null? {
      MergePatchRefines(Lookup(ms, ps[0].key, cs), ps[0].value, cs, keys);
      ReplacedMember(ms, ps[0].key, MergePatch(Lookup(ms, ps[0].key, cs), ps[0].value, cs), cs, keys);
    }
  }
}
