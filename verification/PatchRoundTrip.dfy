/** Applying generated patches turns a copy of the source into the target. */
module PatchRoundTrip {
  import opened Text
  import opened Json
  import opened JsonPointer
  import opened JsonOrder
  import opened JsonPatch
  import opened JsonPatchRefinement
  import opened PatchGeneration
  import opened JsonTails
  import opened SortTails
  import opened LivePatch
  import Rfc = Rfc6902
  import Sorting

  // ----- the fields of a composed patch -----

  lemma FieldNames(cs: bool)
    ensures SameKey("op", "op", cs) && !SameKey("op", "path", cs) && !SameKey("op", "value", cs)
    ensures SameKey("path", "path", cs) && !SameKey("path", "value", cs)
    ensures !SameKey("path", "op", cs)
    ensures SameKey("value", "value", cs)
  {
    assert Lower("op")[0] == 'o' && Lower("path")[0] == 'p' && Lower("value")[0] == 'v';
  }

  lemma FindKeyFirst(ms: seq<Member>, key: string, cs: bool)
    requires ms != []
    ensures SameKey(ms[0].key, key, cs) ==> FindKey(ms, key, cs) == Some(0)
    ensures !SameKey(ms[0].key, key, cs) ==>
              FindKey(ms, key, cs) == match FindKey(ms[1..], key, cs) case None => None case Some(i) => Some(i + 1)
  {
  }

  lemma LookupFields(operation: string, path: string, tail: seq<Member>, cs: bool)
    requires tail == [] || (|tail| == 1 && tail[0].key == "value")
    ensures var ms := [Member("op", String(operation)), Member("path", String(path))] + tail;
            && Lookup(ms, "op", cs) == Some(String(operation))
            && Lookup(ms, "path", cs) == Some(String(path))
            && (|tail| == 1 ==> Lookup(ms, "value", cs) == Some(tail[0].value))
  {
    var ms := [Member("op", String(operation)), Member("path", String(path))] + tail;
    FieldNames(cs);
    hide FindKey, SameKey;
    FindKeyFirst(ms, "op", cs);
    FindKeyFirst(ms, "path", cs);
    FindKeyFirst(ms[1..], "path", cs);
    if tail != [] {
      FindKeyFirst(ms, "value", cs);
      FindKeyFirst(ms[1..], "value", cs);
      assert ms[1..][1..] == tail;
      FindKeyFirst(tail, "value", cs);
    }
  }

  /** The path in a patch that is composed for a child. */
  lemma JoinChild(path: Tokens, token: string)
    ensures Join(path + [token]) == Join(path) + ("/" + Encode(token))
  {
    JoinParent(path + [token]);
    assert Parent(path + [token]) == path;
  }

  function Target(path: Tokens, suffix: Option<string>): Tokens {
    match suffix case None => path case Some(s) => path + [s]
  }

  lemma ComposedFields(operation: string, path: Tokens, suffix: Option<string>, value: Option<Json>, cs: bool)
    ensures var p := ComposePatch(operation, Join(path), suffix, value);
            && GetMember(p, "op", cs) == Some(String(operation))
            && GetMember(p, "path", cs) == Some(String(Join(Target(path, suffix))))
            && (value.Some? ==> GetMember(p, "value", cs) == value)
  {
    hide Join, Encode, Lookup;
    if suffix.Some? {
      JoinChild(path, suffix.value);
    }
    LookupFields(operation, Join(Target(path, suffix)), match value case None => [] case Some(v) => [Member("value", v)], cs);
  }

  // ----- the conditions of the round trip -----

  /** Unescaping in place reads the last token of the path as RFC 6901 does. */
  predicate LastTokenSurvives(path: string) {
    match LastSlash(path)
    case None => true
    case Some(n) => Decode(path[n + 1..]) == Some(DecodeInPlace(path[n + 1..]))
  }

  /** No key of the set differs from the last token in letter case only. */
  ghost predicate LastTokenAlone(path: string, keys: set<string>) {
    match LastSlash(path)
    case None => true
    case Some(n) => OnlyKey(DecodeInPlace(path[n + 1..]), keys)
  }

  /** The last token of the path survives unescaping; unless the patch only adds, it is not mistaken for another key either. */
  ghost predicate Survives(patch: Json, cs: bool, keys: set<string>) {
    match GetMember(patch, "path", cs)
    case Some(String(path)) => LastTokenSurvives(path) && (GetMember(patch, "op", cs) == Some(String("add")) || LastTokenAlone(path, keys))
    case _ => true
  }

  ghost predicate AllSurvive(patches: seq<Json>, cs: bool, keys: set<string>) {
    forall i :: 0 <= i < |patches| ==> Survives(patches[i], cs, keys)
  }

  ghost predicate LastAlone(path: Tokens, keys: set<string>) {
    path == [] || OnlyKey(Last(path), keys)
  }

  /** The last token of a path survives unescaping. */
  predicate LastUndamaged(path: Tokens) {
    path == [] || Undamaged(Last(path))
  }

  lemma JoinedSurvives(target: Tokens)
    ensures LastTokenSurvives(Join(target)) <==> LastUndamaged(target)
  {
    if target == [] {
      assert Join([]) == "" && LastSlash("") == None;
    } else {
      var (path, n) := (Join(target), |Join(Parent(target))|);
      SplitJoin(target);
      assert LastTokenSurvives(path) <==> Decode(path[n + 1..]) == Some(DecodeInPlace(path[n + 1..]));
      hide *;
      DecodeEncode(Last(target));
      DecodeInPlaceExact(Last(target));
    }
  }

  lemma ComposedSurvives(operation: string, path: Tokens, suffix: Option<string>, value: Option<Json>, cs: bool, keys: set<string>)
    ensures Survives(ComposePatch(operation, Join(path), suffix, value), cs, keys)
            <==> LastUndamaged(Target(path, suffix)) && (operation == "add" || LastAlone(Target(path, suffix), keys))
  {
    hide ComposePatch, Join, GetMember, LastTokenSurvives, LastUndamaged, LastTokenAlone, LastAlone;
    ComposedFields(operation, path, suffix, value, cs);
    JoinedSurvives(Target(path, suffix));
    if LastUndamaged(Target(path, suffix)) {
      JoinedAlone(Target(path, suffix), keys);
    }
  }

  lemma JoinedAlone(target: Tokens, keys: set<string>)
    requires LastUndamaged(target)
    ensures LastTokenAlone(Join(target), keys) <==> LastAlone(target, keys)
  {
    if target == [] {
      assert Join([]) == "" && LastSlash("") == None;
    } else {
      SplitJoin(target);
      hide Join, Encode, DecodeInPlace, OnlyKey, Undamaged;
      DecodeInPlaceExact(Last(target));
    }
  }

  lemma SurviveJoin(ps: seq<Json>, qs: seq<Json>, cs: bool, keys: set<string>)
    requires AllSurvive(ps, cs, keys) && AllSurvive(qs, cs, keys)
    ensures AllSurvive(ps + qs, cs, keys)
  {
    hide Survives;
  }

  lemma SurviveOne(operation: string, path: Tokens, token: string, value: Option<Json>, cs: bool, keys: set<string>)
    requires Undamaged(token) && (operation == "add" || OnlyKey(token, keys))
    ensures AllSurvive([ComposePatch(operation, Join(path), Some(token), value)], cs, keys)
  {
    ComposedSurvives(operation, path, Some(token), value, cs, keys);
    UndamagedLast(path, token);
    hide Survives, ComposePatch, Undamaged, OnlyKey;
  }

  lemma UndamagedLast(path: Tokens, token: string)
    ensures LastUndamaged(path + [token]) <==> Undamaged(token)
    ensures Last(path + [token]) == token
  {
    hide Undamaged;
  }

  lemma SurviveSplit(ps: seq<Json>, qs: seq<Json>, cs: bool, keys: set<string>)
    requires AllSurvive(ps + qs, cs, keys)
    ensures AllSurvive(ps, cs, keys) && AllSurvive(qs, cs, keys)
  {
    hide Survives;
    assert forall i :: 0 <= i < |ps| ==> ps[i] == (ps + qs)[i];
    assert forall i :: 0 <= i < |qs| ==> qs[i] == (ps + qs)[|ps| + i];
  }

  /** A composed patch in front of others. */
  lemma SurviveFirst(operation: string, path: Tokens, token: string, value: Option<Json>, qs: seq<Json>, cs: bool, keys: set<string>)
    requires AllSurvive([ComposePatch(operation, Join(path), Some(token), value)] + qs, cs, keys)
    ensures Undamaged(token) && (operation == "add" || OnlyKey(token, keys)) && AllSurvive(qs, cs, keys)
  {
    var p := ComposePatch(operation, Join(path), Some(token), value);
    assert ([p] + qs)[0] == p;
    assert Last(path + [token]) == token;
    ComposedSurvives(operation, path, Some(token), value, cs, keys);
    hide Survives, ComposePatch, Undamaged;
    SurviveSplit([p], qs, cs, keys);
  }

  /** The patches were applied without error and the node at the path now has the given value. */
  ghost predicate Patched(doc: Json, patches: seq<Json>, path: Tokens, x: Value, cs: bool, keys: set<string>) {
    var r := ApplyAll(doc, patches, cs);
    && Rfc.Get(Meaning(doc), path).Some?
    && r.status == 0 && WellFormed(r.doc, keys)
    && Meaning(r.doc) == Rfc.Set(Meaning(doc), path, x)
  }

  lemma ApplyOne(doc: Json, patch: Json, cs: bool)
    requires ApplyPatch(doc, patch, cs).status == 0
    ensures ApplyAll(doc, [patch], cs) == ApplyPatch(doc, patch, cs)
  {
    assert [patch][1..] == [];
  }

  lemma DecimalUndamaged(i: nat)
    ensures Undamaged(Decimal(i))
  {
    RfcIndexOfDecimal(i);
    assert forall k :: 0 <= k < |Decimal(i)| ==> IsDigit(Decimal(i)[k]);
    hide Undamaged;
    UndamagedPlain(Decimal(i));
  }

  lemma RoomAfter(node: Json, token: string, keys: set<string>)
    requires WellFormed(node, keys) && Rfc.RemoveChild(Meaning(node), token).Some?
    ensures CanAdd(Rfc.RemoveChild(Meaning(node), token).value, token, keys)
  {
    if node.Object? {
      MapOfUnique(node.members);
    }
    hide MapOf, RfcIndex;
  }

  lemma RemovedAt(v: Value, path: Tokens)
    requires path != [] && Rfc.RemoveFrom(v, path).Some?
    ensures Rfc.Get(v, Parent(path)).Some? && Rfc.RemoveChild(Rfc.Get(v, Parent(path)).value, Last(path)).Some?
    ensures Rfc.RemoveFrom(v, path).value == Rfc.Set(v, Parent(path), Rfc.RemoveChild(Rfc.Get(v, Parent(path)).value, Last(path)).value)
  {
    hide Rfc.Get, Rfc.Set, Rfc.RemoveChild;
  }

  /** What is removed from a well-formed document fits again at the same place. */
  lemma RoomAfterRemoval(doc: Json, path: Tokens, cs: bool, keys: set<string>)
    requires ToldApart(keys, cs) && WellFormed(doc, keys) && path != []
    requires Rfc.RemoveFrom(Meaning(doc), path).Some?
    ensures CanAddAt(Rfc.RemoveFrom(Meaning(doc), path).value, path, keys)
  {
    hide Meaning, WellFormed, ToldApart, CanAdd, Rfc.Get, Rfc.Set, Rfc.RemoveFrom, Rfc.RemoveChild, Join, Locate, At;
    RemovedAt(Meaning(doc), path);
    LocateRefines(doc, Parent(path), cs, keys);
    var node := At(doc, Locate(doc, Join(Parent(path)), cs).value);
    RoomAfter(node, Last(path), keys);
    Rfc.GetSet(Meaning(doc), Parent(path), Rfc.RemoveChild(Meaning(node), Last(path)).value);
  }

  lemma PatchedByOne(doc: Json, patch: Json, path: Tokens, x: Value, cs: bool, keys: set<string>)
    requires Rfc.Get(Meaning(doc), path).Some?
    requires ApplyPatch(doc, patch, cs).status == 0 && WellFormed(ApplyPatch(doc, patch, cs).doc, keys)
    requires Meaning(ApplyPatch(doc, patch, cs).doc) == Rfc.Set(Meaning(doc), path, x)
    ensures Patched(doc, [patch], path, x, cs, keys)
  {
    hide Meaning, WellFormed, ApplyPatch, ApplyAll, Rfc.Get, Rfc.Set;
    ApplyOne(doc, patch, cs);
  }

  /** A single patch whose operation is defined by RFC 6902 to set the node at the path. */
  lemma PatchedByOperation(doc: Json, patch: Json, op: Rfc.Operation, path: Tokens, x: Value, cs: bool, keys: set<string>)
    requires ToldApart(keys, cs) && WellFormed(doc, keys) && Unmistaken(op, keys) && !ToWholeDocument(op) && (op.Remove? ==> op.path != [])
    requires Describes(patch, op, cs, keys) && Supported(Meaning(doc), op, keys)
    requires Rfc.Get(Meaning(doc), path).Some?
    requires Rfc.Apply(Meaning(doc), op) == Some(Rfc.Set(Meaning(doc), path, x))
    ensures Patched(doc, [patch], path, x, cs, keys)
  {
    hide *;
    ApplySucceeds(doc, patch, op, cs, keys);
    PatchedByOne(doc, patch, path, x, cs, keys);
  }

  lemma ReplaceDescribed(doc: Value, path: Tokens, to: Json, cs: bool, keys: set<string>)
    requires WellFormed(to, keys) && LastUndamaged(path)
    requires path != [] && Rfc.RemoveFrom(doc, path).Some? ==> CanAddAt(Rfc.RemoveFrom(doc, path).value, path, keys)
    ensures Describes(ComposePatch("replace", Join(path), None, Some(to)), Rfc.Replace(path, Meaning(to)), cs, keys)
    ensures Supported(doc, Rfc.Replace(path, Meaning(to)), keys)
  {
    ComposedFields("replace", path, None, Some(to), cs);
    hide ComposePatch, Join, Meaning, WellFormed, Undamaged, CanAddAt, Rfc.RemoveFrom, GetMember;
  }

  lemma ReplaceIsSet(v: Value, path: Tokens, x: Value)
    requires Rfc.Get(v, path).Some?
    ensures Rfc.Apply(v, Rfc.Replace(path, x)) == Some(Rfc.Set(v, path, x))
  {
    hide Rfc.Get, Rfc.Set;
  }

  lemma ReplaceRoundTrip(doc: Json, path: Tokens, to: Json, cs: bool, keys: set<string>)
    requires ToldApart(keys, cs) && WellFormed(doc, keys) && WellFormed(to, keys) && LastUndamaged(path) && LastAlone(path, keys)
    requires Rfc.Get(Meaning(doc), path).Some?
    ensures Patched(doc, [ComposePatch("replace", Join(path), None, Some(to))], path, Meaning(to), cs, keys)
  {
    assert Unmistaken(Rfc.Replace(path, Meaning(to)), keys) && !ToWholeDocument(Rfc.Replace(path, Meaning(to)));
    hide *;
    if path != [] && Rfc.RemoveFrom(Meaning(doc), path).Some? {
      RoomAfterRemoval(doc, path, cs, keys);
    }
    ReplaceDescribed(Meaning(doc), path, to, cs, keys);
    ReplaceIsSet(Meaning(doc), path, Meaning(to));
    PatchedByOperation(doc, ComposePatch("replace", Join(path), None, Some(to)), Rfc.Replace(path, Meaning(to)), path, Meaning(to), cs, keys);
  }

  lemma RemoveIsSet(v: Value, path: Tokens, token: string, p: Value, q: Value)
    requires Rfc.Get(v, path) == Some(p) && Rfc.RemoveChild(p, token) == Some(q)
    ensures Rfc.Apply(v, Rfc.Remove(path + [token])) == Some(Rfc.Set(v, path, q))
  {
    assert Parent(path + [token]) == path;
    hide Rfc.Get, Rfc.Set, Rfc.RemoveChild;
  }

  lemma AddIsSet(v: Value, path: Tokens, token: string, x: Value, p: Value, q: Value)
    requires Rfc.Get(v, path) == Some(p) && Rfc.AddChild(p, token, x) == Some(q)
    ensures Rfc.Apply(v, Rfc.Add(path + [token], x)) == Some(Rfc.Set(v, path, q))
  {
    assert Parent(path + [token]) == path;
    hide Rfc.Get, Rfc.Set, Rfc.AddChild;
  }

  lemma RemoveDescribed(doc: Value, path: Tokens, token: string, cs: bool, keys: set<string>)
    requires Undamaged(token)
    ensures Describes(ComposePatch("remove", Join(path), Some(token), None), Rfc.Remove(path + [token]), cs, keys)
    ensures Supported(doc, Rfc.Remove(path + [token]), keys)
  {
    ComposedFields("remove", path, Some(token), None, cs);
    hide ComposePatch, Join, GetMember, Undamaged;
  }

  lemma AddDescribed(doc: Value, path: Tokens, token: string, x: Json, p: Value, cs: bool, keys: set<string>)
    requires Undamaged(token) && WellFormed(x, keys)
    requires Rfc.Get(doc, path) == Some(p) && CanAdd(p, token, keys)
    ensures Describes(ComposePatch("add", Join(path), Some(token), Some(x)), Rfc.Add(path + [token], Meaning(x)), cs, keys)
    ensures Supported(doc, Rfc.Add(path + [token], Meaning(x)), keys)
  {
    hide ComposePatch, Join, GetMember, Undamaged, Meaning, WellFormed, CanAdd, Rfc.Get;
    ComposedFields("add", path, Some(token), Some(x), cs);
    assert Parent(path + [token]) == path && Last(path + [token]) == token;
  }

  lemma RemoveRoundTrip(doc: Json, path: Tokens, token: string, p: Value, q: Value, cs: bool, keys: set<string>)
    requires ToldApart(keys, cs) && WellFormed(doc, keys) && Undamaged(token) && OnlyKey(token, keys)
    requires Rfc.Get(Meaning(doc), path) == Some(p) && Rfc.RemoveChild(p, token) == Some(q)
    ensures Patched(doc, [ComposePatch("remove", Join(path), Some(token), None)], path, q, cs, keys)
  {
    assert Last(path + [token]) == token && Unmistaken(Rfc.Remove(path + [token]), keys) && !ToWholeDocument(Rfc.Remove(path + [token]));
    hide *;
    var patch := ComposePatch("remove", Join(path), Some(token), None);
    RemoveDescribed(Meaning(doc), path, token, cs, keys);
    RemoveIsSet(Meaning(doc), path, token, p, q);
    PatchedByOperation(doc, patch, Rfc.Remove(path + [token]), path, q, cs, keys);
  }

  lemma AddRoundTrip(doc: Json, path: Tokens, token: string, x: Json, p: Value, q: Value, cs: bool, keys: set<string>)
    requires ToldApart(keys, cs) && WellFormed(doc, keys) && WellFormed(x, keys) && Undamaged(token)
    requires Rfc.Get(Meaning(doc), path) == Some(p) && Rfc.AddChild(p, token, Meaning(x)) == Some(q)
    requires CanAdd(p, token, keys)
    ensures Patched(doc, [ComposePatch("add", Join(path), Some(token), Some(x))], path, q, cs, keys)
  {
    assert Unmistaken(Rfc.Add(path + [token], Meaning(x)), keys) && !ToWholeDocument(Rfc.Add(path + [token], Meaning(x)));
    hide *;
    var patch := ComposePatch("add", Join(path), Some(token), Some(x));
    AddDescribed(Meaning(doc), path, token, x, p, cs, keys);
    AddIsSet(Meaning(doc), path, token, Meaning(x), p, q);
    PatchedByOperation(doc, patch, Rfc.Add(path + [token], Meaning(x)), path, q, cs, keys);
  }

  /** Doing one list of patches after another. */
  lemma PatchedThen(doc: Json, ps: seq<Json>, qs: seq<Json>, path: Tokens, x: Value, y: Value, cs: bool, keys: set<string>)
    requires Patched(doc, ps, path, x, cs, keys)
    requires Patched(ApplyAll(doc, ps, cs).doc, qs, path, y, cs, keys)
    ensures Patched(doc, ps + qs, path, y, cs, keys)
  {
    hide Rfc.Get, Rfc.Set, Meaning, WellFormed, ApplyAll;
    ApplyAllAppend(doc, ps, qs, cs);
    Rfc.SetSet(Meaning(doc), path, x, y);
  }

  /** Patching a child is patching the parent. */
  lemma PatchedChild(doc: Json, ps: seq<Json>, path: Tokens, token: string, p: Value, x: Value, cs: bool, keys: set<string>)
    requires Patched(doc, ps, path + [token], x, cs, keys)
    requires Rfc.Get(Meaning(doc), path) == Some(p) && Rfc.Step(p, token).Some?
    ensures Patched(doc, ps, path, Rfc.Put(p, token, x), cs, keys)
  {
    hide Rfc.Get, Rfc.Set, Rfc.Step, Rfc.Put, Meaning, WellFormed, ApplyAll;
    Rfc.SetChild(Meaning(doc), path, token, x);
  }

  lemma PatchedNothing(doc: Json, path: Tokens, x: Value, cs: bool, keys: set<string>)
    requires WellFormed(doc, keys) && Rfc.Get(Meaning(doc), path) == Some(x)
    ensures Patched(doc, [], path, x, cs, keys)
  {
    hide Rfc.Get, Rfc.Set, Meaning, WellFormed;
    Rfc.SetSame(Meaning(doc), path);
  }

  /** After patching, the node at the path can be read back. */
  lemma PatchedGet(doc: Json, ps: seq<Json>, path: Tokens, x: Value, cs: bool, keys: set<string>)
    requires Patched(doc, ps, path, x, cs, keys)
    ensures WellFormed(ApplyAll(doc, ps, cs).doc, keys)
    ensures Rfc.Get(Meaning(ApplyAll(doc, ps, cs).doc), path) == Some(x)
  {
    hide Rfc.Get, Rfc.Set, Meaning, WellFormed, ApplyAll;
    Rfc.GetSet(Meaning(doc), path, x);
  }

  // ----- one step of the generator -----

  lemma OtherPatches(path: string, from: Json, to: Json, cs: bool)
    requires !(from.Array? && to.Array?) && !(from.Object? && to.Object?)
    ensures CreatePatches(path, from, to, cs) == [ComposePatch("replace", path, None, Some(to))]
            || (CreatePatches(path, from, to, cs) == [] && Meaning(from) == Meaning(to))
  {
  }

  lemma JoinIndex(path: Tokens, i: nat)
    ensures Join(path) + ("/" + Decimal(i)) == Join(path + [Decimal(i)])
  {
    hide Join, Encode;
    RfcIndexOfDecimal(i);
    EncodeOfIndex(Decimal(i));
    JoinChild(path, Decimal(i));
  }

  lemma ItemPatchesStep(a: Json, path: Tokens, fs: seq<Json>, ts: seq<Json>, index: nat, cs: bool)
    requires forall i :: 0 <= i < |fs| ==> fs[i] < a
    ensures fs != [] && ts != [] ==>
              CreateItemPatches(a, Join(path), fs, ts, index, cs)
              == CreatePatches(Join(path + [Decimal(index)]), fs[0], ts[0], cs)
                 + CreateItemPatches(a, Join(path), fs[1..], ts[1..], index + 1, cs)
    ensures fs != [] && ts == [] ==>
              CreateItemPatches(a, Join(path), fs, ts, index, cs)
              == [ComposePatch("remove", Join(path), Some(Decimal(index)), None)]
                 + CreateItemPatches(a, Join(path), fs[1..], ts, index, cs)
    ensures fs == [] && ts != [] ==>
              CreateItemPatches(a, Join(path), fs, ts, index, cs)
              == [ComposePatch("add", Join(path), Some("-"), Some(ts[0]))]
                 + CreateItemPatches(a, Join(path), fs, ts[1..], index + 1, cs)
  {
    hide Join, ComposePatch, CreatePatches;
    JoinIndex(path, index);
  }

  lemma ItemsValue(done: seq<Value>, xs: seq<Json>, y: Value)
    requires xs != []
    ensures |done| < |done + MeaningAll(xs)|
    ensures (done + MeaningAll(xs))[|done|] == Meaning(xs[0])
    ensures done + MeaningAll(xs) == (done + [Meaning(xs[0])]) + MeaningAll(xs[1..])
    ensures (done + MeaningAll(xs))[|done| := y] == (done + [y]) + MeaningAll(xs[1..])
    ensures RemoveAt(done + MeaningAll(xs), |done|) == done + MeaningAll(xs[1..])
  {
    MeaningFirst(xs);
    hide Meaning, MeaningAll;
    SplitValue(done, Meaning(xs[0]), MeaningAll(xs[1..]), y);
  }

  lemma SplitValue<T>(a: seq<T>, x: T, b: seq<T>, y: T)
    ensures a + ([x] + b) == (a + [x]) + b
    ensures (a + ([x] + b))[|a| := y] == (a + [y]) + b
    ensures RemoveAt(a + ([x] + b), |a|) == a + b
  {
  }

  lemma IndexStepOfDecimal(items: seq<Value>, i: nat, x: Value)
    requires i < |items|
    ensures Rfc.Step(VArray(items), Decimal(i)) == Some(items[i])
    ensures Rfc.Put(VArray(items), Decimal(i), x) == VArray(items[i := x])
    ensures Rfc.RemoveChild(VArray(items), Decimal(i)) == Some(VArray(RemoveAt(items, i)))
  {
    RfcIndexOfDecimal(i);
    hide RfcIndex, Decimal;
  }

  lemma MemberPatchesStep(a: Json, path: Tokens, fs: seq<Member>, ts: seq<Member>, cs: bool)
    requires Below(fs, a) && (fs != [] || ts != [])
    ensures HeadDifference(fs, ts, cs) <= 0 ==> fs != []
    ensures HeadDifference(fs, ts, cs) >= 0 ==> ts != []
    ensures HeadDifference(fs, ts, cs) == 0 ==>
              CreateMemberPatches(a, Join(path), fs, ts, cs)
              == CreatePatches(Join(path + [fs[0].key]), fs[0].value, ts[0].value, cs)
                 + CreateMemberPatches(a, Join(path), fs[1..], ts[1..], cs)
    ensures HeadDifference(fs, ts, cs) < 0 ==>
              CreateMemberPatches(a, Join(path), fs, ts, cs)
              == [ComposePatch("remove", Join(path), Some(fs[0].key), None)]
                 + CreateMemberPatches(a, Join(path), fs[1..], ts, cs)
    ensures HeadDifference(fs, ts, cs) > 0 ==>
              CreateMemberPatches(a, Join(path), fs, ts, cs)
              == [ComposePatch("add", Join(path), Some(ts[0].key), Some(ts[0].value))]
                 + CreateMemberPatches(a, Join(path), fs, ts[1..], cs)
  {
    if fs != [] {
      JoinChild(path, fs[0].key);
    }
    hide Join, ComposePatch, CreatePatches, Encode;
  }

  // ----- the round trip below a path -----

  lemma SurviveReplace(path: Tokens, to: Json, cs: bool, keys: set<string>)
    requires AllSurvive([ComposePatch("replace", Join(path), None, Some(to))], cs, keys)
    ensures LastUndamaged(path) && LastAlone(path, keys)
  {
    ComposedSurvives("replace", path, None, Some(to), cs, keys);
    hide Survives, ComposePatch, LastUndamaged, LastAlone;
    assert [ComposePatch("replace", Join(path), None, Some(to))][0] == ComposePatch("replace", Join(path), None, Some(to));
  }

  /** The requirements of the round trip at a path. */
  ghost predicate RoundTripReady(doc: Json, path: Tokens, from: Json, to: Json, cs: bool, keys: set<string>) {
    && ToldApart(keys, cs) && WellFormed(doc, keys) && AllSurvive(CreatePatches(Join(path), from, to, cs), cs, keys)
    && WellFormed(from, keys) && WellFormed(to, keys)
    && Rfc.Get(Meaning(doc), path) == Some(Meaning(from))
  }

  lemma {:induction false} CreateRoundTrip(doc: Json, path: Tokens, from: Json, to: Json, cs: bool, keys: set<string>)
    requires RoundTripReady(doc, path, from, to, cs, keys)
    ensures Patched(doc, CreatePatches(Join(path), from, to, cs), path, Meaning(to), cs, keys)
    decreases from, 1, 0, 0
  {
    hide *;
    if from.Array? && to.Array? {
      ArraysCreated(Join(path), from, to, cs);
      ArraysReady(doc, path, from, to, cs, keys);
      var none: seq<Value> := [];
      ItemsRoundTrip(from, doc, path, from.items, to.items, none, cs, keys);
    } else if from.Object? && to.Object? {
      ObjectsReady(doc, path, from, to, cs, keys);
      var (fs, ts) := (SortMembers(from.members, cs), SortMembers(to.members, cs));
      MembersRoundTrip(from, doc, path, fs, ts, MapOf(fs), cs, keys);
    } else {
      OthersReady(doc, path, from, to, cs, keys);
      if CreatePatches(Join(path), from, to, cs) == [] {
        PatchedNothing(doc, path, Meaning(to), cs, keys);
      } else {
        ReplaceRoundTrip(doc, path, to, cs, keys);
      }
    }
  }

  lemma RoundTripReadyAt(doc: Json, path: Tokens, from: Json, to: Json, cs: bool, keys: set<string>)
    requires ToldApart(keys, cs) && WellFormed(doc, keys) && AllSurvive(CreatePatches(Join(path), from, to, cs), cs, keys)
    requires WellFormed(from, keys) && WellFormed(to, keys)
    requires Rfc.Get(Meaning(doc), path) == Some(Meaning(from))
    ensures RoundTripReady(doc, path, from, to, cs, keys)
  {
  }

  lemma ArraysCreated(path: string, from: Json, to: Json, cs: bool)
    requires from.Array? && to.Array?
    ensures forall i :: 0 <= i < |from.items| ==> from.items[i] < from
    ensures CreatePatches(path, from, to, cs) == CreateItemPatches(from, path, from.items, to.items, 0, cs)
    ensures Meaning(to) == VArray([] + MeaningAll(to.items))
  {
    assert [] + MeaningAll(to.items) == MeaningAll(to.items);
  }

  lemma ArraysReady(doc: Json, path: Tokens, from: Json, to: Json, cs: bool, keys: set<string>)
    requires RoundTripReady(doc, path, from, to, cs, keys) && from.Array? && to.Array?
    ensures ItemsReady(from, doc, path, from.items, to.items, [], cs, keys)
    ensures AllSurvive(CreatePatches(Join(path), from, to, cs), cs, keys)
  {
    assert [] + MeaningAll(from.items) == MeaningAll(from.items);
    hide Join, AllSurvive, CreatePatches, Rfc.Get, ToldApart;
  }

  lemma ObjectsReady(doc: Json, path: Tokens, from: Json, to: Json, cs: bool, keys: set<string>)
    requires RoundTripReady(doc, path, from, to, cs, keys) && from.Object? && to.Object?
    ensures var (fs, ts) := (SortMembers(from.members, cs), SortMembers(to.members, cs));
            && MembersReady(doc, path, fs, ts, MapOf(fs), cs, keys) && Below(fs, from)
            && CreatePatches(Join(path), from, to, cs) == CreateMemberPatches(from, Join(path), fs, ts, cs)
            && Meaning(to) == VObject(PatchedMap(MapOf(fs), fs, ts))
    ensures AllSurvive(CreatePatches(Join(path), from, to, cs), cs, keys)
  {
    var (fs, ts) := (SortMembers(from.members, cs), SortMembers(to.members, cs));
    SortMembersBelow(from, cs);
    SortMembersKeeps(from.members, cs, keys);
    SortMembersKeeps(to.members, cs, keys);
    hide Join, AllSurvive, CreateMemberPatches, Rfc.Get, SortMembers, MapOf, PatchedMap, Holds;
    AllMembers(fs, ts);
  }

  lemma OthersReady(doc: Json, path: Tokens, from: Json, to: Json, cs: bool, keys: set<string>)
    requires RoundTripReady(doc, path, from, to, cs, keys)
    requires !(from.Array? && to.Array?) && !(from.Object? && to.Object?)
    ensures ToldApart(keys, cs) && WellFormed(doc, keys) && WellFormed(to, keys) && Rfc.Get(Meaning(doc), path) == Some(Meaning(from))
    ensures var ps := CreatePatches(Join(path), from, to, cs);
            || (ps == [] && Meaning(from) == Meaning(to))
            || (ps == [ComposePatch("replace", Join(path), None, Some(to))] && LastUndamaged(path) && LastAlone(path, keys))
  {
    OtherPatches(Join(path), from, to, cs);
    hide Join, CreatePatches, ComposePatch, Rfc.Get, Meaning, WellFormed, LastUndamaged, LastAlone, ToldApart;
    if CreatePatches(Join(path), from, to, cs) != [] {
      SurviveReplace(path, to, cs, keys);
    }
  }

  /** The document holds an array whose first elements are done and whose others are those still to be
      compared. */
  ghost predicate ItemsReady(a: Json, doc: Json, path: Tokens, fs: seq<Json>, ts: seq<Json>, done: seq<Value>, cs: bool, keys: set<string>) {
    && ToldApart(keys, cs) && WellFormed(doc, keys)
    && (forall i :: 0 <= i < |fs| ==> fs[i] < a && WellFormed(fs[i], keys))
    && (forall i :: 0 <= i < |ts| ==> WellFormed(ts[i], keys))
    && |done| + |fs| < SIZE_LIMIT && |done| + |ts| < SIZE_LIMIT
    && Rfc.Get(Meaning(doc), path) == Some(VArray(done + MeaningAll(fs)))
  }

  lemma ItemsReadyNext(a: Json, doc: Json, path: Tokens, fs: seq<Json>, ts: seq<Json>, done: seq<Value>, cs: bool, keys: set<string>,
                       next: Json, m: nat, n: nat, x: Value)
    requires ItemsReady(a, doc, path, fs, ts, done, cs, keys)
    requires m <= 1 && m <= |fs| && n <= 1 && n <= |ts| && (n == 0 ==> |ts| == 0)
    requires WellFormed(next, keys)
    requires Rfc.Get(Meaning(next), path)
             == Some(VArray((if n == 1 then done + [x] else done) + MeaningAll(fs[m..])))
    requires m == 0 ==> |fs| == 0
    ensures ItemsReady(a, next, path, fs[m..], ts[n..], if n == 1 then done + [x] else done, cs, keys)
  {
    hide ToldApart, WellFormed, Meaning, MeaningAll, Rfc.Get;
  }

  lemma {:induction false} ItemsRoundTrip(a: Json, doc: Json, path: Tokens, fs: seq<Json>, ts: seq<Json>, done: seq<Value>,
                                          cs: bool, keys: set<string>)
    requires ItemsReady(a, doc, path, fs, ts, done, cs, keys)
    requires forall i :: 0 <= i < |fs| ==> fs[i] < a
    requires AllSurvive(CreateItemPatches(a, Join(path), fs, ts, |done|, cs), cs, keys)
    ensures Patched(doc, CreateItemPatches(a, Join(path), fs, ts, |done|, cs), path, VArray(done + MeaningAll(ts)), cs, keys)
    decreases a, 0, |fs| + |ts|, 1
  {
    hide *;
    if fs == [] && ts == [] {
      NoItems(a, path, |done|, cs);
      ItemsReadyParts(a, doc, path, fs, ts, done, cs, keys);
      PatchedNothing(doc, path, VArray(done + MeaningAll(ts)), cs, keys);
    } else {
      ItemPatchesStep(a, path, fs, ts, |done|, cs);
      if fs != [] && ts != [] {
        PatchItem(a, doc, path, fs, ts, done, cs, keys);
      } else if fs != [] {
        RemoveItem(a, doc, path, fs, ts, done, cs, keys);
      } else {
        AddItem(a, doc, path, fs, ts, done, cs, keys);
      }
    }
  }

  lemma NoItems(a: Json, path: Tokens, index: nat, cs: bool)
    ensures CreateItemPatches(a, Join(path), [], [], index, cs) == []
  {
  }

  lemma ItemsReadyParts(a: Json, doc: Json, path: Tokens, fs: seq<Json>, ts: seq<Json>, done: seq<Value>, cs: bool, keys: set<string>)
    requires ItemsReady(a, doc, path, fs, ts, done, cs, keys)
    ensures ToldApart(keys, cs) && WellFormed(doc, keys)
    ensures fs != [] ==> fs[0] < a && WellFormed(fs[0], keys)
    ensures ts != [] ==> WellFormed(ts[0], keys) && |done| + 1 < SIZE_LIMIT
    ensures Rfc.Get(Meaning(doc), path) == Some(VArray(done + MeaningAll(fs)))
  {
  }

  lemma {:induction false} PatchItem(a: Json, doc: Json, path: Tokens, fs: seq<Json>, ts: seq<Json>, done: seq<Value>,
                                     cs: bool, keys: set<string>)
    requires ItemsReady(a, doc, path, fs, ts, done, cs, keys) && fs != [] && ts != []
    requires forall i :: 0 <= i < |fs| ==> fs[i] < a
    requires AllSurvive(CreatePatches(Join(path + [Decimal(|done|)]), fs[0], ts[0], cs)
                        + CreateItemPatches(a, Join(path), fs[1..], ts[1..], |done| + 1, cs), cs, keys)
    ensures Patched(doc, CreatePatches(Join(path + [Decimal(|done|)]), fs[0], ts[0], cs)
                         + CreateItemPatches(a, Join(path), fs[1..], ts[1..], |done| + 1, cs),
                    path, VArray(done + MeaningAll(ts)), cs, keys)
    decreases a, 0, |fs| + |ts|, 0
  {
    hide *;
    var (index, token) := (|done|, Decimal(|done|));
    var (items, x) := (done + MeaningAll(fs), Meaning(ts[0]));
    var ps := CreatePatches(Join(path + [token]), fs[0], ts[0], cs);
    ItemsReadyParts(a, doc, path, fs, ts, done, cs, keys);
    ItemsValue(done, fs, x);
    ItemsValue(done, ts, x);
    IndexStepOfDecimal(items, index, x);
    Rfc.GetChild(Meaning(doc), path, token);
    SurviveSplit(ps, CreateItemPatches(a, Join(path), fs[1..], ts[1..], index + 1, cs), cs, keys);
    RoundTripReadyAt(doc, path + [token], fs[0], ts[0], cs, keys);
    CreateRoundTrip(doc, path + [token], fs[0], ts[0], cs, keys);
    PatchedChild(doc, ps, path, token, VArray(items), x, cs, keys);
    PatchedGet(doc, ps, path, VArray(items[index := x]), cs, keys);
    ItemsReadyNext(a, doc, path, fs, ts, done, cs, keys, ApplyAll(doc, ps, cs).doc, 1, 1, x);
    ItemsRoundTrip(a, ApplyAll(doc, ps, cs).doc, path, fs[1..], ts[1..], done + [x], cs, keys);
    PatchedThen(doc, ps, CreateItemPatches(a, Join(path), fs[1..], ts[1..], index + 1, cs), path,
                VArray(items[index := x]), VArray(done + MeaningAll(ts)), cs, keys);
  }

  lemma {:induction false} RemoveItem(a: Json, doc: Json, path: Tokens, fs: seq<Json>, ts: seq<Json>, done: seq<Value>,
                                      cs: bool, keys: set<string>)
    requires ItemsReady(a, doc, path, fs, ts, done, cs, keys) && fs != [] && ts == []
    requires forall i :: 0 <= i < |fs| ==> fs[i] < a
    requires AllSurvive([ComposePatch("remove", Join(path), Some(Decimal(|done|)), None)]
                        + CreateItemPatches(a, Join(path), fs[1..], ts, |done|, cs), cs, keys)
    ensures Patched(doc, [ComposePatch("remove", Join(path), Some(Decimal(|done|)), None)]
                         + CreateItemPatches(a, Join(path), fs[1..], ts, |done|, cs),
                    path, VArray(done + MeaningAll(ts)), cs, keys)
    decreases a, 0, |fs| + |ts|, 0
  {
    hide *;
    var (index, token) := (|done|, Decimal(|done|));
    var (items, q) := (done + MeaningAll(fs), VArray(done + MeaningAll(fs[1..])));
    var ps := [ComposePatch("remove", Join(path), Some(token), None)];
    ItemsReadyParts(a, doc, path, fs, ts, done, cs, keys);
    ItemsValue(done, fs, VNull);
    IndexStepOfDecimal(items, index, VNull);
    SurviveFirst("remove", path, token, None, CreateItemPatches(a, Join(path), fs[1..], ts, index, cs), cs, keys);
    RemoveRoundTrip(doc, path, token, VArray(items), q, cs, keys);
    PatchedGet(doc, ps, path, q, cs, keys);
    assert ts[0..] == ts;
    ItemsReadyNext(a, doc, path, fs, ts, done, cs, keys, ApplyAll(doc, ps, cs).doc, 1, 0, VNull);
    ItemsRoundTrip(a, ApplyAll(doc, ps, cs).doc, path, fs[1..], ts, done, cs, keys);
    PatchedThen(doc, ps, CreateItemPatches(a, Join(path), fs[1..], ts, index, cs), path,
                q, VArray(done + MeaningAll(ts)), cs, keys);
  }

  lemma {:induction false} AddItem(a: Json, doc: Json, path: Tokens, fs: seq<Json>, ts: seq<Json>, done: seq<Value>,
                                   cs: bool, keys: set<string>)
    requires ItemsReady(a, doc, path, fs, ts, done, cs, keys) && fs == [] && ts != []
    requires AllSurvive([ComposePatch("add", Join(path), Some("-"), Some(ts[0]))]
                        + CreateItemPatches(a, Join(path), fs, ts[1..], |done| + 1, cs), cs, keys)
    ensures Patched(doc, [ComposePatch("add", Join(path), Some("-"), Some(ts[0]))]
                         + CreateItemPatches(a, Join(path), fs, ts[1..], |done| + 1, cs),
                    path, VArray(done + MeaningAll(ts)), cs, keys)
    decreases a, 0, |fs| + |ts|, 0
  {
    hide *;
    var x := Meaning(ts[0]);
    var q := VArray((done + [x]) + MeaningAll(fs));
    var ps := [ComposePatch("add", Join(path), Some("-"), Some(ts[0]))];
    ItemsReadyParts(a, doc, path, fs, ts, done, cs, keys);
    ItemsValue(done, ts, x);
    DashAdds(done, fs, ts[0], keys);
    SurviveFirst("add", path, "-", Some(ts[0]), CreateItemPatches(a, Join(path), fs, ts[1..], |done| + 1, cs), cs, keys);
    AddRoundTrip(doc, path, "-", ts[0], VArray(done + MeaningAll(fs)), q, cs, keys);
    PatchedGet(doc, ps, path, q, cs, keys);
    assert fs[0..] == fs;
    ItemsReadyNext(a, doc, path, fs, ts, done, cs, keys, ApplyAll(doc, ps, cs).doc, 0, 1, x);
    ItemsRoundTrip(a, ApplyAll(doc, ps, cs).doc, path, fs, ts[1..], done + [x], cs, keys);
    PatchedThen(doc, ps, CreateItemPatches(a, Join(path), fs, ts[1..], |done| + 1, cs), path,
                q, VArray(done + MeaningAll(ts)), cs, keys);
  }

  lemma DashAdds(done: seq<Value>, fs: seq<Json>, t: Json, keys: set<string>)
    requires fs == [] && |done| + 1 < SIZE_LIMIT
    ensures Undamaged("-")
    ensures CanAdd(VArray(done + MeaningAll(fs)), "-", keys)
    ensures Rfc.AddChild(VArray(done + MeaningAll(fs)), "-", Meaning(t)) == Some(VArray((done + [Meaning(t)]) + MeaningAll(fs)))
  {
    UndamagedPlain("-");
    assert MeaningAll(fs) == [];
    assert done + MeaningAll(fs) == done && (done + [Meaning(t)]) + MeaningAll(fs) == done + [Meaning(t)];
  }

  // ----- objects -----

  /** The map that the patches for two member lists turn a map into. */
  ghost function PatchedMap(m: map<string, Value>, fs: seq<Member>, ts: seq<Member>): map<string, Value> {
    (m - KeysOf(fs)) + MapOf(ts)
  }

  /** The map has the members still to be compared. */
  ghost predicate Holds(m: map<string, Value>, fs: seq<Member>) {
    forall i :: 0 <= i < |fs| ==> fs[i].key in m && m[fs[i].key] == Meaning(fs[i].value)
  }

  lemma AllMembers(fs: seq<Member>, ts: seq<Member>)
    requires UniqueKeys(fs)
    ensures PatchedMap(MapOf(fs), fs, ts) == MapOf(ts)
    ensures Holds(MapOf(fs), fs)
  {
    MapOfUnique(fs);
  }

  /** The document holds an object with the members still to be compared. */
  ghost predicate MembersReady(doc: Json, path: Tokens, fs: seq<Member>, ts: seq<Member>, m: map<string, Value>,
                               cs: bool, keys: set<string>) {
    && ToldApart(keys, cs) && WellFormed(doc, keys)
    && WellFormedMembers(fs, keys) && Ascending(fs, cs)
    && WellFormedMembers(ts, keys) && Ascending(ts, cs)
    && Rfc.Get(Meaning(doc), path) == Some(VObject(m)) && Holds(m, fs)
  }

  lemma {:induction false} MembersRoundTrip(a: Json, doc: Json, path: Tokens, fs: seq<Member>, ts: seq<Member>,
                                            m: map<string, Value>, cs: bool, keys: set<string>)
    requires MembersReady(doc, path, fs, ts, m, cs, keys) && Below(fs, a)
    requires AllSurvive(CreateMemberPatches(a, Join(path), fs, ts, cs), cs, keys)
    ensures Patched(doc, CreateMemberPatches(a, Join(path), fs, ts, cs), path, VObject(PatchedMap(m, fs, ts)), cs, keys)
    decreases a, 0, |fs| + |ts|, 1
  {
    hide *;
    MembersReadyParts(a, doc, path, fs, ts, m, cs, keys);
    if fs == [] && ts == [] {
      NoMembers(a, path, m, cs);
      PatchedNothing(doc, path, VObject(m), cs, keys);
    } else {
      MemberPatchesStep(a, path, fs, ts, cs);
      var diff := HeadDifference(fs, ts, cs);
      if diff == 0 {
        PatchMember(a, doc, path, fs, ts, m, cs, keys);
      } else if diff < 0 {
        RemoveFirst(a, doc, path, fs, ts, m, cs, keys);
      } else {
        AddFirst(a, doc, path, fs, ts, m, cs, keys);
      }
    }
  }

  lemma NoMembers(a: Json, path: Tokens, m: map<string, Value>, cs: bool)
    requires Below([], a)
    ensures CreateMemberPatches(a, Join(path), [], [], cs) == [] && PatchedMap(m, [], []) == m
  {
  }

  lemma MembersReadyParts(a: Json, doc: Json, path: Tokens, fs: seq<Member>, ts: seq<Member>,
                          m: map<string, Value>, cs: bool, keys: set<string>)
    requires MembersReady(doc, path, fs, ts, m, cs, keys) && Below(fs, a)
    ensures ToldApart(keys, cs) && WellFormed(doc, keys)
    ensures Rfc.Get(Meaning(doc), path) == Some(VObject(m))
    ensures fs != [] ==> fs[0].value < a && WellFormed(fs[0].value, keys) && fs[0].key in keys
    ensures fs != [] ==> fs[0].key in m && m[fs[0].key] == Meaning(fs[0].value) && Below(fs[1..], a)
    ensures ts != [] ==> WellFormed(ts[0].value, keys) && ts[0].key in keys
  {
    hide Meaning, Rfc.Get, Undamaged, Ascending;
  }

  /** After a step the rest of the lists is ready for the new document and map. */
  lemma MembersReadyNext(doc: Json, path: Tokens, fs: seq<Member>, ts: seq<Member>, m: map<string, Value>,
                         cs: bool, keys: set<string>, next: Json, i: nat, j: nat, n: map<string, Value>)
    requires MembersReady(doc, path, fs, ts, m, cs, keys)
    requires i <= 1 && i <= |fs| && j <= 1 && j <= |ts|
    requires WellFormed(next, keys) && Rfc.Get(Meaning(next), path) == Some(VObject(n)) && Holds(n, fs[i..])
    ensures MembersReady(next, path, fs[i..], ts[j..], n, cs, keys)
  {
    hide Meaning, Rfc.Get, ToldApart, Holds;
    if i == 1 { TailMembers(fs, cs, keys); } else { assert fs[0..] == fs; }
    if j == 1 { TailMembers(ts, cs, keys); } else { assert ts[0..] == ts; }
  }

  lemma ShiftKey(m: map<string, Value>, rest: set<string>, t: map<string, Value>, k: string, x: Value)
    requires k !in rest && k !in t
    ensures (m[k := x] - rest) + t == (m - (rest + {k})) + t[k := x]
    ensures (m[k := x] - rest) + t == (m - rest) + t[k := x]
  {
  }

  /** The heads name the same member. */
  lemma SameHeads(fs: seq<Member>, ts: seq<Member>, m: map<string, Value>, cs: bool, keys: set<string>)
    requires ToldApart(keys, cs) && WellFormedMembers(fs, keys) && WellFormedMembers(ts, keys) && Holds(m, fs)
    requires fs != [] && ts != [] && CompareStrings(fs[0].key, ts[0].key, cs) == 0
    ensures fs[0].key == ts[0].key
    ensures var n := m[fs[0].key := Meaning(ts[0].value)];
            Holds(n, fs[1..]) && PatchedMap(n, fs[1..], ts[1..]) == PatchedMap(m, fs, ts)
  {
    var k := fs[0].key;
    CompareStringsOrder(k, ts[0].key, k, cs);
    KeysOfCons(fs);
    TailMembers(ts, cs, keys);
    assert MapOf(ts) == MapOf(ts[1..])[k := Meaning(ts[0].value)];
    hide Meaning, MapOf, CompareStrings, WellFormedMembers, ToldApart;
    ShiftKey(m, KeysOf(fs[1..]), MapOf(ts[1..]), k, Meaning(ts[0].value));
    assert KeysOf(fs[1..]) + {k} == KeysOf(fs);
  }

  lemma KeysOfCons(fs: seq<Member>)
    requires fs != [] && UniqueKeys(fs)
    ensures KeysOf(fs) == {fs[0].key} + KeysOf(fs[1..])
    ensures fs[0].key !in KeysOf(fs[1..])
  {
    assert forall i :: 0 < i < |fs| ==> fs[i] == fs[1..][i - 1];
  }

  lemma RemovedHead(fs: seq<Member>, ts: seq<Member>, m: map<string, Value>)
    requires fs != [] && UniqueKeys(fs) && Holds(m, fs)
    ensures Holds(m - {fs[0].key}, fs[1..])
    ensures PatchedMap(m - {fs[0].key}, fs[1..], ts) == PatchedMap(m, fs, ts)
  {
    hide Meaning, MapOf;
    KeysOfCons(fs);
  }

  lemma AddedHead(fs: seq<Member>, ts: seq<Member>, m: map<string, Value>, cs: bool, keys: set<string>)
    requires ts != [] && UniqueKeys(ts) && Holds(m, fs) && ts[0].key !in KeysOf(fs)
    ensures Holds(m[ts[0].key := Meaning(ts[0].value)], fs)
    ensures PatchedMap(m[ts[0].key := Meaning(ts[0].value)], fs, ts[1..]) == PatchedMap(m, fs, ts)
  {
    TailMembers(ts, cs, keys);
    assert MapOf(ts) == MapOf(ts[1..])[ts[0].key := Meaning(ts[0].value)];
    hide Meaning, MapOf, UniqueKeys;
    ShiftKey(m, KeysOf(fs), MapOf(ts[1..]), ts[0].key, Meaning(ts[0].value));
  }

  /** A key below all keys of a list is not among them. */
  lemma NewKey(fs: seq<Member>, ts: seq<Member>, cs: bool)
    requires ts != [] && UniqueKeys(fs) && Ascending(fs, cs) && HeadDifference(fs, ts, cs) > 0
    ensures ts[0].key !in KeysOf(fs)
  {
    if fs != [] {
      CompareStringsOrder(fs[0].key, ts[0].key, fs[0].key, cs);
    }
    SmallerKeyAbsent(ts[0].key, fs, cs);
    MapOfUnique(fs);
  }

  lemma {:induction false} PatchMember(a: Json, doc: Json, path: Tokens, fs: seq<Member>, ts: seq<Member>,
                                       m: map<string, Value>, cs: bool, keys: set<string>)
    requires MembersReady(doc, path, fs, ts, m, cs, keys) && Below(fs, a)
    requires fs != [] && ts != [] && HeadDifference(fs, ts, cs) == 0 && Below(fs[1..], a)
    requires AllSurvive(CreatePatches(Join(path + [fs[0].key]), fs[0].value, ts[0].value, cs)
                        + CreateMemberPatches(a, Join(path), fs[1..], ts[1..], cs), cs, keys)
    ensures Patched(doc, CreatePatches(Join(path + [fs[0].key]), fs[0].value, ts[0].value, cs)
                         + CreateMemberPatches(a, Join(path), fs[1..], ts[1..], cs),
                    path, VObject(PatchedMap(m, fs, ts)), cs, keys)
    decreases a, 0, |fs| + |ts|, 0
  {
    MembersReadyParts(a, doc, path, fs, ts, m, cs, keys);
    SameHeads(fs, ts, m, cs, keys);
    var (k, x) := (fs[0].key, Meaning(ts[0].value));
    var n := m[k := x];
    assert Rfc.Step(VObject(m), k) == Some(m[k]) && Rfc.Put(VObject(m), k, x) == VObject(n);
    hide *;
    var ps := CreatePatches(Join(path + [k]), fs[0].value, ts[0].value, cs);
    Rfc.GetChild(Meaning(doc), path, k);
    SurviveSplit(ps, CreateMemberPatches(a, Join(path), fs[1..], ts[1..], cs), cs, keys);
    RoundTripReadyAt(doc, path + [k], fs[0].value, ts[0].value, cs, keys);
    CreateRoundTrip(doc, path + [k], fs[0].value, ts[0].value, cs, keys);
    PatchedChild(doc, ps, path, k, VObject(m), x, cs, keys);
    PatchedGet(doc, ps, path, VObject(n), cs, keys);
    MembersReadyNext(doc, path, fs, ts, m, cs, keys, ApplyAll(doc, ps, cs).doc, 1, 1, n);
    MembersRoundTrip(a, ApplyAll(doc, ps, cs).doc, path, fs[1..], ts[1..], n, cs, keys);
    PatchedThen(doc, ps, CreateMemberPatches(a, Join(path), fs[1..], ts[1..], cs), path,
                VObject(n), VObject(PatchedMap(m, fs, ts)), cs, keys);
  }

  lemma {:induction false} RemoveFirst(a: Json, doc: Json, path: Tokens, fs: seq<Member>, ts: seq<Member>,
                                       m: map<string, Value>, cs: bool, keys: set<string>)
    requires MembersReady(doc, path, fs, ts, m, cs, keys) && Below(fs, a) && fs != [] && Below(fs[1..], a)
    requires AllSurvive([ComposePatch("remove", Join(path), Some(fs[0].key), None)]
                        + CreateMemberPatches(a, Join(path), fs[1..], ts, cs), cs, keys)
    ensures Patched(doc, [ComposePatch("remove", Join(path), Some(fs[0].key), None)]
                         + CreateMemberPatches(a, Join(path), fs[1..], ts, cs),
                    path, VObject(PatchedMap(m, fs, ts)), cs, keys)
    decreases a, 0, |fs| + |ts|, 0
  {
    MembersReadyParts(a, doc, path, fs, ts, m, cs, keys);
    RemovedHead(fs, ts, m);
    var (k, n) := (fs[0].key, m - {fs[0].key});
    assert Rfc.RemoveChild(VObject(m), k) == Some(VObject(n));
    hide *;
    var ps := [ComposePatch("remove", Join(path), Some(k), None)];
    SurviveFirst("remove", path, k, None, CreateMemberPatches(a, Join(path), fs[1..], ts, cs), cs, keys);
    RemoveRoundTrip(doc, path, k, VObject(m), VObject(n), cs, keys);
    PatchedGet(doc, ps, path, VObject(n), cs, keys);
    assert ts[0..] == ts;
    MembersReadyNext(doc, path, fs, ts, m, cs, keys, ApplyAll(doc, ps, cs).doc, 1, 0, n);
    MembersRoundTrip(a, ApplyAll(doc, ps, cs).doc, path, fs[1..], ts, n, cs, keys);
    PatchedThen(doc, ps, CreateMemberPatches(a, Join(path), fs[1..], ts, cs), path,
                VObject(n), VObject(PatchedMap(m, fs, ts)), cs, keys);
  }

  lemma {:induction false} AddFirst(a: Json, doc: Json, path: Tokens, fs: seq<Member>, ts: seq<Member>,
                                    m: map<string, Value>, cs: bool, keys: set<string>)
    requires MembersReady(doc, path, fs, ts, m, cs, keys) && Below(fs, a)
    requires ts != [] && HeadDifference(fs, ts, cs) > 0
    requires AllSurvive([ComposePatch("add", Join(path), Some(ts[0].key), Some(ts[0].value))]
                        + CreateMemberPatches(a, Join(path), fs, ts[1..], cs), cs, keys)
    ensures Patched(doc, [ComposePatch("add", Join(path), Some(ts[0].key), Some(ts[0].value))]
                         + CreateMemberPatches(a, Join(path), fs, ts[1..], cs),
                    path, VObject(PatchedMap(m, fs, ts)), cs, keys)
    decreases a, 0, |fs| + |ts|, 0
  {
    MembersReadyParts(a, doc, path, fs, ts, m, cs, keys);
    NewKey(fs, ts, cs);
    AddedHead(fs, ts, m, cs, keys);
    var (k, x) := (ts[0].key, Meaning(ts[0].value));
    var n := m[k := x];
    assert Rfc.AddChild(VObject(m), k, x) == Some(VObject(n)) && CanAdd(VObject(m), k, keys);
    hide *;
    var ps := [ComposePatch("add", Join(path), Some(k), Some(ts[0].value))];
    SurviveFirst("add", path, k, Some(ts[0].value), CreateMemberPatches(a, Join(path), fs, ts[1..], cs), cs, keys);
    AddRoundTrip(doc, path, k, ts[0].value, VObject(m), VObject(n), cs, keys);
    PatchedGet(doc, ps, path, VObject(n), cs, keys);
    assert fs[0..] == fs;
    MembersReadyNext(doc, path, fs, ts, m, cs, keys, ApplyAll(doc, ps, cs).doc, 0, 1, n);
    MembersRoundTrip(a, ApplyAll(doc, ps, cs).doc, path, fs, ts[1..], n, cs, keys);
    PatchedThen(doc, ps, CreateMemberPatches(a, Join(path), fs, ts[1..], cs), path,
                VObject(n), VObject(PatchedMap(m, fs, ts)), cs, keys);
  }

  // ----- main results -----

  lemma {:induction false} NoTestsCreated(path: string, from: Json, to: Json, cs: bool)
    ensures NoTests(CreatePatches(path, from, to, cs), cs)
    decreases from, 1, 0
  {
    match (from, to) {
      case (Array(fs), Array(ts)) => NoTestsForItems(from, path, fs, ts, 0, cs);
      case (Object(fs), Object(ts)) =>
        SortMembersBelow(from, cs);
        NoTestsForMembers(from, path, SortMembers(fs, cs), SortMembers(ts, cs), cs);
      case _ => NoTestComposed("replace", path, None, Some(to), cs);
    }
  }

  lemma {:induction false} NoTestsForItems(a: Json, path: string, fs: seq<Json>, ts: seq<Json>, index: nat, cs: bool)
    requires forall i :: 0 <= i < |fs| ==> fs[i] < a
    ensures NoTests(CreateItemPatches(a, path, fs, ts, index, cs), cs)
    decreases a, 0, |fs| + |ts|
  {
    if fs != [] && ts != [] {
      NoTestsCreated(path + ("/" + Decimal(index)), fs[0], ts[0], cs);
      NoTestsForItems(a, path, fs[1..], ts[1..], index + 1, cs);
    } else if fs != [] {
      NoTestComposed("remove", path, Some(Decimal(index)), None, cs);
      NoTestsForItems(a, path, fs[1..], ts, index, cs);
    } else if ts != [] {
      NoTestComposed("add", path, Some("-"), Some(ts[0]), cs);
      NoTestsForItems(a, path, fs, ts[1..], index + 1, cs);
    }
  }

  lemma {:induction false} NoTestsForMembers(a: Json, path: string, fs: seq<Member>, ts: seq<Member>, cs: bool)
    requires Below(fs, a)
    ensures NoTests(CreateMemberPatches(a, path, fs, ts, cs), cs)
    decreases a, 0, |fs| + |ts|
  {
    if fs != [] || ts != [] {
      var diff := HeadDifference(fs, ts, cs);
      if diff == 0 {
        NoTestsCreated(path + ("/" + Encode(fs[0].key)), fs[0].value, ts[0].value, cs);
        NoTestsForMembers(a, path, fs[1..], ts[1..], cs);
      } else if diff < 0 {
        NoTestComposed("remove", path, Some(fs[0].key), None, cs);
        NoTestsForMembers(a, path, fs[1..], ts, cs);
      } else {
        NoTestComposed("add", path, Some(ts[0].key), Some(ts[0].value), cs);
        NoTestsForMembers(a, path, fs, ts[1..], cs);
      }
    }
  }

  lemma NoTestComposed(operation: string, path: string, suffix: Option<string>, value: Option<Json>, cs: bool)
    requires operation != "test"
    ensures !IsTest(ComposePatch(operation, path, suffix, value), cs)
  {
    var fullPath := match suffix case None => path case Some(s) => path + ("/" + Encode(s));
    hide Lookup, Encode;
    LookupFields(operation, fullPath, match value case None => [] case Some(v) => [Member("value", v)], cs);
  }

  /** Main result: on a tree that a parser or a duplicate built and that stands for the source, the generated patches apply without error,
      and the result stands for the target, for trees with case-distinct keys when the paths of the patches survive unescaping. */
  lemma GeneratedPatchesApply(copy: Json, from: Json, to: Json, cs: bool, keys: set<string>)
    requires ToldApart(keys, cs) && AllSurvive(CreatePatches("", from, to, cs), cs, keys)
    requires WellFormed(copy, keys) && WellFormed(from, keys) && WellFormed(to, keys)
    requires Meaning(copy) == Meaning(from)
    ensures var r := ApplyAllLive(Fresh(copy), CreatePatches("", from, to, cs), cs);
            r.status == 0 && Meaning(Erase(r.doc)) == Meaning(to) && Settled(r.doc)
  {
    assert Join([]) == "";
    EraseFresh(copy);
    hide AllSurvive, CreatePatches, Join, WellFormed, Settled, Erase;
    RoundTripReadyAt(copy, [], from, to, cs, keys);
    CreateRoundTrip(copy, [], from, to, cs, keys);
    NoTestsCreated("", from, to, cs);
    NoTestsRefine(Fresh(copy), CreatePatches("", from, to, cs), cs);
  }

  /** The condition holds when every key of the trees survives unescaping. */
  lemma {:induction false} UndamagedKeysSurvive(path: Tokens, from: Json, to: Json, cs: bool, keys: set<string>)
    requires LastUndamaged(path) && LastAlone(path, keys) && WellFormed(from, keys) && WellFormed(to, keys) && CaseDistinct(keys)
    requires forall k :: k in keys ==> Undamaged(k)
    ensures AllSurvive(CreatePatches(Join(path), from, to, cs), cs, keys)
    decreases from, 1, 0
  {
    assert ToldApart(keys, cs);
    hide Undamaged, Survives, ComposePatch, Join, LastAlone, CaseDistinct;
    match (from, to) {
      case (Array(fs), Array(ts)) => UndamagedItemsSurvive(from, path, fs, ts, 0, cs, keys);
      case (Object(fs), Object(ts)) =>
        SortMembersBelow(from, cs);
        SortMembersKeeps(fs, cs, keys);
        SortMembersKeeps(ts, cs, keys);
        UndamagedMembersSurvive(from, path, SortMembers(fs, cs), SortMembers(ts, cs), cs, keys);
      case _ => ComposedSurvives("replace", path, None, Some(to), cs, keys);
    }
  }

  lemma {:induction false} UndamagedItemsSurvive(a: Json, path: Tokens, fs: seq<Json>, ts: seq<Json>, index: nat, cs: bool, keys: set<string>)
    requires forall i :: 0 <= i < |fs| ==> fs[i] < a && WellFormed(fs[i], keys)
    requires forall i :: 0 <= i < |ts| ==> WellFormed(ts[i], keys)
    requires CaseDistinct(keys) && forall k :: k in keys ==> Undamaged(k)
    ensures AllSurvive(CreateItemPatches(a, Join(path), fs, ts, index, cs), cs, keys)
    decreases a, 0, |fs| + |ts|
  {
    if fs != [] || ts != [] {
      hide Undamaged, AllSurvive, ComposePatch, Join, WellFormed, CreateItemPatches, CreatePatches, CaseDistinct, Decimal, OnlyKey;
      ItemPatchesStep(a, path, fs, ts, index, cs);
      DecimalUndamaged(index);
      DecimalAlone(index, keys);
      if fs != [] && ts != [] {
        UndamagedLast(path, Decimal(index));
        AloneLast(path, Decimal(index), keys);
        UndamagedKeysSurvive(path + [Decimal(index)], fs[0], ts[0], cs, keys);
        UndamagedItemsSurvive(a, path, fs[1..], ts[1..], index + 1, cs, keys);
        SurviveJoin(CreatePatches(Join(path + [Decimal(index)]), fs[0], ts[0], cs),
                    CreateItemPatches(a, Join(path), fs[1..], ts[1..], index + 1, cs), cs, keys);
      } else if fs != [] {
        SurviveOne("remove", path, Decimal(index), None, cs, keys);
        UndamagedItemsSurvive(a, path, fs[1..], ts, index, cs, keys);
        SurviveJoin([ComposePatch("remove", Join(path), Some(Decimal(index)), None)],
                    CreateItemPatches(a, Join(path), fs[1..], ts, index, cs), cs, keys);
      } else {
        UndamagedDash();
        SurviveOne("add", path, "-", Some(ts[0]), cs, keys);
        UndamagedItemsSurvive(a, path, fs, ts[1..], index + 1, cs, keys);
        SurviveJoin([ComposePatch("add", Join(path), Some("-"), Some(ts[0]))],
                    CreateItemPatches(a, Join(path), fs, ts[1..], index + 1, cs), cs, keys);
      }
    }
  }

  /** Case makes no difference to an index. */
  lemma DecimalAlone(i: nat, keys: set<string>)
    ensures OnlyKey(Decimal(i), keys)
  {
    RfcIndexOfDecimal(i);
    var d := Decimal(i);
    assert forall k :: 0 <= k < |d| ==> IsDigit(d[k]);
    forall k | k in keys && Lower(k) == Lower(d)
      ensures k == d
    {
      assert |Lower(k)| == |k| && |Lower(d)| == |d|;
      forall j | 0 <= j < |d|
        ensures k[j] == d[j]
      {
        assert Lower(k)[j] == Lower(d)[j];
      }
    }
  }

  lemma AloneLast(path: Tokens, token: string, keys: set<string>)
    requires OnlyKey(token, keys)
    ensures LastAlone(path + [token], keys)
  {
    assert Last(path + [token]) == token;
  }

  lemma KnownAlone(key: string, keys: set<string>)
    requires CaseDistinct(keys) && key in keys
    ensures OnlyKey(key, keys)
  {
  }

  lemma UndamagedDash()
    ensures Undamaged("-")
  {
    UndamagedPlain("-");
  }

  lemma BelowObject(ms: seq<Member>)
    ensures Below(ms, Object(ms))
  {
    assert forall i :: 0 <= i < |ms| ==> ms[i].value < ms[i];
  }

  lemma MemberListParts(fs: seq<Member>, a: Json, keys: set<string>)
    requires Below(fs, a) && WellFormedMembers(fs, keys) && fs != []
    ensures fs[0].value < a && WellFormed(fs[0].value, keys) && fs[0].key in keys
    ensures Below(fs[1..], a) && WellFormedMembers(fs[1..], keys)
  {
    TailMembers(fs, true, keys);
  }

  lemma {:induction false} UndamagedMembersSurvive(a: Json, path: Tokens, fs: seq<Member>, ts: seq<Member>, cs: bool, keys: set<string>)
    requires Below(fs, a) && WellFormedMembers(fs, keys) && WellFormedMembers(ts, keys)
    requires CaseDistinct(keys) && forall k :: k in keys ==> Undamaged(k)
    ensures AllSurvive(CreateMemberPatches(a, Join(path), fs, ts, cs), cs, keys)
    decreases a, 0, |fs| + |ts|
  {
    if fs != [] || ts != [] {
      hide *;
      if fs != [] {
        MemberListParts(fs, a, keys);
        KnownAlone(fs[0].key, keys);
        AloneLast(path, fs[0].key, keys);
      }
      if ts != [] {
        BelowObject(ts);
        MemberListParts(ts, Object(ts), keys);
      }
      MemberPatchesStep(a, path, fs, ts, cs);
      if HeadDifference(fs, ts, cs) == 0 {
        UndamagedLast(path, fs[0].key);
        UndamagedKeysSurvive(path + [fs[0].key], fs[0].value, ts[0].value, cs, keys);
        UndamagedMembersSurvive(a, path, fs[1..], ts[1..], cs, keys);
        SurviveJoin(CreatePatches(Join(path + [fs[0].key]), fs[0].value, ts[0].value, cs),
                    CreateMemberPatches(a, Join(path), fs[1..], ts[1..], cs), cs, keys);
      } else if HeadDifference(fs, ts, cs) < 0 {
        SurviveOne("remove", path, fs[0].key, None, cs, keys);
        UndamagedMembersSurvive(a, path, fs[1..], ts, cs, keys);
        SurviveJoin([ComposePatch("remove", Join(path), Some(fs[0].key), None)],
                    CreateMemberPatches(a, Join(path), fs[1..], ts, cs), cs, keys);
      } else {
        SurviveOne("add", path, ts[0].key, Some(ts[0].value), cs, keys);
        UndamagedMembersSurvive(a, path, fs, ts[1..], cs, keys);
        SurviveJoin([ComposePatch("add", Join(path), Some(ts[0].key), Some(ts[0].value))],
                    CreateMemberPatches(a, Join(path), fs, ts[1..], cs), cs, keys);
      }
    }
  }

  lemma OneMemberPatches(key: string, x: Json, cs: bool)
    ensures CreatePatches("", Object([]), Object([Member(key, x)]), cs)
            == [ComposePatch("add", Join([]), Some(key), Some(x))]
  {
    var ts := [Member(key, x)];
    assert SortMembers([], cs) == [] && SortMembers(ts, cs) == ts;
    assert ts[1..] == [];
    assert CreateMemberPatches(Object([]), "", [], ts[1..], cs) == [];
    hide ComposePatch, SortMembers;
    MemberPatchesStep(Object([]), [], [], ts, cs);
  }

  lemma AddPathToEmpty(key: string, x: Json, cs: bool)
    ensures AddPath(Object([]), Join([key]), x, cs) == Applied(0, Object([Member(DecodeInPlace(Encode(key)), x)]))
    ensures Join([key]) != ""
  {
    AddPathOne(Object([]), key, x, cs);
    MemberOfEmpty(DecodeInPlace(Encode(key)), x, cs);
    hide AddPath, AddChild, Join, Encode, DecodeInPlace;
  }

  /** Adding a child of the whole document. */
  lemma AddPathOne(doc: Json, key: string, x: Json, cs: bool)
    ensures Join([key]) != ""
    ensures var r := AddChild(doc, DecodeInPlace(Encode(key)), x, cs);
            AddPath(doc, Join([key]), x, cs) == if r.status == 0 then r else Applied(r.status, doc)
  {
    SplitJoin([key]);
    assert Parent([key]) == [] && Last([key]) == key && Join([]) == "";
    assert Locate(doc, "", cs) == Some([]);
    hide Join, Encode, DecodeInPlace, Locate, AddChild;
  }

  lemma MemberOfEmpty(token: string, x: Json, cs: bool)
    ensures AddChild(Object([]), token, x, cs) == Applied(0, Object([Member(token, x)]))
  {
    assert [] + [Member(token, x)] == [Member(token, x)];
  }

  lemma AddToEmpty(key: string, x: Json, cs: bool)
    ensures ApplyPatch(Object([]), ComposePatch("add", Join([]), Some(key), Some(x)), cs)
            == Applied(0, Object([Member(DecodeInPlace(Encode(key)), x)]))
  {
    hide ComposePatch, Join, GetMember, Encode, DecodeInPlace, AddPath, ApplyMove, ApplyCopy, ApplyTest, DetachPath, Locate;
    ComposedFields("add", [], Some(key), Some(x), cs);
    assert [] + [key] == [key];
    AddPathToEmpty(key, x, cs);
    var r := ApplyWithValue(Object([]), false, Join([key]), Some(x), cs);
    assert r == AddPath(Object([]), Join([key]), x, cs);
    hide ApplyWithValue;
  }

  /** The condition on keys cannot be dropped: adding one member to an empty object works exactly when the
      key survives unescaping. */
  lemma KeyConditionIsExact(key: string, x: Json, cs: bool)
    ensures var r := ApplyAllLive(Fresh(Object([])), CreatePatches("", Object([]), Object([Member(key, x)]), cs), cs);
            && r.status == 0
            && (Meaning(Erase(r.doc)) == Meaning(Object([Member(key, x)])) <==> Undamaged(key))
  {
    var decoded := DecodeInPlace(Encode(key));
    DecodeInPlaceExact(key);
    OneMember(decoded, x);
    OneMember(key, x);
    assert decoded in map[decoded := Meaning(x)];
    hide *;
    OneMemberPatches(key, x, cs);
    AddToEmpty(key, x, cs);
    ApplyOne(Object([]), ComposePatch("add", Join([]), Some(key), Some(x)), cs);
    EraseFresh(Object([]));
    NoTestsCreated("", Object([]), Object([Member(key, x)]), cs);
    NoTestsRefine(Fresh(Object([])), CreatePatches("", Object([]), Object([Member(key, x)]), cs), cs);
  }

  lemma OneMember(key: string, x: Json)
    ensures Meaning(Object([Member(key, x)])) == VObject(map[key := Meaning(x)])
  {
    assert [Member(key, x)][1..] == [];
    assert MapOf([Member(key, x)]) == map[key := Meaning(x)];
  }

  // ----- a test that moves the first member -----

  /** Every key of one list is one of the other. */
  ghost predicate KeysFrom(lms: seq<LiveMember>, ms: seq<Member>) {
    forall i :: 0 <= i < |lms| ==> lms[i].key in KeysOf(ms)
  }

  /** Comparing the object with itself sorts it, and its new head has no prev pointer. */
  lemma ComparedWithItself(ms: seq<Member>, cs: bool, keys: set<string>)
    requires ToldApart(keys, cs) && WellFormedMembers(ms, keys) && HeadMoves(ms, cs)
    ensures CompareJson(Object(ms), Object(ms), cs)
    ensures var r := CompareEffect(Fresh(Object(ms)), Object(ms), cs);
            && r.LiveObject? && r.members != [] && r.tail == NoTail
            && SameValue(Fresh(Object(ms)), r, keys)
            && KeysFrom(r.members, ms)
  {
    var a := Fresh(Object(ms));
    var o := Open(a);
    assert Erase(o) == Object(EraseMembers(o.members)) && Erase(a) == Object(ms);
    assert WellFormed(Object(ms), keys);
    assert Object(ms).members == ms && Object(EraseMembers(o.members)).members == EraseMembers(o.members);
    hide *;
    CompareJsonMeaning(Object(ms), Object(ms), cs, keys);
    CompareEffectKeeps(a, Object(ms), cs, keys);
    ObjectEffectIs(a, o.members, o.tail, ms, cs);
    HeadLosesTail(o.members, o.tail, ms, cs, keys);
    SortedKeys(o.members, cs);
    SameKeysFrom(SortLive(o.members, cs), CompareEffect(a, Object(ms), cs).members, ms);
  }

  lemma SortedKeys(lms: seq<LiveMember>, cs: bool)
    ensures |SortLive(lms, cs)| == |lms| && KeysFrom(SortLive(lms, cs), EraseMembers(lms))
  {
    SortErases(lms, cs);
    Sorting.SortPermutes(EraseMembers(lms), KeyOf, cs);
    var (es, ns) := (EraseMembers(lms), SortLive(lms, cs));
    forall i | 0 <= i < |ns|
      ensures ns[i].key in KeysOf(es)
    {
      assert EraseMembers(ns)[i] in multiset(es) && EraseMembers(ns)[i].key == ns[i].key;
      var j :| 0 <= j < |es| && es[j] == EraseMembers(ns)[i];
    }
  }

  lemma SameKeysFrom(xs: seq<LiveMember>, ys: seq<LiveMember>, ms: seq<Member>)
    requires KeysFrom(xs, ms) && |xs| == |ys| && forall i :: 0 <= i < |ys| ==> ys[i].key == xs[i].key
    ensures KeysFrom(ys, ms)
  {
    hide KeysOf;
    assert forall i :: 0 <= i < |ys| ==> ys[i].key == xs[i].key;
  }

  lemma NothingAppended(doc: Live, key: string, x: Live, cs: bool)
    requires doc.LiveObject? && doc.members != [] && doc.tail == NoTail
    requires FindKey(EraseMembers(doc.members), key, cs).None?
    ensures LiveAddChild(doc, key, x, cs) == LiveApplied(0, doc)
  {
    hide FindKey, EraseMembers;
  }

  lemma AddedAtTop(doc: Live, key: string, x: Live, cs: bool)
    requires Undamaged(key)
    ensures LiveAddPath(doc, Join([key]), x, cs) == LiveAddChild(doc, key, x, cs)
            || LiveAddPath(doc, Join([key]), x, cs).status == LiveAddChild(doc, key, x, cs).status != 0
    ensures Join([key]) != ""
  {
    SplitJoin([key]);
    assert Parent([key]) == [] && Last([key]) == key && Join([]) == "";
    assert Locate(Erase(doc), "", cs) == Some([]);
    hide Join, Encode, DecodeInPlace, Undamaged, Locate, LiveAddChild, Erase;
    DecodeInPlaceExact(key);
  }

  /** Adding a new key to an object without a tail does nothing, and reports success. */
  lemma AddIsLost(doc: Live, key: string, x: Json, cs: bool)
    requires doc.LiveObject? && doc.members != [] && doc.tail == NoTail
    requires FindKey(EraseMembers(doc.members), key, cs).None? && Undamaged(key)
    ensures ApplyLive(doc, ComposePatch("add", Join([]), Some(key), Some(x)), cs) == LiveApplied(0, doc)
  {
    hide ComposePatch, Join, GetMember, Encode, LiveAddPath, LiveAddChild, Undamaged, FindKey, Erase, LiveMove, LiveCopy, LiveTest, LiveDetachPath;
    ComposedFields("add", [], Some(key), Some(x), cs);
    assert [] + [key] == [key];
    NothingAppended(doc, key, Fresh(x), cs);
    AddedAtTop(doc, key, Fresh(x), cs);
  }

  /** Main result: a test of a whole object whose first member sorting moves makes a later addition to it vanish. Both patches succeed. */
  lemma TestLosesMember(ms: seq<Member>, key: string, x: Json, cs: bool, keys: set<string>)
    requires ToldApart(keys, cs) && WellFormedMembers(ms, keys) && HeadMoves(ms, cs)
    requires Undamaged(key) && IsNewKey(ms, key, cs)
    ensures var ps := [ComposePatch("test", Join([]), None, Some(Object(ms))), ComposePatch("add", Join([]), Some(key), Some(x))];
            var r := ApplyAllLive(Fresh(Object(ms)), ps, cs);
            r.status == 0 && Meaning(Erase(r.doc)) == Meaning(Object(ms))
  {
    var (p, q) := (ComposePatch("test", Join([]), None, Some(Object(ms))), ComposePatch("add", Join([]), Some(key), Some(x)));
    var doc := Fresh(Object(ms));
    var r := CompareEffect(doc, Object(ms), cs);
    hide *;
    EraseFresh(Object(ms));
    ComparedWithItself(ms, cs, keys);
    NoSuchKey(ms, r.members, key, cs);
    TwoPatches(doc, p, q, cs);
    SameValueIs(doc, r, keys);
    TestOfWhole(doc, Object(ms), cs);
    AddIsLost(r, key, x, cs);
  }

  ghost predicate IsNewKey(ms: seq<Member>, key: string, cs: bool) {
    forall i :: 0 <= i < |ms| ==> !SameKey(ms[i].key, key, cs)
  }

  lemma NoSuchKey(ms: seq<Member>, lms: seq<LiveMember>, key: string, cs: bool)
    requires IsNewKey(ms, key, cs)
    requires KeysFrom(lms, ms)
    ensures FindKey(EraseMembers(lms), key, cs).None?
  {
    hide SameKey;
    assert forall i :: 0 <= i < |lms| ==> EraseMembers(lms)[i].key == lms[i].key;
  }

  lemma TwoPatches(doc: Live, p: Json, q: Json, cs: bool)
    ensures ApplyAllLive(doc, [p, q], cs)
            == var r := ApplyLive(doc, p, cs); if r.status != 0 then r else ApplyLive(r.doc, q, cs)
  {
    assert [p, q][1..] == [q] && [q][1..] == [];
    var r := ApplyLive(doc, p, cs);
    hide ApplyLive;
    assert ApplyAllLive(ApplyLive(r.doc, q, cs).doc, [], cs) == LiveApplied(0, ApplyLive(r.doc, q, cs).doc);
    assert ApplyAllLive(r.doc, [q], cs) == ApplyLive(r.doc, q, cs);
  }

  /** A test of the whole document. */
  lemma TestOfWhole(doc: Live, value: Json, cs: bool)
    requires CompareJson(Erase(doc), value, cs)
    ensures ApplyLive(doc, ComposePatch("test", Join([]), None, Some(value)), cs) == LiveApplied(0, CompareEffect(doc, value, cs))
  {
    var p := ComposePatch("test", Join([]), None, Some(value));
    hide ComposePatch, GetMember, Encode, Erase, CompareEffect, CompareJson;
    ComposedFields("test", [], None, Some(value), cs);
    assert Locate(Erase(doc), "", cs) == Some([]);
    ApplyLiveTest(doc, p, cs);
    hide ApplyLive;
  }

  /** For example an addition of "c" to {"b": 1, "a": 2}. */
  lemma TestLosesC(cs: bool)
    ensures var ms := [Member("b", Number(1)), Member("a", Number(2))];
            var ps := [ComposePatch("test", Join([]), None, Some(Object(ms))), ComposePatch("add", Join([]), Some("c"), Some(Number(3)))];
            var r := ApplyAllLive(Fresh(Object(ms)), ps, cs);
            r.status == 0 && Meaning(Erase(r.doc)) == Meaning(Object(ms))
  {
    hide *;
    var (ms, keys) := ([Member("b", Number(1)), Member("a", Number(2))], {"a", "b", "c"});
    BackwardsPair(cs, keys);
    NewKeyC(ms, cs);
    TestLosesMember(ms, "c", Number(3), cs, keys);
  }

  lemma NewKeyC(ms: seq<Member>, cs: bool)
    requires ms == [Member("b", Number(1)), Member("a", Number(2))]
    ensures Undamaged("c") && IsNewKey(ms, "c", cs)
  {
    UndamagedPlain("c");
    assert Lower("c")[0] == 'c' && Lower("b")[0] == 'b' && Lower("a")[0] == 'a';
    hide Undamaged, Lower;
  }
}
