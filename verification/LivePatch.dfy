/** apply_patch on documents with the prev pointers of their member lists, and when it does what RFC 6902 says. */
module LivePatch {
  import opened Text
  import opened Json
  import opened JsonPointer
  import opened JsonOrder
  import opened JsonPatch
  import opened JsonPatchRefinement
  import opened JsonPatchErrors
  import opened JsonTails
  import opened SortTails
  import Rfc = Rfc6902

  // ----- apply_patch -----

  /** detach_path. */
  function LiveDetachPath(doc: Live, path: string, cs: bool): (r: LiveDetached)
    ensures EraseDetached(r) == DetachPath(Erase(doc), path, cs)
  {
    match LastSlash(path)
    case None => LiveNotFound
    case Some(n) =>
      (match Locate(Erase(doc), path[..n], cs)
       case None => LiveNotFound
       case Some(loc) =>
         (match LiveDetachChild(LiveAt(doc, loc), DecodeInPlace(path[n + 1..]))
          case LiveNotFound => LiveNotFound
          case LiveDetached(item, parent) => LiveDetached(item, LiveUpdate(doc, loc, parent))))
  }

  /** Adding a child: the end of apply_patch. */
  function LiveAddPath(doc: Live, path: string, value: Live, cs: bool): LiveApplied {
    match LastSlash(path)
    case None => LiveApplied(9, doc)
    case Some(n) =>
      (match Locate(Erase(doc), path[..n], cs)
       case None => LiveApplied(9, doc)
       case Some(loc) =>
         var r := LiveAddChild(LiveAt(doc, loc), DecodeInPlace(path[n + 1..]), value, cs);
         if r.status == 0 then LiveApplied(0, LiveUpdate(doc, loc, r.doc)) else LiveApplied(r.status, doc))
  }

  /** The pointer of the object that a child is added to is right by then. */
  predicate AddPathReady(doc: Live, path: string, cs: bool) {
    match LastSlash(path)
    case None => true
    case Some(n) =>
      (match Locate(Erase(doc), path[..n], cs)
       case None => true
       case Some(loc) => AddReady(LiveAt(doc, loc), DecodeInPlace(path[n + 1..]), cs))
  }

  /** apply_patch. Values are duplicated before they are added, and moved items keep their pointers. */
  function ApplyLive(doc: Live, patch: Json, cs: bool): LiveApplied {
    var path := GetMember(patch, "path", cs);
    var op := GetMember(patch, "op", cs);
    if !(path.Some? && path.value.String?) then LiveApplied(2, doc)
    else if !(op.Some? && op.value.String?) then LiveApplied(3, doc)
    else if op.value.s == "test" then LiveTest(doc, path.value.s, GetMember(patch, "value", cs), cs)
    else if op.value.s == "remove" then
      if path.value.s == "" then LiveApplied(0, Fresh(Invalid))
      else
        match LiveDetachPath(doc, path.value.s, cs)
        case LiveNotFound => LiveApplied(13, doc)
        case LiveDetached(_, rest) => LiveApplied(0, rest)
    else if op.value.s == "replace" || op.value.s == "add" then
      LiveWithValue(doc, op.value.s == "replace", path.value.s, GetMember(patch, "value", cs), cs)
    else if op.value.s == "move" then LiveMove(doc, path.value.s, GetMember(patch, "from", cs), cs)
    else if op.value.s == "copy" then LiveCopy(doc, path.value.s, GetMember(patch, "from", cs), cs)
    else LiveApplied(3, doc)
  }

  function LiveTest(doc: Live, path: string, value: Option<Json>, cs: bool): LiveApplied {
    match (Locate(Erase(doc), path, cs), value)
    case (Some(loc), Some(v)) =>
      LiveApplied(if CompareJson(At(Erase(doc), loc), v, cs) then 0 else 1, LiveUpdate(doc, loc, CompareEffect(LiveAt(doc, loc), v, cs)))
    case _ => LiveApplied(1, doc)
  }

  function LiveWithValue(doc: Live, replace: bool, path: string, value: Option<Json>, cs: bool): LiveApplied {
    if path == "" then
      match value
      case None => LiveApplied(7, doc)
      case Some(v) => LiveApplied(0, Fresh(v))
    else if !replace then
      match value
      case None => LiveApplied(7, doc)
      case Some(v) => LiveAddPath(doc, path, Fresh(v), cs)
    else
      match LiveDetachPath(doc, path, cs)
      case LiveNotFound => LiveApplied(13, doc)
      case LiveDetached(_, rest) =>
        match value
        case None => LiveApplied(7, rest)
        case Some(v) => LiveAddPath(rest, path, Fresh(v), cs)
  }

  function LiveMove(doc: Live, path: string, from: Option<Json>, cs: bool): LiveApplied {
    if from.None? then LiveApplied(4, doc)
    else if !from.value.String? then LiveApplied(5, doc)
    else
      match LiveDetachPath(doc, from.value.s, cs)
      case LiveNotFound => LiveApplied(5, doc)
      case LiveDetached(item, rest) => LiveAddPath(rest, path, item, cs)
  }

  function LiveCopy(doc: Live, path: string, from: Option<Json>, cs: bool): LiveApplied {
    if from.None? then LiveApplied(4, doc)
    else if !from.value.String? then LiveApplied(5, doc)
    else
      match Locate(Erase(doc), from.value.s, cs)
      case None => LiveApplied(5, doc)
      case Some(loc) => LiveAddPath(doc, path, Fresh(At(Erase(doc), loc)), cs)
  }

  predicate IsTest(patch: Json, cs: bool) {
    GetMember(patch, "op", cs) == Some(String("test"))
  }

  predicate WithValueReady(doc: Live, replace: bool, path: string, value: Option<Json>, cs: bool) {
    path != "" && value.Some? ==>
      if !replace then AddPathReady(doc, path, cs)
      else match LiveDetachPath(doc, path, cs)
           case LiveNotFound => true
           case LiveDetached(_, rest) => AddPathReady(rest, path, cs)
  }

  predicate MoveReady(doc: Live, path: string, from: Option<Json>, cs: bool) {
    from.Some? && from.value.String? ==>
      match LiveDetachPath(doc, from.value.s, cs)
      case LiveNotFound => true
      case LiveDetached(_, rest) => AddPathReady(rest, path, cs)
  }

  predicate CopyReady(doc: Live, path: string, from: Option<Json>, cs: bool) {
    from.Some? && from.value.String? && Locate(Erase(doc), from.value.s, cs).Some? ==> AddPathReady(doc, path, cs)
  }

  /** The object that the patch appends a member to, if it appends one, has its pointer right by then. */
  predicate ReadyFor(doc: Live, patch: Json, cs: bool) {
    var (path, op) := (GetMember(patch, "path", cs), GetMember(patch, "op", cs));
    if !(path.Some? && path.value.String? && op.Some? && op.value.String?) then true
    else if op.value.s == "add" || op.value.s == "replace" then
      WithValueReady(doc, op.value.s == "replace", path.value.s, GetMember(patch, "value", cs), cs)
    else if op.value.s == "move" then MoveReady(doc, path.value.s, GetMember(patch, "from", cs), cs)
    else if op.value.s == "copy" then CopyReady(doc, path.value.s, GetMember(patch, "from", cs), cs)
    else true
  }

  // ----- every step but a test -----

  lemma {:induction false} AtUpdate(node: Json, path: Path, x: Json)
    requires ValidPath(node, path)
    ensures ValidPath(Update(node, path, x), path) && At(Update(node, path, x), path) == x
  {
    if path != [] {
      AtUpdate(Child(node, path[0]), path[1..], x);
    }
  }

  /** Adding by path does what it is for exactly when the pointer is right. */
  lemma {:induction false} AddPathExact(doc: Live, path: string, value: Live, cs: bool)
    ensures var (r, s) := (LiveAddPath(doc, path, value, cs), AddPath(Erase(doc), path, Erase(value), cs));
            r.status == s.status && (Erase(r.doc) == s.doc <==> AddPathReady(doc, path, cs))
  {
    hide Locate, DecodeInPlace, LiveAddChild, AddChild, AddReady, LiveAt, LiveUpdate, Update, At, Erase;
    var n := LastSlash(path);
    if n.Some? && Locate(Erase(doc), path[..n.value], cs).Some? {
      var loc := Locate(Erase(doc), path[..n.value], cs).value;
      var (parent, token) := (LiveAt(doc, loc), DecodeInPlace(path[n.value + 1..]));
      AddChildExact(parent, token, value, cs);
      AtUpdate(Erase(doc), loc, Erase(LiveAddChild(parent, token, value, cs).doc));
      AtUpdate(Erase(doc), loc, AddChild(Erase(parent), token, Erase(value), cs).doc);
      AddFailsAlone(parent, token, value, cs);
    }
  }

  lemma {:induction false} AddFailsAlone(parent: Live, token: string, value: Live, cs: bool)
    ensures AddChild(Erase(parent), token, Erase(value), cs).status != 0 ==> AddReady(parent, token, cs)
  {
    hide DecodeIndex, LiveWithout;
  }

  /** The outcome is that of a document with right pointers exactly in the given case. */
  ghost predicate Agrees(r: LiveApplied, s: Applied, ready: bool) {
    r.status == s.status && (Erase(r.doc) == s.doc <==> ready)
  }

  lemma {:induction false} WithValueExact(doc: Live, replace: bool, path: string, value: Option<Json>, cs: bool)
    ensures Agrees(LiveWithValue(doc, replace, path, value, cs), ApplyWithValue(Erase(doc), replace, path, value, cs),
                   WithValueReady(doc, replace, path, value, cs))
  {
    if value.Some? {
      EraseFresh(value.value);
    }
    hide LiveAddPath, AddPath, AddPathReady, LiveDetachPath, DetachPath, Erase;
    if path != "" && value.Some? {
      AddPathExact(doc, path, Fresh(value.value), cs);
      var d := LiveDetachPath(doc, path, cs);
      if d.LiveDetached? {
        AddPathExact(d.rest, path, Fresh(value.value), cs);
      }
    }
  }

  lemma {:induction false} MoveExact(doc: Live, path: string, from: Option<Json>, cs: bool)
    ensures Agrees(LiveMove(doc, path, from, cs), ApplyMove(Erase(doc), path, from, cs), MoveReady(doc, path, from, cs))
  {
    hide LiveAddPath, AddPath, AddPathReady, LiveDetachPath, DetachPath, Erase;
    if from.Some? && from.value.String? {
      var d := LiveDetachPath(doc, from.value.s, cs);
      if d.LiveDetached? {
        AddPathExact(d.rest, path, d.item, cs);
      }
    }
  }

  lemma {:induction false} CopyExact(doc: Live, path: string, from: Option<Json>, cs: bool)
    ensures Agrees(LiveCopy(doc, path, from, cs), ApplyCopy(Erase(doc), path, from, cs), CopyReady(doc, path, from, cs))
  {
    hide LiveAddPath, AddPath, AddPathReady, Locate, At, Erase;
    if from.Some? && from.value.String? && Locate(Erase(doc), from.value.s, cs).Some? {
      var item := At(Erase(doc), Locate(Erase(doc), from.value.s, cs).value);
      EraseFresh(item);
      AddPathExact(doc, path, Fresh(item), cs);
    }
  }

  lemma {:induction false} RemoveExact(doc: Live, path: string, cs: bool)
    ensures var (d, e) := (LiveDetachPath(doc, path, cs), DetachPath(Erase(doc), path, cs));
            (d.LiveNotFound? <==> e.NotFound?) && (d.LiveDetached? ==> e == Detached(Erase(d.item), Erase(d.rest)))
  {
    hide LiveDetachPath, DetachPath, Erase;
  }

  /** Main result: on any document, whatever its pointers are, a patch that is no test returns what it would return with right pointers,
      and leaves the same tree exactly when the pointer of the object that it appends to is right. */
  lemma {:induction false} ApplyLiveExact(doc: Live, patch: Json, cs: bool)
    requires !IsTest(patch, cs)
    ensures Agrees(ApplyLive(doc, patch, cs), ApplyPatch(Erase(doc), patch, cs), ReadyFor(doc, patch, cs))
  {
    EraseFresh(Invalid);
    var (path, op) := (GetMember(patch, "path", cs), GetMember(patch, "op", cs));
    hide LiveWithValue, LiveMove, LiveCopy, LiveTest, ApplyWithValue, ApplyMove, ApplyCopy, ApplyTest, WithValueReady, MoveReady, CopyReady;
    hide GetMember, LiveDetachPath, DetachPath, Erase;
    if path.Some? && path.value.String? && op.Some? && op.value.String? {
      match op.value.s {
        case "remove" => RemoveExact(doc, path.value.s, cs);
        case "move" => MoveExact(doc, path.value.s, GetMember(patch, "from", cs), cs);
        case "copy" => CopyExact(doc, path.value.s, GetMember(patch, "from", cs), cs);
        case _ => WithValueExact(doc, op.value.s == "replace", path.value.s, GetMember(patch, "value", cs), cs);
      }
    }
  }

  lemma {:induction false} EraseFresh(j: Json)
    ensures Erase(Fresh(j)) == j && Settled(Fresh(j))
  {
  }

  // ----- documents whose pointers are all right -----

  lemma {:induction false} SettledDetachPath(doc: Live, path: string, cs: bool)
    requires Settled(doc) && LiveDetachPath(doc, path, cs).LiveDetached?
    ensures Settled(LiveDetachPath(doc, path, cs).item) && Settled(LiveDetachPath(doc, path, cs).rest)
  {
    hide Locate, DecodeInPlace, LiveDetachChild, LiveAt, LiveUpdate, Erase, Settled;
    var n := LastSlash(path).value;
    var loc := Locate(Erase(doc), path[..n], cs).value;
    var d := LiveDetachChild(LiveAt(doc, loc), DecodeInPlace(path[n + 1..]));
    SettledAt(doc, loc);
    SettledDetach(LiveAt(doc, loc), DecodeInPlace(path[n + 1..]));
    SettledUpdate(doc, loc, d.rest);
  }

  lemma {:induction false} SettledAddPath(doc: Live, path: string, value: Live, cs: bool)
    requires Settled(doc) && Settled(value)
    ensures AddPathReady(doc, path, cs) && Settled(LiveAddPath(doc, path, value, cs).doc)
  {
    hide Locate, DecodeInPlace, LiveAddChild, LiveAt, LiveUpdate, Erase, Settled, AddReady;
    var n := LastSlash(path);
    if n.Some? && Locate(Erase(doc), path[..n.value], cs).Some? {
      var loc := Locate(Erase(doc), path[..n.value], cs).value;
      var token := DecodeInPlace(path[n.value + 1..]);
      SettledAt(doc, loc);
      SettledAdd(LiveAt(doc, loc), token, value, cs);
      SettledUpdate(doc, loc, LiveAddChild(LiveAt(doc, loc), token, value, cs).doc);
    }
  }

  lemma {:induction false} SettledWithValue(doc: Live, replace: bool, path: string, value: Option<Json>, cs: bool)
    requires Settled(doc)
    ensures WithValueReady(doc, replace, path, value, cs) && Settled(LiveWithValue(doc, replace, path, value, cs).doc)
  {
    if value.Some? {
      EraseFresh(value.value);
    }
    hide LiveAddPath, AddPathReady, LiveDetachPath, Settled;
    if path != "" {
      var d := LiveDetachPath(doc, path, cs);
      if d.LiveDetached? {
        SettledDetachPath(doc, path, cs);
      }
      if value.Some? {
        SettledAddPath(doc, path, Fresh(value.value), cs);
        if d.LiveDetached? {
          SettledAddPath(d.rest, path, Fresh(value.value), cs);
        }
      }
    }
  }

  lemma {:induction false} SettledMove(doc: Live, path: string, from: Option<Json>, cs: bool)
    requires Settled(doc)
    ensures MoveReady(doc, path, from, cs) && Settled(LiveMove(doc, path, from, cs).doc)
  {
    hide LiveAddPath, AddPathReady, LiveDetachPath, Settled;
    if from.Some? && from.value.String? {
      var d := LiveDetachPath(doc, from.value.s, cs);
      if d.LiveDetached? {
        SettledDetachPath(doc, from.value.s, cs);
        SettledAddPath(d.rest, path, d.item, cs);
      }
    }
  }

  lemma {:induction false} SettledCopy(doc: Live, path: string, from: Option<Json>, cs: bool)
    requires Settled(doc)
    ensures CopyReady(doc, path, from, cs) && Settled(LiveCopy(doc, path, from, cs).doc)
  {
    hide LiveAddPath, AddPathReady, Locate, At, Settled, Erase;
    if from.Some? && from.value.String? && Locate(Erase(doc), from.value.s, cs).Some? {
      var item := At(Erase(doc), Locate(Erase(doc), from.value.s, cs).value);
      EraseFresh(item);
      SettledAddPath(doc, path, Fresh(item), cs);
    }
  }

  /** Every patch but a test finds right pointers right and leaves them right. */
  lemma {:induction false} ApplyLiveSettled(doc: Live, patch: Json, cs: bool)
    requires Settled(doc) && !IsTest(patch, cs)
    ensures ReadyFor(doc, patch, cs) && Settled(ApplyLive(doc, patch, cs).doc)
  {
    EraseFresh(Invalid);
    var (path, op) := (GetMember(patch, "path", cs), GetMember(patch, "op", cs));
    hide LiveWithValue, LiveMove, LiveCopy, LiveTest, WithValueReady, MoveReady, CopyReady;
    hide GetMember, LiveDetachPath, Settled;
    if path.Some? && path.value.String? && op.Some? && op.value.String? {
      SettledWithValue(doc, op.value.s == "replace", path.value.s, GetMember(patch, "value", cs), cs);
      SettledMove(doc, path.value.s, GetMember(patch, "from", cs), cs);
      SettledCopy(doc, path.value.s, GetMember(patch, "from", cs), cs);
      if LiveDetachPath(doc, path.value.s, cs).LiveDetached? {
        SettledDetachPath(doc, path.value.s, cs);
      }
    }
  }

  // ----- tests -----

  /** Where a test looks. */
  function TestedAt(doc: Live, patch: Json, cs: bool): Option<Path> {
    match GetMember(patch, "path", cs)
    case Some(String(path)) => Locate(Erase(doc), path, cs)
    case _ => None
  }

  lemma {:induction false} ApplyLiveTest(doc: Live, patch: Json, cs: bool)
    requires IsTest(patch, cs)
    ensures ApplyLive(doc, patch, cs).status == ApplyPatch(Erase(doc), patch, cs).status && ApplyPatch(Erase(doc), patch, cs).doc == Erase(doc)
    ensures match (TestedAt(doc, patch, cs), GetMember(patch, "value", cs))
            case (Some(loc), Some(v)) =>
              && ValidPath(Erase(doc), loc)
              && ApplyLive(doc, patch, cs).doc == LiveUpdate(doc, loc, CompareEffect(LiveAt(doc, loc), v, cs))
              && (ApplyLive(doc, patch, cs).status == 0 <==> CompareJson(At(Erase(doc), loc), v, cs))
            case _ => ApplyLive(doc, patch, cs).doc == doc && ApplyLive(doc, patch, cs).status != 0
  {
    hide LiveWithValue, LiveMove, LiveCopy, ApplyWithValue, ApplyMove, ApplyCopy, GetMember, LiveDetachPath, DetachPath, Locate, At, Erase;
    hide LiveUpdate, LiveAt, CompareEffect, CompareJson;
  }

  lemma {:induction false} WellFormedAt(node: Json, path: Path, keys: set<string>)
    requires WellFormed(node, keys) && ValidPath(node, path)
    ensures WellFormed(At(node, path), keys)
  {
    if path != [] {
      WellFormedAt(Child(node, path[0]), path[1..], keys);
    }
  }

  lemma {:induction false} SameChild(node: Json, i: nat, x: Json, keys: set<string>)
    requires WellFormed(node, keys) && i < Arity(node) && WellFormed(x, keys) && Meaning(x) == Meaning(Child(node, i))
    ensures WellFormed(WithChild(node, i, x), keys) && Meaning(WithChild(node, i, x)) == Meaning(node)
  {
    match node {
      case Array(items) =>
        assert MeaningAll(items[i := x]) == MeaningAll(items);
      case Object(ms) => SameMember(ms, i, x, keys);
      case _ =>
    }
  }

  lemma {:induction false} SameMember(ms: seq<Member>, i: nat, x: Json, keys: set<string>)
    requires WellFormedMembers(ms, keys) && i < |ms| && WellFormed(x, keys) && Meaning(x) == Meaning(ms[i].value)
    ensures WellFormedMembers(ms[i := Member(ms[i].key, x)], keys) && MapOf(ms[i := Member(ms[i].key, x)]) == MapOf(ms)
  {
    hide Meaning, WellFormed, MapOf;
    MapOfUpdate(ms, i, x);
    MapOfUnique(ms);
  }

  /** Replacing a node by one that stands for the same value. */
  lemma {:induction false} SameUpdate(node: Json, path: Path, x: Json, keys: set<string>)
    requires WellFormed(node, keys) && ValidPath(node, path) && WellFormed(x, keys) && Meaning(x) == Meaning(At(node, path))
    ensures WellFormed(Update(node, path, x), keys) && Meaning(Update(node, path, x)) == Meaning(node)
  {
    if path != [] {
      WellFormedAt(node, [path[0]], keys);
      assert At(node, [path[0]]) == Child(node, path[0]);
      SameUpdate(Child(node, path[0]), path[1..], x, keys);
      hide Meaning, WellFormed;
      SameChild(node, path[0], Update(Child(node, path[0]), path[1..], x), keys);
    }
  }

  /** A test leaves the value of the document alone. */
  lemma {:induction false} TestKeeps(doc: Live, patch: Json, cs: bool, keys: set<string>)
    requires IsTest(patch, cs) && ToldApart(keys, cs) && WellFormed(Erase(doc), keys)
    ensures WellFormed(Erase(ApplyLive(doc, patch, cs).doc), keys) && Meaning(Erase(ApplyLive(doc, patch, cs).doc)) == Meaning(Erase(doc))
  {
    hide *;
    ApplyLiveTest(doc, patch, cs);
    match (TestedAt(doc, patch, cs), GetMember(patch, "value", cs)) {
      case (Some(loc), Some(v)) =>
        WellFormedAt(Erase(doc), loc, keys);
        CompareEffectKeeps(LiveAt(doc, loc), v, cs, keys);
        SameValueIs(LiveAt(doc, loc), CompareEffect(LiveAt(doc, loc), v, cs), keys);
        SameUpdate(Erase(doc), loc, Erase(CompareEffect(LiveAt(doc, loc), v, cs)), keys);
      case _ =>
    }
  }

  lemma {:induction false} SameValueIs(x: Live, y: Live, keys: set<string>)
    requires SameValue(x, y, keys)
    ensures WellFormed(Erase(y), keys) && Meaning(Erase(x)) == Meaning(Erase(y))
  {
  }

  /** A test that succeeds leaves all pointers right exactly when sorting leaves the first and the last member of every object that it
      has looked at in place. */
  lemma {:induction false} TestSettled(doc: Live, patch: Json, cs: bool, keys: set<string>)
    requires IsTest(patch, cs) && ToldApart(keys, cs) && WellFormed(Erase(doc), keys) && Settled(doc)
    requires ApplyLive(doc, patch, cs).status == 0
    ensures TestedAt(doc, patch, cs).Some? && ValidPath(Erase(doc), TestedAt(doc, patch, cs).value)
    ensures Settled(ApplyLive(doc, patch, cs).doc) <==> EndsKeptThroughout(At(Erase(doc), TestedAt(doc, patch, cs).value), cs)
  {
    hide *;
    ApplyLiveTest(doc, patch, cs);
    match (TestedAt(doc, patch, cs), GetMember(patch, "value", cs)) {
      case (Some(loc), Some(v)) =>
        WellFormedAt(Erase(doc), loc, keys);
        SettledAt(doc, loc);
        CompareEffectSettled(LiveAt(doc, loc), v, cs, keys);
        SettledUpdate(doc, loc, CompareEffect(LiveAt(doc, loc), v, cs));
      case _ =>
    }
  }

  // ----- what a lost member means -----

  lemma {:induction false} MapOfSize(ms: seq<Member>)
    ensures |MapOf(ms)| <= |ms| && (UniqueKeys(ms) ==> |MapOf(ms)| == |ms|)
  {
    if ms != [] {
      var t := ms[1..];
      MapOfSize(t);
      assert MapOf(ms) == MapOf(t)[ms[0].key := Meaning(ms[0].value)];
      if UniqueKeys(ms) {
        TailMembers(ms, true, {});
        assert forall i :: 0 <= i < |t| ==> t[i] == ms[i + 1];
      }
    }
  }

  /** An object with fewer members stands for another value. */
  lemma {:induction false} FewerMembers(x: Json, y: Json, keys: set<string>)
    requires x.Object? && y.Object? && |x.members| < |y.members| && WellFormed(y, keys)
    ensures Meaning(x) != Meaning(y)
  {
    MapOfSize(x.members);
    MapOfSize(y.members);
    hide MapOf;
  }

  lemma {:induction false} ChildMeaning(node: Json, i: nat, x: Json, y: Json, keys: set<string>)
    requires WellFormed(node, keys) && i < Arity(node) && Meaning(WithChild(node, i, x)) == Meaning(WithChild(node, i, y))
    ensures Meaning(x) == Meaning(y)
  {
    match node {
      case Array(items) =>
        assert MeaningAll(items[i := x])[i] == Meaning(x) && MeaningAll(items[i := y])[i] == Meaning(y);
      case Object(ms) =>
        MapOfUpdate(ms, i, x);
        MapOfUpdate(ms, i, y);
        assert MapOf(ms)[ms[i].key := Meaning(x)][ms[i].key] == Meaning(x);
        assert MapOf(ms)[ms[i].key := Meaning(y)][ms[i].key] == Meaning(y);
      case _ =>
    }
  }

  /** Putting different values at one place of a document gives different documents. */
  lemma {:induction false} UpdateMeaning(node: Json, path: Path, x: Json, y: Json, keys: set<string>)
    requires WellFormed(node, keys) && ValidPath(node, path) && Meaning(Update(node, path, x)) == Meaning(Update(node, path, y))
    ensures Meaning(x) == Meaning(y)
  {
    if path != [] {
      WellFormedAt(node, [path[0]], keys);
      assert At(node, [path[0]]) == Child(node, path[0]);
      var c := Child(node, path[0]);
      hide Meaning, WellFormed;
      ChildMeaning(node, path[0], Update(c, path[1..], x), Update(c, path[1..], y), keys);
      UpdateMeaning(c, path[1..], x, y, keys);
    }
  }

  /** An append behind a wrong pointer leaves fewer members. */
  lemma {:induction false} LostMember(parent: Live, token: string, value: Live, cs: bool)
    requires !AddReady(parent, token, cs)
    ensures var (r, s) := (LiveAddChild(parent, token, value, cs), AddChild(Erase(parent), token, Erase(value), cs));
            && r.status == s.status == 0 && Erase(r.doc).Object? && s.doc.Object?
            && |Erase(r.doc).members| < |s.doc.members|
  {
    var ms := Open(parent).members;
    var (kept, t) := LiveWithout(ms, Open(parent).tail, token, cs);
    var m := LiveMember(token, value);
    assert Erase(parent) == Object(EraseMembers(ms));
    assert LiveAddChild(parent, token, value, cs) == LiveApplied(0, Append(kept, t, m));
    assert AddChild(Object(EraseMembers(ms)), token, Erase(value), cs)
           == Applied(0, Object(EraseMembers(kept) + [Member(token, Erase(value))]));
    assert !Ready(|kept|, t);
    hide *;
    AppendLoses(kept, t, m);
    EraseObject(Append(kept, t, m));
    assert |EraseMembers(kept)| == |kept|;
  }

  lemma {:induction false} WellFormedFromUpdate(node: Json, path: Path, x: Json, keys: set<string>)
    requires ValidPath(node, path) && WellFormed(Update(node, path, x), keys)
    ensures WellFormed(x, keys)
  {
    AtUpdate(node, path, x);
    WellFormedAt(Update(node, path, x), path, keys);
  }

  /** The parent that lost a member, as it is and as it should be. */
  lemma {:induction false} LostPath(doc: Live, path: string, value: Live, cs: bool) returns (loc: Path, x: Live, y: Json)
    requires !AddPathReady(doc, path, cs)
    ensures ValidPath(Erase(doc), loc) && Erase(x).Object? && y.Object? && |Erase(x).members| < |y.members|
    ensures Erase(LiveAddPath(doc, path, value, cs).doc) == Update(Erase(doc), loc, Erase(x))
    ensures AddPath(Erase(doc), path, Erase(value), cs).doc == Update(Erase(doc), loc, y)
  {
    hide Locate, DecodeInPlace, LiveAddChild, AddChild, AddReady, LiveAt, Update, At, Erase;
    var n := LastSlash(path).value;
    loc := Locate(Erase(doc), path[..n], cs).value;
    var (parent, token) := (LiveAt(doc, loc), DecodeInPlace(path[n + 1..]));
    LostMember(parent, token, value, cs);
    x, y := LiveAddChild(parent, token, value, cs).doc, AddChild(Erase(parent), token, Erase(value), cs).doc;
  }

  /** Adding by path gives the value it should give exactly when the pointer is right. */
  lemma {:induction false} AddPathMeaning(doc: Live, path: string, value: Live, cs: bool, keys: set<string>)
    requires WellFormed(Erase(doc), keys)
    requires var s := AddPath(Erase(doc), path, Erase(value), cs); s.status == 0 && WellFormed(s.doc, keys)
    ensures Meaning(Erase(LiveAddPath(doc, path, value, cs).doc)) == Meaning(AddPath(Erase(doc), path, Erase(value), cs).doc)
            <==> AddPathReady(doc, path, cs)
  {
    hide *;
    AddPathExact(doc, path, value, cs);
    if !AddPathReady(doc, path, cs) {
      var loc, x, y := LostPath(doc, path, value, cs);
      WellFormedFromUpdate(Erase(doc), loc, y, keys);
      FewerMembers(Erase(x), y, keys);
      if Meaning(Update(Erase(doc), loc, Erase(x))) == Meaning(Update(Erase(doc), loc, y)) {
        UpdateMeaning(Erase(doc), loc, Erase(x), y, keys);
      }
    }
  }

  lemma {:induction false} WellFormedWith(node: Json, i: nat, x: Json, keys: set<string>)
    requires WellFormed(node, keys) && i < Arity(node) && WellFormed(x, keys)
    ensures WellFormed(Child(node, i), keys) && WellFormed(WithChild(node, i, x), keys)
  {
    match node {
      case Array(items) =>
      case Object(ms) => UpdateUnique(ms, i, x);
      case _ =>
    }
  }

  lemma {:induction false} WellFormedUpdate(node: Json, path: Path, x: Json, keys: set<string>)
    requires WellFormed(node, keys) && ValidPath(node, path) && WellFormed(x, keys)
    ensures WellFormed(Update(node, path, x), keys)
  {
    if path != [] {
      hide WellFormed;
      WellFormedWith(node, path[0], x, keys);
      WellFormedUpdate(Child(node, path[0]), path[1..], x, keys);
      WellFormedWith(node, path[0], Update(Child(node, path[0]), path[1..], x), keys);
    }
  }

  lemma {:induction false} WellFormedDetachChild(parent: Json, token: string, keys: set<string>)
    requires WellFormed(parent, keys) && DetachChild(parent, token).Detached?
    ensures WellFormed(DetachChild(parent, token).rest, keys) && WellFormed(DetachChild(parent, token).item, keys)
  {
    hide DecodeIndex, MapOf;
    match parent {
      case Object(ms) => RemoveMember(ms, FindKey(ms, token, false).value, keys);
      case _ =>
    }
  }

  lemma {:induction false} WellFormedDetach(doc: Json, path: string, cs: bool, keys: set<string>)
    requires WellFormed(doc, keys) && DetachPath(doc, path, cs).Detached?
    ensures WellFormed(DetachPath(doc, path, cs).rest, keys) && WellFormed(DetachPath(doc, path, cs).item, keys)
  {
    hide Locate, DecodeInPlace, DetachChild, At, Update, WellFormed;
    var n := LastSlash(path).value;
    var (loc, token) := (Locate(doc, path[..n], cs).value, DecodeInPlace(path[n + 1..]));
    WellFormedAt(doc, loc, keys);
    WellFormedDetachChild(At(doc, loc), token, keys);
    WellFormedUpdate(doc, loc, DetachChild(At(doc, loc), token).rest, keys);
  }

  /** The value of the outcome is that of a document with right pointers exactly in the given case. */
  ghost predicate MeansTheSame(r: LiveApplied, s: Applied, ready: bool, keys: set<string>) {
    s.status == 0 && WellFormed(s.doc, keys) ==> (Meaning(Erase(r.doc)) == Meaning(s.doc) <==> ready)
  }

  lemma {:induction false} AddPathSame(doc: Live, path: string, value: Live, cs: bool, keys: set<string>)
    requires WellFormed(Erase(doc), keys)
    ensures MeansTheSame(LiveAddPath(doc, path, value, cs), AddPath(Erase(doc), path, Erase(value), cs), AddPathReady(doc, path, cs), keys)
  {
    var s := AddPath(Erase(doc), path, Erase(value), cs);
    hide LiveAddPath, AddPath, AddPathReady, Erase, Meaning, WellFormed;
    if s.status == 0 && WellFormed(s.doc, keys) {
      AddPathMeaning(doc, path, value, cs, keys);
    }
  }

  lemma {:induction false} WithValueMeaning(doc: Live, replace: bool, path: string, value: Option<Json>, cs: bool, keys: set<string>)
    requires WellFormed(Erase(doc), keys)
    ensures MeansTheSame(LiveWithValue(doc, replace, path, value, cs), ApplyWithValue(Erase(doc), replace, path, value, cs),
                         WithValueReady(doc, replace, path, value, cs), keys)
  {
    if value.Some? {
      EraseFresh(value.value);
    }
    hide LiveAddPath, AddPath, AddPathReady, LiveDetachPath, DetachPath, Erase, Meaning, WellFormed;
    if path != "" && value.Some? {
      AddPathSame(doc, path, Fresh(value.value), cs, keys);
      var d := LiveDetachPath(doc, path, cs);
      if d.LiveDetached? {
        WellFormedDetach(Erase(doc), path, cs, keys);
        AddPathSame(d.rest, path, Fresh(value.value), cs, keys);
      }
    }
  }

  lemma {:induction false} MoveMeaning(doc: Live, path: string, from: Option<Json>, cs: bool, keys: set<string>)
    requires WellFormed(Erase(doc), keys)
    ensures MeansTheSame(LiveMove(doc, path, from, cs), ApplyMove(Erase(doc), path, from, cs), MoveReady(doc, path, from, cs), keys)
  {
    hide LiveAddPath, AddPath, AddPathReady, LiveDetachPath, DetachPath, Erase, Meaning, WellFormed;
    if from.Some? && from.value.String? {
      var d := LiveDetachPath(doc, from.value.s, cs);
      if d.LiveDetached? {
        WellFormedDetach(Erase(doc), from.value.s, cs, keys);
        AddPathSame(d.rest, path, d.item, cs, keys);
      }
    }
  }

  lemma {:induction false} CopyMeaning(doc: Live, path: string, from: Option<Json>, cs: bool, keys: set<string>)
    requires WellFormed(Erase(doc), keys)
    ensures MeansTheSame(LiveCopy(doc, path, from, cs), ApplyCopy(Erase(doc), path, from, cs), CopyReady(doc, path, from, cs), keys)
  {
    hide LiveAddPath, AddPath, AddPathReady, Locate, At, Erase, Meaning, WellFormed;
    if from.Some? && from.value.String? && Locate(Erase(doc), from.value.s, cs).Some? {
      var item := At(Erase(doc), Locate(Erase(doc), from.value.s, cs).value);
      EraseFresh(item);
      AddPathSame(doc, path, Fresh(item), cs, keys);
    }
  }

  lemma {:induction false} ApplyLiveMeaning(doc: Live, patch: Json, cs: bool, keys: set<string>)
    requires !IsTest(patch, cs) && WellFormed(Erase(doc), keys)
    ensures MeansTheSame(ApplyLive(doc, patch, cs), ApplyPatch(Erase(doc), patch, cs), ReadyFor(doc, patch, cs), keys)
  {
    EraseFresh(Invalid);
    var (path, op) := (GetMember(patch, "path", cs), GetMember(patch, "op", cs));
    hide LiveWithValue, LiveMove, LiveCopy, LiveTest, ApplyWithValue, ApplyMove, ApplyCopy, ApplyTest, WithValueReady, MoveReady, CopyReady;
    hide GetMember, LiveDetachPath, DetachPath, Erase, Meaning, WellFormed;
    if path.Some? && path.value.String? && op.Some? && op.value.String? {
      WithValueMeaning(doc, op.value.s == "replace", path.value.s, GetMember(patch, "value", cs), cs, keys);
      MoveMeaning(doc, path.value.s, GetMember(patch, "from", cs), cs, keys);
      CopyMeaning(doc, path.value.s, GetMember(patch, "from", cs), cs, keys);
    }
  }

  // ----- RFC 6902 -----

  /** What is asked of a patch for the agreement with the standard. Where the standard makes it an error, its tokens are ordinary. */
  ghost predicate Covered(v: Value, patch: Json, op: Rfc.Operation, cs: bool, keys: set<string>) {
    && ToldApart(keys, cs) && Unmistaken(op, keys)
    && Describes(patch, op, cs, keys) && Supported(v, op, keys) && (op.Remove? ==> op.path != [])
    && (Rfc.Apply(v, op).None? ==> OrdinaryOperation(v, op, cs, keys))
  }

  /** The status and the document are what the standard asks for. */
  ghost predicate Conforms(r: LiveApplied, outcome: Option<Value>) {
    match outcome
    case Some(w) => r.status == 0 && Meaning(Erase(r.doc)) == w
    case None => r.status != 0
  }

  /** The operation is no copy or move to the whole document, and the pointer of the object that it appends to is right; an operation that
      is an error does not move an element of an array into itself. */
  predicate GoesRight(doc: Live, v: Value, patch: Json, op: Rfc.Operation, cs: bool)
    requires op.Remove? ==> op.path != []
  {
    if Rfc.Apply(v, op).Some? then !ToWholeDocument(op) && ReadyFor(doc, patch, cs) else !SlidesIn(v, op)
  }

  lemma {:induction false} DescribesTest(patch: Json, op: Rfc.Operation, cs: bool, keys: set<string>)
    requires Describes(patch, op, cs, keys)
    ensures IsTest(patch, cs) <==> op.Test?
    ensures op.Test? ==> forall doc :: ReadyFor(doc, patch, cs)
  {
    hide GetMember;
  }

  lemma {:induction false} CoveredParts(v: Value, patch: Json, op: Rfc.Operation, cs: bool, keys: set<string>)
    requires Covered(v, patch, op, cs, keys)
    ensures ToldApart(keys, cs) && Unmistaken(op, keys) && Describes(patch, op, cs, keys) && Supported(v, op, keys)
    ensures op.Remove? ==> op.path != []
    ensures Rfc.Apply(v, op).None? ==> OrdinaryOperation(v, op, cs, keys)
  {
  }

  lemma {:induction false} SameStatus(doc: Live, patch: Json, cs: bool)
    ensures ApplyLive(doc, patch, cs).status == ApplyPatch(Erase(doc), patch, cs).status
  {
    hide ApplyLive, ApplyPatch, ReadyFor, Erase;
    if IsTest(patch, cs) {
      ApplyLiveTest(doc, patch, cs);
    } else {
      ApplyLiveExact(doc, patch, cs);
    }
  }

  lemma {:induction false} DefinedExact(doc: Live, patch: Json, op: Rfc.Operation, cs: bool, keys: set<string>)
    requires WellFormed(Erase(doc), keys) && Covered(Meaning(Erase(doc)), patch, op, cs, keys) && !ToWholeDocument(op)
    requires Rfc.Apply(Meaning(Erase(doc)), op).Some?
    ensures ApplyLive(doc, patch, cs).status == 0
    ensures Rfc.Apply(Meaning(Erase(doc)), op) == Some(Meaning(Erase(ApplyLive(doc, patch, cs).doc))) <==> ReadyFor(doc, patch, cs)
    ensures ReadyFor(doc, patch, cs) ==> WellFormed(Erase(ApplyLive(doc, patch, cs).doc), keys)
  {
    CoveredParts(Meaning(Erase(doc)), patch, op, cs, keys);
    var (r, s) := (ApplyLive(doc, patch, cs), ApplyPatch(Erase(doc), patch, cs));
    hide *;
    ApplySucceeds(Erase(doc), patch, op, cs, keys);
    DescribesTest(patch, op, cs, keys);
    if op.Test? {
      ApplyLiveTest(doc, patch, cs);
      TestKeeps(doc, patch, cs, keys);
    } else {
      ApplyLiveExact(doc, patch, cs);
      ApplyLiveMeaning(doc, patch, cs, keys);
      MeansTheSameIs(r, s, ReadyFor(doc, patch, cs), keys);
    }
  }

  /** Main result: on any document, whatever its pointers are, a patch does what section 4 of RFC 6902 asks for exactly when it goes right:
      it appends behind a right pointer, does not copy or move to the whole document, and moves no element of an array into itself. */
  lemma {:induction false} OperationExact(doc: Live, patch: Json, op: Rfc.Operation, cs: bool, keys: set<string>)
    requires WellFormed(Erase(doc), keys) && Covered(Meaning(Erase(doc)), patch, op, cs, keys)
    ensures op.Remove? ==> op.path != []
    ensures var (v, r) := (Meaning(Erase(doc)), ApplyLive(doc, patch, cs));
            && (Conforms(r, Rfc.Apply(v, op)) <==> GoesRight(doc, v, patch, op, cs))
            && (Rfc.Apply(v, op).Some? && GoesRight(doc, v, patch, op, cs) ==> WellFormed(Erase(r.doc), keys))
  {
    CoveredParts(Meaning(Erase(doc)), patch, op, cs, keys);
    hide ToldApart, Unmistaken, Describes, Supported, OrdinaryOperation, ReadyFor, SlidesIn, ToWholeDocument, Erase, Meaning, WellFormed, Rfc.Apply,
         ApplyLive, ApplyPatch, Covered;
    SameStatus(doc, patch, cs);
    if Rfc.Apply(Meaning(Erase(doc)), op).None? {
      ApplyExact(Erase(doc), patch, op, cs, keys);
    } else if ToWholeDocument(op) {
      WholeFails(Erase(doc), patch, op, cs, keys);
    } else {
      DefinedExact(doc, patch, op, cs, keys);
    }
  }

  lemma {:induction false} MeansTheSameIs(r: LiveApplied, s: Applied, ready: bool, keys: set<string>)
    requires MeansTheSame(r, s, ready, keys) && s.status == 0 && WellFormed(s.doc, keys)
    ensures Meaning(Erase(r.doc)) == Meaning(s.doc) <==> ready
  {
  }

  // ----- whole patch documents -----

  /** cJSONUtils_ApplyPatches over the patches of an array, stopping at the first failure. */
  function ApplyAllLive(doc: Live, patches: seq<Json>, cs: bool): LiveApplied
    decreases |patches|
  {
    if patches == [] then LiveApplied(0, doc)
    else
      var r := ApplyLive(doc, patches[0], cs);
      if r.status != 0 then r else ApplyAllLive(r.doc, patches[1..], cs)
  }

  ghost predicate NoTests(patches: seq<Json>, cs: bool) {
    forall i :: 0 <= i < |patches| ==> !IsTest(patches[i], cs)
  }

  /** Without a test the pointers of a document stay right, and do not matter. */
  lemma {:induction false} NoTestsRefine(doc: Live, patches: seq<Json>, cs: bool)
    requires Settled(doc) && NoTests(patches, cs)
    ensures var (r, s) := (ApplyAllLive(doc, patches, cs), ApplyAll(Erase(doc), patches, cs));
            r.status == s.status && Erase(r.doc) == s.doc && Settled(r.doc)
    decreases |patches|
  {
    hide Settled, Erase, ApplyLive, ApplyPatch, IsTest, ReadyFor;
    if patches != [] {
      ApplyLiveSettled(doc, patches[0], cs);
      ApplyLiveExact(doc, patches[0], cs);
      NoTestsRefine(ApplyLive(doc, patches[0], cs).doc, patches[1..], cs);
    }
  }

  /** The patches describe operations, up to the first that is an error. */
  ghost predicate Planned(v: Value, patches: seq<Json>, ops: seq<Rfc.Operation>, cs: bool, keys: set<string>)
    decreases |patches|
  {
    |patches| == |ops|
    && (patches != [] ==>
          && Covered(v, patches[0], ops[0], cs, keys)
          && (Rfc.Apply(v, ops[0]).Some? ==> Planned(Rfc.Apply(v, ops[0]).value, patches[1..], ops[1..], cs, keys)))
  }

  /** The document after all operations; none when one of them is an error. */
  ghost function Outcome(v: Value, patches: seq<Json>, ops: seq<Rfc.Operation>, cs: bool, keys: set<string>): Option<Value>
    requires Planned(v, patches, ops, cs, keys)
    decreases |patches|
  {
    if patches == [] then Some(v)
    else
      match Rfc.Apply(v, ops[0])
      case None => None
      case Some(w) => Outcome(w, patches[1..], ops[1..], cs, keys)
  }

  /** After every patch the status and the document are what RFC 6902 asks for. */
  ghost predicate Follows(doc: Live, v: Value, patches: seq<Json>, ops: seq<Rfc.Operation>, cs: bool, keys: set<string>)
    requires Planned(v, patches, ops, cs, keys)
    decreases |patches|
  {
    Meaning(Erase(doc)) == v
    && (patches != [] ==>
          var (r, w) := (ApplyLive(doc, patches[0], cs), Rfc.Apply(v, ops[0]));
          Conforms(r, w) && (w.Some? ==> Follows(r.doc, w.value, patches[1..], ops[1..], cs, keys)))
  }

  /** Every patch of the run goes right. */
  ghost predicate RightThroughout(doc: Live, v: Value, patches: seq<Json>, ops: seq<Rfc.Operation>, cs: bool, keys: set<string>)
    requires Planned(v, patches, ops, cs, keys)
    decreases |patches|
  {
    patches == [] ||
    (&& GoesRight(doc, v, patches[0], ops[0], cs)
     && (Rfc.Apply(v, ops[0]).Some? ==>
           RightThroughout(ApplyLive(doc, patches[0], cs).doc, Rfc.Apply(v, ops[0]).value, patches[1..], ops[1..], cs, keys)))
  }

  /** Main result: a run of patches goes on as RFC 6902 says, up to its end or to the first error, exactly when every patch goes right. */
  lemma {:induction false} RunExact(doc: Live, v: Value, patches: seq<Json>, ops: seq<Rfc.Operation>, cs: bool, keys: set<string>)
    requires WellFormed(Erase(doc), keys) && Meaning(Erase(doc)) == v && Planned(v, patches, ops, cs, keys)
    ensures Follows(doc, v, patches, ops, cs, keys) <==> RightThroughout(doc, v, patches, ops, cs, keys)
    decreases |patches|
  {
    hide Covered, ApplyLive, GoesRight, Erase, WellFormed, Meaning, Rfc.Apply;
    if patches != [] {
      OperationExact(doc, patches[0], ops[0], cs, keys);
      var (r, w) := (ApplyLive(doc, patches[0], cs), Rfc.Apply(v, ops[0]));
      if w.Some? && Conforms(r, w) {
        RunExact(r.doc, w.value, patches[1..], ops[1..], cs, keys);
      }
    }
  }

  /** A run that follows RFC 6902 returns 0 and leaves its outcome, or returns an error where it has none. */
  lemma {:induction false} FollowsOutcome(doc: Live, v: Value, patches: seq<Json>, ops: seq<Rfc.Operation>, cs: bool, keys: set<string>)
    requires Planned(v, patches, ops, cs, keys) && Follows(doc, v, patches, ops, cs, keys)
    ensures Conforms(ApplyAllLive(doc, patches, cs), Outcome(v, patches, ops, cs, keys))
    decreases |patches|
  {
    hide Covered, ApplyLive, Erase, Meaning, Rfc.Apply, ToldApart, Unmistaken, Describes, Supported, OrdinaryOperation;
    if patches != [] {
      CoveredParts(v, patches[0], ops[0], cs, keys);
      var w := Rfc.Apply(v, ops[0]);
      if w.Some? {
        FollowsOutcome(ApplyLive(doc, patches[0], cs).doc, w.value, patches[1..], ops[1..], cs, keys);
      }
    }
  }

  /** Every test of the run looks at objects whose first and last members sorting leaves in place. */
  ghost predicate TestsKeepEnds(doc: Live, patches: seq<Json>, cs: bool)
    decreases |patches|
  {
    patches == [] ||
    (&& (IsTest(patches[0], cs) && TestedAt(doc, patches[0], cs).Some? ==>
           EndsKeptThroughout(At(Erase(doc), TestedAt(doc, patches[0], cs).value), cs))
     && TestsKeepEnds(ApplyLive(doc, patches[0], cs).doc, patches[1..], cs))
  }

  /** No operation copies or moves to the whole document or moves a node into itself. */
  predicate PlainMoves(ops: seq<Rfc.Operation>) {
    forall i :: 0 <= i < |ops| ==> !ToWholeDocument(ops[i]) && (ops[i].Move? ==> !(ops[i].from < ops[i].path))
  }

  lemma {:induction false} PlainStep(doc: Live, v: Value, patch: Json, op: Rfc.Operation, cs: bool)
    requires !ToWholeDocument(op) && (op.Move? ==> !(op.from < op.path)) && (op.Remove? ==> op.path != []) && ReadyFor(doc, patch, cs)
    ensures GoesRight(doc, v, patch, op, cs)
  {
    hide ReadyFor, Rfc.Apply;
  }

  /** On a document with right pointers a run does what RFC 6902 says when its moves are plain and its tests move no first or last member. */
  lemma {:induction false} SettledRun(doc: Live, v: Value, patches: seq<Json>, ops: seq<Rfc.Operation>, cs: bool, keys: set<string>)
    requires Settled(doc) && WellFormed(Erase(doc), keys) && Meaning(Erase(doc)) == v && Planned(v, patches, ops, cs, keys)
    requires TestsKeepEnds(doc, patches, cs) && PlainMoves(ops)
    ensures Follows(doc, v, patches, ops, cs, keys)
    decreases |patches|
  {
    hide Covered, ApplyLive, ReadyFor, GoesRight, Erase, WellFormed, Meaning, Rfc.Apply, Settled, IsTest, TestedAt, EndsKeptThroughout, ToldApart,
         Describes, Supported, OrdinaryOperation, ToWholeDocument, Unmistaken;
    if patches != [] {
      CoveredParts(v, patches[0], ops[0], cs, keys);
      DescribesTest(patches[0], ops[0], cs, keys);
      if !IsTest(patches[0], cs) {
        ApplyLiveSettled(doc, patches[0], cs);
      }
      PlainStep(doc, v, patches[0], ops[0], cs);
      OperationExact(doc, patches[0], ops[0], cs, keys);
      if Rfc.Apply(v, ops[0]).Some? {
        if IsTest(patches[0], cs) {
          TestSettled(doc, patches[0], cs, keys);
        }
        SettledRun(ApplyLive(doc, patches[0], cs).doc, Rfc.Apply(v, ops[0]).value, patches[1..], ops[1..], cs, keys);
      }
    }
  }

  /** A document that patches rewrite in place. */
  class Document {
    var root: Live

    constructor (root: Live)
      ensures this.root == root
    {
      this.root := root;
    }

    method ApplyPatches(patches: Json, caseSensitive: bool) returns (status: int)
      modifies this
      ensures !patches.Array? ==> status == 1 && root == old(root)
      ensures patches.Array? ==> LiveApplied(status, root) == ApplyAllLive(old(root), patches.items, caseSensitive)
    {
      if !patches.Array? {
        return 1;
      }
      var ps := patches.items;
      assert ps[0..] == ps;
      for i := 0 to |ps|
        invariant ApplyAllLive(old(root), ps, caseSensitive) == ApplyAllLive(root, ps[i..], caseSensitive)
      {
        assert ps[i..][0] == ps[i] && ps[i..][1..] == ps[i + 1..];
        var r := ApplyLive(root, ps[i], caseSensitive);
        root := r.doc;
        if r.status != 0 {
          return r.status;
        }
      }
      return 0;
    }
  }
}
