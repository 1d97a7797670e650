/** apply_patch fails whenever RFC 6902 calls an operation an error. Together with JsonPatchRefinement this
    says exactly when it succeeds. */
module JsonPatchErrors {
  import opened Text
  import opened Json
  import opened JsonPointer
  import opened JsonOrder
  import opened JsonPatch
  import opened JsonPatchRefinement
  import Rfc = Rfc6902

  // ----- tokens for which the code and the standard agree on every document -----

  /** A text that the index reader of the code takes for an index only when RFC 6901 does. */
  predicate RegularIndex(s: string) {
    && '/' !in s
    && s != ""
    && !LettersAfterDigit(s)
    && (RfcIndex(s).Some? ==> RfcIndex(s).value < SIZE_LIMIT)
  }

  /** The code and the standard agree on whether the token names a child of the node: in an array it is read as an index exactly when
      RFC 6901 says so, and in an object keys that it could be confused with are told apart. */
  ghost predicate Ordinary(node: Value, token: string, cs: bool, keys: set<string>) {
    && (node.VArray? ==> RegularIndex(Encode(token)))
    && (node.VObject? ==> cs || OnlyKey(token, keys))
  }

  /** The same for every node on a path that is in the document; the last token may be compared in another case mode. */
  ghost predicate AllOrdinary(v: Value, path: Tokens, cs: bool, lastCs: bool, keys: set<string>) {
    path != [] ==>
      && Ordinary(v, path[0], if |path| == 1 then lastCs else cs, keys)
      && (Rfc.Step(v, path[0]).Some? ==> AllOrdinary(Rfc.Step(v, path[0]).value, path[1..], cs, lastCs, keys))
  }

  lemma {:induction false} OrdinaryParts(v: Value, path: Tokens, cs: bool, lastCs: bool, keys: set<string>)
    requires path != [] && AllOrdinary(v, path, cs, lastCs, keys)
    ensures AllOrdinary(v, Parent(path), cs, cs, keys)
    ensures Rfc.Get(v, Parent(path)).Some? ==> Ordinary(Rfc.Get(v, Parent(path)).value, Last(path), lastCs, keys)
    decreases |path|
  {
    hide Ordinary, Rfc.Step;
    if |path| > 1 {
      assert Parent(path)[1..] == Parent(path[1..]) && Parent(path)[0] == path[0] && Last(path) == Last(path[1..]);
      if Rfc.Step(v, path[0]).Some? {
        OrdinaryParts(Rfc.Step(v, path[0]).value, path[1..], cs, lastCs, keys);
      }
    }
  }

  lemma RegularIndexRead(s: string)
    requires RegularIndex(s)
    ensures DecodeIndex(s) == RfcIndex(s)
  {
    DecodeIndexExact(s);
    if RfcIndex(s).Some? {
      assert RfcIndex(s).value % 0x1_0000_0000 == RfcIndex(s).value;
    }
  }

  /** Only plain tokens are indices, so escaping makes no difference. */
  lemma EncodedIndex(token: string)
    requires RegularIndex(Encode(token))
    ensures RfcIndex(Encode(token)) == RfcIndex(token)
  {
    if RfcIndex(token).Some? {
      EncodeOfIndex(token);
    } else if RfcIndex(Encode(token)).Some? {
      EncodeKeepsDigits(token);
      EncodePlain(token);
    }
  }

  lemma {:induction false} EncodeKeepsDigits(s: string)
    requires AllDigits(Encode(s))
    ensures '~' !in s && '/' !in s
  {
    if s != "" {
      var (h, t) := (EncodeChar(s[0]), Encode(s[1..]));
      assert Encode(s) == h + t;
      assert Encode(s)[0] == h[0];
      assert forall i :: 0 <= i < |t| ==> t[i] == Encode(s)[|h| + i];
      EncodeKeepsDigits(s[1..]);
      assert s == [s[0]] + s[1..];
    }
  }

  lemma FindKeyFails(ms: seq<Member>, token: string, cs: bool, keys: set<string>)
    requires WellFormedMembers(ms, keys) && (cs || OnlyKey(token, keys)) && token !in MapOf(ms)
    ensures FindKey(ms, token, cs).None?
  {
    hide MapOf;
    MapOfUnique(ms);
  }

  // ----- failing to find a node -----

  lemma SelectFails(node: Json, token: string, rest: string, cs: bool, keys: set<string>)
    requires ToldApart(keys, cs) && WellFormed(node, keys) && AtEnd(rest) && Ordinary(Meaning(node), token, cs, keys)
    requires Rfc.Step(Meaning(node), token).None?
    ensures Select(node, Encode(token) + rest, cs).None?
  {
    match node {
      case Array(items) =>
        hide Encode, DecodeIndex, RfcIndex;
        DecodeIndexToken(Encode(token), rest);
        RegularIndexRead(Encode(token));
        EncodedIndex(token);
      case Object(ms) =>
        hide Encode, MapOf;
        FindMatchKey(ms, token, rest, cs);
        FindKeyFails(ms, token, cs, keys);
      case _ =>
    }
  }

  lemma {:induction false} LocateFails(node: Json, path: Tokens, cs: bool, keys: set<string>)
    requires ToldApart(keys, cs) && WellFormed(node, keys) && AllOrdinary(Meaning(node), path, cs, cs, keys)
    requires Rfc.Get(Meaning(node), path).None?
    ensures Locate(node, Join(path), cs).None?
  {
    var (t, rest) := (path[0], Join(path[1..]));
    assert Rfc.Step(Meaning(node), t).Some? ==> AllOrdinary(Rfc.Step(Meaning(node), t).value, path[1..], cs, cs, keys);
    assert Ordinary(Meaning(node), t, cs, keys);
    assert Join(path) == "/" + (Encode(t) + rest);
    hide Encode, Select, Meaning, WellFormed, SkipToken, Ordinary, Locate, Join;
    LocateStep(node, Encode(t) + rest, cs);
    if Rfc.Step(Meaning(node), t).None? {
      SelectFails(node, t, rest, cs, keys);
    } else {
      SelectRefines(node, t, rest, cs, keys);
      var i := Select(node, Encode(t) + rest, cs).value;
      LocateFails(Child(node, i), path[1..], cs, keys);
      EncodeHasNoSlash(t);
      SkipTokenOver(Encode(t), rest);
    }
  }

  // ----- failing to remove or add -----

  lemma PlainWhenRegular(token: string)
    requires RfcIndex(token).None? && RegularIndex(Encode(token)) && Undamaged(token)
    ensures DecodeIndex(token).None?
  {
    if '~' !in token {
      EncodePlain(token);
      RegularIndexRead(token);
    } else {
      TildeIsNoIndex(token);
    }
  }

  /** A token with a '~' is read as an index only when it starts with a digit, and then its escaped form
      has letters after a digit too. */
  lemma TildeIsNoIndex(token: string)
    requires '~' in token && '/' !in token && RegularIndex(Encode(token))
    ensures DecodeIndex(token).None?
  {
    DecodeIndexExact(token);
    if LettersAfterDigit(token) && (|token| > 1 ==> token[0] != '0') {
      EncodeKeepsLow(token);
      assert false;
    }
  }

  lemma {:induction false} EncodeKeepsLow(s: string)
    requires '/' !in s && '~' in s && s != "" && forall i :: 0 <= i < |s| ==> s[i] >= '0'
    ensures Encode(s) != "" && (s[0] != '~' ==> Encode(s)[0] == s[0])
    ensures forall i :: 0 <= i < |Encode(s)| ==> Encode(s)[i] >= '0'
    ensures '~' in Encode(s)
    ensures exists i :: 0 <= i < |Encode(s)| && Encode(s)[i] > '9'
  {
    AllLow(s);
    var i :| 0 <= i < |s| && s[i] == '~';
    EncodeSplitAt(s, i);
    var j :| 0 <= j < |Encode(s)| && Encode(s)[j] == '~';
    assert Encode(s)[j] > '9';
  }

  lemma {:induction false} AllLow(s: string)
    requires '/' !in s && forall i :: 0 <= i < |s| ==> s[i] >= '0'
    ensures forall i :: 0 <= i < |Encode(s)| ==> Encode(s)[i] >= '0'
  {
    if s != "" {
      AllLow(s[1..]);
      var (h, t) := (EncodeChar(s[0]), Encode(s[1..]));
      assert Encode(s) == h + t;
    }
  }

  lemma EncodeSplitAt(s: string, i: nat)
    requires i < |s| && s[i] == '~'
    ensures '~' in Encode(s)
  {
    EncodeAt(s, i);
    assert EncodeChar('~')[0] == '~';
    assert Encode(s)[Offset(s, i) + 0] == '~';
  }

  lemma DetachChildFails(parent: Json, token: string, keys: set<string>)
    requires WellFormed(parent, keys) && Ordinary(Meaning(parent), token, false, keys) && Undamaged(token)
    requires Rfc.RemoveChild(Meaning(parent), token).None?
    ensures DetachChild(parent, token) == NotFound
  {
    match parent {
      case Array(items) =>
        if RfcIndex(token).None? {
          PlainWhenRegular(token);
        } else {
          EncodeOfIndex(token);
          RegularIndexRead(token);
        }
        hide Encode, DecodeIndex, RfcIndex;
      case Object(ms) =>
        hide Encode, MapOf;
        FindKeyFails(ms, token, false, keys);
      case _ =>
    }
  }

  lemma AddChildFails(parent: Json, token: string, value: Json, cs: bool, keys: set<string>)
    requires Ordinary(Meaning(parent), token, cs, keys) && Undamaged(token)
    requires Rfc.AddChild(Meaning(parent), token, Meaning(value)).None?
    ensures AddChild(parent, token, value, cs).status != 0
  {
    if parent.Array? {
      if RfcIndex(token).None? {
        PlainWhenRegular(token);
      } else {
        EncodeOfIndex(token);
        RegularIndexRead(token);
      }
      hide Encode, DecodeIndex, RfcIndex;
    }
  }

  lemma DetachPathFails(doc: Json, path: Tokens, cs: bool, keys: set<string>)
    requires ToldApart(keys, cs) && WellFormed(doc, keys)
    requires path != [] && AllOrdinary(Meaning(doc), path, cs, false, keys) && Undamaged(Last(path))
    requires Rfc.RemoveFrom(Meaning(doc), path).None?
    ensures DetachPath(doc, Join(path), cs) == NotFound
  {
    var (parent, token) := (Parent(path), Last(path));
    OrdinaryParts(Meaning(doc), path, cs, false, keys);
    var p := Rfc.Get(Meaning(doc), parent);
    assert p.None? || Rfc.RemoveChild(p.value, token).None?;
    hide *;
    if p.None? {
      LocateFails(doc, parent, cs, keys);
      DetachPathNowhere(doc, path, cs);
    } else {
      LocateRefines(doc, parent, cs, keys);
      var loc := Locate(doc, Join(parent), cs).value;
      DetachPathAt(doc, path, loc, cs);
      DetachChildFails(At(doc, loc), token, keys);
    }
  }

  lemma DetachPathNowhere(doc: Json, path: Tokens, cs: bool)
    requires path != [] && Locate(doc, Join(Parent(path)), cs).None?
    ensures DetachPath(doc, Join(path), cs) == NotFound
  {
    hide Join, Locate;
    SplitJoin(path);
  }

  /** Adding fails when the parent is missing or when adding to the parent fails. */
  lemma AddPathFailsWhen(doc: Json, path: Tokens, value: Json, cs: bool)
    requires path != [] && Undamaged(Last(path))
    requires var loc := Locate(doc, Join(Parent(path)), cs);
             loc.None? || AddChild(At(doc, loc.value), Last(path), value, cs).status != 0
    ensures AddPath(doc, Join(path), value, cs).status != 0
  {
    hide Encode, Join, Locate, DecodeInPlace, Undamaged, AddChild;
    SplitJoin(path);
    DecodeInPlaceExact(Last(path));
  }

  lemma AddPathFails(doc: Json, path: Tokens, value: Json, cs: bool, keys: set<string>)
    requires ToldApart(keys, cs) && WellFormed(doc, keys)
    requires path != [] && AllOrdinary(Meaning(doc), path, cs, cs, keys) && Undamaged(Last(path))
    requires Rfc.AddAt(Meaning(doc), path, Meaning(value)).None?
    ensures AddPath(doc, Join(path), value, cs).status != 0
  {
    var (parent, token) := (Parent(path), Last(path));
    OrdinaryParts(Meaning(doc), path, cs, cs, keys);
    var p := Rfc.Get(Meaning(doc), parent);
    assert p.None? || Rfc.AddChild(p.value, token, Meaning(value)).None?;
    hide *;
    if p.None? {
      LocateFails(doc, parent, cs, keys);
    } else {
      LocateRefines(doc, parent, cs, keys);
      AddChildFails(At(doc, Locate(doc, Join(parent), cs).value), token, value, cs, keys);
    }
    AddPathFailsWhen(doc, path, value, cs);
  }

  lemma NothingToRemove(v: Value, path: Tokens)
    requires path != []
    ensures Rfc.Get(v, path).None? <==> Rfc.RemoveFrom(v, path).None?
  {
    assert path == Parent(path) + [Last(path)];
    Rfc.GetChild(v, Parent(path), Last(path));
  }

  // ----- whole operations -----

  /** The paths of an operation are ordinary in the documents in which the code follows them. */
  ghost predicate OrdinaryOperation(doc: Value, op: Rfc.Operation, cs: bool, keys: set<string>) {
    match op
    case Add(path, _) => AllOrdinary(doc, path, cs, cs, keys)
    case Remove(path) => AllOrdinary(doc, path, cs, false, keys)
    case Replace(path, _) => AllOrdinary(doc, path, cs, false, keys)
    case Move(from, path) =>
      from != [] ==>
      && AllOrdinary(doc, from, cs, false, keys)
      && (Rfc.RemoveFrom(doc, from).Some? ==> AllOrdinary(Rfc.RemoveFrom(doc, from).value, path, cs, cs, keys))
    case Copy(from, path) => AllOrdinary(doc, from, cs, cs, keys) && AllOrdinary(doc, path, cs, cs, keys)
    case Test(path, _) => AllOrdinary(doc, path, cs, cs, keys)
  }

  /** Moving to the whole document fails, and so does moving it. */
  lemma MoveToWhole(doc: Json, from: Tokens, path: Tokens, cs: bool)
    requires from == [] || path == []
    ensures ApplyMove(doc, Join(path), Some(String(Join(from))), cs).status != 0
  {
    assert Join([]) == "" && LastSlash("") == None;
    hide Locate, DetachChild, Join;
  }

  lemma CopyToWhole(doc: Json, from: Option<Json>, cs: bool)
    ensures ApplyCopy(doc, "", from, cs).status != 0
  {
    assert LastSlash("") == None;
    hide Locate;
  }

  lemma MoveFails(doc: Json, from: Tokens, path: Tokens, cs: bool, keys: set<string>)
    requires ToldApart(keys, cs) && from != [] && path != [] && OnlyKey(Last(from), keys) && WellFormed(doc, keys)
    requires Supported(Meaning(doc), Rfc.Move(from, path), keys) && OrdinaryOperation(Meaning(doc), Rfc.Move(from, path), cs, keys)
    requires Rfc.Relocate(Meaning(doc), from, path).None?
    ensures ApplyMove(doc, Join(path), Some(String(Join(from))), cs).status != 0
  {
    hide Join, Meaning, WellFormed, Undamaged, CanAddAt, AllOrdinary, Rfc.Get, Rfc.Set, Rfc.AddAt, Rfc.RemoveFrom, DetachPath, AddPath;
    NothingToRemove(Meaning(doc), from);
    if Rfc.RemoveFrom(Meaning(doc), from).None? {
      DetachPathFails(doc, from, cs, keys);
    } else {
      DetachPathRefines(doc, from, cs, keys);
      var r := DetachPath(doc, Join(from), cs);
      AddPathFails(r.rest, path, r.item, cs, keys);
    }
  }

  lemma CopyFails(doc: Json, from: Tokens, path: Tokens, cs: bool, keys: set<string>)
    requires ToldApart(keys, cs) && path != [] && WellFormed(doc, keys)
    requires Supported(Meaning(doc), Rfc.Copy(from, path), keys) && OrdinaryOperation(Meaning(doc), Rfc.Copy(from, path), cs, keys)
    requires Rfc.Apply(Meaning(doc), Rfc.Copy(from, path)).None?
    ensures ApplyCopy(doc, Join(path), Some(String(Join(from))), cs).status != 0
  {
    hide Join, Meaning, WellFormed, Undamaged, CanAddAt, AllOrdinary, Rfc.Get, Rfc.Set, Rfc.AddAt, Rfc.RemoveFrom, Locate, AddPath;
    if Rfc.Get(Meaning(doc), from).None? {
      LocateFails(doc, from, cs, keys);
    } else {
      LocateRefines(doc, from, cs, keys);
      AddPathFails(doc, path, At(doc, Locate(doc, Join(from), cs).value), cs, keys);
    }
  }

  lemma TestFails(doc: Json, path: Tokens, x: Json, cs: bool, keys: set<string>)
    requires ToldApart(keys, cs) && WellFormed(doc, keys) && WellFormed(x, keys) && AllOrdinary(Meaning(doc), path, cs, cs, keys)
    requires Rfc.Get(Meaning(doc), path) != Some(Meaning(x))
    ensures ApplyTest(doc, Join(path), Some(x), cs).status != 0
  {
    hide Join, Meaning, WellFormed, AllOrdinary, Rfc.Get, Locate, CompareJson;
    if Rfc.Get(Meaning(doc), path).None? {
      LocateFails(doc, path, cs, keys);
    } else {
      TestRefines(doc, path, x, cs, keys);
    }
  }

  lemma WithValueFails(doc: Json, replace: bool, path: Tokens, x: Json, cs: bool, keys: set<string>)
    requires ToldApart(keys, cs) && WellFormed(doc, keys) && WellFormed(x, keys)
    requires AllOrdinary(Meaning(doc), path, cs, if replace then false else cs, keys) && (path == [] || Undamaged(Last(path)))
    requires if replace then Rfc.Get(Meaning(doc), path).None? else Rfc.AddAt(Meaning(doc), path, Meaning(x)).None?
    ensures ApplyWithValue(doc, replace, Join(path), Some(x), cs).status != 0
  {
    JoinEmpty(path);
    assert path != [];
    hide Join, Meaning, WellFormed, Undamaged, AllOrdinary, Rfc.Get, Rfc.AddAt, Rfc.RemoveFrom, DetachPath, AddPath;
    if replace {
      NothingToRemove(Meaning(doc), path);
      DetachPathFails(doc, path, cs, keys);
    } else {
      AddPathFails(doc, path, x, cs, keys);
    }
  }

  /** The code takes a node out of an array and finds the next element in its place when it follows a path below that node. */
  predicate SlidesIn(v: Value, op: Rfc.Operation) {
    op.Move? && op.from != [] && op.from < op.path && Rfc.InArray(v, op.from) && Rfc.Relocate(v, op.from, op.path).Some?
  }

  lemma ApplyFails(doc: Json, patch: Json, op: Rfc.Operation, cs: bool, keys: set<string>)
    requires ToldApart(keys, cs) && Unmistaken(op, keys) && WellFormed(doc, keys)
    requires Describes(patch, op, cs, keys) && Supported(Meaning(doc), op, keys) && (op.Remove? ==> op.path != [])
    requires OrdinaryOperation(Meaning(doc), op, cs, keys)
    requires Rfc.Apply(Meaning(doc), op).None? && !SlidesIn(Meaning(doc), op)
    ensures ApplyPatch(doc, patch, cs).status != 0
  {
    JoinEmpty(op.path);
    hide Join, Meaning, WellFormed, Undamaged, CanAddAt, AllOrdinary, OnlyKey, Rfc.Get, Rfc.Set, Rfc.AddAt, Rfc.RemoveFrom, Rfc.Relocate;
    hide DetachPath, AddPath, ApplyWithValue, ApplyMove, ApplyCopy, ApplyTest, GetMember;
    match op {
      case Remove(path) => DetachPathFails(doc, path, cs, keys);
      case Add(path, _) => WithValueFails(doc, false, path, GetMember(patch, "value", cs).value, cs, keys);
      case Replace(path, _) => WithValueFails(doc, true, path, GetMember(patch, "value", cs).value, cs, keys);
      case Move(from, path) =>
        if from == [] || path == [] {
          MoveToWhole(doc, from, path, cs);
        } else {
          if from < path && !Rfc.InArray(Meaning(doc), from) {
            Rfc.NothingBelow(Meaning(doc), from, path);
          }
          MoveFails(doc, from, path, cs, keys);
        }
      case Copy(from, path) =>
        if path == [] {
          CopyToWhole(doc, GetMember(patch, "from", cs), cs);
        } else {
          CopyFails(doc, from, path, cs, keys);
        }
      case Test(path, _) => TestFails(doc, path, GetMember(patch, "value", cs).value, cs, keys);
    }
  }

  lemma WholeFails(doc: Json, patch: Json, op: Rfc.Operation, cs: bool, keys: set<string>)
    requires Describes(patch, op, cs, keys) && ToWholeDocument(op)
    ensures ApplyPatch(doc, patch, cs).status != 0
  {
    JoinEmpty(op.path);
    hide Join, DetachPath, AddPath, ApplyMove, ApplyCopy, GetMember;
    if op.Move? {
      MoveToWhole(doc, op.from, op.path, cs);
    } else {
      CopyToWhole(doc, GetMember(patch, "from", cs), cs);
    }
  }

  /** A move into a child of the very node that is moved, which the standard forbids, is carried out when the node is an element of an array
      and adding succeeds below the element that has moved up. */
  lemma SlideRefines(doc: Json, patch: Json, op: Rfc.Operation, cs: bool, keys: set<string>)
    requires ToldApart(keys, cs) && Unmistaken(op, keys) && WellFormed(doc, keys)
    requires Describes(patch, op, cs, keys) && Supported(Meaning(doc), op, keys) && SlidesIn(Meaning(doc), op)
    ensures Rfc.Apply(Meaning(doc), op).None?
    ensures ApplyPatch(doc, patch, cs).status == 0 && WellFormed(ApplyPatch(doc, patch, cs).doc, keys)
    ensures Rfc.Relocate(Meaning(doc), op.from, op.path) == Some(Meaning(ApplyPatch(doc, patch, cs).doc))
  {
    JoinEmpty(op.path);
    hide Join, Meaning, WellFormed, Undamaged, CanAddAt, OnlyKey, ApplyMove, GetMember, Rfc.Relocate, Rfc.RemoveFrom, Rfc.Get;
    MoveRefines(doc, op.from, op.path, cs, keys);
  }

  /** Main result: on ordinary tokens apply_patch returns 0 exactly when RFC 6902 defines the outcome, but for two kinds of operations: it never
      copies or moves to the whole document, and it moves an element of an array into a child of itself when the next element can take it. */
  lemma ApplyExact(doc: Json, patch: Json, op: Rfc.Operation, cs: bool, keys: set<string>)
    requires ToldApart(keys, cs) && Unmistaken(op, keys) && WellFormed(doc, keys)
    requires Describes(patch, op, cs, keys) && Supported(Meaning(doc), op, keys) && (op.Remove? ==> op.path != [])
    requires OrdinaryOperation(Meaning(doc), op, cs, keys)
    ensures ApplyPatch(doc, patch, cs).status == 0
            <==> (Rfc.Apply(Meaning(doc), op).Some? && !ToWholeDocument(op)) || SlidesIn(Meaning(doc), op)
  {
    hide *;
    if SlidesIn(Meaning(doc), op) {
      SlideRefines(doc, patch, op, cs, keys);
    } else if ToWholeDocument(op) {
      WholeFails(doc, patch, op, cs, keys);
    } else if Rfc.Apply(Meaning(doc), op).Some? {
      ApplySucceeds(doc, patch, op, cs, keys);
    } else {
      ApplyFails(doc, patch, op, cs, keys);
    }
  }

  // ----- the move of [1, {"b": 2}] from "/0" to "/0/a" -----

  const SLIDE: Rfc.Operation := Rfc.Move(["0"], ["0", "a"])

  lemma SlidePaths()
    ensures Join(["0"]) == "/0" && Join(["0", "a"]) == "/0/a"
    ensures Undamaged("0") && Undamaged("a") && RegularIndex(Encode("0")) && RfcIndex("0") == Some(0)
  {
    EncodePlain("0");
    EncodePlain("a");
    assert Join([]) == "";
    assert ["0", "a"][1..] == ["a"] && ["a"][1..] == [] && ["0"][1..] == [];
    assert Join(["a"]) == "/" + ("a" + "");
  }

  lemma SlideValue()
    ensures var v := VArray([VNumber(1), VObject(map["b" := VNumber(2)])]);
            && SlidesIn(v, SLIDE) && Rfc.Apply(v, SLIDE).None?
            && Rfc.Relocate(v, ["0"], ["0", "a"]) == Some(VArray([VObject(map["b" := VNumber(2), "a" := VNumber(1)])]))
            && Rfc.RemoveFrom(v, ["0"]) == Some(VArray([VObject(map["b" := VNumber(2)])]))
  {
    SlidePaths();
    var v := VArray([VNumber(1), VObject(map["b" := VNumber(2)])]);
    SlideRemoved(v);
    SlideAdded(VObject(map["b" := VNumber(2)]));
    assert ["0"][..0] == [] && ["0"] < ["0", "a"];
    assert Rfc.Get(v, []) == Some(v);
    hide RfcIndex, Rfc.Get, Rfc.Set, Rfc.RemoveFrom, Rfc.AddAt;
  }

  lemma {:induction false} SlideRemoved(v: Value)
    requires v == VArray([VNumber(1), VObject(map["b" := VNumber(2)])])
    ensures Rfc.Get(v, ["0"]) == Some(VNumber(1)) && Rfc.RemoveFrom(v, ["0"]) == Some(VArray([VObject(map["b" := VNumber(2)])]))
  {
    SlidePaths();
    hide RfcIndex, Encode, Undamaged;
    assert ["0"][..0] == [] && ["0"][1..] == [];
    assert RemoveAt(v.items, 0) == [VObject(map["b" := VNumber(2)])];
  }

  lemma {:induction false} SlideAdded(b: Value)
    requires b == VObject(map["b" := VNumber(2)])
    ensures Rfc.AddAt(VArray([b]), ["0", "a"], VNumber(1)) == Some(VArray([VObject(map["b" := VNumber(2), "a" := VNumber(1)])]))
  {
    SlidePaths();
    hide RfcIndex, Encode, Undamaged;
    assert ["0", "a"][..1] == ["0"] && ["0"][1..] == [];
    assert Rfc.Get(VArray([b]), ["0"]) == Some(b);
    var c := VObject(map["b" := VNumber(2), "a" := VNumber(1)]);
    assert Rfc.AddChild(b, "a", VNumber(1)) == Some(c);
    assert [b][0 := c] == [c];
    assert Rfc.Set(VArray([b]), ["0"], c) == Rfc.Put(VArray([b]), "0", Rfc.Set(b, [], c)) == VArray([c]);
  }

  lemma {:induction false} SlideTree(ms: seq<Member>, keys: set<string>)
    requires ms == [Member("b", Number(2))] && "b" in keys
    ensures WellFormed(Array([Number(1), Object(ms)]), keys)
    ensures Meaning(Array([Number(1), Object(ms)])) == VArray([VNumber(1), VObject(map["b" := VNumber(2)])])
  {
    assert WellFormed(Number(2), keys) && WellFormed(Number(1), keys);
    assert WellFormedMembers(ms, keys);
    assert WellFormed(Object(ms), keys);
    assert ms[1..] == [] && MapOf(ms[1..]) == map[];
    assert MapOf(ms) == map["b" := VNumber(2)];
    var items := [Number(1), Object(ms)];
    assert Meaning(items[0]) == VNumber(1) && Meaning(items[1]) == VObject(MapOf(ms));
    assert MeaningAll(items) == [VNumber(1), VObject(map["b" := VNumber(2)])];
  }

  lemma {:induction false} SlideDocument(doc: Json, keys: set<string>)
    requires doc == Array([Number(1), Object([Member("b", Number(2))])]) && keys == {"0", "a", "b"}
    ensures WellFormed(doc, keys) && Meaning(doc) == VArray([VNumber(1), VObject(map["b" := VNumber(2)])])
    ensures CaseDistinct(keys) && Unmistaken(SLIDE, keys) && Supported(Meaning(doc), SLIDE, keys)
  {
    SlideTree([Member("b", Number(2))], keys);
    SlideKeys(keys);
    SlideSupported(Meaning(doc), keys);
    hide *;
  }

  lemma {:induction false} SlideKeys(keys: set<string>)
    requires keys == {"0", "a", "b"}
    ensures CaseDistinct(keys) && Unmistaken(SLIDE, keys)
  {
    assert Lower("0") == "0" && Lower("a") == "a" && Lower("b") == "b";
    hide Lower;
  }

  lemma {:induction false} SlideSupported(v: Value, keys: set<string>)
    requires v == VArray([VNumber(1), VObject(map["b" := VNumber(2)])]) && "a" in keys
    ensures Supported(v, SLIDE, keys)
  {
    SlidePaths();
    SlideValue();
    hide Undamaged, RfcIndex, Encode, Rfc.RemoveFrom;
    assert Parent(["0", "a"]) == ["0"] && ["0"][1..] == [];
    assert Rfc.Get(VArray([VObject(map["b" := VNumber(2)])]), ["0"]) == Some(VObject(map["b" := VNumber(2)]));
  }

  lemma SlidePatch(patch: Json, cs: bool, keys: set<string>)
    requires patch == Object([Member("op", String("move")), Member("path", String("/0/a")), Member("from", String("/0"))])
    ensures Describes(patch, SLIDE, cs, keys)
  {
    SlidePaths();
    assert Lower("op")[0] == 'o' && Lower("path")[0] == 'p' && Lower("from")[0] == 'f';
    var ms := patch.members;
    hide Join;
    assert FindKey(ms, "op", cs) == Some(0);
    assert FindKey(ms, "path", cs) == Some(1);
    assert FindKey(ms, "from", cs) == Some(2);
  }

  /** An element of an array is moved into itself. */
  lemma ElementMovesIntoItself(cs: bool)
    ensures var doc := Array([Number(1), Object([Member("b", Number(2))])]);
            var patch := Object([Member("op", String("move")), Member("path", String("/0/a")), Member("from", String("/0"))]);
            var r := ApplyPatch(doc, patch, cs);
            && r.status == 0 && Meaning(r.doc) == VArray([VObject(map["b" := VNumber(2), "a" := VNumber(1)])])
            && Rfc.Apply(Meaning(doc), SLIDE).None?
  {
    SlidePaths();
    SlideValue();
    var (doc, keys) := (Array([Number(1), Object([Member("b", Number(2))])]), {"0", "a", "b"});
    var patch := Object([Member("op", String("move")), Member("path", String("/0/a")), Member("from", String("/0"))]);
    SlideDocument(doc, keys);
    SlidePatch(patch, cs, keys);
    hide *;
    SlideRefines(doc, patch, SLIDE, cs, keys);
  }
}
