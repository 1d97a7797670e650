/** apply_patch does what RFC 6902 says, on documents whose keys are unique up to case. */
module JsonPatchRefinement {
  import opened Text
  import opened Json
  import opened JsonPointer
  import opened JsonOrder
  import opened JsonPatch
  import Rfc = Rfc6902

  type Tokens = Rfc.Tokens

  /** The pointer text of a list of tokens. */
  function Join(path: Tokens): (p: string)
    ensures AtEnd(p)
  {
    if path == [] then "" else "/" + (Encode(path[0]) + Join(path[1..]))
  }

  function Parent(path: Tokens): Tokens
    requires path != []
  {
    path[..|path| - 1]
  }

  function Last(path: Tokens): string
    requires path != []
  {
    path[|path| - 1]
  }

  lemma {:induction false} JoinParent(path: Tokens)
    requires path != []
    ensures Join(path) == Join(Parent(path)) + ("/" + Encode(Last(path)))
  {
    if |path| == 1 {
      assert path[1..] == [];
      assert Join(path[1..]) == "";
      assert Encode(path[0]) + "" == Encode(path[0]);
    } else {
      var rest := path[1..];
      JoinParent(rest);
      assert Parent(path)[1..] == Parent(rest);
      assert Parent(path)[0] == path[0] && Last(rest) == Last(path);
      hide Encode;
      AppendAssociative(Encode(path[0]), Join(Parent(rest)), "/" + Encode(Last(path)));
      AppendAssociative("/", Encode(path[0]) + Join(Parent(rest)), "/" + Encode(Last(path)));
    }
  }

  lemma {:induction false} LastSlashOf(p: string, token: string)
    requires '/' !in token
    ensures LastSlash(p + ("/" + token)) == Some(|p|)
    decreases |token|
  {
    var s := p + ("/" + token);
    var n := |s| - 1;
    if token == "" {
      assert s[n] == '/';
    } else {
      var t := token[..|token| - 1];
      assert s[n] == token[|token| - 1];
      assert s[..n] == p + ("/" + t);
      LastSlashOf(p, t);
    }
  }

  /** How the code splits the pointer text of a non-empty path. */
  lemma SplitJoin(path: Tokens)
    requires path != []
    ensures LastSlash(Join(path)) == Some(|Join(Parent(path))|)
    ensures Join(path)[..|Join(Parent(path))|] == Join(Parent(path))
    ensures Join(path)[|Join(Parent(path))| + 1..] == Encode(Last(path))
    ensures Join(path) != ""
  {
    hide Encode, Join;
    JoinParent(path);
    EncodeHasNoSlash(Last(path));
    LastSlashOf(Join(Parent(path)), Encode(Last(path)));
    var (p, t) := (Join(Parent(path)), Encode(Last(path)));
    assert (p + ("/" + t))[|p| + 1..] == t;
  }

  // ----- one step down -----

  lemma EncodeOfIndex(token: string)
    requires RfcIndex(token).Some?
    ensures Encode(token) == token && '/' !in token
  {
    EncodePlain(token);
  }

  /** An index is read as RFC 6901 says, also in front of more path. */
  lemma IndexRead(token: string, rest: string)
    requires RfcIndex(token).Some? && RfcIndex(token).value < SIZE_LIMIT && AtEnd(rest)
    ensures DecodeIndex(token) == RfcIndex(token) == DecodeIndex(token + rest) && Encode(token) == token && token != "-"
  {
    EncodeOfIndex(token);
    assert RfcIndex(token).value % 0x1_0000_0000 == RfcIndex(token).value;
    assert AllDigits(token);
    hide Encode, DecodeIndex, RfcIndex;
    DecodeIndexToken(token, rest);
    DecodeIndexExact(token);
  }

  lemma SelectItem(items: seq<Json>, token: string, rest: string, cs: bool)
    requires |items| < SIZE_LIMIT && AtEnd(rest)
    requires RfcIndex(token).Some? && RfcIndex(token).value < |items|
    ensures Select(Array(items), Encode(token) + rest, cs) == RfcIndex(token)
  {
    hide Encode, DecodeIndex, RfcIndex, AtEnd;
    IndexRead(token, rest);
  }

  lemma SelectRefines(node: Json, token: string, rest: string, cs: bool, keys: set<string>)
    requires ToldApart(keys, cs) && WellFormed(node, keys) && AtEnd(rest)
    requires Rfc.Step(Meaning(node), token).Some?
    ensures var r := Select(node, Encode(token) + rest, cs);
            && r.Some?
            && WellFormed(Child(node, r.value), keys)
            && Rfc.Step(Meaning(node), token) == Some(Meaning(Child(node, r.value)))
            && (node.Object? ==> node.members[r.value].key == token)
            && (node.Array? ==> RfcIndex(token) == Some(r.value))
  {
    match node {
      case Array(items) =>
        SelectItem(items, token, rest, cs);
        hide Encode, DecodeIndex, Select, RfcIndex;
      case Object(ms) =>
        hide Encode, MapOf;
        FindMatchKey(ms, token, rest, cs);
        MapOfUnique(ms);
        FindKeyMeaning(ms, token, cs, keys);
    }
  }

  lemma WithChildRefines(node: Json, token: string, i: nat, x: Json, keys: set<string>)
    requires WellFormed(node, keys) && WellFormed(x, keys)
    requires i < Arity(node) && Rfc.Step(Meaning(node), token).Some?
    requires node.Object? ==> node.members[i].key == token
    requires node.Array? ==> RfcIndex(token) == Some(i)
    ensures WellFormed(WithChild(node, i, x), keys)
    ensures Meaning(WithChild(node, i, x)) == Rfc.Put(Meaning(node), token, Meaning(x))
  {
    match node {
      case Array(items) =>
        assert MeaningAll(items[i := x]) == MeaningAll(items)[i := Meaning(x)];
      case Object(ms) =>
        MapOfUpdate(ms, i, x);
    }
  }

  // ----- following a path of tokens -----

  lemma {:induction false} LocateRefines(node: Json, path: Tokens, cs: bool, keys: set<string>)
    requires ToldApart(keys, cs) && WellFormed(node, keys)
    requires Rfc.Get(Meaning(node), path).Some?
    ensures var r := Locate(node, Join(path), cs);
            && r.Some?
            && WellFormed(At(node, r.value), keys)
            && Rfc.Get(Meaning(node), path) == Some(Meaning(At(node, r.value)))
  {
    if path != [] {
      hide Encode, Select, Meaning, WellFormed, SkipToken;
      var rest := Join(path[1..]);
      SelectRefines(node, path[0], rest, cs, keys);
      var i := Select(node, Encode(path[0]) + rest, cs).value;
      LocateRefines(Child(node, i), path[1..], cs, keys);
      EncodeHasNoSlash(path[0]);
      SkipTokenOver(Encode(path[0]), rest);
      LocateStep(node, Encode(path[0]) + rest, cs);
      var below := Locate(Child(node, i), rest, cs).value;
      AtBelow(node, i, below);
    }
  }

  lemma AtBelow(node: Json, i: nat, below: Path)
    requires i < Arity(node) && ValidPath(Child(node, i), below)
    ensures ValidPath(node, [i] + below)
    ensures At(node, [i] + below) == At(Child(node, i), below)
    ensures forall x :: Update(node, [i] + below, x) == WithChild(node, i, Update(Child(node, i), below, x))
  {
    assert ([i] + below)[1..] == below;
  }

  /** Replacing the node that a path leads to is Set on the value. */
  lemma {:induction false} UpdateRefines(node: Json, path: Tokens, x: Json, cs: bool, keys: set<string>)
    requires ToldApart(keys, cs) && WellFormed(node, keys) && WellFormed(x, keys)
    requires Rfc.Get(Meaning(node), path).Some?
    ensures var r := Locate(node, Join(path), cs);
            && r.Some?
            && WellFormed(Update(node, r.value, x), keys)
            && Meaning(Update(node, r.value, x)) == Rfc.Set(Meaning(node), path, Meaning(x))
  {
    if path != [] {
      hide Encode, Select, Meaning, WellFormed, SkipToken;
      var rest := Join(path[1..]);
      SelectRefines(node, path[0], rest, cs, keys);
      var i := Select(node, Encode(path[0]) + rest, cs).value;
      UpdateRefines(Child(node, i), path[1..], x, cs, keys);
      EncodeHasNoSlash(path[0]);
      SkipTokenOver(Encode(path[0]), rest);
      LocateStep(node, Encode(path[0]) + rest, cs);
      var below := Locate(Child(node, i), rest, cs).value;
      AtBelow(node, i, below);
      WithChildRefines(node, path[0], i, Update(Child(node, i), below, x), keys);
    }
  }

  // ----- removing and adding a child -----

  lemma MeaningAllRemove(items: seq<Json>, i: nat)
    requires i < |items|
    ensures MeaningAll(RemoveAt(items, i)) == RemoveAt(MeaningAll(items), i)
  {
    hide Meaning;
  }

  lemma MeaningAllAppend(xs: seq<Json>, ys: seq<Json>)
    ensures MeaningAll(xs + ys) == MeaningAll(xs) + MeaningAll(ys)
  {
    hide Meaning;
  }

  lemma MeaningAllSlices(items: seq<Json>, i: nat)
    requires i <= |items|
    ensures MeaningAll(items[..i]) == MeaningAll(items)[..i]
    ensures MeaningAll(items[i..]) == MeaningAll(items)[i..]
  {
    hide Meaning;
  }

  lemma MeaningAllInsert(items: seq<Json>, i: nat, x: Json)
    requires i <= |items|
    ensures MeaningAll(InsertAt(items, i, x)) == InsertAt(MeaningAll(items), i, Meaning(x))
  {
    MeaningAllSlices(items, i);
    MeaningAllAppend(items[..i] + [x], items[i..]);
    MeaningAllAppend(items[..i], [x]);
    assert MeaningAll([x]) == [Meaning(x)];
    hide Meaning, MeaningAll;
  }

  lemma DetachItemRefines(items: seq<Json>, token: string, keys: set<string>)
    requires WellFormed(Array(items), keys)
    requires RfcIndex(token).Some? && RfcIndex(token).value < |items|
    ensures var i := RfcIndex(token).value;
            && DetachChild(Array(items), token) == Detached(items[i], Array(RemoveAt(items, i)))
            && WellFormed(Array(RemoveAt(items, i)), keys)
  {
    hide Encode, DecodeIndex, RfcIndex;
    IndexRead(token, "");
  }

  lemma DetachMemberRefines(ms: seq<Member>, token: string, keys: set<string>)
    requires OnlyKey(token, keys) && WellFormedMembers(ms, keys) && token in MapOf(ms)
    ensures var r := DetachChild(Object(ms), token);
            && r.Detached? && r.rest.Object?
            && WellFormedMembers(r.rest.members, keys) && WellFormed(r.item, keys)
            && MapOf(r.rest.members) == MapOf(ms) - {token}
            && MapOf(ms)[token] == Meaning(r.item)
  {
    hide FindKey, MapOf;
    MapOfUnique(ms);
    assert ms[FindKey(ms, token, false).value].key == token;
    RemoveMember(ms, FindKey(ms, token, false).value, keys);
  }

  /** Detaching pays no regard to letter case: it takes the right member exactly when no earlier one differs in case only. */
  lemma DetachMemberExact(ms: seq<Member>, token: string, keys: set<string>)
    requires WellFormedMembers(ms, keys) && token in MapOf(ms)
    ensures FindKey(ms, token, true).Some? && DetachChild(Object(ms), token).Detached?
    ensures var r := DetachChild(Object(ms), token);
            r.rest.Object? && (MapOf(r.rest.members) == MapOf(ms) - {token}
                               <==> forall i :: 0 <= i < FindKey(ms, token, true).value ==> Lower(ms[i].key) != Lower(token))
  {
    hide FindKey, MapOf;
    MapOfUnique(ms);
    FindKeyMeaning(ms, token, true, keys);
    var (i, k) := (FindKey(ms, token, false), FindKey(ms, token, true).value);
    RemoveMember(ms, i.value, keys);
    if i.value != k {
      assert ms[i.value].key != ms[k].key == token;
      assert token in MapOf(ms) - {ms[i.value].key};
    }
  }

  lemma DetachChildRefines(parent: Json, token: string, keys: set<string>)
    requires OnlyKey(token, keys) && WellFormed(parent, keys)
    requires Rfc.RemoveChild(Meaning(parent), token).Some?
    ensures var r := DetachChild(parent, token);
            && r.Detached?
            && WellFormed(r.rest, keys) && WellFormed(r.item, keys)
            && Rfc.RemoveChild(Meaning(parent), token) == Some(Meaning(r.rest))
            && Rfc.Step(Meaning(parent), token) == Some(Meaning(r.item))
  {
    hide DetachChild, RfcIndex, MapOf;
    match parent {
      case Array(items) =>
        DetachItemRefines(items, token, keys);
        MeaningAllRemove(items, RfcIndex(token).value);
      case Object(ms) =>
        DetachMemberRefines(ms, token, keys);
    }
  }

  /** There is room for one more element when the parent is an array, and the new key is one of the known
      keys when it is an object. */
  ghost predicate CanAdd(parent: Value, token: string, keys: set<string>) {
    match parent
    case VArray(items) => |items| + 1 < SIZE_LIMIT
    case VObject(_) => token in keys
    case _ => true
  }

  lemma AddItemRefines(items: seq<Json>, token: string, value: Json, cs: bool, keys: set<string>)
    requires WellFormed(Array(items), keys) && WellFormed(value, keys) && |items| + 1 < SIZE_LIMIT
    requires token != "-" ==> RfcIndex(token).Some? && RfcIndex(token).value <= |items|
    ensures var i := if token == "-" then |items| else RfcIndex(token).value;
            && AddChild(Array(items), token, value, cs) == Applied(0, Array(InsertAt(items, i, value)))
            && WellFormed(Array(InsertAt(items, i, value)), keys)
  {
    hide Encode, DecodeIndex, RfcIndex, WellFormed;
    if token == "-" {
      assert InsertAt(items, |items|, value) == items + [value];
      InsertWellFormed(items, |items|, value, keys);
    } else {
      IndexRead(token, "");
      hide InsertAt;
      InsertWellFormed(items, RfcIndex(token).value, value, keys);
    }
  }

  lemma AddMemberRefines(ms: seq<Member>, token: string, value: Json, cs: bool, keys: set<string>)
    requires ToldApart(keys, cs) && WellFormedMembers(ms, keys) && WellFormed(value, keys) && token in keys
    ensures var r := AddChild(Object(ms), token, value, cs);
            && r.status == 0 && r.doc.Object?
            && WellFormedMembers(r.doc.members, keys)
            && MapOf(r.doc.members) == MapOf(ms)[token := Meaning(value)]
  {
    hide FindKey, MapOf, Meaning, WellFormed, WellFormedMembers, ToldApart, SameKey;
    FindKeyMeaning(ms, token, cs, keys);
    match FindKey(ms, token, cs) {
      case None => AppendMember(ms, Member(token, value), keys);
      case Some(i) => ReplaceMember(ms, i, value, keys);
    }
  }

  lemma ReplaceMember(ms: seq<Member>, i: nat, value: Json, keys: set<string>)
    requires WellFormedMembers(ms, keys) && WellFormed(value, keys) && i < |ms| && ms[i].key in keys
    ensures WellFormedMembers(RemoveAt(ms, i) + [Member(ms[i].key, value)], keys)
    ensures MapOf(RemoveAt(ms, i) + [Member(ms[i].key, value)]) == MapOf(ms)[ms[i].key := Meaning(value)]
  {
    hide *;
    RemoveMember(ms, i, keys);
    AppendMember(RemoveAt(ms, i), Member(ms[i].key, value), keys);
    assert (MapOf(ms) - {ms[i].key})[ms[i].key := Meaning(value)] == MapOf(ms)[ms[i].key := Meaning(value)];
  }

  lemma AddChildRefines(parent: Json, token: string, value: Json, cs: bool, keys: set<string>)
    requires ToldApart(keys, cs) && WellFormed(parent, keys) && WellFormed(value, keys)
    requires CanAdd(Meaning(parent), token, keys)
    requires Rfc.AddChild(Meaning(parent), token, Meaning(value)).Some?
    ensures var r := AddChild(parent, token, value, cs);
            && r.status == 0 && WellFormed(r.doc, keys)
            && Rfc.AddChild(Meaning(parent), token, Meaning(value)) == Some(Meaning(r.doc))
  {
    hide AddChild, RfcIndex, MapOf;
    match parent {
      case Array(items) =>
        AddItemRefines(items, token, value, cs, keys);
        if token == "-" {
          MeaningAllInsert(items, |items|, value);
          assert InsertAt(MeaningAll(items), |items|, Meaning(value)) == MeaningAll(items) + [Meaning(value)];
        } else {
          MeaningAllInsert(items, RfcIndex(token).value, value);
        }
      case Object(ms) =>
        AddMemberRefines(ms, token, value, cs, keys);
    }
  }

  lemma InsertWellFormed(items: seq<Json>, i: nat, x: Json, keys: set<string>)
    requires i <= |items| && |items| + 1 < SIZE_LIMIT
    requires WellFormed(Array(items), keys) && WellFormed(x, keys)
    ensures WellFormed(Array(InsertAt(items, i, x)), keys)
  {
    var a := InsertAt(items, i, x);
    forall k | 0 <= k < |a|
      ensures WellFormed(a[k], keys)
    {
      if k != i {
        var j := if k < i then k else k - 1;
        assert a[if j < i then j else j + 1] == items[j];
      }
    }
  }

  // ----- whole operations -----

  /** What detach_path does when it finds the parent. */
  lemma DetachPathAt(doc: Json, path: Tokens, loc: Path, cs: bool)
    requires path != [] && Undamaged(Last(path)) && Locate(doc, Join(Parent(path)), cs) == Some(loc)
    ensures ValidPath(doc, loc)
    ensures DetachPath(doc, Join(path), cs)
            == match DetachChild(At(doc, loc), Last(path))
               case NotFound => NotFound
               case Detached(item, rest) => Detached(item, Update(doc, loc, rest))
  {
    hide Encode, Join, Locate, DecodeInPlace, Undamaged, DetachChild, At, Update;
    SplitJoin(path);
    DecodeInPlaceExact(Last(path));
  }

  lemma DetachPathRefines(doc: Json, path: Tokens, cs: bool, keys: set<string>)
    requires ToldApart(keys, cs) && WellFormed(doc, keys) && path != [] && Undamaged(Last(path)) && OnlyKey(Last(path), keys)
    requires Rfc.RemoveFrom(Meaning(doc), path).Some?
    ensures var r := DetachPath(doc, Join(path), cs);
            && r.Detached?
            && WellFormed(r.rest, keys) && WellFormed(r.item, keys)
            && Rfc.RemoveFrom(Meaning(doc), path) == Some(Meaning(r.rest))
            && Rfc.Get(Meaning(doc), path) == Some(Meaning(r.item))
  {
    var (parent, token) := (Parent(path), Last(path));
    assert path == parent + [token];
    assert Rfc.RemoveFrom(Meaning(doc), path)
           == match Rfc.Get(Meaning(doc), parent)
              case None => None
              case Some(p) => match Rfc.RemoveChild(p, token) case None => None case Some(q) => Some(Rfc.Set(Meaning(doc), parent, q));
    hide *;
    LocateRefines(doc, parent, cs, keys);
    var loc := Locate(doc, Join(parent), cs).value;
    DetachPathAt(doc, path, loc, cs);
    DetachChildRefines(At(doc, loc), token, keys);
    UpdateRefines(doc, parent, DetachChild(At(doc, loc), token).rest, cs, keys);
    Rfc.GetChild(Meaning(doc), parent, token);
  }

  ghost predicate CanAddAt(doc: Value, path: Tokens, keys: set<string>) {
    path != [] && Rfc.Get(doc, Parent(path)).Some? ==> CanAdd(Rfc.Get(doc, Parent(path)).value, Last(path), keys)
  }

  /** What the end of apply_patch does when it finds the parent. */
  lemma AddPathAt(doc: Json, path: Tokens, value: Json, loc: Path, cs: bool)
    requires path != [] && Undamaged(Last(path)) && Locate(doc, Join(Parent(path)), cs) == Some(loc)
    ensures ValidPath(doc, loc)
    ensures AddPath(doc, Join(path), value, cs)
            == var r := AddChild(At(doc, loc), Last(path), value, cs);
               if r.status == 0 then Applied(0, Update(doc, loc, r.doc)) else Applied(r.status, doc)
  {
    hide Encode, Join, Locate, DecodeInPlace, Undamaged, AddChild, At, Update;
    SplitJoin(path);
    DecodeInPlaceExact(Last(path));
  }

  lemma AddPathRefines(doc: Json, path: Tokens, value: Json, cs: bool, keys: set<string>)
    requires ToldApart(keys, cs) && WellFormed(doc, keys) && WellFormed(value, keys)
    requires path != [] && Undamaged(Last(path)) && CanAddAt(Meaning(doc), path, keys)
    requires Rfc.AddAt(Meaning(doc), path, Meaning(value)).Some?
    ensures var r := AddPath(doc, Join(path), value, cs);
            && r.status == 0 && WellFormed(r.doc, keys)
            && Rfc.AddAt(Meaning(doc), path, Meaning(value)) == Some(Meaning(r.doc))
  {
    var (parent, token) := (Parent(path), Last(path));
    assert Rfc.AddAt(Meaning(doc), path, Meaning(value))
           == match Rfc.Get(Meaning(doc), parent)
              case None => None
              case Some(p) => match Rfc.AddChild(p, token, Meaning(value)) case None => None case Some(q) => Some(Rfc.Set(Meaning(doc), parent, q));
    assert Rfc.Get(Meaning(doc), parent).Some? ==> CanAdd(Rfc.Get(Meaning(doc), parent).value, token, keys);
    hide *;
    LocateRefines(doc, parent, cs, keys);
    var loc := Locate(doc, Join(parent), cs).value;
    AddPathAt(doc, path, value, loc, cs);
    AddChildRefines(At(doc, loc), token, value, cs, keys);
    UpdateRefines(doc, parent, AddChild(At(doc, loc), token, value, cs).doc, cs, keys);
  }

  /** Replacing a node that exists is removing it and adding the new value at the same path. */
  lemma ReplaceIsRemoveThenAdd(v: Value, path: Tokens, x: Value)
    requires path != [] && Rfc.Get(v, path).Some?
    ensures Rfc.RemoveFrom(v, path).Some?
    ensures Rfc.AddAt(Rfc.RemoveFrom(v, path).value, path, x) == Some(Rfc.Set(v, path, x))
  {
    var (parent, token) := (Parent(path), Last(path));
    assert path == parent + [token];
    hide Rfc.Get, Rfc.Set;
    Rfc.GetChild(v, parent, token);
    var p := Rfc.Get(v, parent).value;
    Rfc.SetChild(v, parent, token, x);
    var q := Rfc.RemoveChild(p, token).value;
    Rfc.GetSet(v, parent, q);
    Rfc.SetSet(v, parent, q, Rfc.Put(p, token, x));
    PutIsRemoveThenAdd(p, token, x);
  }

  lemma PutIsRemoveThenAdd(p: Value, token: string, x: Value)
    requires Rfc.Step(p, token).Some?
    ensures Rfc.RemoveChild(p, token).Some?
    ensures Rfc.AddChild(Rfc.RemoveChild(p, token).value, token, x) == Some(Rfc.Put(p, token, x))
  {
    match p {
      case VArray(items) =>
        var i := RfcIndex(token).value;
        assert InsertAt(RemoveAt(items, i), i, x) == items[i := x];
        assert token != "-";
      case VObject(m) =>
        assert (m - {token})[token := x] == m[token := x];
    }
  }

  // ----- apply_patch succeeds when RFC 6902 says so -----

  function OpName(op: Rfc.Operation): string {
    match op
    case Add(_, _) => "add"
    case Remove(_) => "remove"
    case Replace(_, _) => "replace"
    case Move(_, _) => "move"
    case Copy(_, _) => "copy"
    case Test(_, _) => "test"
  }

  /** The patch item says to perform the operation. */
  ghost predicate Describes(patch: Json, op: Rfc.Operation, cs: bool, keys: set<string>) {
    && GetMember(patch, "op", cs) == Some(String(OpName(op)))
    && GetMember(patch, "path", cs) == Some(String(Join(op.path)))
    && (op.Move? || op.Copy? ==> GetMember(patch, "from", cs) == Some(String(Join(op.from))))
    && (op.Add? || op.Replace? || op.Test? ==>
          var value := GetMember(patch, "value", cs);
          value.Some? && WellFormed(value.value, keys) && Meaning(value.value) == op.value)
  }

  /** The last tokens of the paths where a child is removed or added survive decode_pointer_inplace, and
      what is added fits. */
  ghost predicate Supported(doc: Value, op: Rfc.Operation, keys: set<string>) {
    match op
    case Add(path, _) => path == [] || (Undamaged(Last(path)) && CanAddAt(doc, path, keys))
    case Remove(path) => path != [] && Undamaged(Last(path))
    case Replace(path, _) =>
      path == [] ||
      (Undamaged(Last(path)) && (Rfc.RemoveFrom(doc, path).Some? ==> CanAddAt(Rfc.RemoveFrom(doc, path).value, path, keys)))
    case Move(from, path) =>
      from != [] && path != [] ==>
        Undamaged(Last(from)) && Undamaged(Last(path)) &&
        (Rfc.RemoveFrom(doc, from).Some? ==> CanAddAt(Rfc.RemoveFrom(doc, from).value, path, keys))
    case Copy(from, path) => path != [] ==> Undamaged(Last(path)) && CanAddAt(doc, path, keys)
    case Test(_, _) => true
  }

  lemma JoinEmpty(path: Tokens)
    ensures Join(path) == "" <==> path == []
  {
  }

  lemma ReplaceRefines(doc: Json, path: Tokens, x: Json, cs: bool, keys: set<string>)
    requires ToldApart(keys, cs) && (path != [] ==> OnlyKey(Last(path), keys)) && WellFormed(doc, keys) && WellFormed(x, keys)
    requires Supported(Meaning(doc), Rfc.Replace(path, Meaning(x)), keys)
    requires Rfc.Get(Meaning(doc), path).Some?
    ensures var r := ApplyWithValue(doc, true, Join(path), Some(x), cs);
            && r.status == 0 && WellFormed(r.doc, keys)
            && Meaning(r.doc) == Rfc.Set(Meaning(doc), path, Meaning(x))
  {
    JoinEmpty(path);
    if path != [] {
      hide Join, Meaning, WellFormed, Undamaged, CanAddAt, Rfc.Get, Rfc.Set, Rfc.AddAt, Rfc.RemoveFrom, DetachPath, AddPath;
      ReplaceIsRemoveThenAdd(Meaning(doc), path, Meaning(x));
      DetachPathRefines(doc, path, cs, keys);
      AddPathRefines(DetachPath(doc, Join(path), cs).rest, path, x, cs, keys);
    }
  }

  lemma MoveRefines(doc: Json, from: Tokens, path: Tokens, cs: bool, keys: set<string>)
    requires ToldApart(keys, cs) && from != [] && path != [] && OnlyKey(Last(from), keys) && WellFormed(doc, keys)
    requires Supported(Meaning(doc), Rfc.Move(from, path), keys)
    requires Rfc.Relocate(Meaning(doc), from, path).Some?
    ensures var r := ApplyMove(doc, Join(path), Some(String(Join(from))), cs);
            && r.status == 0 && WellFormed(r.doc, keys)
            && Rfc.Relocate(Meaning(doc), from, path) == Some(Meaning(r.doc))
  {
    hide Join, Meaning, WellFormed, Undamaged, CanAddAt, Rfc.Get, Rfc.Set, Rfc.AddAt, Rfc.RemoveFrom, DetachPath, AddPath;
    DetachPathRefines(doc, from, cs, keys);
    var r := DetachPath(doc, Join(from), cs);
    AddPathRefines(r.rest, path, r.item, cs, keys);
  }

  lemma CopyRefines(doc: Json, from: Tokens, path: Tokens, cs: bool, keys: set<string>)
    requires ToldApart(keys, cs) && path != [] && WellFormed(doc, keys)
    requires Supported(Meaning(doc), Rfc.Copy(from, path), keys)
    requires Rfc.Apply(Meaning(doc), Rfc.Copy(from, path)).Some?
    ensures var r := ApplyCopy(doc, Join(path), Some(String(Join(from))), cs);
            && r.status == 0 && WellFormed(r.doc, keys)
            && Rfc.Apply(Meaning(doc), Rfc.Copy(from, path)) == Some(Meaning(r.doc))
  {
    hide Join, Meaning, WellFormed, Undamaged, CanAddAt, Rfc.Get, Rfc.Set, Rfc.AddAt, Rfc.RemoveFrom, Locate, AddPath;
    LocateRefines(doc, from, cs, keys);
    AddPathRefines(doc, path, At(doc, Locate(doc, Join(from), cs).value), cs, keys);
  }

  lemma TestRefines(doc: Json, path: Tokens, x: Json, cs: bool, keys: set<string>)
    requires ToldApart(keys, cs) && WellFormed(doc, keys) && WellFormed(x, keys)
    requires Rfc.Get(Meaning(doc), path).Some?
    ensures ApplyTest(doc, Join(path), Some(x), cs)
            == Applied(if Rfc.Get(Meaning(doc), path) == Some(Meaning(x)) then 0 else 1, doc)
  {
    hide Join, Meaning, WellFormed, Rfc.Get, Locate, CompareJson;
    LocateRefines(doc, path, cs, keys);
    CompareJsonMeaning(At(doc, Locate(doc, Join(path), cs).value), x, cs, keys);
  }

  /** Detaching a child compares keys without regard to case; the key that is meant is not mistaken for another. */
  ghost predicate Unmistaken(op: Rfc.Operation, keys: set<string>) {
    match op
    case Remove(path) => path != [] ==> OnlyKey(Last(path), keys)
    case Replace(path, _) => path != [] ==> OnlyKey(Last(path), keys)
    case Move(from, _) => from != [] ==> OnlyKey(Last(from), keys)
    case _ => true
  }

  /** Moving or copying to the whole document, which the code does not implement. */
  predicate ToWholeDocument(op: Rfc.Operation) {
    (op.Move? || op.Copy?) && op.path == []
  }

  /** Main result: when RFC 6902 defines the outcome of an operation, apply_patch returns 0 and leaves a
      document with that value. */
  lemma ApplySucceeds(doc: Json, patch: Json, op: Rfc.Operation, cs: bool, keys: set<string>)
    requires ToldApart(keys, cs) && Unmistaken(op, keys) && WellFormed(doc, keys)
    requires Describes(patch, op, cs, keys) && Supported(Meaning(doc), op, keys) && (op.Remove? ==> op.path != [])
    requires Rfc.Apply(Meaning(doc), op).Some? && !ToWholeDocument(op)
    ensures ApplyPatch(doc, patch, cs).status == 0
    ensures WellFormed(ApplyPatch(doc, patch, cs).doc, keys)
    ensures Rfc.Apply(Meaning(doc), op) == Some(Meaning(ApplyPatch(doc, patch, cs).doc))
  {
    JoinEmpty(op.path);
    hide Join, Meaning, WellFormed, Undamaged, CanAddAt, Rfc.Get, Rfc.Set, Rfc.AddAt, Rfc.RemoveFrom, DetachPath, AddPath;
    hide ApplyWithValue, ApplyMove, ApplyCopy, ApplyTest, GetMember;
    match op {
      case Remove(path) => DetachPathRefines(doc, path, cs, keys);
      case Add(path, _) => AddRefines(doc, path, GetMember(patch, "value", cs).value, cs, keys);
      case Replace(path, _) => ReplaceRefines(doc, path, GetMember(patch, "value", cs).value, cs, keys);
      case Move(from, path) => MoveRefines(doc, from, path, cs, keys);
      case Copy(from, path) => CopyRefines(doc, from, path, cs, keys);
      case Test(path, _) => TestRefines(doc, path, GetMember(patch, "value", cs).value, cs, keys);
    }
  }

  lemma AddRefines(doc: Json, path: Tokens, x: Json, cs: bool, keys: set<string>)
    requires ToldApart(keys, cs) && WellFormed(doc, keys) && WellFormed(x, keys)
    requires Supported(Meaning(doc), Rfc.Add(path, Meaning(x)), keys)
    requires Rfc.AddAt(Meaning(doc), path, Meaning(x)).Some?
    ensures var r := ApplyWithValue(doc, false, Join(path), Some(x), cs);
            && r.status == 0 && WellFormed(r.doc, keys)
            && Rfc.AddAt(Meaning(doc), path, Meaning(x)) == Some(Meaning(r.doc))
  {
    JoinEmpty(path);
    if path != [] {
      hide Join, Meaning, WellFormed, Undamaged, CanAddAt, Rfc.AddAt, AddPath;
      AddPathRefines(doc, path, x, cs, keys);
    }
  }
}
