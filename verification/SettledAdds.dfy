/** The pointers of a document are right exactly when new members can be added to all its objects. */
module SettledAdds {
  import opened Text
  import opened Json
  import opened JsonPointer
  import opened JsonPatch
  import opened JsonPatchRefinement
  import opened JsonTails
  import opened SortTails
  import opened LivePatch
  import opened PatchGeneration
  import opened PatchRoundTrip
  import Rfc = Rfc6902

  type Tokens = Rfc.Tokens

  // ----- the tokens of a place in a document -----

  function TokenOf(node: Json, i: nat): string
    requires i < Arity(node)
  {
    match node
    case Object(ms) => ms[i].key
    case _ => Decimal(i)
  }

  function TokensOf(node: Json, loc: Path): Tokens
    requires ValidPath(node, loc)
  {
    if loc == [] then [] else [TokenOf(node, loc[0])] + TokensOf(Child(node, loc[0]), loc[1..])
  }

  lemma {:induction false} TokenLeads(node: Json, i: nat, rest: string, cs: bool, keys: set<string>)
    requires ToldApart(keys, cs) && WellFormed(node, keys) && i < Arity(node) && AtEnd(rest)
    ensures Rfc.Step(Meaning(node), TokenOf(node, i)) == Some(Meaning(Child(node, i)))
    ensures Select(node, Encode(TokenOf(node, i)) + rest, cs) == Some(i)
    ensures WellFormed(Child(node, i), keys)
  {
    match node {
      case Array(items) =>
        RfcIndexOfDecimal(i);
        hide Encode, RfcIndex, Decimal, Select, AtEnd;
        SelectItem(items, Decimal(i), rest, cs);
      case Object(ms) =>
        MapOfUnique(ms);
        hide Encode, Select, MapOf;
        SelectRefines(node, ms[i].key, rest, cs, keys);
      case _ =>
    }
  }

  lemma {:induction false} TokensLead(node: Json, loc: Path, cs: bool, keys: set<string>)
    requires ToldApart(keys, cs) && WellFormed(node, keys) && ValidPath(node, loc)
    ensures Rfc.Get(Meaning(node), TokensOf(node, loc)) == Some(Meaning(At(node, loc)))
    ensures Locate(node, Join(TokensOf(node, loc)), cs) == Some(loc)
    decreases |loc|
  {
    if loc != [] {
      var (t, c, path) := (TokenOf(node, loc[0]), Child(node, loc[0]), TokensOf(Child(node, loc[0]), loc[1..]));
      var rest := Join(path);
      assert TokensOf(node, loc)[1..] == path && TokensOf(node, loc)[0] == t;
      hide Encode, Select, Meaning, WellFormed, SkipToken, TokenOf;
      TokenLeads(node, loc[0], rest, cs, keys);
      TokensLead(c, loc[1..], cs, keys);
      EncodeHasNoSlash(t);
      SkipTokenOver(Encode(t), rest);
      LocateStep(node, Encode(t) + rest, cs);
      UnderIs(loc[0], Some(loc[1..]), loc);
    }
  }

  // ----- an object with a wrong pointer -----

  lemma {:induction false} WrongObject(doc: Live) returns (loc: Path)
    requires !Settled(doc)
    ensures ValidPath(Erase(doc), loc)
    ensures var l := LiveAt(doc, loc); l.LiveObject? && !Ready(|l.members|, l.tail)
    decreases doc
  {
    match doc {
      case LiveArray(items) =>
        var i :| 0 <= i < |items| && !Settled(items[i]);
        var below := WrongObject(items[i]);
        WrongBelow(doc, i, items[i], below);
        loc := [i] + below;
      case LiveObject(ms, tail) =>
        if !Ready(|ms|, tail) {
          return [];
        }
        var i :| 0 <= i < |ms| && !Settled(ms[i].value);
        assert ms[i].value < ms[i];
        var below := WrongObject(ms[i].value);
        WrongBelow(doc, i, ms[i].value, below);
        loc := [i] + below;
    }
  }

  lemma {:induction false} WrongBelow(doc: Live, i: nat, c: Live, below: Path)
    requires i < Arity(Erase(doc)) && LiveChild(doc, i) == c && ValidPath(Erase(c), below)
    ensures ValidPath(Erase(doc), [i] + below) && LiveAt(doc, [i] + below) == LiveAt(c, below)
  {
    assert ([i] + below)[1..] == below;
  }

  // ----- adding a new member -----

  /** A patch that adds a member with the key to the object at the path. */
  ghost predicate Adds(v: Value, path: Tokens, n: string, patch: Json, x: Value, cs: bool, keys: set<string>) {
    && Rfc.Get(v, path).Some? && Rfc.Get(v, path).value.VObject?
    && Describes(patch, Rfc.Add(path + [n], x), cs, keys)
  }

  /** Whatever is added with this key, and wherever, is added as RFC 6902 says. */
  ghost predicate AllAddsWork(doc: Live, n: string, cs: bool, keys: set<string>) {
    forall path: Tokens, patch: Json, x: Value :: Adds(Meaning(Erase(doc)), path, n, patch, x, cs, keys) ==>
      Conforms(ApplyLive(doc, patch, cs), Rfc.Apply(Meaning(Erase(doc)), Rfc.Add(path + [n], x)))
  }

  /** Adding to an object is defined, and there is room for a key of the set. */
  lemma {:induction false} AddDefined(v: Value, path: Tokens, n: string, x: Value, keys: set<string>)
    requires Rfc.Get(v, path).Some? && Rfc.Get(v, path).value.VObject? && n in keys && Undamaged(n)
    ensures Rfc.Apply(v, Rfc.Add(path + [n], x)).Some? && Supported(v, Rfc.Add(path + [n], x), keys)
  {
    assert Parent(path + [n]) == path && Last(path + [n]) == n;
    hide Rfc.Get, Rfc.Set, Undamaged;
  }

  lemma {:induction false} AddIsPlain(path: Tokens, n: string, patch: Json, x: Value, cs: bool, keys: set<string>)
    requires Describes(patch, Rfc.Add(path + [n], x), cs, keys)
    ensures var op := Rfc.Add(path + [n], x); op.Add? && Unmistaken(op, keys) && !ToWholeDocument(op) && !IsTest(patch, cs)
  {
    hide GetMember, Join;
  }

  lemma {:induction false} CoveredOf(v: Value, patch: Json, op: Rfc.Operation, cs: bool, keys: set<string>)
    requires ToldApart(keys, cs) && Unmistaken(op, keys) && Describes(patch, op, cs, keys) && Supported(v, op, keys) && op.Add?
    requires Rfc.Apply(v, op).Some?
    ensures Covered(v, patch, op, cs, keys)
  {
    hide ToldApart, Unmistaken, Describes, Supported, Rfc.Apply;
  }

  lemma {:induction false} AddCovered(v: Value, path: Tokens, n: string, patch: Json, x: Value, cs: bool, keys: set<string>)
    requires ToldApart(keys, cs) && n in keys && Undamaged(n) && Adds(v, path, n, patch, x, cs, keys)
    ensures Covered(v, patch, Rfc.Add(path + [n], x), cs, keys) && Rfc.Apply(v, Rfc.Add(path + [n], x)).Some?
    ensures !IsTest(patch, cs) && !ToWholeDocument(Rfc.Add(path + [n], x))
  {
    hide ToldApart, Unmistaken, Describes, Supported, Covered, IsTest, ToWholeDocument, Undamaged, Rfc.Get, Rfc.Apply;
    AddIsPlain(path, n, patch, x, cs, keys);
    AddDefined(v, path, n, x, keys);
    CoveredOf(v, patch, Rfc.Add(path + [n], x), cs, keys);
  }

  lemma {:induction false} AddExact(doc: Live, path: Tokens, n: string, patch: Json, x: Value, cs: bool, keys: set<string>)
    requires ToldApart(keys, cs) && n in keys && Undamaged(n) && WellFormed(Erase(doc), keys)
    requires Adds(Meaning(Erase(doc)), path, n, patch, x, cs, keys)
    ensures Conforms(ApplyLive(doc, patch, cs), Rfc.Apply(Meaning(Erase(doc)), Rfc.Add(path + [n], x))) <==> ReadyFor(doc, patch, cs)
    ensures !IsTest(patch, cs)
  {
    var (v, op) := (Meaning(Erase(doc)), Rfc.Add(path + [n], x));
    AddCovered(v, path, n, patch, x, cs, keys);
    assert GoesRight(doc, v, patch, op, cs) <==> ReadyFor(doc, patch, cs);
    hide *;
    OperationExact(doc, patch, op, cs, keys);
  }

  lemma {:induction false} ReadyForAdd(doc: Live, patch: Json, path: Tokens, x: Json, cs: bool)
    requires GetMember(patch, "op", cs) == Some(String("add")) && GetMember(patch, "path", cs) == Some(String(Join(path)))
    requires GetMember(patch, "value", cs) == Some(x) && path != []
    ensures ReadyFor(doc, patch, cs) <==> AddPathReady(doc, Join(path), cs)
  {
    JoinEmpty(path);
    hide GetMember, Join, AddPathReady;
  }

  lemma {:induction false} AddPathReadyAt(doc: Live, path: Tokens, n: string, loc: Path, cs: bool)
    requires Locate(Erase(doc), Join(path), cs) == Some(loc) && Undamaged(n)
    ensures ValidPath(Erase(doc), loc) && (AddPathReady(doc, Join(path + [n]), cs) <==> AddReady(LiveAt(doc, loc), n, cs))
  {
    hide *;
    ParentOf(path, n);
    SplitJoin(path + [n]);
    DecodeInPlaceExact(n);
    AddPathReadyIs(doc, Join(path + [n]), |Join(path)|, loc, cs);
  }

  lemma {:induction false} ParentOf(path: Tokens, n: string)
    ensures Parent(path + [n]) == path && Last(path + [n]) == n
  {
  }

  lemma {:induction false} AddPathReadyIs(doc: Live, text: string, slash: nat, loc: Path, cs: bool)
    requires LastSlash(text) == Some(slash) && Locate(Erase(doc), text[..slash], cs) == Some(loc)
    ensures ValidPath(Erase(doc), loc)
    ensures AddPathReady(doc, text, cs) <==> AddReady(LiveAt(doc, loc), DecodeInPlace(text[slash + 1..]), cs)
  {
    hide LastSlash, DecodeInPlace, Locate, AddReady, LiveAt, Erase;
  }

  lemma {:induction false} NewKeyReady(l: Live, n: string, cs: bool, keys: set<string>)
    requires l.LiveObject? && WellFormed(Erase(l), keys) && n !in keys && ToldApart(keys + {n}, cs)
    ensures AddReady(l, n, cs) <==> Ready(|l.members|, l.tail)
  {
    var es := EraseMembers(l.members);
    assert Erase(l) == Object(es) && WellFormedMembers(es, keys);
    forall i | 0 <= i < |es|
      ensures !SameKey(es[i].key, n, cs)
    {
      assert es[i].key in keys;
    }
    hide Erase, EraseMembers, WellFormed, WellFormedMembers, SameKey;
  }

  lemma {:induction false} AddOfNumber(v: Value, path: Tokens, n: string, cs: bool, keys: set<string>)
    requires Rfc.Get(v, path).Some? && Rfc.Get(v, path).value.VObject?
    ensures var patch := ComposePatch("add", Join(path), Some(n), Some(Number(1)));
            && Adds(v, path, n, patch, VNumber(1), cs, keys)
            && GetMember(patch, "op", cs) == Some(String("add")) && GetMember(patch, "path", cs) == Some(String(Join(path + [n])))
            && GetMember(patch, "value", cs) == Some(Number(1))
  {
    assert WellFormed(Number(1), keys) && Meaning(Number(1)) == VNumber(1);
    hide ComposePatch, Join, GetMember, Rfc.Get, Meaning, WellFormed;
    ComposedFields("add", path, Some(n), Some(Number(1)), cs);
  }

  /** A new member is lost by an object with a wrong pointer. */
  lemma {:induction false} AddLost(doc: Live, n: string, cs: bool, keys: set<string>) returns (path: Tokens, patch: Json)
    requires WellFormed(Erase(doc), keys) && n !in keys && ToldApart(keys + {n}, cs) && Undamaged(n) && !Settled(doc)
    ensures Adds(Meaning(Erase(doc)), path, n, patch, VNumber(1), cs, keys + {n}) && !ReadyFor(doc, patch, cs)
  {
    assert ToldApart(keys, cs);
    var loc := WrongObject(doc);
    var l := LiveAt(doc, loc);
    path := TokensOf(Erase(doc), loc);
    patch := ComposePatch("add", Join(path), Some(n), Some(Number(1)));
    assert Meaning(Erase(l)).VObject?;
    hide *;
    TokensLead(Erase(doc), loc, cs, keys);
    AddOfNumber(Meaning(Erase(doc)), path, n, cs, keys + {n});
    ReadyForAdd(doc, patch, path + [n], Number(1), cs);
    AddPathReadyAt(doc, path, n, loc, cs);
    WellFormedAt(Erase(doc), loc, keys);
    NewKeyReady(l, n, cs, keys);
  }

  /** Main result: all pointers of a document are right exactly when every addition of a new member works, wherever it goes. */
  lemma {:induction false} SettledExact(doc: Live, n: string, cs: bool, keys: set<string>)
    requires WellFormed(Erase(doc), keys) && n !in keys && ToldApart(keys + {n}, cs) && Undamaged(n)
    ensures Settled(doc) <==> AllAddsWork(doc, n, cs, keys + {n})
  {
    var (v, all) := (Meaning(Erase(doc)), keys + {n});
    MoreKeys(Erase(doc), keys, all);
    hide Settled, Adds, Conforms, ApplyLive, Erase, Meaning, WellFormed, Undamaged, ToldApart, ReadyFor, Rfc.Apply;
    if Settled(doc) {
      forall path: Tokens, patch: Json, x: Value | Adds(v, path, n, patch, x, cs, all)
        ensures Conforms(ApplyLive(doc, patch, cs), Rfc.Apply(v, Rfc.Add(path + [n], x)))
      {
        AddExact(doc, path, n, patch, x, cs, all);
        ApplyLiveSettled(doc, patch, cs);
      }
    } else {
      var path, patch := AddLost(doc, n, cs, keys);
      AddExact(doc, path, n, patch, VNumber(1), cs, all);
    }
  }

  /** Main result: after a test that succeeds, every addition of a new member works exactly when sorting leaves the first and the last member
      of each object in the tested tree in place. */
  lemma {:induction false} AddsAfterTest(doc: Live, test: Json, n: string, cs: bool, keys: set<string>)
    requires WellFormed(Erase(doc), keys) && n !in keys && ToldApart(keys + {n}, cs) && Undamaged(n) && Settled(doc)
    requires IsTest(test, cs) && ApplyLive(doc, test, cs).status == 0
    ensures TestedAt(doc, test, cs).Some? && ValidPath(Erase(doc), TestedAt(doc, test, cs).value)
    ensures AllAddsWork(ApplyLive(doc, test, cs).doc, n, cs, keys + {n})
            <==> EndsKeptThroughout(At(Erase(doc), TestedAt(doc, test, cs).value), cs)
  {
    assert ToldApart(keys, cs);
    hide *;
    TestSettled(doc, test, cs, keys);
    TestKeeps(doc, test, cs, keys);
    SettledExact(ApplyLive(doc, test, cs).doc, n, cs, keys);
  }
}
