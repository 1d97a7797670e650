/** Documents with the prev pointers of the heads of their member lists. Sorting an object does not restore that pointer, and appending
    goes behind the item that it names. */
module JsonTails {
  import opened Text
  import opened Json
  import opened JsonPointer
  import opened JsonOrder
  import opened JsonPatch

  /** What the prev pointer of the first member names: nothing, the member at a position, or an item that has left the list. */
  datatype Tail = NoTail | TailAt(position: nat) | TailGone

  /** A tree as parsing or duplicating builds it, or one whose lists may have been sorted. Arrays are never sorted. */
  datatype Live = Fresh(json: Json) | LiveArray(items: seq<Live>) | LiveObject(members: seq<LiveMember>, tail: Tail)

  datatype LiveMember = LiveMember(key: string, value: Live)

  /** The tree without the pointers. */
  function Erase(l: Live): Json {
    match l
    case Fresh(j) => j
    case LiveArray(items) => Array(EraseItems(items))
    case LiveObject(ms, _) => Object(EraseMembers(ms))
  }

  function EraseItems(items: seq<Live>): (r: seq<Json>)
    ensures |r| == |items|
    ensures forall i :: 0 <= i < |items| ==> r[i] == Erase(items[i])
  {
    seq(|items|, i requires 0 <= i < |items| => Erase(items[i]))
  }

  function EraseMember(m: LiveMember): Member {
    Member(m.key, Erase(m.value))
  }

  function EraseMembers(ms: seq<LiveMember>): (r: seq<Member>)
    ensures |r| == |ms|
    ensures forall i :: 0 <= i < |ms| ==> r[i] == EraseMember(ms[i])
  {
    seq(|ms|, i requires 0 <= i < |ms| => EraseMember(ms[i]))
  }

  function LastOf(n: nat): Tail { if n == 0 then NoTail else TailAt(n - 1) }

  /** The node itself with its pointer. */
  function Open(l: Live): (r: Live)
    ensures Erase(r) == Erase(l)
    ensures r.Fresh? ==> !r.json.Array? && !r.json.Object?
  {
    match l
    case Fresh(Array(items)) =>
      var r := LiveArray(seq(|items|, i requires 0 <= i < |items| => Fresh(items[i])));
      assert EraseItems(r.items) == items;
      r
    case Fresh(Object(ms)) =>
      var r := LiveObject(seq(|ms|, i requires 0 <= i < |ms| => LiveMember(ms[i].key, Fresh(ms[i].value))), LastOf(|ms|));
      assert forall i :: 0 <= i < |ms| ==> EraseMember(r.members[i]) == ms[i];
      assert EraseMembers(r.members) == ms;
      r
    case _ => l
  }

  function LiveChild(l: Live, i: nat): (c: Live)
    requires i < Arity(Erase(l))
    ensures Erase(c) == Child(Erase(l), i)
  {
    match Open(l)
    case LiveArray(items) => items[i]
    case LiveObject(ms, _) => ms[i].value
  }

  function LiveWithChild(l: Live, i: nat, x: Live): (r: Live)
    requires i < Arity(Erase(l))
    ensures Erase(r) == WithChild(Erase(l), i, Erase(x))
  {
    match Open(l)
    case LiveArray(items) =>
      assert EraseItems(items[i := x]) == EraseItems(items)[i := Erase(x)];
      LiveArray(items[i := x])
    case LiveObject(ms, tail) =>
      var ns := ms[i := LiveMember(ms[i].key, x)];
      assert EraseMembers(ns) == EraseMembers(ms)[i := Member(ms[i].key, Erase(x))];
      LiveObject(ns, tail)
  }

  function LiveAt(l: Live, path: Path): (r: Live)
    requires ValidPath(Erase(l), path)
    ensures Erase(r) == At(Erase(l), path)
    decreases |path|
  {
    if path == [] then l else LiveAt(LiveChild(l, path[0]), path[1..])
  }

  function LiveUpdate(l: Live, path: Path, x: Live): (r: Live)
    requires ValidPath(Erase(l), path)
    ensures Erase(r) == Update(Erase(l), path, Erase(x))
    decreases |path|
  {
    if path == [] then x else LiveWithChild(l, path[0], LiveUpdate(LiveChild(l, path[0]), path[1..], x))
  }

  // ----- lists whose pointer is right -----

  /** The prev pointer is at the last of n members, or there are none. */
  predicate Ready(n: nat, tail: Tail) {
    n == 0 || tail == TailAt(n - 1)
  }

  ghost predicate Settled(l: Live) {
    match l
    case Fresh(_) => true
    case LiveArray(items) => SettledItems(items)
    case LiveObject(ms, tail) => Ready(|ms|, tail) && SettledMembers(ms)
  }

  ghost predicate SettledItems(items: seq<Live>) {
    forall i :: 0 <= i < |items| ==> Settled(items[i])
  }

  ghost predicate SettledMembers(ms: seq<LiveMember>) {
    forall i :: 0 <= i < |ms| ==> assert ms[i].value < ms[i]; Settled(ms[i].value)
  }

  lemma {:induction false} OpenSettled(l: Live)
    ensures Settled(Open(l)) <==> Settled(l)
  {
    match l {
      case Fresh(Array(items)) =>
        var r := Open(l).items;
        assert forall i :: 0 <= i < |r| ==> r[i] == Fresh(items[i]) && Settled(r[i]);
        assert SettledItems(r) && Open(l) == LiveArray(r);
      case Fresh(Object(ms)) =>
        var r := Open(l).members;
        assert forall i :: 0 <= i < |r| ==> r[i].value == Fresh(ms[i].value) && Settled(r[i].value);
        assert SettledMembers(r) && Ready(|r|, LastOf(|ms|));
        assert Open(l) == LiveObject(r, LastOf(|ms|));
      case _ =>
    }
  }

  lemma {:induction false} SettledAt(l: Live, path: Path)
    requires Settled(l) && ValidPath(Erase(l), path)
    ensures Settled(LiveAt(l, path))
    decreases |path|
  {
    if path != [] {
      OpenSettled(l);
      SettledAt(LiveChild(l, path[0]), path[1..]);
    }
  }

  /** Replacing a node leaves the pointers of all nodes above it alone. */
  lemma {:induction false} SettledUpdate(l: Live, path: Path, x: Live)
    requires Settled(l) && ValidPath(Erase(l), path)
    ensures Settled(LiveUpdate(l, path, x)) <==> Settled(x)
    decreases |path|
  {
    if path != [] {
      OpenSettled(l);
      SettledUpdate(LiveChild(l, path[0]), path[1..], x);
      SettledWithChild(l, path[0], LiveUpdate(LiveChild(l, path[0]), path[1..], x));
    }
  }

  lemma {:induction false} SettledWithChild(l: Live, i: nat, x: Live)
    requires Settled(l) && i < Arity(Erase(l))
    ensures Settled(LiveChild(l, i))
    ensures Settled(LiveWithChild(l, i, x)) <==> Settled(x)
  {
    OpenSettled(l);
    match Open(l) {
      case LiveArray(items) =>
        assert items[i := x][i] == x;
      case LiveObject(ms, _) =>
        assert ms[i := LiveMember(ms[i].key, x)][i].value == x;
      case _ =>
    }
  }

  // ----- appending and detaching -----

  /** add_item_to_array: the member goes behind the one that it points to, and what came after that is cut off. */
  function Append(ms: seq<LiveMember>, tail: Tail, m: LiveMember): Live {
    if ms == [] then LiveObject([m], TailAt(0))
    else
      match tail
      case TailAt(i) => if i < |ms| then LiveObject(ms[..i + 1] + [m], TailAt(i + 1)) else LiveObject(ms, tail)
      case _ => LiveObject(ms, tail)
  }

  /** The pointer after cJSON_DetachItemViaPointer has taken member i of n out. */
  function TailWithout(n: nat, tail: Tail, i: nat): Tail
    requires i < n
  {
    if n == 1 then NoTail
    else if 0 < i == n - 1 then TailAt(i - 1)
    else
      match tail
      case TailAt(k) => if k == i then TailGone else if k > i then TailAt(k - 1) else tail
      case _ => tail
  }

  lemma {:induction false} ReadyWithout(n: nat, tail: Tail, i: nat)
    requires i < n && Ready(n, tail)
    ensures Ready(n - 1, TailWithout(n, tail, i))
  {
  }

  lemma {:induction false} EraseAppend(ms: seq<LiveMember>, m: LiveMember)
    ensures EraseMembers(ms + [m]) == EraseMembers(ms) + [EraseMember(m)]
  {
  }

  lemma {:induction false} AppendLoses(ms: seq<LiveMember>, tail: Tail, m: LiveMember)
    requires !Ready(|ms|, tail)
    ensures Append(ms, tail, m).LiveObject? && |Append(ms, tail, m).members| <= |ms|
  {
  }

  lemma {:induction false} AppendReady(ms: seq<LiveMember>, tail: Tail, m: LiveMember)
    requires Ready(|ms|, tail)
    ensures Append(ms, tail, m) == LiveObject(ms + [m], TailAt(|ms|))
  {
    if ms == [] {
      assert ms + [m] == [m];
    }
  }

  lemma {:induction false} EraseObject(l: Live)
    requires l.LiveObject?
    ensures Erase(l) == Object(EraseMembers(l.members)) && |EraseMembers(l.members)| == |l.members|
  {
  }

  /** Appending appends exactly when the pointer is right. */
  lemma {:induction false} AppendExact(ms: seq<LiveMember>, tail: Tail, m: LiveMember)
    ensures Append(ms, tail, m).LiveObject?
    ensures Erase(Append(ms, tail, m)) == Object(EraseMembers(ms) + [EraseMember(m)]) <==> Ready(|ms|, tail)
  {
    hide *;
    if Ready(|ms|, tail) {
      AppendReady(ms, tail, m);
      EraseAppend(ms, m);
    } else {
      AppendLoses(ms, tail, m);
    }
    EraseObject(Append(ms, tail, m));
  }

  datatype LiveDetached = LiveNotFound | LiveDetached(item: Live, rest: Live)

  function EraseDetached(d: LiveDetached): Detached {
    match d
    case LiveNotFound => NotFound
    case LiveDetached(item, rest) => Detached(Erase(item), Erase(rest))
  }

  lemma {:induction false} EraseRemove(ms: seq<LiveMember>, i: nat)
    requires i < |ms|
    ensures EraseMembers(RemoveAt(ms, i)) == RemoveAt(EraseMembers(ms), i)
  {
  }

  lemma {:induction false} EraseRemoveItem(items: seq<Live>, i: nat)
    requires i < |items|
    ensures EraseItems(RemoveAt(items, i)) == RemoveAt(EraseItems(items), i)
  {
  }

  /** Detaching a child. */
  function LiveDetachChild(parent: Live, token: string): (r: LiveDetached)
    ensures EraseDetached(r) == DetachChild(Erase(parent), token)
  {
    match Open(parent)
    case LiveArray(items) =>
      (match DecodeIndex(token)
       case None => LiveNotFound
       case Some(i) =>
         if i < |items| then EraseRemoveItem(items, i); LiveDetached(items[i], LiveArray(RemoveAt(items, i))) else LiveNotFound)
    case LiveObject(ms, tail) =>
      (match FindKey(EraseMembers(ms), token, false)
       case None => LiveNotFound
       case Some(i) =>
         EraseRemove(ms, i);
         LiveDetached(ms[i].value, LiveObject(RemoveAt(ms, i), TailWithout(|ms|, tail, i))))
    case _ => LiveNotFound
  }

  lemma {:induction false} SettledDetach(parent: Live, token: string)
    requires Settled(parent) && LiveDetachChild(parent, token).LiveDetached?
    ensures Settled(LiveDetachChild(parent, token).item) && Settled(LiveDetachChild(parent, token).rest)
  {
    OpenSettled(parent);
    match Open(parent) {
      case LiveObject(ms, tail) => ReadyWithout(|ms|, tail, FindKey(EraseMembers(ms), token, false).value);
      case _ =>
    }
  }

  datatype LiveApplied = LiveApplied(status: int, doc: Live)

  /** The members and the pointer after the member with a key has been deleted. */
  function LiveWithout(ms: seq<LiveMember>, tail: Tail, key: string, cs: bool): (r: (seq<LiveMember>, Tail))
    ensures EraseMembers(r.0) == match FindKey(EraseMembers(ms), key, cs) case None => EraseMembers(ms) case Some(i) => RemoveAt(EraseMembers(ms), i)
  {
    match FindKey(EraseMembers(ms), key, cs)
    case None => (ms, tail)
    case Some(i) => EraseRemove(ms, i); (RemoveAt(ms, i), TailWithout(|ms|, tail, i))
  }

  /** Adding a child to a parent. */
  function LiveAddChild(parent: Live, token: string, value: Live, cs: bool): LiveApplied {
    match Open(parent)
    case LiveArray(items) =>
      if token == "-" then LiveApplied(0, LiveArray(items + [value]))
      else
        (match DecodeIndex(token)
         case None => LiveApplied(11, parent)
         case Some(i) =>
           if i <= |items| then LiveApplied(0, LiveArray(InsertAt(items, i, value))) else LiveApplied(10, parent))
    case LiveObject(ms, tail) =>
      var (kept, t) := LiveWithout(ms, tail, token, cs);
      LiveApplied(0, Append(kept, t, LiveMember(token, value)))
    case _ => LiveApplied(9, parent)
  }

  /** The parent is no object, or its pointer is right once a member with the key has been deleted. */
  predicate AddReady(parent: Live, token: string, cs: bool) {
    match Open(parent)
    case LiveObject(ms, tail) =>
      var (kept, t) := LiveWithout(ms, tail, token, cs);
      Ready(|kept|, t)
    case _ => true
  }

  lemma {:induction false} EraseInsertItem(items: seq<Live>, i: nat, x: Live)
    requires i <= |items|
    ensures EraseItems(InsertAt(items, i, x)) == InsertAt(EraseItems(items), i, Erase(x))
  {
    var (r, t) := (InsertAt(items, i, x), InsertAt(EraseItems(items), i, Erase(x)));
    hide EraseItems, Erase;
    assert r == items[..i] + [x] + items[i..] && t == EraseItems(items)[..i] + [Erase(x)] + EraseItems(items)[i..];
  }

  lemma {:induction false} EraseAppendItem(items: seq<Live>, x: Live)
    ensures EraseItems(items + [x]) == EraseItems(items) + [Erase(x)]
  {
  }

  lemma {:induction false} AddItemExact(items: seq<Live>, token: string, value: Live, cs: bool)
    ensures var (r, s) := (LiveAddChild(LiveArray(items), token, value, cs), AddChild(Array(EraseItems(items)), token, Erase(value), cs));
            r.status == s.status && Erase(r.doc) == s.doc
  {
    hide DecodeIndex, EraseItems;
    EraseAppendItem(items, value);
    if token != "-" && DecodeIndex(token).Some? && DecodeIndex(token).value <= |items| {
      EraseInsertItem(items, DecodeIndex(token).value, value);
    }
    hide InsertAt;
  }

  lemma {:induction false} OpenAdd(parent: Live, token: string, value: Live, cs: bool)
    requires !Open(parent).Fresh?
    ensures LiveAddChild(parent, token, value, cs) == LiveAddChild(Open(parent), token, value, cs)
            || LiveAddChild(parent, token, value, cs).status == LiveAddChild(Open(parent), token, value, cs).status != 0
    ensures LiveAddChild(parent, token, value, cs).status != 0 ==> LiveAddChild(parent, token, value, cs).doc == parent
    ensures LiveAddChild(Open(parent), token, value, cs).status != 0 ==> LiveAddChild(Open(parent), token, value, cs).doc == Open(parent)
  {
    assert Open(Open(parent)) == Open(parent);
    hide DecodeIndex, LiveWithout, Append, Open;
  }

  /** Adding a child does what it is for exactly when the pointer of the parent is right. */
  lemma {:induction false} AddChildExact(parent: Live, token: string, value: Live, cs: bool)
    ensures var (r, s) := (LiveAddChild(parent, token, value, cs), AddChild(Erase(parent), token, Erase(value), cs));
            r.status == s.status && (Erase(r.doc) == s.doc <==> AddReady(parent, token, cs))
  {
    match Open(parent) {
      case LiveArray(items) =>
        assert Erase(parent) == Array(EraseItems(items)) && AddReady(parent, token, cs);
        hide LiveAddChild, AddChild, Open, AddReady;
        AddItemExact(items, token, value, cs);
        OpenAdd(parent, token, value, cs);
      case LiveObject(ms, tail) =>
        var (kept, t) := LiveWithout(ms, tail, token, cs);
        assert AddReady(parent, token, cs) <==> Ready(|kept|, t);
        assert LiveAddChild(parent, token, value, cs) == LiveApplied(0, Append(kept, t, LiveMember(token, value)));
        assert Erase(parent) == Object(EraseMembers(ms));
        assert AddChild(Object(EraseMembers(ms)), token, Erase(value), cs)
               == Applied(0, Object(EraseMembers(kept) + [Member(token, Erase(value))]));
        hide *;
        AppendExact(kept, t, LiveMember(token, value));
      case _ =>
    }
  }

  lemma {:induction false} SettledWithout(ms: seq<LiveMember>, tail: Tail, key: string, cs: bool)
    requires Ready(|ms|, tail) && SettledMembers(ms)
    ensures var (kept, t) := LiveWithout(ms, tail, key, cs); Ready(|kept|, t) && SettledMembers(kept)
  {
    match FindKey(EraseMembers(ms), key, cs) {
      case None =>
      case Some(i) => ReadyWithout(|ms|, tail, i);
    }
  }

  lemma {:induction false} SettledAppend(ms: seq<LiveMember>, tail: Tail, m: LiveMember)
    requires Ready(|ms|, tail) && SettledMembers(ms) && Settled(m.value)
    ensures Settled(Append(ms, tail, m))
  {
    AppendReady(ms, tail, m);
    hide Append;
    assert forall i :: 0 <= i < |ms| ==> (ms + [m])[i] == ms[i];
  }

  lemma {:induction false} SettledAddMember(ms: seq<LiveMember>, tail: Tail, token: string, value: Live, cs: bool)
    requires Ready(|ms|, tail) && SettledMembers(ms) && Settled(value)
    ensures var (kept, t) := LiveWithout(ms, tail, token, cs);
            Ready(|kept|, t) && Settled(Append(kept, t, LiveMember(token, value)))
  {
    SettledWithout(ms, tail, token, cs);
    var (kept, t) := LiveWithout(ms, tail, token, cs);
    hide *;
    SettledAppend(kept, t, LiveMember(token, value));
  }

  lemma {:induction false} SettledAdd(parent: Live, token: string, value: Live, cs: bool)
    requires Settled(parent) && Settled(value)
    ensures AddReady(parent, token, cs) && Settled(LiveAddChild(parent, token, value, cs).doc)
  {
    OpenSettled(parent);
    hide Open, DecodeIndex, LiveWithout, Append;
    match Open(parent) {
      case LiveObject(ms, tail) => SettledAddMember(ms, tail, token, value, cs);
      case _ =>
    }
  }
}
