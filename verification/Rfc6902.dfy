/** RFC 6902 on JSON values: what each patch operation means (section 4), with paths as lists of decoded tokens. */
module Rfc6902 {
  import opened Text
  import opened Json
  import opened JsonPointer

  type Tokens = seq<string>

  /** The child of a value that a token names. */
  function Step(v: Value, token: string): Option<Value> {
    match v
    case VArray(items) =>
      (match RfcIndex(token)
       case Some(i) => if i < |items| then Some(items[i]) else None
       case None => None)
    case VObject(m) => if token in m then Some(m[token]) else None
    case _ => None
  }

  function Put(v: Value, token: string, x: Value): Value
    requires Step(v, token).Some?
  {
    match v
    case VArray(items) => VArray(items[RfcIndex(token).value := x])
    case VObject(m) => VObject(m[token := x])
  }

  function Get(v: Value, path: Tokens): Option<Value> {
    if path == [] then Some(v)
    else match Step(v, path[0])
         case None => None
         case Some(c) => Get(c, path[1..])
  }

  /** The value with the node at an existing path replaced. */
  function Set(v: Value, path: Tokens, x: Value): Value
    requires Get(v, path).Some?
  {
    if path == [] then x
    else Put(v, path[0], Set(Step(v, path[0]).value, path[1..], x))
  }

  function AddChild(v: Value, token: string, x: Value): Option<Value> {
    match v
    case VArray(items) =>
      if token == "-" then Some(VArray(items + [x]))
      else
        (match RfcIndex(token)
         case Some(i) => if i <= |items| then Some(VArray(InsertAt(items, i, x))) else None
         case None => None)
    case VObject(m) => Some(VObject(m[token := x]))
    case _ => None
  }

  function RemoveChild(v: Value, token: string): Option<Value> {
    match v
    case VArray(items) =>
      (match RfcIndex(token)
       case Some(i) => if i < |items| then Some(VArray(RemoveAt(items, i))) else None
       case None => None)
    case VObject(m) => if token in m then Some(VObject(m - {token})) else None
    case _ => None
  }

  datatype Operation =
    | Add(path: Tokens, value: Value)
    | Remove(path: Tokens)
    | Replace(path: Tokens, value: Value)
    | Move(from: Tokens, path: Tokens)
    | Copy(from: Tokens, path: Tokens)
    | Test(path: Tokens, value: Value)

  function AddAt(v: Value, path: Tokens, x: Value): Option<Value> {
    if path == [] then Some(x)
    else
      var (parent, token) := (path[..|path| - 1], path[|path| - 1]);
      match Get(v, parent)
      case None => None
      case Some(p) =>
        (match AddChild(p, token, x)
         case None => None
         case Some(q) => Some(Set(v, parent, q)))
  }

  function RemoveFrom(v: Value, path: Tokens): Option<Value>
    requires path != []
  {
    var (parent, token) := (path[..|path| - 1], path[|path| - 1]);
    match Get(v, parent)
    case None => None
    case Some(p) =>
      (match RemoveChild(p, token)
       case None => None
       case Some(q) => Some(Set(v, parent, q)))
  }

  /** Taking a node out and adding it to what is left. */
  function Relocate(v: Value, from: Tokens, path: Tokens): Option<Value>
    requires from != []
  {
    match Get(v, from)
    case None => None
    case Some(x) =>
      (match RemoveFrom(v, from)
       case None => None
       case Some(w) => AddAt(w, path, x))
  }

  /** The document after one operation, or None when the operation is an error. A location is not moved into one of its children, and moving
      the whole document to where it is changes nothing. Removing the whole document is outside this definition. */
  function Apply(v: Value, op: Operation): Option<Value>
    requires op.Remove? ==> op.path != []
  {
    match op
    case Add(path, x) => AddAt(v, path, x)
    case Remove(path) => RemoveFrom(v, path)
    case Replace(path, x) => if Get(v, path).Some? then Some(Set(v, path, x)) else None
    case Move(from, path) => if from < path then None else if from == [] then Some(v) else Relocate(v, from, path)
    case Copy(from, path) =>
      (match Get(v, from)
       case None => None
       case Some(x) => AddAt(v, path, x))
    case Test(path, x) => if Get(v, path) == Some(x) then Some(v) else None
  }

  // ----- laws of Get and Set -----

  lemma {:induction false} GetSet(v: Value, path: Tokens, x: Value)
    requires Get(v, path).Some?
    ensures Get(Set(v, path, x), path) == Some(x)
  {
    if path != [] {
      GetSet(Step(v, path[0]).value, path[1..], x);
    }
  }

  lemma {:induction false} SetSet(v: Value, path: Tokens, x: Value, y: Value)
    requires Get(v, path).Some?
    ensures Get(Set(v, path, x), path).Some?
    ensures Set(Set(v, path, x), path, y) == Set(v, path, y)
  {
    GetSet(v, path, x);
    if path != [] {
      var c := Step(v, path[0]).value;
      SetSet(c, path[1..], x, y);
    }
  }

  lemma {:induction false} SetSame(v: Value, path: Tokens)
    requires Get(v, path).Some?
    ensures Set(v, path, Get(v, path).value) == v
  {
    if path != [] {
      SetSame(Step(v, path[0]).value, path[1..]);
    }
  }

  lemma {:induction false} GetChild(v: Value, path: Tokens, token: string)
    ensures Get(v, path + [token]) == match Get(v, path) case None => None case Some(p) => Step(p, token)
  {
    if path == [] {
      assert [] + [token] == [token];
      assert [token][1..] == [];
    } else {
      assert (path + [token])[1..] == path[1..] + [token];
      if Step(v, path[0]).Some? {
        GetChild(Step(v, path[0]).value, path[1..], token);
      }
    }
  }

  lemma {:induction false} SetChild(v: Value, path: Tokens, token: string, x: Value)
    requires Get(v, path).Some? && Step(Get(v, path).value, token).Some?
    ensures Get(v, path + [token]).Some?
    ensures Set(v, path + [token], x) == Set(v, path, Put(Get(v, path).value, token, x))
  {
    GetChild(v, path, token);
    if path == [] {
      assert [] + [token] == [token];
      assert [token][1..] == [];
    } else {
      assert (path + [token])[1..] == path[1..] + [token];
      SetChild(Step(v, path[0]).value, path[1..], token, x);
    }
  }

  lemma {:induction false} GetPrefix(v: Value, path: Tokens, n: nat)
    requires n <= |path| && Get(v, path[..n]).None?
    ensures Get(v, path).None?
  {
    if n > 0 {
      assert path[..n][0] == path[0] && path[..n][1..] == path[1..][..n - 1];
      if Step(v, path[0]).Some? {
        GetPrefix(Step(v, path[0]).value, path[1..], n - 1);
      }
    }
  }

  predicate InArray(v: Value, path: Tokens)
    requires path != []
  {
    var parent := Get(v, path[..|path| - 1]);
    parent.Some? && parent.value.VArray?
  }

  /** A node that is no element of an array leaves nothing behind where it was, so that nothing can be added below. */
  lemma {:induction false} NothingBelow(v: Value, from: Tokens, path: Tokens)
    requires from != [] && from < path && !InArray(v, from)
    ensures Relocate(v, from, path).None?
  {
    var (parent, token) := (from[..|from| - 1], from[|from| - 1]);
    hide Get, Set;
    if RemoveFrom(v, from).Some? {
      var p := Get(v, parent).value;
      var q := RemoveChild(p, token).value;
      var w := RemoveFrom(v, from).value;
      GetSet(v, parent, q);
      GetChild(w, parent, token);
      assert parent + [token] == from;
      var above := path[..|path| - 1];
      assert above[..|from|] == from;
      GetPrefix(w, above, |from|);
    }
  }
}
