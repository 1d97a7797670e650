/** The item tree of cJSON, and what a tree means when the order of object members is ignored. */
module Json {
  import opened Text

  /** An item without its links. Numbers are the integral ones; the order of members is the list order. */
  datatype Json =
    | Invalid
    | False
    | True
    | Null
    | Number(n: int)
    | String(s: string)
    | Array(items: seq<Json>)
    | Object(members: seq<Member>)

  datatype Member = Member(key: string, value: Json)

  /** The JSON value an item stands for: an object is a finite map. */
  datatype Value =
    | VInvalid
    | VBool(b: bool)
    | VNull
    | VNumber(n: int)
    | VString(s: string)
    | VArray(items: seq<Value>)
    | VObject(members: map<string, Value>)

  function Meaning(j: Json): Value {
    match j
    case Invalid => VInvalid
    case False => VBool(false)
    case True => VBool(true)
    case Null => VNull
    case Number(n) => VNumber(n)
    case String(s) => VString(s)
    case Array(items) => VArray(MeaningAll(items))
    case Object(ms) => VObject(MapOf(ms))
  }

  function MeaningAll(items: seq<Json>): (r: seq<Value>)
    ensures |r| == |items|
    ensures forall i :: 0 <= i < |items| ==> r[i] == Meaning(items[i])
  {
    seq(|items|, i requires 0 <= i < |items| => Meaning(items[i]))
  }

  /** The first member with a key is the one that lookups find. */
  function MapOf(ms: seq<Member>): map<string, Value> {
    if ms == [] then map[]
    else
      assert ms[0].value < ms[0];
      MapOf(ms[1..])[ms[0].key := Meaning(ms[0].value)]
  }

  function KeyOf(m: Member): string { m.key }

  /** size_t is 32 bits wide on the target. */
  const SIZE_LIMIT: nat := 0x1_0000_0000

  ghost predicate UniqueKeys(ms: seq<Member>) {
    forall i, j :: 0 <= i < j < |ms| ==> ms[i].key != ms[j].key
  }

  /** Members of an object have different keys, all taken from the given set, and arrays fit in memory. */
  ghost predicate WellFormed(j: Json, keys: set<string>) {
    match j
    case Array(items) => |items| < SIZE_LIMIT && forall i :: 0 <= i < |items| ==> WellFormed(items[i], keys)
    case Object(ms) => WellFormedMembers(ms, keys)
    case _ => true
  }

  ghost predicate WellFormedMembers(ms: seq<Member>, keys: set<string>) {
    && UniqueKeys(ms)
    && forall i :: 0 <= i < |ms| ==>
         assert ms[i].value < ms[i];
         ms[i].key in keys && WellFormed(ms[i].value, keys)
  }

  lemma {:induction false} MoreKeys(j: Json, keys: set<string>, more: set<string>)
    requires WellFormed(j, keys) && keys <= more
    ensures WellFormed(j, more)
    decreases j
  {
    match j {
      case Array(items) =>
        forall i | 0 <= i < |items| ensures WellFormed(items[i], more) { MoreKeys(items[i], keys, more); }
      case Object(ms) =>
        forall i | 0 <= i < |ms| ensures WellFormed(ms[i].value, more) {
          assert ms[i].value < ms[i];
          MoreKeys(ms[i].value, keys, more);
        }
      case _ =>
    }
  }

  /** get_object_item: the position of the first member whose key matches. */
  function FindKey(ms: seq<Member>, key: string, caseSensitive: bool): (r: Option<nat>)
    ensures r.Some? ==> r.value < |ms| && SameKey(ms[r.value].key, key, caseSensitive)
                        && forall i :: 0 <= i < r.value ==> !SameKey(ms[i].key, key, caseSensitive)
    ensures r.None? ==> forall i :: 0 <= i < |ms| ==> !SameKey(ms[i].key, key, caseSensitive)
  {
    if ms == [] then None
    else if SameKey(ms[0].key, key, caseSensitive) then Some(0)
    else match FindKey(ms[1..], key, caseSensitive)
         case None => None
         case Some(i) =>
           assert forall k :: 0 < k < |ms| ==> ms[k] == ms[1..][k - 1];
           Some(i + 1)
  }

  function Lookup(ms: seq<Member>, key: string, caseSensitive: bool): Option<Json> {
    match FindKey(ms, key, caseSensitive)
    case None => None
    case Some(i) => Some(ms[i].value)
  }

  function RemoveAt<T>(s: seq<T>, i: nat): (r: seq<T>)
    requires i < |s|
    ensures |r| == |s| - 1
    ensures forall k :: 0 <= k < |r| ==> r[k] == s[if k < i then k else k + 1]
  {
    s[..i] + s[i + 1..]
  }

  function InsertAt<T>(s: seq<T>, i: nat, x: T): (r: seq<T>)
    requires i <= |s|
    ensures |r| == |s| + 1 && r[i] == x
    ensures forall k :: 0 <= k < |s| ==> r[if k < i then k else k + 1] == s[k]
  {
    s[..i] + [x] + s[i..]
  }

  ghost function KeysOf(ms: seq<Member>): set<string> {
    set i | 0 <= i < |ms| :: ms[i].key
  }

  /** With unique keys the map of a member list has exactly its keys and its values. */
  lemma {:induction false} MapOfUnique(ms: seq<Member>)
    requires UniqueKeys(ms)
    ensures MapOf(ms).Keys == KeysOf(ms)
    ensures forall i :: 0 <= i < |ms| ==> ms[i].key in MapOf(ms) && MapOf(ms)[ms[i].key] == Meaning(ms[i].value)
  {
    if ms != [] {
      var rest := ms[1..];
      assert forall i :: 0 <= i < |rest| ==> rest[i] == ms[i + 1];
      MapOfUnique(rest);
      assert KeysOf(ms) == KeysOf(rest) + {ms[0].key};
      forall i | 0 <= i < |ms|
        ensures ms[i].key in MapOf(ms) && MapOf(ms)[ms[i].key] == Meaning(ms[i].value)
      {
        if i > 0 {
          assert ms[i] == rest[i - 1];
        }
      }
    }
  }

  /** A lookup finds the value of the map, in either case mode when keys are case-distinct. */
  lemma FindKeyMeaning(ms: seq<Member>, key: string, cs: bool, keys: set<string>)
    requires ToldApart(keys, cs) && WellFormedMembers(ms, keys) && key in keys
    ensures FindKey(ms, key, cs).Some? <==> key in MapOf(ms)
    ensures FindKey(ms, key, cs).Some? ==>
              ms[FindKey(ms, key, cs).value].key == key
              && MapOf(ms)[key] == Meaning(ms[FindKey(ms, key, cs).value].value)
  {
    MapOfUnique(ms);
  }

  lemma RemoveAtUnique(ms: seq<Member>, i: nat)
    requires UniqueKeys(ms) && i < |ms|
    ensures UniqueKeys(RemoveAt(ms, i))
    ensures KeysOf(RemoveAt(ms, i)) == KeysOf(ms) - {ms[i].key}
  {
    var r := RemoveAt(ms, i);
    forall k | 0 <= k < |ms| && k != i
      ensures ms[k].key in KeysOf(r) && ms[k].key != ms[i].key
    {
      assert r[if k < i then k else k - 1] == ms[k];
    }
  }

  lemma MapOfRemove(ms: seq<Member>, i: nat)
    requires UniqueKeys(ms) && i < |ms|
    ensures MapOf(RemoveAt(ms, i)) == MapOf(ms) - {ms[i].key}
  {
    hide MapOf, UniqueKeys, RemoveAt;
    var r := RemoveAt(ms, i);
    RemoveAtUnique(ms, i);
    MapOfUnique(ms);
    MapOfUnique(r);
    var m := MapOf(ms) - {ms[i].key};
    assert MapOf(r).Keys == m.Keys;
    forall key | key in MapOf(r).Keys
      ensures MapOf(r)[key] == MapOf(ms)[key]
    {
      var k :| 0 <= k < |r| && r[k].key == key;
      assert r[k] == ms[if k < i then k else k + 1];
    }
  }

  lemma MapOfAppend(ms: seq<Member>, m: Member)
    requires UniqueKeys(ms) && m.key !in MapOf(ms)
    ensures UniqueKeys(ms + [m])
    ensures MapOf(ms + [m]) == MapOf(ms)[m.key := Meaning(m.value)]
  {
    hide MapOf;
    MapOfUnique(ms);
    var r := ms + [m];
    assert UniqueKeys(r);
    MapOfUnique(r);
    assert r[|ms|] == m;
    forall k | 0 <= k < |ms|
      ensures ms[k].key in KeysOf(r)
    {
      assert r[k] == ms[k];
    }
    assert KeysOf(r) == KeysOf(ms) + {m.key};
  }

  lemma UpdateUnique(ms: seq<Member>, i: nat, v: Json)
    requires UniqueKeys(ms) && i < |ms|
    ensures UniqueKeys(ms[i := Member(ms[i].key, v)])
    ensures KeysOf(ms[i := Member(ms[i].key, v)]) == KeysOf(ms)
  {
    assert forall k :: 0 <= k < |ms| ==> ms[i := Member(ms[i].key, v)][k].key == ms[k].key;
  }

  lemma MapOfUpdate(ms: seq<Member>, i: nat, v: Json)
    requires UniqueKeys(ms) && i < |ms|
    ensures UniqueKeys(ms[i := Member(ms[i].key, v)])
    ensures MapOf(ms[i := Member(ms[i].key, v)]) == MapOf(ms)[ms[i].key := Meaning(v)]
  {
    hide MapOf, UniqueKeys;
    var r := ms[i := Member(ms[i].key, v)];
    UpdateUnique(ms, i, v);
    MapOfUnique(ms);
    MapOfUnique(r);
    assert r[i].key == ms[i].key;
  }

  /** Two lists of unique keys with the same members have the same map. */
  lemma MapOfPermutation(ms: seq<Member>, ns: seq<Member>)
    requires UniqueKeys(ms) && UniqueKeys(ns) && multiset(ms) == multiset(ns)
    ensures MapOf(ms) == MapOf(ns)
  {
    hide MapOf;
    MapOfUnique(ms);
    MapOfUnique(ns);
    forall i | 0 <= i < |ms|
      ensures ms[i].key in MapOf(ns) && MapOf(ns)[ms[i].key] == Meaning(ms[i].value)
    {
      assert ms[i] in multiset(ns);
      var j :| 0 <= j < |ns| && ns[j] == ms[i];
    }
    forall i | 0 <= i < |ns|
      ensures ns[i].key in MapOf(ms)
    {
      assert ns[i] in multiset(ms);
      var j :| 0 <= j < |ms| && ms[j] == ns[i];
    }
    assert MapOf(ms).Keys == MapOf(ns).Keys;
  }
}
