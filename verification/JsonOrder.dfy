/** Sorting the members of objects, and comparing trees by sorting them. */
module JsonOrder {
  import opened Text
  import opened Json
  import opened Sorting

  function SortMembers(ms: seq<Member>, cs: bool): seq<Member> {
    Sort(ms, KeyOf, cs)
  }

  /** Keys strictly increase. */
  ghost predicate Ascending(ms: seq<Member>, cs: bool) {
    forall i, j :: 0 <= i < j < |ms| ==> CompareStrings(ms[i].key, ms[j].key, cs) < 0
  }

  lemma WellFormedPermutation(ms: seq<Member>, ns: seq<Member>, keys: set<string>)
    requires WellFormedMembers(ms, keys) && multiset(ms) == multiset(ns) && UniqueKeys(ns)
    ensures WellFormedMembers(ns, keys)
  {
    forall i | 0 <= i < |ns|
      ensures ns[i].key in keys && WellFormed(ns[i].value, keys)
    {
      assert ns[i] in multiset(ms);
      var j :| 0 <= j < |ms| && ms[j] == ns[i];
    }
  }

  lemma OnceWhenUnique(ms: seq<Member>, a: nat)
    requires UniqueKeys(ms) && a < |ms|
    ensures multiset(ms)[ms[a]] == 1
  {
    assert ms == ms[..a] + [ms[a]] + ms[a + 1..];
    assert ms[a] !in ms[..a] && ms[a] !in ms[a + 1..];
  }

  lemma TwiceWhenRepeated<T>(ns: seq<T>, i: nat, j: nat)
    requires i < j < |ns| && ns[i] == ns[j]
    ensures multiset(ns)[ns[i]] >= 2
  {
    assert ns == ns[..i] + [ns[i]] + ns[i + 1..j] + [ns[j]] + ns[j + 1..];
  }

  lemma UniquePermutation(ms: seq<Member>, ns: seq<Member>)
    requires UniqueKeys(ms) && multiset(ms) == multiset(ns)
    ensures UniqueKeys(ns)
  {
    forall i, j | 0 <= i < j < |ns|
      ensures ns[i].key != ns[j].key
    {
      assert ns[i] in multiset(ms) && ns[j] in multiset(ms);
      var a :| 0 <= a < |ms| && ms[a] == ns[i];
      var b :| 0 <= b < |ms| && ms[b] == ns[j];
      OnceWhenUnique(ms, a);
      if a == b {
        TwiceWhenRepeated(ns, i, j);
        assert false;
      }
    }
  }

  /** Sorting well-formed members keeps the object and puts its keys in strictly increasing order. */
  lemma SortMembersKeeps(ms: seq<Member>, cs: bool, keys: set<string>)
    requires ToldApart(keys, cs) && WellFormedMembers(ms, keys)
    ensures WellFormedMembers(SortMembers(ms, cs), keys)
    ensures Ascending(SortMembers(ms, cs), cs)
    ensures MapOf(SortMembers(ms, cs)) == MapOf(ms)
    ensures forall m :: m in SortMembers(ms, cs) ==> m in ms
  {
    var ns := SortMembers(ms, cs);
    SortPermutes(ms, KeyOf, cs);
    SortSorts(ms, KeyOf, cs);
    UniquePermutation(ms, ns);
    WellFormedPermutation(ms, ns, keys);
    MapOfPermutation(ms, ns);
    SortedUniqueAscends(ns, cs, keys);
    forall m | m in ns ensures m in ms {
      assert m in multiset(ms);
    }
  }

  lemma SortedUniqueAscends(ns: seq<Member>, cs: bool, keys: set<string>)
    requires ToldApart(keys, cs) && WellFormedMembers(ns, keys) && Sorted(ns, KeyOf, cs)
    ensures Ascending(ns, cs)
  {
    forall i, j | 0 <= i < j < |ns|
      ensures CompareStrings(ns[i].key, ns[j].key, cs) < 0
    {
      assert CompareStrings(KeyOf(ns[i]), KeyOf(ns[j]), cs) <= 0;
      CompareStringsOrder(ns[i].key, ns[j].key, ns[i].key, cs);
    }
  }

  // ----- removing and appending a member -----

  lemma RemoveMember(ms: seq<Member>, i: nat, keys: set<string>)
    requires WellFormedMembers(ms, keys) && i < |ms|
    ensures WellFormedMembers(RemoveAt(ms, i), keys)
    ensures MapOf(RemoveAt(ms, i)) == MapOf(ms) - {ms[i].key}
  {
    RemoveAtUnique(ms, i);
    MapOfRemove(ms, i);
    hide MapOf;
  }

  lemma AppendMember(ms: seq<Member>, m: Member, keys: set<string>)
    requires WellFormedMembers(ms, keys) && m.key in keys && WellFormed(m.value, keys) && m.key !in MapOf(ms)
    ensures WellFormedMembers(ms + [m], keys)
    ensures MapOf(ms + [m]) == MapOf(ms)[m.key := Meaning(m.value)]
  {
    MapOfAppend(ms, m);
    hide MapOf;
  }

  // ----- compare_json -----

  /** Members of an item or of a rearrangement of its members; kept for termination. */
  ghost predicate Below(ms: seq<Member>, node: Json) {
    forall i :: 0 <= i < |ms| ==> ms[i].value < node
  }

  lemma SortMembersBelow(node: Json, cs: bool)
    requires node.Object?
    ensures Below(SortMembers(node.members, cs), node)
  {
    var ns := SortMembers(node.members, cs);
    SortPermutes(node.members, KeyOf, cs);
    forall i | 0 <= i < |ns|
      ensures ns[i].value < node
    {
      assert ns[i] in multiset(node.members);
      var j :| 0 <= j < |node.members| && node.members[j] == ns[i];
      assert ns[i].value < node.members[j];
    }
  }

  predicate SameType(a: Json, b: Json) {
    match a
    case Invalid => b.Invalid?
    case False => b.False?
    case True => b.True?
    case Null => b.Null?
    case Number(_) => b.Number?
    case String(_) => b.String?
    case Array(_) => b.Array?
    case Object(_) => b.Object?
  }

  /** What compare_json decides; objects are compared in the order that sorting gives. */
  predicate CompareJson(a: Json, b: Json, cs: bool)
    decreases a, 1, 0
  {
    match (a, b)
    case (Number(m), Number(n)) => m == n
    case (String(s), String(t)) => s == t
    case (Array(xs), Array(ys)) => CompareItems(a, xs, ys, cs)
    case (Object(ms), Object(ns)) =>
      SortMembersBelow(a, cs);
      CompareMembers(a, SortMembers(ms, cs), SortMembers(ns, cs), cs)
    case _ => SameType(a, b)
  }

  predicate CompareItems(ghost a: Json, xs: seq<Json>, ys: seq<Json>, cs: bool)
    requires forall i :: 0 <= i < |xs| ==> xs[i] < a
    decreases a, 0, |xs|
  {
    if xs == [] || ys == [] then xs == ys
    else CompareJson(xs[0], ys[0], cs) && CompareItems(a, xs[1..], ys[1..], cs)
  }

  predicate CompareMembers(ghost a: Json, xs: seq<Member>, ys: seq<Member>, cs: bool)
    requires Below(xs, a)
    decreases a, 0, |xs|
  {
    if xs == [] || ys == [] then xs == ys
    else
      && CompareStrings(xs[0].key, ys[0].key, cs) == 0
      && CompareJson(xs[0].value, ys[0].value, cs)
      && CompareMembers(a, xs[1..], ys[1..], cs)
  }

  /** On well-formed trees compare_json decides whether two items stand for the same value. */
  lemma {:induction false} CompareJsonMeaning(a: Json, b: Json, cs: bool, keys: set<string>)
    requires ToldApart(keys, cs) && WellFormed(a, keys) && WellFormed(b, keys)
    ensures CompareJson(a, b, cs) <==> Meaning(a) == Meaning(b)
    decreases a, 1, 0
  {
    match (a, b) {
      case (Array(xs), Array(ys)) => CompareItemsMeaning(a, xs, ys, cs, keys);
      case (Object(ms), Object(ns)) =>
        SortMembersBelow(a, cs);
        SortMembersKeeps(ms, cs, keys);
        SortMembersKeeps(ns, cs, keys);
        CompareMembersMeaning(a, SortMembers(ms, cs), SortMembers(ns, cs), cs, keys);
      case _ =>
    }
  }

  lemma {:induction false} CompareItemsMeaning(a: Json, xs: seq<Json>, ys: seq<Json>, cs: bool, keys: set<string>)
    requires ToldApart(keys, cs)
    requires forall i :: 0 <= i < |xs| ==> xs[i] < a && WellFormed(xs[i], keys)
    requires forall i :: 0 <= i < |ys| ==> WellFormed(ys[i], keys)
    ensures CompareItems(a, xs, ys, cs) <==> MeaningAll(xs) == MeaningAll(ys)
    decreases a, 0, |xs|
  {
    if xs != [] && ys != [] {
      CompareJsonMeaning(xs[0], ys[0], cs, keys);
      CompareItemsMeaning(a, xs[1..], ys[1..], cs, keys);
      MeaningFirst(xs);
      MeaningFirst(ys);
      hide CompareJson, Meaning, MeaningAll, WellFormed;
      ConsMeaning(Meaning(xs[0]), MeaningAll(xs[1..]), Meaning(ys[0]), MeaningAll(ys[1..]));
    } else {
      assert |MeaningAll(xs)| == |xs| && |MeaningAll(ys)| == |ys|;
    }
  }

  lemma MeaningFirst(xs: seq<Json>)
    requires xs != []
    ensures MeaningAll(xs) == [Meaning(xs[0])] + MeaningAll(xs[1..])
  {
    hide Meaning;
  }

  lemma ConsMeaning(x: Value, xs: seq<Value>, y: Value, ys: seq<Value>)
    ensures [x] + xs == [y] + ys <==> x == y && xs == ys
  {
    assert ([x] + xs)[0] == x && ([x] + xs)[1..] == xs;
    assert ([y] + ys)[0] == y && ([y] + ys)[1..] == ys;
  }

  lemma TailMembers(ms: seq<Member>, cs: bool, keys: set<string>)
    requires ms != []
    ensures WellFormedMembers(ms, keys) ==> WellFormedMembers(ms[1..], keys)
    ensures Ascending(ms, cs) ==> Ascending(ms[1..], cs)
    ensures UniqueKeys(ms) ==> ms[0].key !in MapOf(ms[1..])
  {
    var t := ms[1..];
    assert forall i :: 0 <= i < |t| ==> t[i] == ms[i + 1];
    if UniqueKeys(ms) {
      assert UniqueKeys(t);
      MapOfUnique(t);
    }
  }

  lemma {:induction false} CompareMembersMeaning(a: Json, xs: seq<Member>, ys: seq<Member>, cs: bool, keys: set<string>)
    requires ToldApart(keys, cs) && Below(xs, a)
    requires WellFormedMembers(xs, keys) && Ascending(xs, cs)
    requires WellFormedMembers(ys, keys) && Ascending(ys, cs)
    ensures CompareMembers(a, xs, ys, cs) <==> MapOf(xs) == MapOf(ys)
    decreases a, 0, |xs|
  {
    if xs == [] {
      if ys != [] { assert ys[0].key in MapOf(ys); }
    } else if ys == [] {
      assert xs[0].key in MapOf(xs);
    } else {
      TailMembers(xs, cs, keys);
      TailMembers(ys, cs, keys);
      CompareStringsOrder(xs[0].key, ys[0].key, xs[0].key, cs);
      if xs[0].key == ys[0].key {
        CompareJsonMeaning(xs[0].value, ys[0].value, cs, keys);
        CompareMembersMeaning(a, xs[1..], ys[1..], cs, keys);
        MapConsEqual(xs[0].key, Meaning(xs[0].value), MapOf(xs[1..]), Meaning(ys[0].value), MapOf(ys[1..]));
      } else if CompareStrings(xs[0].key, ys[0].key, cs) < 0 {
        SmallerKeyAbsent(xs[0].key, ys, cs);
        assert xs[0].key in MapOf(xs);
      } else {
        SmallerKeyAbsent(ys[0].key, xs, cs);
        assert ys[0].key in MapOf(ys);
      }
    }
  }

  lemma MapConsEqual<K, V>(k: K, v: V, m: map<K, V>, w: V, n: map<K, V>)
    requires k !in m && k !in n
    ensures m[k := v] == n[k := w] <==> v == w && m == n
  {
    if m[k := v] == n[k := w] {
      assert m[k := v][k] == n[k := w][k];
      assert m == m[k := v] - {k} && n == n[k := w] - {k};
    }
  }

  /** A key smaller than the first of an ascending list is not among its keys. */
  lemma SmallerKeyAbsent(key: string, ms: seq<Member>, cs: bool)
    requires UniqueKeys(ms) && Ascending(ms, cs)
    requires ms != [] ==> CompareStrings(key, ms[0].key, cs) < 0
    ensures key !in MapOf(ms)
  {
    MapOfUnique(ms);
    if key in KeysOf(ms) {
      var i :| 0 <= i < |ms| && ms[i].key == key;
      CompareStringsOrder(key, ms[0].key, ms[i].key, cs);
      CompareStringsOrder(key, key, key, cs);
    }
  }
}
