/** The hash map of the OS layer: an array of buckets, each a list of entries or none. */
module HashMap {
  import opened Text

  datatype Entry<K, V> = Entry(key: K, data: V)

  /** A bucket without a list has no entries. */
  function EntriesOf<E>(bucket: Option<seq<E>>): seq<E> {
    match bucket case None => [] case Some(entries) => entries
  }

  /** find_bucket_entry_: where the entry with an equal key is, or the length. */
  function FindEntry<K, V>(entries: seq<Entry<K, V>>, key: K, equal: (K, K) -> bool): (i: nat)
    ensures i <= |entries| && (i < |entries| ==> equal(entries[i].key, key))
    ensures forall k :: 0 <= k < i ==> !equal(entries[k].key, key)
  {
    if entries == [] || equal(entries[0].key, key) then 0 else 1 + FindEntry(entries[1..], key, equal)
  }

  function WithoutAt<T>(s: seq<T>, i: nat): (r: seq<T>)
    requires i < |s|
    ensures forall x :: x in r ==> x in s
  {
    s[..i] + s[i + 1..]
  }

  // ----- buckets and the map they stand for -----

  /** "classOf" gives the equivalence class of a key under keys_are_equal. */
  ghost predicate GoodKeys<K(!new), C>(hash: K -> nat, equal: (K, K) -> bool, classOf: K -> C) {
    && (forall a, b :: equal(a, b) <==> classOf(a) == classOf(b))
    && (forall a, b :: classOf(a) == classOf(b) ==> hash(a) == hash(b))
  }

  /** The entries of one bucket: each in its place, in the map, and no key twice. */
  ghost predicate BucketOk<K, V, C>(entries: seq<Entry<K, V>>, at: nat, n: nat, model: map<C, Entry<K, V>>, hash: K -> nat,
                                    classOf: K -> C)
    requires n > 0
  {
    && (forall k :: 0 <= k < |entries| ==>
          hash(entries[k].key) % n == at && classOf(entries[k].key) in model && model[classOf(entries[k].key)] == entries[k])
    && (forall j, k :: 0 <= j < k < |entries| ==> classOf(entries[j].key) != classOf(entries[k].key))
  }

  ghost predicate Stored<K, V, C>(b: seq<Option<seq<Entry<K, V>>>>, model: map<C, Entry<K, V>>, c: C, hash: K -> nat, classOf: K -> C)
    requires |b| > 0 && c in model
  {
    classOf(model[c].key) == c && model[c] in EntriesOf(b[hash(model[c].key) % |b|])
  }

  /** Every key of the map sits once, in its bucket and nowhere else. */
  ghost predicate Represents<K, V, C(!new)>(b: seq<Option<seq<Entry<K, V>>>>, model: map<C, Entry<K, V>>, hash: K -> nat,
                                            classOf: K -> C)
    requires |b| > 0
  {
    && (forall i :: 0 <= i < |b| ==> BucketOk(EntriesOf(b[i]), i, |b|, model, hash, classOf))
    && (forall c :: c in model ==> Stored(b, model, c, hash, classOf))
  }

  lemma SameClass<K(!new), C>(hash: K -> nat, equal: (K, K) -> bool, classOf: K -> C, a: K, b: K)
    requires GoodKeys(hash, equal, classOf)
    ensures equal(a, b) <==> classOf(a) == classOf(b)
    ensures classOf(a) == classOf(b) ==> hash(a) == hash(b)
  {
  }

  lemma BucketHolds<K(!new), V, C(!new)>(b: seq<Option<seq<Entry<K, V>>>>, model: map<C, Entry<K, V>>, hash: K -> nat, classOf: K -> C,
                                         i: nat)
    requires i < |b| && Represents(b, model, hash, classOf)
    ensures BucketOk(EntriesOf(b[i]), i, |b|, model, hash, classOf)
  {
  }

  lemma MapHolds<K(!new), V, C(!new)>(b: seq<Option<seq<Entry<K, V>>>>, model: map<C, Entry<K, V>>, hash: K -> nat, classOf: K -> C,
                                      c: C)
    requires |b| > 0 && Represents(b, model, hash, classOf) && c in model
    ensures Stored(b, model, c, hash, classOf)
  {
  }

  /** What a search in the bucket of a key tells about the map. */
  lemma FindTells<K(!new), V, C(!new)>(b: seq<Option<seq<Entry<K, V>>>>, model: map<C, Entry<K, V>>, hash: K -> nat,
                                       equal: (K, K) -> bool, classOf: K -> C, key: K)
    requires |b| > 0 && GoodKeys(hash, equal, classOf) && Represents(b, model, hash, classOf)
    ensures var entries := EntriesOf(b[hash(key) % |b|]);
            var i := FindEntry(entries, key, equal);
            && (i < |entries| <==> classOf(key) in model)
            && (i < |entries| ==> entries[i] == model[classOf(key)])
  {
    hide GoodKeys, Represents, FindEntry;
    var at := hash(key) % |b|;
    var entries := EntriesOf(b[at]);
    var i := FindEntry(entries, key, equal);
    BucketHolds(b, model, hash, classOf, at);
    if i < |entries| {
      SameClass(hash, equal, classOf, entries[i].key, key);
    } else if classOf(key) in model {
      MapHolds(b, model, hash, classOf, classOf(key));
      SameClass(hash, equal, classOf, model[classOf(key)].key, key);
    }
  }

  /** A change of the map for one key does not concern the other buckets. */
  lemma OtherBucket<K(!new), V, C(!new)>(entries: seq<Entry<K, V>>, i: nat, n: nat, model: map<C, Entry<K, V>>,
                                         after: map<C, Entry<K, V>>, hash: K -> nat, equal: (K, K) -> bool, classOf: K -> C, key: K)
    requires n > 0 && GoodKeys(hash, equal, classOf) && BucketOk(entries, i, n, model, hash, classOf) && i != hash(key) % n
    requires forall c :: c != classOf(key) ==> (c in model <==> c in after) && (c in model ==> model[c] == after[c])
    ensures BucketOk(entries, i, n, after, hash, classOf)
  {
    hide GoodKeys;
    forall k | 0 <= k < |entries|
      ensures classOf(entries[k].key) != classOf(key)
    {
      SameClass(hash, equal, classOf, entries[k].key, key);
    }
  }

  lemma StoredAfterDrop<K(!new), V, C(!new)>(b: seq<Option<seq<Entry<K, V>>>>, model: map<C, Entry<K, V>>, hash: K -> nat,
                                             classOf: K -> C, at: nat, i: nat, c: C, gone: C)
    requires at < |b| && i < |EntriesOf(b[at])| && c in model && c != gone && classOf(EntriesOf(b[at])[i].key) == gone
    requires Stored(b, model, c, hash, classOf)
    ensures Stored(b[at := Some(WithoutAt(EntriesOf(b[at]), i))], model - {gone}, c, hash, classOf)
  {
    DropStored(EntriesOf(b[at]), i, model[c]);
    hide WithoutAt;
  }

  /** Taking the entry of a key out of its bucket takes the key out of the map. */
  lemma DropKeeps<K(!new), V, C(!new)>(b: seq<Option<seq<Entry<K, V>>>>, model: map<C, Entry<K, V>>, hash: K -> nat,
                                       equal: (K, K) -> bool, classOf: K -> C, key: K, at: nat, i: nat)
    requires |b| > 0 && GoodKeys(hash, equal, classOf) && Represents(b, model, hash, classOf) && at == hash(key) % |b|
    requires i < |EntriesOf(b[at])| && equal(EntriesOf(b[at])[i].key, key)
    ensures Represents(b[at := Some(WithoutAt(EntriesOf(b[at]), i))], model - {classOf(key)}, hash, classOf)
  {
    hide GoodKeys, BucketOk, Stored, WithoutAt;
    var entries := EntriesOf(b[at]);
    var (after, less) := (b[at := Some(WithoutAt(entries, i))], model - {classOf(key)});
    SameClass(hash, equal, classOf, entries[i].key, key);
    forall k | 0 <= k < |b|
      ensures BucketOk(EntriesOf(after[k]), k, |b|, less, hash, classOf)
    {
      BucketHolds(b, model, hash, classOf, k);
      if k != at {
        OtherBucket(EntriesOf(b[k]), k, |b|, model, less, hash, equal, classOf, key);
      } else {
        DropBucket(entries, at, |b|, model, hash, classOf, key, i);
      }
    }
    forall c | c in less
      ensures Stored(after, less, c, hash, classOf)
    {
      MapHolds(b, model, hash, classOf, c);
      StoredAfterDrop(b, model, hash, classOf, at, i, c, classOf(key));
    }
  }

  lemma DropBucket<K(!new), V, C(!new)>(entries: seq<Entry<K, V>>, at: nat, n: nat, model: map<C, Entry<K, V>>, hash: K -> nat, classOf: K -> C,
                            key: K, i: nat)
    requires n > 0 && BucketOk(entries, at, n, model, hash, classOf) && i < |entries| && classOf(entries[i].key) == classOf(key)
    ensures BucketOk(WithoutAt(entries, i), at, n, model - {classOf(key)}, hash, classOf)
  {
  }

  lemma DropStored<T>(s: seq<T>, i: nat, x: T)
    requires i < |s|
    ensures x in s && x != s[i] ==> x in WithoutAt(s, i)
  {
    if x in s && x != s[i] {
      var k :| 0 <= k < |s| && s[k] == x;
      assert WithoutAt(s, i)[if k < i then k else k - 1] == x;
    }
  }

  lemma AddBucket<K(!new), V, C(!new)>(entries: seq<Entry<K, V>>, at: nat, n: nat, model: map<C, Entry<K, V>>, hash: K -> nat,
                                       classOf: K -> C, e: Entry<K, V>)
    requires n > 0 && BucketOk(entries, at, n, model, hash, classOf) && at == hash(e.key) % n && classOf(e.key) !in model
    ensures BucketOk(entries + [e], at, n, model[classOf(e.key) := e], hash, classOf)
  {
  }

  lemma StoredAfterAdd<K(!new), V, C(!new)>(b: seq<Option<seq<Entry<K, V>>>>, model: map<C, Entry<K, V>>, hash: K -> nat,
                                            classOf: K -> C, at: nat, e: Entry<K, V>, c: C)
    requires |b| > 0 && at == hash(e.key) % |b|
    requires c == classOf(e.key) || (c in model && Stored(b, model, c, hash, classOf))
    ensures Stored(b[at := Some(EntriesOf(b[at]) + [e])], model[classOf(e.key) := e], c, hash, classOf)
  {
    var entries := EntriesOf(b[at]);
    assert (entries + [e])[|entries|] == e;
  }

  /** Appending an entry of a new key to its bucket adds the key to the map. */
  lemma AddKeeps<K(!new), V, C(!new)>(b: seq<Option<seq<Entry<K, V>>>>, model: map<C, Entry<K, V>>, hash: K -> nat,
                                      equal: (K, K) -> bool, classOf: K -> C, e: Entry<K, V>, at: nat)
    requires |b| > 0 && GoodKeys(hash, equal, classOf) && Represents(b, model, hash, classOf) && classOf(e.key) !in model
    requires at == hash(e.key) % |b|
    ensures Represents(b[at := Some(EntriesOf(b[at]) + [e])], model[classOf(e.key) := e], hash, classOf)
  {
    hide GoodKeys, BucketOk, Stored;
    var (after, more) := (b[at := Some(EntriesOf(b[at]) + [e])], model[classOf(e.key) := e]);
    forall k | 0 <= k < |b|
      ensures BucketOk(EntriesOf(after[k]), k, |b|, more, hash, classOf)
    {
      BucketHolds(b, model, hash, classOf, k);
      if k != at {
        OtherBucket(EntriesOf(b[k]), k, |b|, model, more, hash, equal, classOf, e.key);
      } else {
        AddBucket(EntriesOf(b[at]), at, |b|, model, hash, classOf, e);
      }
    }
    forall c | c in more
      ensures Stored(after, more, c, hash, classOf)
    {
      if c != classOf(e.key) {
        MapHolds(b, model, hash, classOf, c);
      }
      StoredAfterAdd(b, model, hash, classOf, at, e, c);
    }
  }

  lemma NothingRepresents<K(!new), V, C(!new)>(b: seq<Option<seq<Entry<K, V>>>>, hash: K -> nat, classOf: K -> C)
    requires |b| > 0 && forall i :: 0 <= i < |b| ==> b[i].None?
    ensures Represents(b, map[], hash, classOf)
  {
  }

  lemma EmptyIsNone<K(!new), V, C(!new)>(b: seq<Option<seq<Entry<K, V>>>>, after: seq<Option<seq<Entry<K, V>>>>, model: map<C, Entry<K, V>>,
                             hash: K -> nat, classOf: K -> C)
    requires |b| == |after| > 0 && Represents(b, model, hash, classOf)
    requires forall i :: 0 <= i < |b| ==> EntriesOf(after[i]) == EntriesOf(b[i])
    ensures Represents(after, model, hash, classOf)
  {
    forall c | c in model
      ensures Stored(after, model, c, hash, classOf)
    {
      assert Stored(b, model, c, hash, classOf);
    }
    forall i | 0 <= i < |b|
      ensures BucketOk(EntriesOf(after[i]), i, |b|, model, hash, classOf)
    {
      assert BucketOk(EntriesOf(b[i]), i, |b|, model, hash, classOf);
    }
  }

  class HashMap<K(!new), V(!new), C(!new, ==)> {
    const hash: K -> nat
    const equal: (K, K) -> bool
    ghost const classOf: K -> C
    const bucket: array<Option<seq<Entry<K, V>>>>
    var hashSize: nat
    /** The finite map: the entry of each class of keys. */
    ghost var model: map<C, Entry<K, V>>

    ghost predicate Valid()
      reads this, bucket
    {
      && GoodKeys(hash, equal, classOf) && bucket.Length > 0
      && Represents(bucket[..], model, hash, classOf)
      && |model| <= hashSize
    }

    /** hash_map_new. */
    constructor (buckets: nat, hash: K -> nat, equal: (K, K) -> bool, ghost classOf: K -> C)
      requires buckets > 0 && GoodKeys(hash, equal, classOf)
      ensures Valid() && model == map[] && hashSize == 0 && fresh(bucket)
      ensures this.hash == hash && this.equal == equal && this.classOf == classOf
    {
      this.hash, this.equal, this.classOf := hash, equal, classOf;
      bucket := new Option<seq<Entry<K, V>>>[buckets](_ => None);
      hashSize, model := 0, map[];
    }

    /** hash_map_has_key. */
    method HasKey(key: K) returns (found: bool)
      requires Valid()
      ensures found <==> classOf(key) in model
    {
      FindTells(bucket[..], model, hash, equal, classOf, key);
      var entries := EntriesOf(bucket[hash(key) % bucket.Length]);
      return FindEntry(entries, key, equal) < |entries|;
    }

    /** hash_map_get. */
    method Get(key: K) returns (r: Option<V>)
      requires Valid()
      ensures r == if classOf(key) in model then Some(model[classOf(key)].data) else None
    {
      FindTells(bucket[..], model, hash, equal, classOf, key);
      var entries := EntriesOf(bucket[hash(key) % bucket.Length]);
      var i := FindEntry(entries, key, equal);
      return if i < |entries| then Some(entries[i].data) else None;
    }

    /** Take the entry of a key out of its bucket, if there is one. */
    method Drop(key: K) returns (found: bool)
      requires Valid()
      modifies `model, bucket
      ensures Valid() && found == (classOf(key) in old(model)) && model == old(model) - {classOf(key)}
      ensures found ==> |model| == |old(model)| - 1
    {
      hide Represents, GoodKeys;
      FindTells(bucket[..], model, hash, equal, classOf, key);
      var at := hash(key) % bucket.Length;
      var entries := EntriesOf(bucket[at]);
      var i := FindEntry(entries, key, equal);
      if i == |entries| {
        assert model - {classOf(key)} == model;
        return false;
      }
      DropKeeps(bucket[..], model, hash, equal, classOf, key, at, i);
      ghost var after := bucket[..][at := Some(WithoutAt(entries, i))];
      bucket[at] := Some(WithoutAt(entries, i));
      assert bucket[..] == after;
      assert model.Keys == (model - {classOf(key)}).Keys + {classOf(key)};
      model := model - {classOf(key)};
      return true;
    }

    /** Append an entry to the bucket of its key. */
    method Add(e: Entry<K, V>)
      requires Valid() && classOf(e.key) !in model && |model| < hashSize
      modifies `model, bucket
      ensures Valid() && model == old(model)[classOf(e.key) := e]
    {
      hide Represents, GoodKeys;
      var at := hash(e.key) % bucket.Length;
      AddKeeps(bucket[..], model, hash, equal, classOf, e, at);
      ghost var after := bucket[..][at := Some(EntriesOf(bucket[at]) + [e])];
      bucket[at] := Some(EntriesOf(bucket[at]) + [e]);
      assert bucket[..] == after;
      model := model[classOf(e.key) := e];
    }

    /** hash_map_set once the bucket has a list. */
    method Replace(key: K, data: V, allocates: bool)
      requires Valid()
      modifies this, bucket
      ensures Valid()
      ensures model == if allocates then old(model)[classOf(key) := Entry(key, data)] else old(model) - {classOf(key)}
      ensures hashSize == old(hashSize) + if classOf(key) in old(model) then 0 else 1
      ensures |model| == |old(model)| + (if allocates then 1 else 0) - (if classOf(key) in old(model) then 1 else 0)
    {
      hide Represents, GoodKeys;
      ghost var was := model;
      var found := Drop(key);
      if !found {
        assert was - {classOf(key)} == was;
        hashSize := hashSize + 1;
      }
      if allocates {
        ghost var less := model;
        Add(Entry(key, data));
        assert model.Keys == less.Keys + {classOf(key)};
      }
    }

    /** hash_map_set. The flags tell whether there is memory for a list, an entry and a list node. Without memory for the entry or
        its node the old entry of the key is gone all the same. */
    method Set(key: K, data: V, listAllocates: bool, entryAllocates: bool, nodeAllocates: bool) returns (ok: bool)
      requires Valid()
      modifies this, bucket
      ensures Valid()
      ensures ok <==> (old(bucket[hash(key) % bucket.Length]).Some? || listAllocates) && entryAllocates && nodeAllocates
      ensures model == if ok then old(model)[classOf(key) := Entry(key, data)]
                       else if old(bucket[hash(key) % bucket.Length]).Some? || listAllocates then old(model) - {classOf(key)}
                       else old(model)
      ensures hashSize == old(hashSize) + if (old(bucket[hash(key) % bucket.Length]).Some? || listAllocates)
                                             && classOf(key) !in old(model) then 1 else 0
      ensures ok && old(hashSize == |model|) ==> hashSize == |model|
    {
      hide Represents, GoodKeys;
      var at := hash(key) % bucket.Length;
      if bucket[at].None? {
        if !listAllocates {
          return false;
        }
        EmptyList(at);
      }
      Replace(key, data, entryAllocates && nodeAllocates);
      return entryAllocates && nodeAllocates;
    }

    /** A new list in a bucket that had none. */
    method EmptyList(at: nat)
      requires Valid() && at < bucket.Length && bucket[at].None?
      modifies bucket
      ensures Valid() && bucket[at] == Some([])
    {
      hide Represents, GoodKeys;
      ghost var before := bucket[..];
      bucket[at] := Some([]);
      EmptyIsNone(before, bucket[..], model, hash, classOf);
    }

    /** The list of a bucket is freed when it is empty. */
    method FreeList(at: nat)
      requires Valid() && at < bucket.Length && bucket[at] == Some([])
      modifies bucket
      ensures Valid()
    {
      hide Represents, GoodKeys;
      ghost var before := bucket[..];
      bucket[at] := None;
      EmptyIsNone(before, bucket[..], model, hash, classOf);
    }

    /** hash_map_erase. */
    method Erase(key: K) returns (ok: bool)
      requires Valid()
      modifies this, bucket
      ensures Valid() && ok == (classOf(key) in old(model)) && model == old(model) - {classOf(key)}
      ensures old(hashSize == |model|) ==> hashSize == |model|
    {
      hide Represents, GoodKeys;
      var at := hash(key) % bucket.Length;
      ok := Drop(key);
      if ok {
        hashSize := hashSize - 1;
        if bucket[at] == Some([]) {
          FreeList(at);
        }
      }
    }

    /** hash_map_clear, which leaves hash_size alone. */
    method Clear()
      requires Valid()
      modifies `model, bucket
      ensures Valid() && model == map[] && hashSize == old(hashSize)
    {
      hide Represents, GoodKeys;
      var i := 0;
      while i < bucket.Length
        invariant i <= bucket.Length && forall k :: 0 <= k < i ==> bucket[k].None?
      {
        bucket[i] := None;
        i := i + 1;
      }
      NothingRepresents<K, V, C>(bucket[..], hash, classOf);
      model := map[];
    }
  }
}
