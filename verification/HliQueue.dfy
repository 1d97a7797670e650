/** The ring queues through which high-level interrupts pass elements to a software interrupt. */
module HliQueue {
  import opened Text

  const MAX_ELEM_SIZE: nat := 32

  const META_QUEUE_SIZE: nat := 16

  // ----- slots of a ring -----

  lemma SlotBounds(k: nat, slots: nat, size: nat)
    requires k < slots
    ensures k * size + size <= slots * size && (k + 1) * size == k * size + size
  {
    assert slots * size == (k + 1) * size + (slots - k - 1) * size;
  }

  lemma SlotsApart(j: nat, k: nat, size: nat)
    requires j < k
    ensures j * size + size <= k * size
  {
    assert k * size == (j + 1) * size + (k - j - 1) * size;
  }

  /** Different slots do not overlap. */
  lemma SlotsDiffer(j: nat, k: nat, size: nat)
    requires size > 0
    ensures j * size == k * size <==> j == k
  {
    if j < k {
      SlotsApart(j, k, size);
    } else if k < j {
      SlotsApart(k, j, size);
    }
  }

  /** Slot numbers go around: there is one slot more than elements that fit. */
  function Wrap(k: nat, nelem: nat): nat {
    if k > nelem then k - (nelem + 1) else k
  }

  function Slot(bytes: seq<char>, k: nat, nelem: nat, size: nat): seq<char>
    requires k <= nelem && |bytes| == (nelem + 1) * size
  {
    SlotBounds(k, nelem + 1, size);
    bytes[k * size..k * size + size]
  }

  /** The elements of a ring, first in first. */
  function Elements(bytes: seq<char>, head: nat, count: nat, nelem: nat, size: nat): (s: seq<seq<char>>)
    requires head <= nelem && count <= nelem && |bytes| == (nelem + 1) * size
    ensures |s| == count
  {
    seq(count, i requires 0 <= i < count => Slot(bytes, Wrap(head + i, nelem), nelem, size))
  }

  lemma ElementAt(bytes: seq<char>, head: nat, count: nat, nelem: nat, size: nat, i: nat)
    requires head <= nelem && i < count <= nelem && |bytes| == (nelem + 1) * size
    ensures Elements(bytes, head, count, nelem, size)[i] == Slot(bytes, Wrap(head + i, nelem), nelem, size)
  {
    hide Slot;
  }

  lemma ElementsPop(bytes: seq<char>, head: nat, count: nat, nelem: nat, size: nat)
    requires head <= nelem && 0 < count <= nelem && |bytes| == (nelem + 1) * size
    ensures Elements(bytes, head, count, nelem, size)[0] == Slot(bytes, head, nelem, size)
    ensures Elements(bytes, head, count, nelem, size)[1..] == Elements(bytes, Wrap(head + 1, nelem), count - 1, nelem, size)
  {
    var (s, t) := (Elements(bytes, head, count, nelem, size), Elements(bytes, Wrap(head + 1, nelem), count - 1, nelem, size));
    hide Slot, Elements;
    ElementAt(bytes, head, count, nelem, size, 0);
    forall i | 0 <= i < count - 1
      ensures s[1..][i] == t[i]
    {
      ElementAt(bytes, head, count, nelem, size, i + 1);
      ElementAt(bytes, Wrap(head + 1, nelem), count - 1, nelem, size, i);
    }
  }

  lemma SlotKept(bytes: seq<char>, after: seq<char>, last: nat, k: nat, nelem: nat, size: nat)
    requires k <= nelem && last <= nelem && k != last && |bytes| == |after| == (nelem + 1) * size
    requires forall i :: 0 <= i < |bytes| && !(last * size <= i < last * size + size) ==> after[i] == bytes[i]
    ensures Slot(after, k, nelem, size) == Slot(bytes, k, nelem, size)
  {
    SlotBounds(k, nelem + 1, size);
    if k < last {
      SlotsApart(k, last, size);
    } else {
      SlotsApart(last, k, size);
    }
  }

  lemma ElementsPush(bytes: seq<char>, after: seq<char>, head: nat, count: nat, nelem: nat, size: nat, data: seq<char>)
    requires head <= nelem && count < nelem && |bytes| == |after| == (nelem + 1) * size
    requires var last := Wrap(head + count, nelem);
             && Slot(after, last, nelem, size) == data
             && forall i :: 0 <= i < |bytes| && !(last * size <= i < last * size + size) ==> after[i] == bytes[i]
    ensures Elements(after, head, count + 1, nelem, size) == Elements(bytes, head, count, nelem, size) + [data]
  {
    var (s, t) := (Elements(bytes, head, count, nelem, size), Elements(after, head, count + 1, nelem, size));
    forall i | 0 <= i < count
      ensures t[i] == s[i]
    {
      SlotKept(bytes, after, Wrap(head + count, nelem), Wrap(head + i, nelem), nelem, size);
    }
  }

  /** What queue_signal makes of the meta-queue. */
  function Signalled<H(==)>(meta: seq<H>, queue: H): seq<H> {
    if queue in meta then meta else meta + [queue]
  }

  /** hli_queue_t. The buffer has room for one element more than the queue may hold. */
  class Ring {
    const nelem: nat
    const elemSize: nat
    const buf: array<char>
    var begin: nat
    var end: nat
    /** The slot of the first element, and how many there are. */
    ghost var head: nat
    ghost var count: nat

    /** queue_init. */
    constructor (nelem: nat, elemSize: nat)
      ensures Valid() && Contents() == [] && fresh(buf) && this.nelem == nelem && this.elemSize == elemSize
    {
      this.nelem, this.elemSize := nelem, elemSize;
      buf := new char[(nelem + 1) * elemSize];
      begin, end, head, count := 0, 0, 0, 0;
    }

    ghost predicate Valid()
      reads this
    {
      && buf.Length == (nelem + 1) * elemSize
      && head <= nelem && count <= nelem && (elemSize == 0 ==> head == 0 == count)
      && begin == head * elemSize && end == Wrap(head + count, nelem) * elemSize
    }

    ghost function Contents(): (s: seq<seq<char>>)
      requires Valid()
      reads this, buf
      ensures |s| == count
    {
      Elements(buf[..], head, count, nelem, elemSize)
    }

    /** An empty element leaves no room to tell a full queue from an empty one, so such a queue takes none. */
    function Capacity(): nat { if elemSize == 0 then 0 else nelem }

    /** wrap_ptr, on offsets into the buffer. */
    function WrapOffset(p: nat): nat { if p == buf.Length then 0 else p }

    lemma WrapOffsetSlot(k: nat)
      requires buf.Length == (nelem + 1) * elemSize && k <= nelem
      ensures k * elemSize + elemSize <= buf.Length
      ensures WrapOffset(k * elemSize + elemSize) == Wrap(k + 1, nelem) * elemSize
    {
      SlotBounds(k, nelem + 1, elemSize);
      if elemSize > 0 {
        SlotsDiffer(k + 1, nelem + 1, elemSize);
      }
    }

    predicate Empty()
      reads this
    {
      begin == end
    }

    predicate Full()
      reads this
    {
      WrapOffset(end + elemSize) == begin
    }

    /** The comparisons of offsets tell how many elements there are. */
    lemma EmptyFull()
      requires Valid()
      ensures Empty() <==> Contents() == []
      ensures Full() <==> |Contents()| == Capacity()
    {
      var tail := Wrap(head + count, nelem);
      WrapOffsetSlot(tail);
      if elemSize > 0 {
        SlotsDiffer(head, tail, elemSize);
        SlotsDiffer(head, Wrap(tail + 1, nelem), elemSize);
      }
    }

    /** hli_queue_get. */
    method Get() returns (ok: bool, out: seq<char>)
      requires Valid()
      modifies this
      ensures Valid()
      ensures ok <==> old(Contents()) != []
      ensures ok ==> out == old(Contents())[0] && Contents() == old(Contents())[1..]
      ensures !ok ==> Contents() == old(Contents())
    {
      hide Elements;
      EmptyFull();
      ok, out := false, [];
      if !Empty() {
        WrapOffsetSlot(head);
        ElementsPop(buf[..], head, count, nelem, elemSize);
        assert buf[..][begin..begin + elemSize] == buf[begin..begin + elemSize];
        out := buf[begin..begin + elemSize];
        begin := WrapOffset(begin + elemSize);
        assert Wrap(Wrap(head + 1, nelem) + (count - 1), nelem) == Wrap(head + count, nelem);
        head, count := Wrap(head + 1, nelem), count - 1;
        ok := true;
      }
    }

    /** The copying and moving part of hli_queue_put. */
    method Append(data: seq<char>) returns (ok: bool)
      requires Valid() && |data| == elemSize
      modifies this, buf
      ensures Valid()
      ensures ok <==> |old(Contents())| < Capacity()
      ensures Contents() == if ok then old(Contents()) + [data] else old(Contents())
    {
      hide Elements;
      EmptyFull();
      ok := false;
      if !Full() {
        ghost var (bytes, last) := (buf[..], Wrap(head + count, nelem));
        WrapOffsetSlot(last);
        forall i | 0 <= i < elemSize {
          buf[end + i] := data[i];
        }
        assert Slot(buf[..], last, nelem, elemSize) == data;
        ElementsPush(bytes, buf[..], head, count, nelem, elemSize, data);
        assert Wrap(last + 1, nelem) == Wrap(head + (count + 1), nelem);
        end := WrapOffset(end + elemSize);
        count := count + 1;
        ok := true;
      }
    }

    /** The search of queue_signal: walk the ring from begin to end. */
    method Holds(key: seq<char>) returns (found: bool)
      requires Valid() && |key| == elemSize
      ensures found <==> key in Contents()
    {
      hide Elements;
      var item := begin;
      ghost var (i, elements) := (0, Contents());
      while item != end
        invariant i <= count && item == Wrap(head + i, nelem) * elemSize
        invariant key !in elements[..i]
        decreases count - i
      {
        ghost var k := Wrap(head + i, nelem);
        WrapOffsetSlot(k);
        assert buf[..][item..item + elemSize] == buf[item..item + elemSize];
        ElementAt(buf[..], head, count, nelem, elemSize, i);
        if buf[item..item + elemSize] == key {
          return true;
        }
        assert elements[..i + 1] == elements[..i] + [elements[i]];
        item := WrapOffset(item + elemSize);
        i := i + 1;
      }
      if elemSize > 0 {
        SlotsDiffer(Wrap(head + i, nelem), Wrap(head + count, nelem), elemSize);
      }
      assert elements[..i] == elements;
      return false;
    }
  }

  datatype PutResult = Rejected | Accepted(interrupt: bool) | Aborted

  /** hli_queue_create: the longest element is bounded. */
  method Create(nelem: nat, elemSize: nat) returns (r: Option<Ring>)
    ensures r.Some? <==> elemSize <= 32
    ensures r.Some? ==> fresh(r.value) && fresh(r.value.buf) && r.value.Valid() && r.value.Contents() == []
                        && r.value.nelem == nelem && r.value.elemSize == elemSize
  {
    if elemSize > MAX_ELEM_SIZE {
      return None;
    }
    var ring := new Ring(nelem, elemSize);
    return Some(ring);
  }

  /** hli_queue_put on a queue other than the meta-queue, with queue_signal. */
  method Put(queue: Ring, meta: Ring, handle: seq<char>, data: seq<char>) returns (r: PutResult)
    requires queue.Valid() && meta.Valid() && queue != meta && queue.buf != meta.buf
    requires |handle| == meta.elemSize && |data| == queue.elemSize
    modifies queue, queue.buf, meta, meta.buf
    ensures queue.Valid() && meta.Valid()
    ensures r.Rejected? <==> |old(queue.Contents())| == queue.Capacity()
    ensures queue.Contents() == if r.Rejected? then old(queue.Contents()) else old(queue.Contents()) + [data]
    ensures meta.Contents() == if r.Accepted? && old(queue.Contents()) == [] then Signalled(old(meta.Contents()), handle)
                               else old(meta.Contents())
    ensures r.Accepted? ==> (r.interrupt <==> meta.Contents() != old(meta.Contents()))
    ensures r.Aborted? <==> |old(queue.Contents())| < queue.Capacity() && old(queue.Contents()) == []
                            && handle !in old(meta.Contents()) && |old(meta.Contents())| == meta.Capacity()
  {
    queue.EmptyFull();
    var wasEmpty := queue.Empty();
    var ok := queue.Append(data);
    if !ok {
      return Rejected;
    }
    if !wasEmpty {
      return Accepted(false);
    }
    var found := meta.Holds(handle);
    if found {
      return Accepted(false);
    }
    var added := meta.Append(handle);
    return if added then Accepted(true) else Aborted;
  }
}
