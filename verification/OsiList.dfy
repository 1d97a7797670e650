/** The singly linked list of the OS layer, with head, tail and length. */
module OsiList {
  import opened Text

  class Node<T> {
    var next: Node?<T>
    const data: T

    constructor (data: T, next: Node?<T>)
      ensures this.data == data && this.next == next
    {
      this.data, this.next := data, next;
    }
  }

  /** The data of the nodes, in order. */
  ghost function DataOf<T>(nodes: seq<Node<T>>): (s: seq<T>)
    ensures |s| == |nodes| && forall i :: 0 <= i < |nodes| ==> s[i] == nodes[i].data
  {
    seq(|nodes|, i requires 0 <= i < |nodes| => nodes[i].data)
  }

  /** Where the first element equal to x is, or the length. */
  function FirstIndex<T(==)>(s: seq<T>, x: T): (i: nat)
    ensures i <= |s| && (i < |s| ==> s[i] == x) && forall k :: 0 <= k < i ==> s[k] != x
  {
    if s == [] || s[0] == x then 0 else 1 + FirstIndex(s[1..], x)
  }

  /** The sequence without the first element equal to x. */
  function WithoutFirst<T(==)>(s: seq<T>, x: T): seq<T> {
    var i := FirstIndex(s, x);
    if i < |s| then s[..i] + s[i + 1..] else s
  }

  lemma FirstIndexIs<T>(s: seq<T>, x: T, i: nat)
    requires i < |s| && s[i] == x && forall k :: 0 <= k < i ==> s[k] != x
    ensures FirstIndex(s, x) == i
  {
  }

  lemma CutFirst<T>(s: seq<T>, i: nat, x: T)
    requires i < |s| && s[i] == x && forall k :: 0 <= k < i ==> s[k] != x
    ensures WithoutFirst(s, x) == s[..i] + s[i + 1..]
  {
    FirstIndexIs(s, x, i);
  }

  lemma NothingToCut<T>(s: seq<T>, x: T)
    requires x !in s
    ensures WithoutFirst(s, x) == s
  {
  }

  /** The nodes of a list linked from first to last. */
  ghost predicate Linked<T>(nodes: seq<Node<T>>)
    reads nodes
  {
    && (forall i, j :: 0 <= i < j < |nodes| ==> nodes[i] != nodes[j])
    && (forall i :: 0 <= i < |nodes| - 1 ==> nodes[i].next == nodes[i + 1])
    && (nodes != [] ==> nodes[|nodes| - 1].next == null)
  }

  class List<T(==)> {
    var head: Node?<T>
    var tail: Node?<T>
    var length: nat
    ghost var nodes: seq<Node<T>>

    ghost predicate Valid()
      reads this, nodes
    {
      && length == |nodes| && Linked(nodes)
      && (if nodes == [] then head == null == tail else head == nodes[0] && tail == nodes[|nodes| - 1])
    }

    ghost function Contents(): (s: seq<T>)
      reads this
    {
      DataOf(nodes)
    }

    /** list_new. */
    constructor ()
      ensures Valid() && Contents() == [] && nodes == []
    {
      head, tail, length, nodes := null, null, 0, [];
    }

    /** list_append; "allocates" tells whether there is memory for the node. */
    method Append(data: T, allocates: bool) returns (ok: bool)
      requires Valid()
      modifies this, nodes
      ensures Valid() && ok == allocates
      ensures Contents() == if ok then old(Contents()) + [data] else old(Contents())
      ensures fresh(set n | n in nodes && n !in old(nodes))
    {
      if !allocates {
        return false;
      }
      var node := new Node(data, null);
      if tail == null {
        head, tail := node, node;
      } else {
        tail.next := node;
        tail := node;
      }
      nodes := nodes + [node];
      length := length + 1;
      return true;
    }

    /** list_prepend. */
    method Prepend(data: T, allocates: bool) returns (ok: bool)
      requires Valid()
      modifies this
      ensures Valid() && ok == allocates
      ensures Contents() == if ok then [data] + old(Contents()) else old(Contents())
      ensures fresh(set n | n in nodes && n !in old(nodes))
    {
      if !allocates {
        return false;
      }
      var node := new Node(data, head);
      head := node;
      if tail == null {
        tail := head;
      }
      nodes := [node] + nodes;
      length := length + 1;
      return true;
    }

    /** The links of list_insert_after. */
    method Link(prev: Node<T>, node: Node<T>, ghost i: nat)
      requires Valid() && 0 < i <= |nodes| && prev == nodes[i - 1] && node !in nodes && node.next == prev.next
      modifies this, prev
      ensures Valid() && nodes == old(nodes)[..i] + [node] + old(nodes)[i..]
      ensures Contents() == old(Contents())[..i] + [node.data] + old(Contents())[i..]
    {
      ghost var before := nodes;
      prev.next := node;
      if tail == prev {
        tail := node;
      }
      length := length + 1;
      nodes := before[..i] + [node] + before[i..];
    }

    /** list_insert_after. */
    method InsertAfter(prev: Node<T>, ghost at: nat, data: T, allocates: bool) returns (ok: bool)
      requires Valid() && at < |nodes| && nodes[at] == prev
      modifies this, prev
      ensures Valid() && ok == allocates
      ensures Contents() == if ok then old(Contents())[..at + 1] + [data] + old(Contents())[at + 1..] else old(Contents())
      ensures fresh(set n | n in nodes && n !in old(nodes))
    {
      if !allocates {
        return false;
      }
      hide DataOf, Linked;
      var node := new Node(data, prev.next);
      assert forall k :: 0 <= k < |nodes| ==> !fresh(nodes[k]);
      Link(prev, node, at + 1);
      return true;
    }

    /** list_contains. */
    method Contains(data: T) returns (found: bool)
      requires Valid()
      ensures found <==> data in Contents()
    {
      var node := head;
      ghost var i := 0;
      while node != null
        invariant i <= |nodes| && node == (if i < |nodes| then nodes[i] else null)
        invariant data !in Contents()[..i]
        decreases |nodes| - i
      {
        if node.data == data {
          assert Contents()[i] == data;
          return true;
        }
        node := node.next;
        i := i + 1;
      }
      return false;
    }

    /** list_front. */
    method Front() returns (data: T)
      requires Valid() && Contents() != []
      ensures data == Contents()[0]
    {
      return head.data;
    }

    /** Take out the node behind "prev". */
    method Unlink(prev: Node<T>, node: Node<T>, ghost i: nat)
      requires Valid() && 0 < i < |nodes| && prev == nodes[i - 1] && node == nodes[i]
      modifies this, prev
      ensures Valid() && nodes == old(nodes)[..i] + old(nodes)[i + 1..]
      ensures Contents() == old(Contents())[..i] + old(Contents())[i + 1..]
    {
      hide DataOf;
      ghost var before := nodes;
      prev.next := node.next;
      length := length - 1;
      if tail == node {
        tail := prev;
      }
      nodes := before[..i] + before[i + 1..];
    }

    /** The first node with this data behind the head, and the one in front of it. */
    method Search(data: T) returns (prev: Node<T>, node: Node?<T>, ghost i: nat)
      requires Valid() && nodes != [] && nodes[0].data != data
      ensures 0 < i <= |nodes| && prev == nodes[i - 1] && node == if i < |nodes| then nodes[i] else null
      ensures (forall k :: 0 <= k < i ==> Contents()[k] != data) && (i < |nodes| ==> Contents()[i] == data)
    {
      prev, node, i := head, head.next, 1;
      while node != null && node.data != data
        invariant 1 <= i <= |nodes| && prev == nodes[i - 1] && node == (if i < |nodes| then nodes[i] else null)
        invariant forall k :: 0 <= k < i ==> nodes[k].data != data
        decreases |nodes| - i
      {
        prev, node, i := node, node.next, i + 1;
      }
    }

    /** Take out the head. */
    method RemoveHead()
      requires Valid() && nodes != []
      modifies this
      ensures Valid() && nodes == old(nodes)[1..] && Contents() == old(Contents())[1..]
    {
      var next := head.next;
      length := length - 1;
      if tail == head {
        tail := next;
      }
      head := next;
      nodes := nodes[1..];
    }

    /** list_remove: unlink the first node with this data. */
    method Remove(data: T) returns (ok: bool)
      requires Valid()
      modifies this, nodes
      ensures Valid()
      ensures ok <==> data in old(Contents())
      ensures Contents() == WithoutFirst(old(Contents()), data)
      ensures forall n :: n in nodes ==> n in old(nodes)
    {
      if length == 0 {
        return false;
      }
      ghost var was := Contents();
      assert |was| == |nodes| && was[0] == head.data;
      hide DataOf, FirstIndex, Linked, WithoutFirst;
      if head.data == data {
        CutFirst(was, 0, data);
        RemoveHead();
        return true;
      }
      var prev, node, i := Search(data);
      if node == null {
        assert Contents() == was && i == |nodes| == |was|;
        NothingToCut(was, data);
        return false;
      }
      CutFirst(was, i, data);
      Unlink(prev, node, i);
      return true;
    }

    /** list_clear. */
    method Clear()
      requires Valid()
      modifies this
      ensures Valid() && Contents() == []
    {
      var node := head;
      ghost var i := 0;
      while node != null
        invariant i <= |nodes| && node == (if i < |nodes| then nodes[i] else null) && length == |nodes| - i
        invariant nodes == old(nodes)
        decreases |nodes| - i
      {
        node := node.next;
        length := length - 1;
        i := i + 1;
      }
      head, tail, length, nodes := null, null, 0, [];
    }
  }
}
