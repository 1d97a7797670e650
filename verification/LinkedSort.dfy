/** sort_list on the children themselves: the nodes are relinked in place. */
module LinkedSort {
  import opened Text
  import opened Sorting
  import opened ChildList

  function NameOf(item: Item): string { item.name }

  lemma NextOf(head: Item?, items: seq<Item>, k: nat)
    requires Chain(head, items) && k < |items|
    ensures items[k].next == if k + 1 < |items| then items[k + 1] else null
  {
  }

  /** The first loop of sort_list: is the list strictly increasing? */
  method IsIncreasing(list: Item, ghost items: seq<Item>, cs: bool) returns (r: bool)
    requires Chain(list, items)
    ensures r <==> StrictlyIncreasing(items, NameOf, cs)
  {
    var current: Item? := list;
    ghost var i := 0;
    while current != null && current.next != null && CompareStrings(current.name, current.next.name, cs) < 0
      invariant i < |items| && current == items[i] && StrictlyIncreasing(items[..i + 1], NameOf, cs)
      decreases |items| - i
    {
      NextOf(list, items, i);
      current := current.next;
      i := i + 1;
    }
    NextOf(list, items, i);
    assert items[..|items|] == items;
    return current == null || current.next == null;
  }

  /** The second loop: walk two pointers to find the middle. */
  method Middle(list: Item, ghost items: seq<Item>) returns (second: Item?)
    requires Chain(list, items)
    ensures var mid := (|items| + 1) / 2; second == if mid < |items| then items[mid] else null
  {
    second := list;
    var current: Item? := list;
    ghost var i := 0;
    while current != null
      invariant 0 <= i <= (|items| + 1) / 2
      invariant current == (if 2 * i < |items| then items[2 * i] else null)
      invariant second == (if i < |items| then items[i] else null)
      decreases |items| - 2 * i
    {
      NextOf(list, items, i);
      NextOf(list, items, 2 * i);
      second := second.next;
      current := current.next;
      if current != null {
        NextOf(list, items, 2 * i + 1);
        current := current.next;
      }
      i := i + 1;
    }
  }

  /** Cut a chain in two in front of its middle node. */
  method Split(list: Item, ghost items: seq<Item>) returns (second: Item?, ghost mid: nat)
    requires Chain(list, items) && |items| > 1
    modifies items
    ensures mid == (|items| + 1) / 2 && Chain(list, items[..mid]) && Chain(second, items[mid..])
    ensures list.prev == old(list.prev) && second == items[mid] && second.prev == null
  {
    mid := (|items| + 1) / 2;
    second := Middle(list, items);
    NextOf(list, items, mid - 1);
    if second != null && second.prev != null {
      second.prev.next := null;
      second.prev := null;
    }
  }

  ghost predicate Disjoint(a: seq<Item>, b: seq<Item>) {
    forall x :: x in a ==> x !in b
  }

  /** Where the merge is: "done" has been linked from "result" to "tail", "a" and "b" are still to be merged. */
  ghost predicate Merging(result: Item, tail: Item, done: seq<Item>, first: Item?, a: seq<Item>, second: Item?, b: seq<Item>)
    reads done, a, b
  {
    && done != [] && result == done[0] && tail == Last(done) && Links(done) && Distinct(done)
    && Disjoint(done, a) && Disjoint(done, b) && Disjoint(a, b)
    && Chain(first, a) && Chain(second, b)
  }

  lemma MergingSwap(result: Item, tail: Item, done: seq<Item>, first: Item?, a: seq<Item>, second: Item?, b: seq<Item>)
    requires Merging(result, tail, done, first, a, second, b)
    ensures Merging(result, tail, done, second, b, first, a)
  {
    hide Distinct, Links;
  }

  /** The sets of nodes after the head of "a" has moved over. */
  lemma Moved(done: seq<Item>, a: seq<Item>, b: seq<Item>)
    requires a != [] && Distinct(done) && Distinct(a) && Disjoint(done, a) && Disjoint(done, b) && Disjoint(a, b)
    ensures Distinct(done + [a[0]]) && Distinct(a[1..]) && a[0] !in a[1..] && a[0] !in b && a[0] !in done
    ensures Disjoint(done + [a[0]], a[1..]) && Disjoint(done + [a[0]], b) && Disjoint(a[1..], b)
  {
    var (x, rest) := (a[0], a[1..]);
    assert x in a && x !in rest;
    assert forall y :: y in rest ==> y in a;
    DistinctAppend(done, [x]);
    forall y | y in done + [x]
      ensures y !in rest && y !in b
    {
      assert y in done || y == x;
    }
  }

  lemma ChainTail(head: Item, items: seq<Item>)
    requires Chain(head, items)
    ensures items != [] && Chain(head.next, items[1..])
  {
    NextOf(head, items, 0);
  }

  /** Take the head of "a" over, behind the tail. */
  method TakeFirst(result: Item, tail: Item, ghost done: seq<Item>, smaller: Item, ghost a: seq<Item>, second: Item?, ghost b: seq<Item>)
    requires Merging(result, tail, done, smaller, a, second, b)
    modifies tail, smaller
    ensures Merging(result, smaller, done + [smaller], smaller.next, a[1..], second, b)
    ensures result.prev == old(result.prev)
  {
    Moved(done, a, b);
    NextOf(smaller, a, 0);
    assert tail in done;
    tail.next := smaller;
    smaller.prev := tail;
    assert Links(done + [smaller]);
    assert Links(a[1..]);
    hide Distinct, Disjoint, Links;
  }

  /** The first element of a merge, and what is left to merge. */
  lemma MergeTurn(a: seq<Item>, b: seq<Item>, done: seq<Item>, cs: bool)
    requires a != [] && b != []
    ensures CompareStrings(a[0].name, b[0].name, cs) < 0
            ==> done + Merge(a, b, NameOf, cs) == (done + [a[0]]) + Merge(a[1..], b, NameOf, cs)
    ensures CompareStrings(a[0].name, b[0].name, cs) >= 0
            ==> done + Merge(a, b, NameOf, cs) == (done + [b[0]]) + Merge(a, b[1..], NameOf, cs)
  {
    var (x, y) := (Merge(a[1..], b, NameOf, cs), Merge(a, b[1..], NameOf, cs));
    var m := Merge(a, b, NameOf, cs);
    assert m == if CompareStrings(a[0].name, b[0].name, cs) < 0 then [a[0]] + x else [b[0]] + y;
    hide *;
    AppendAssociative(done, [a[0]], x);
    AppendAssociative(done, [b[0]], y);
  }

  /** The smaller head becomes the first node of the merged list. */
  lemma StartMerge(smaller: Item, a: seq<Item>, second: Item?, b: seq<Item>)
    requires Chain(smaller, a) && Chain(second, b) && Disjoint(a, b)
    ensures a != [] && Merging(smaller, smaller, [smaller], smaller.next, a[1..], second, b)
  {
    ChainTail(smaller, a);
    Moved([], a, b);
    assert [] + [smaller] == [smaller];
  }

  /** Append the rest of one list when the other is used up. */
  method AppendRest(result: Item, tail: Item, ghost done: seq<Item>, rest: Item, ghost a: seq<Item>)
    requires Merging(result, tail, done, rest, a, null, [])
    modifies tail, rest
    ensures Chain(result, done + a) && result.prev == old(result.prev)
  {
    assert tail in done && rest in a;
    tail.next := rest;
    rest.prev := tail;
    assert Links(done + a);
    DistinctAppend(done, a);
    assert Last(done + a) == Last(a);
    hide Links, Distinct, Disjoint;
  }

  lemma DistinctAppend(s: seq<Item>, t: seq<Item>)
    requires Distinct(s) && Distinct(t) && Disjoint(s, t)
    ensures Distinct(s + t)
  {
    forall i, j | 0 <= i < |s| && 0 <= j < |t|
      ensures s[i] != t[j]
    {
      assert s[i] in s;
    }
  }

  ghost predicate Within(s: seq<Item>, all: set<Item>) {
    forall x :: x in s ==> x in all
  }

  /** A turn of the merging loop when the merged list has begun. */
  method MergeStep(result: Item, tail: Item, ghost done: seq<Item>, first: Item, ghost a: seq<Item>, second: Item, ghost b: seq<Item>,
                   cs: bool, ghost all: set<Item>)
    returns (smaller: Item, first': Item?, second': Item?, ghost a': seq<Item>, ghost b': seq<Item>)
    requires Merging(result, tail, done, first, a, second, b) && Within(done, all) && Within(a, all) && Within(b, all)
    modifies all
    ensures Merging(result, smaller, done + [smaller], first', a', second', b')
    ensures Within(done + [smaller], all) && Within(a', all) && Within(b', all) && 0 < |a'| + |b'| < |a| + |b|
    ensures done + Merge(a, b, NameOf, cs) == (done + [smaller]) + Merge(a', b', NameOf, cs)
    ensures result.prev == old(result.prev)
  {
    assert tail in done && first in a && second in b;
    assert a[0] == first && b[0] == second;
    MergeTurn(a, b, done, cs);
    hide Merging, Merge;
    if CompareStrings(first.name, second.name, cs) < 0 {
      TakeFirst(result, tail, done, first, a, second, b);
      smaller, first', second', a', b' := first, first.next, second, a[1..], b;
    } else {
      MergingSwap(result, tail, done, first, a, second, b);
      TakeFirst(result, tail, done, second, b, first, a);
      MergingSwap(result, second, done + [second], second.next, b[1..], first, a);
      smaller, first', second', a', b' := second, first, second.next, a, b[1..];
    }
  }

  /** The merging loop of sort_list. */
  method MergeChains(first: Item, ghost a: seq<Item>, second: Item, ghost b: seq<Item>, cs: bool)
    returns (result: Item, ghost merged: seq<Item>)
    requires Chain(first, a) && Chain(second, b) && Disjoint(a, b)
    modifies a, b
    ensures merged == Merge(a, b, NameOf, cs) && Chain(result, merged)
    ensures result == first || result == second
    ensures result.prev == old(result.prev)
  {
    ghost var all := (set x | x in a) + (set x | x in b);
    assert a[0] == first && b[0] == second && Within(a, all) && Within(b, all);
    var smaller, f, s: Item? := first, first.next, second;
    ghost var ra, rb := a[1..], b;
    MergeTurn(a, b, [], cs);
    if CompareStrings(first.name, second.name, cs) < 0 {
      StartMerge(first, a, second, b);
    } else {
      StartMerge(second, b, first, a);
      MergingSwap(second, second, [second], second.next, b[1..], first, a);
      smaller, f, s, ra, rb := second, first, second.next, a, b[1..];
    }
    result := smaller;
    var tail := smaller;
    ghost var done := [smaller];
    assert [] + [smaller] == done && [] + Merge(a, b, NameOf, cs) == Merge(a, b, NameOf, cs);
    hide Merging, Merge, Chain, Disjoint;
    while f != null && s != null
      invariant Merging(result, tail, done, f, ra, s, rb)
      invariant Within(done, all) && Within(ra, all) && Within(rb, all) && |ra| + |rb| > 0
      invariant Merge(a, b, NameOf, cs) == done + Merge(ra, rb, NameOf, cs)
      invariant result.prev == old(result.prev)
      decreases |ra| + |rb|
    {
      tail, f, s, ra, rb := MergeStep(result, tail, done, f, ra, s, rb, cs, all);
      done := done + [tail];
    }
    merged := EndMerge(result, tail, done, f, ra, s, rb, cs, all);
  }

  /** What follows the merging loop. */
  method EndMerge(result: Item, tail: Item, ghost done: seq<Item>, first: Item?, ghost a: seq<Item>, second: Item?, ghost b: seq<Item>,
                  cs: bool, ghost all: set<Item>)
    returns (ghost merged: seq<Item>)
    requires Merging(result, tail, done, first, a, second, b) && (first == null || second == null) && |a| + |b| > 0
    requires Within(done, all) && Within(a, all) && Within(b, all)
    modifies all
    ensures merged == done + Merge(a, b, NameOf, cs) && Chain(result, merged)
    ensures result.prev == old(result.prev)
  {
    merged := done + (a + b);
    assert tail in done && (first == null <==> a == []) && (second == null <==> b == []);
    assert a == [] ==> a + b == b;
    assert b == [] ==> a + b == a;
    assert Merge(a, b, NameOf, cs) == a + b;
    if first != null {
      assert first in a;
      AppendRest(result, tail, done, first, a);
    }
    if second != null {
      assert second in b;
      MergingSwap(result, tail, done, first, a, second, b);
      AppendRest(result, tail, done, second, b);
    }
  }

  lemma SameNodes(items: seq<Item>, cs: bool)
    requires Distinct(items)
    ensures Within(Sort(items, NameOf, cs), set x | x in items) && |Sort(items, NameOf, cs)| == |items|
  {
    SortPermutes(items, NameOf, cs);
    var s := Sort(items, NameOf, cs);
    forall x | x in s
      ensures x in items
    {
      assert x in multiset(s);
      assert x in multiset(items);
    }
  }

  lemma SortUnfolds(items: seq<Item>, cs: bool, mid: nat)
    requires |items| > 1 && !StrictlyIncreasing(items, NameOf, cs) && mid == (|items| + 1) / 2 && Distinct(items)
    ensures Sort(items, NameOf, cs) == Merge(Sort(items[..mid], NameOf, cs), Sort(items[mid..], NameOf, cs), NameOf, cs)
    ensures Disjoint(items[..mid], items[mid..]) && Disjoint(Sort(items[..mid], NameOf, cs), Sort(items[mid..], NameOf, cs))
  {
    SameNodes(items[..mid], cs);
    SameNodes(items[mid..], cs);
    hide Merge;
  }

  /** sort_list: the same nodes come back linked in the order of the specified sort. The prev pointer of the head is what it was when the
      head is the same, and null otherwise. */
  method SortList(list: Item?, ghost items: seq<Item>, cs: bool) returns (result: Item?, ghost sorted: seq<Item>)
    requires Chain(list, items)
    modifies items
    ensures sorted == Sort(items, NameOf, cs) && Chain(result, sorted)
    ensures StrictlyIncreasing(items, NameOf, cs) ==> result == list && sorted == items && unchanged(items)
    ensures result != null ==> result.prev == if result == list then old(list.prev) else null
    decreases |items|
  {
    if items != [] {
      NextOf(list, items, 0);
    }
    if list == null || list.next == null {
      hide Merge, Chain;
      return list, items;
    }
    var increasing := IsIncreasing(list, items, cs);
    if increasing {
      hide Merge, Chain;
      return list, items;
    }
    result, sorted := SortHalves(list, items, cs);
  }

  lemma KeptApart(items: seq<Item>, mid: nat, sorted: seq<Item>, cs: bool)
    requires mid <= |items| && Distinct(items) && sorted == Sort(items[..mid], NameOf, cs)
    ensures forall i :: 0 <= i < |sorted| ==> sorted[i] in items && sorted[i] !in items[mid..]
  {
    SameNodes(items[..mid], cs);
    hide Sort;
    forall i | 0 <= i < |sorted|
      ensures sorted[i] in items && sorted[i] !in items[mid..]
    {
      assert sorted[i] in sorted;
    }
  }

  lemma KeptTogether(items: seq<Item>, mid: nat, sorted: seq<Item>, cs: bool)
    requires mid <= |items| && Distinct(items) && sorted == Sort(items[mid..], NameOf, cs)
    ensures forall i :: 0 <= i < |sorted| ==> sorted[i] in items
  {
    SameNodes(items[mid..], cs);
    hide Sort;
    forall i | 0 <= i < |sorted|
      ensures sorted[i] in items
    {
      assert sorted[i] in sorted;
    }
  }

  lemma HalvesApart(items: seq<Item>, mid: nat)
    requires mid < |items| && Distinct(items)
    ensures items[mid] !in items[..mid]
    ensures forall i :: 0 <= i < |items[mid..]| ==> items[mid..][i] !in items[..mid]
  {
  }

  lemma InChain(head: Item?, items: seq<Item>)
    requires Chain(head, items)
    ensures head != null ==> head in items
  {
  }

  lemma HeadStaysOut(items: seq<Item>, mid: nat, second: Item?, sorted: seq<Item>, cs: bool)
    requires 0 < mid < |items| && Distinct(items) && sorted == Sort(items[mid..], NameOf, cs) && Chain(second, sorted)
    ensures second != items[0]
  {
    SameNodes(items[mid..], cs);
    hide Sort;
    if sorted != [] {
      assert sorted[0] in sorted;
    }
  }

  /** Split the list and sort the first half. */
  method SortFirst(list: Item, ghost items: seq<Item>, cs: bool)
    returns (first: Item?, ghost a: seq<Item>, second: Item?, ghost mid: nat)
    requires Chain(list, items) && |items| > 1
    modifies items
    ensures 0 < mid == (|items| + 1) / 2 < |items| && a == Sort(items[..mid], NameOf, cs)
    ensures Chain(first, a) && Chain(second, items[mid..]) && second != null && second.prev == null
    ensures first != null ==> first.prev == if first == list then old(list.prev) else null
    decreases |items|, 0
  {
    assert Distinct(items);
    hide *;
    second, mid := Split(list, items);
    HalvesApart(items, mid);
    first, a := SortList(list, items[..mid], cs);
  }

  /** Split the list and sort both halves. */
  method SortParts(list: Item, ghost items: seq<Item>, cs: bool)
    returns (first: Item?, ghost a: seq<Item>, second: Item?, ghost b: seq<Item>, ghost mid: nat)
    requires Chain(list, items) && |items| > 1
    modifies items
    ensures mid == (|items| + 1) / 2 && a == Sort(items[..mid], NameOf, cs) && b == Sort(items[mid..], NameOf, cs)
    ensures Chain(first, a) && Chain(second, b)
    ensures first != null ==> first.prev == if first == list then old(list.prev) else null
    ensures second != null ==> second.prev == null && second != list
    decreases |items|, 1
  {
    assert Distinct(items) && list == items[0];
    hide *;
    first, a, second, mid := SortFirst(list, items, cs);
    KeptApart(items, mid, a, cs);
    InChain(first, a);
    second, b := SortList(second, items[mid..], cs);
    HeadStaysOut(items, mid, second, b, cs);
  }

  /** Split, sort both halves and merge. */
  method SortHalves(list: Item, ghost items: seq<Item>, cs: bool) returns (result: Item?, ghost sorted: seq<Item>)
    requires Chain(list, items) && |items| > 1 && !StrictlyIncreasing(items, NameOf, cs)
    modifies items
    ensures sorted == Sort(items, NameOf, cs) && Chain(result, sorted)
    ensures result != null ==> result.prev == if result == list then old(list.prev) else null
    decreases |items|, 2
  {
    assert Distinct(items);
    SortUnfolds(items, cs, (|items| + 1) / 2);
    hide Merge, Sort, Chain, StrictlyIncreasing, Disjoint, Distinct;
    var first, a, second, b, mid := SortParts(list, items, cs);
    KeptApart(items, mid, a, cs);
    KeptTogether(items, mid, b, cs);
    ChainNotEmpty(items[..mid], first, a, cs);
    ChainNotEmpty(items[mid..], second, b, cs);
    result, sorted := MergeChains(first, a, second, b, cs);
  }

  lemma ChainNotEmpty(items: seq<Item>, head: Item?, sorted: seq<Item>, cs: bool)
    requires items != [] && sorted == Sort(items, NameOf, cs) && Chain(head, sorted)
    ensures head != null
  {
    SortPermutes(items, NameOf, cs);
  }

  // ----- what sorting does to appending -----

  /** The first and the last item are where they were. */
  ghost predicate SameEnds(before: seq<Item>, after: seq<Item>) {
    before == after == [] || (before != [] && after != [] && after[0] == before[0] && Last(after) == Last(before))
  }

  lemma SortedLength(items: seq<Item>, sorted: seq<Item>, cs: bool)
    requires sorted == Sort(items, NameOf, cs) && Distinct(items)
    ensures |sorted| == |items| && forall i :: 0 <= i < |items| ==> items[i] in sorted
    ensures forall i :: 0 <= i < |sorted| ==> sorted[i] in items
  {
    SortPermutes(items, NameOf, cs);
    hide Sort;
    forall i | 0 <= i < |items|
      ensures items[i] in sorted
    {
      assert items[i] in multiset(items);
    }
    forall i | 0 <= i < |sorted|
      ensures sorted[i] in items
    {
      assert sorted[i] in multiset(sorted);
    }
  }

  /** sort_object. Afterwards the tail is behind the head again exactly when the first and the last child are the same as before. */
  method SortObject(parent: Parent, cs: bool)
    requires parent.Valid()
    modifies parent, parent.items
    ensures parent.items == Sort(old(parent.items), NameOf, cs) && Chain(parent.child, parent.items)
    ensures parent.items != [] ==> parent.child.prev == null || parent.child.prev in parent.items
    ensures parent.Valid() <==> SameEnds(old(parent.items), parent.items)
    ensures StrictlyIncreasing(old(parent.items), NameOf, cs) ==> unchanged(old(parent.items))
  {
    ghost var items := parent.items;
    assert items != [] ==> parent.child == items[0] && parent.child.prev == Last(items);
    hide Sort, StrictlyIncreasing;
    var head, sorted := SortList(parent.child, items, cs);
    SortedLength(items, sorted, cs);
    parent.child := head;
    parent.items := sorted;
  }

  /** Adding a member to an object that has been sorted: it is there and all others still are exactly when sorting left the first and
      the last member in place. */
  method AddAfterSort(parent: Parent, item: Item, cs: bool)
    requires parent.Valid() && item !in parent.items && item.next == null
    modifies parent, parent.items, item
    ensures parent.items == Sort(old(parent.items), NameOf, cs) + [item]
            <==> SameEnds(old(parent.items), Sort(old(parent.items), NameOf, cs))
  {
    ghost var items := parent.items;
    SortedLength(items, Sort(items, NameOf, cs), cs);
    hide Sort, StrictlyIncreasing;
    SortObject(parent, cs);
    parent.AddItem(item);
  }
}
