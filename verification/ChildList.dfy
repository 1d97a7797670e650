/** The list of children of an item: doubly linked, with the last child behind the prev pointer of the first. */
module ChildList {
  import opened Text

  class Item {
    const name: string
    var next: Item?
    var prev: Item?

    constructor (name: string)
      ensures this.name == name && next == null && prev == null
    {
      this.name, next, prev := name, null, null;
    }
  }

  ghost predicate Distinct(items: seq<Item>) {
    forall i, j :: 0 <= i < j < |items| ==> items[i] != items[j]
  }

  /** Neighbours point at each other. */
  ghost predicate Links(items: seq<Item>)
    reads items
  {
    && (forall i :: 0 <= i < |items| - 1 ==> items[i].next == items[i + 1])
    && (forall i :: 0 < i < |items| ==> items[i].prev == items[i - 1])
  }

  ghost function Last(items: seq<Item>): Item
    requires items != []
  {
    items[|items| - 1]
  }

  /** Items linked from the head on; nothing is said about the prev pointer of the head. */
  ghost predicate Chain(head: Item?, items: seq<Item>)
    reads items
  {
    && Distinct(items) && Links(items)
    && (if items == [] then head == null else head == items[0] && Last(items).next == null)
  }

  function Without<T>(s: seq<T>, i: nat): seq<T>
    requires i < |s|
  {
    s[..i] + s[i + 1..]
  }

  function Inserted<T>(s: seq<T>, i: nat, x: T): seq<T>
    requires i <= |s|
  {
    s[..i] + [x] + s[i..]
  }

  /** What links an item into a list in front of its child i. */
  lemma LinksInserted(before: seq<Item>, i: nat, x: Item)
    requires Distinct(before) && i < |before| && x !in before
    requires x.next == before[i] && before[i].prev == x && (i > 0 ==> x.prev == before[i - 1] && before[i - 1].next == x)
    requires forall k :: 0 <= k < |before| - 1 && k + 1 != i ==> before[k].next == before[k + 1]
    requires forall k :: 0 < k < |before| && k != i ==> before[k].prev == before[k - 1]
    ensures Links(Inserted(before, i, x)) && Distinct(Inserted(before, i, x))
  {
  }

  /** What takes the child i out of a list. */
  lemma LinksWithout(before: seq<Item>, i: nat)
    requires Distinct(before) && i < |before|
    requires 0 < i < |before| - 1 ==> before[i - 1].next == before[i + 1] && before[i + 1].prev == before[i - 1]
    requires forall k :: 0 <= k < |before| - 1 && k != i && k + 1 != i ==> before[k].next == before[k + 1]
    requires forall k :: 0 < k < |before| && k != i && k != i + 1 ==> before[k].prev == before[k - 1]
    ensures Links(Without(before, i)) && Distinct(Without(before, i))
  {
  }

  /** What links an item into a list in the place of its child i. */
  lemma LinksReplaced(before: seq<Item>, i: nat, x: Item)
    requires Distinct(before) && i < |before| && x !in before
    requires i + 1 < |before| ==> x.next == before[i + 1] && before[i + 1].prev == x
    requires i > 0 ==> x.prev == before[i - 1] && before[i - 1].next == x
    requires forall k :: 0 <= k < |before| - 1 && k + 1 != i && k != i ==> before[k].next == before[k + 1]
    requires forall k :: 0 < k < |before| && k != i + 1 && k != i ==> before[k].prev == before[k - 1]
    ensures Links(before[i := x]) && Distinct(before[i := x])
  {
  }

  /** What links an item in behind the item at position i. */
  lemma AddedBehind(before: seq<Item>, i: nat, x: Item)
    requires Distinct(before) && i < |before| && x !in before
    requires before[i].next == x && x.prev == before[i]
    requires forall k :: 0 <= k < i ==> before[k].next == before[k + 1]
    requires forall k :: 0 < k <= i ==> before[k].prev == before[k - 1]
    ensures Links(before[..i + 1] + [x]) && Distinct(before[..i + 1] + [x])
  {
  }

  class Parent {
    var child: Item?
    ghost var items: seq<Item>

    ghost predicate Valid()
      reads this, items
    {
      Chain(child, items) && (items != [] ==> child.prev == Last(items))
    }

    constructor ()
      ensures Valid() && items == []
    {
      child, items := null, [];
    }

    /** What the pointers of a child are. */
    lemma Neighbours(i: nat)
      requires Valid() && i < |items|
      ensures items[i] in items && (items[i] == child <==> i == 0)
      ensures items[i].next == if i + 1 < |items| then items[i + 1] else null
      ensures items[i].prev == if i > 0 then items[i - 1] else Last(items)
      ensures i + 1 < |items| ==> items[i + 1] in items
      ensures i > 0 ==> items[i - 1] in items
    {
    }

    /** add_item_to_array. The item goes behind the one that the prev pointer of the head names: whatever came after that is cut off, and
        without such an item the new one is dropped. */
    method AddItem(item: Item)
      requires Chain(child, items) && item !in items && item.next == null
      requires items != [] ==> child.prev == null || child.prev in items
      modifies this, items, item
      ensures Chain(child, items)
      ensures old(items) == [] ==> items == [item]
      ensures old(items) != [] && old(child.prev) == null ==> items == old(items)
      ensures forall i :: 0 <= i < |old(items)| && old(child.prev) == old(items)[i] ==> items == old(items)[..i + 1] + [item]
      ensures old(Valid()) ==> Valid() && items == old(items) + [item]
      ensures items == old(items) + [item] ==> old(Valid())
    {
      if child == null {
        child := item;
        item.prev := item;
        item.next := null;
        items := [item];
      } else {
        var last := child.prev;
        if last != null {
          ghost var i :| 0 <= i < |items| && items[i] == last;
          last.next := item;
          item.prev := last;
          child.prev := item;
          AddedBehind(items, i, item);
          items := items[..i + 1] + [item];
        }
      }
    }

    /** get_array_item. */
    method GetItem(which: nat) returns (r: Item?)
      requires Valid()
      ensures r == if which < |items| then items[which] else null
    {
      r := child;
      var left := which;
      while r != null && left > 0
        invariant 0 <= left <= which && r == (if which - left < |items| then items[which - left] else null)
      {
        left := left - 1;
        r := r.next;
      }
    }

    /** cJSON_DetachItemViaPointer. */
    method Detach(item: Item, ghost i: nat)
      requires Valid() && i < |items| && items[i] == item
      modifies this, items
      ensures Valid() && items == Without(old(items), i)
      ensures item.next == null && item.prev == null
    {
      Neighbours(i);
      if item != child {
        item.prev.next := item.next;
      }
      if item.next != null {
        item.next.prev := item.prev;
      }
      if item == child {
        child := item.next;
      } else if item.next == null {
        child.prev := item.prev;
      }
      item.prev, item.next := null, null;
      LinksWithout(items, i);
      hide Links, Distinct;
      items := Without(items, i);
    }

    /** The links of an insertion in front of a child. */
    method InsertBefore(newItem: Item, after: Item, ghost i: nat)
      requires Valid() && i < |items| && items[i] == after && newItem !in items
      modifies this, items, newItem
      ensures Valid() && items == Inserted(old(items), i, newItem)
    {
      Neighbours(i);
      newItem.next := after;
      newItem.prev := after.prev;
      after.prev := newItem;
      if after == child {
        child := newItem;
      } else {
        newItem.prev.next := newItem;
      }
      LinksInserted(items, i, newItem);
      hide Links, Distinct;
      items := Inserted(items, i, newItem);
    }

    /** cJSON_InsertItemInArray: a position behind the end means the end. */
    method InsertItem(which: int, newItem: Item) returns (ok: bool)
      requires Valid() && newItem !in items && newItem.next == null
      modifies this, items, newItem
      ensures Valid() && ok == (which >= 0)
      ensures items == if which < 0 then old(items)
                       else if which < |old(items)| then Inserted(old(items), which, newItem)
                       else old(items) + [newItem]
    {
      if which < 0 {
        return false;
      }
      var after := GetItem(which);
      if after == null {
        AddItem(newItem);
      } else {
        InsertBefore(newItem, after, which);
      }
      return true;
    }

    /** The links of cJSON_ReplaceItemViaPointer. */
    method PutInPlace(item: Item, ghost i: nat, replacement: Item)
      requires Valid() && i < |items| && items[i] == item && replacement !in items
      modifies this, items, replacement
      ensures Valid() && items == old(items)[i := replacement]
    {
      Neighbours(i);
      replacement.next := item.next;
      replacement.prev := item.prev;
      if replacement.next != null {
        replacement.next.prev := replacement;
      }
      if child == item {
        if child.prev == child {
          replacement.prev := replacement;
        }
        child := replacement;
      } else {
        if replacement.prev != null {
          replacement.prev.next := replacement;
        }
        if replacement.next == null {
          child.prev := replacement;
        }
      }
      LinksReplaced(items, i, replacement);
      hide Links, Distinct;
      items := items[i := replacement];
    }

    /** cJSON_ReplaceItemViaPointer; the replaced item is deleted. */
    method Replace(item: Item, ghost i: nat, replacement: Item)
      requires Valid() && i < |items| && items[i] == item && (replacement == item || replacement !in items)
      modifies this, items, replacement
      ensures Valid() && items == old(items)[i := replacement]
      ensures replacement != item ==> item.next == null && item.prev == null
    {
      if replacement == item {
        return;
      }
      PutInPlace(item, i, replacement);
      item.next, item.prev := null, null;
    }

    /** The loop of insert_item_in_array in cJSON_Utils: a position behind the end is refused. */
    method InsertAt(which: nat, newItem: Item) returns (ok: bool)
      requires Valid() && newItem !in items && newItem.next == null
      modifies this, items, newItem
      ensures Valid() && ok == (which <= |old(items)|)
      ensures items == if ok then Inserted(old(items), which, newItem) else old(items)
    {
      var after := child;
      var left := which;
      while after != null && left > 0
        invariant 0 <= left <= which && which - left <= |items|
        invariant after == (if which - left < |items| then items[which - left] else null)
      {
        after := after.next;
        left := left - 1;
      }
      if left > 0 {
        return false;
      }
      if after == null {
        AddItem(newItem);
      } else {
        InsertBefore(newItem, after, which);
      }
      return true;
    }

    /** detach_item_from_array in cJSON_Utils. */
    method DetachAt(which: nat) returns (r: Item?)
      requires Valid()
      modifies this, items
      ensures Valid() && (r != null <==> which < |old(items)|)
      ensures items == if r == null then old(items) else Without(old(items), which)
      ensures r != null ==> r == old(items)[which] && r.next == null && r.prev == null
    {
      r := child;
      var left := which;
      while r != null && left > 0
        invariant 0 <= left <= which && which - left <= |items|
        invariant r == (if which - left < |items| then items[which - left] else null)
      {
        r := r.next;
        left := left - 1;
      }
      if r == null {
        return;
      }
      Detach(r, which);
    }

    /** The children linked so far by a loop that appends behind "last". */
    ghost predicate Growing(done: seq<Item>, last: Item?)
      reads this, done
    {
      && Distinct(done) && Links(done)
      && (if done == [] then child == null == last else child == done[0] && last == Last(done) && last.next == null)
    }

    /** A turn of the loops of cJSON_Duplicate, parse_array and parse_object. */
    method Grow(last: Item?, newChild: Item, ghost done: seq<Item>)
      requires Growing(done, last) && newChild !in done && newChild.next == null
      modifies this`child, done, newChild
      ensures Growing(done + [newChild], newChild)
    {
      if last != null {
        last.next := newChild;
        newChild.prev := last;
      } else {
        child := newChild;
      }
    }

    /** The loop of cJSON_Duplicate over the children, each copied into a new item; parse_array and parse_object link their
        children in the same way. */
    method Duplicate() returns (copy: Parent)
      requires Valid()
      ensures fresh(copy) && copy.Valid() && |copy.items| == |items| && fresh(copy.items)
      ensures forall i :: 0 <= i < |items| ==> copy.items[i].name == items[i].name
    {
      copy := new Parent();
      var source := child;
      var last: Item? := null;
      ghost var done: seq<Item> := [];
      assert copy.Growing(done, last);
      hide Links, Distinct;
      while source != null
        invariant |done| <= |items| && source == (if |done| < |items| then items[|done|] else null)
        invariant fresh(done) && fresh(copy) && copy.Growing(done, last)
        invariant forall i :: 0 <= i < |done| ==> done[i].name == items[i].name
        decreases |items| - |done|
      {
        Neighbours(|done|);
        var newChild := new Item(source.name);
        copy.Grow(last, newChild, done);
        last := newChild;
        done := done + [newChild];
        source := source.next;
      }
      copy.Close(last, done);
    }

    /** The end of the loops: the last child goes behind the prev pointer of the first. */
    method Close(last: Item?, ghost done: seq<Item>)
      requires Growing(done, last)
      modifies this`items, done
      ensures Valid() && items == done
    {
      if child != null {
        child.prev := last;
      }
      items := done;
    }
  }
}
