/** The merge sort of sort_list on the sequence of list elements, for elements with string keys. */
module Sorting {
  import opened Text

  predicate StrictlyIncreasing<T>(xs: seq<T>, key: T -> string, cs: bool) {
    forall i :: 0 <= i < |xs| - 1 ==> CompareStrings(key(xs[i]), key(xs[i + 1]), cs) < 0
  }

  ghost predicate Sorted<T>(xs: seq<T>, key: T -> string, cs: bool) {
    forall i, j :: 0 <= i < j < |xs| ==> CompareStrings(key(xs[i]), key(xs[j]), cs) <= 0
  }

  /** On equal keys the element of the second list goes first. */
  function Merge<T>(xs: seq<T>, ys: seq<T>, key: T -> string, cs: bool): (r: seq<T>)
    decreases |xs| + |ys|
  {
    if xs == [] then ys
    else if ys == [] then xs
    else if CompareStrings(key(xs[0]), key(ys[0]), cs) < 0 then [xs[0]] + Merge(xs[1..], ys, key, cs)
    else [ys[0]] + Merge(xs, ys[1..], key, cs)
  }

  /** A strictly increasing list is left alone; the first half is the longer one. */
  function Sort<T>(xs: seq<T>, key: T -> string, cs: bool): seq<T>
    decreases |xs|
  {
    if |xs| <= 1 || StrictlyIncreasing(xs, key, cs) then xs
    else
      var mid := (|xs| + 1) / 2;
      Merge(Sort(xs[..mid], key, cs), Sort(xs[mid..], key, cs), key, cs)
  }

  lemma {:induction false} MergePermutes<T>(xs: seq<T>, ys: seq<T>, key: T -> string, cs: bool)
    ensures multiset(Merge(xs, ys, key, cs)) == multiset(xs) + multiset(ys)
    decreases |xs| + |ys|
  {
    hide CompareStrings;
    if xs != [] && ys != [] {
      if CompareStrings(key(xs[0]), key(ys[0]), cs) < 0 {
        MergePermutes(xs[1..], ys, key, cs);
        assert xs == [xs[0]] + xs[1..];
      } else {
        MergePermutes(xs, ys[1..], key, cs);
        assert ys == [ys[0]] + ys[1..];
      }
    }
  }

  lemma {:induction false} MergeSorts<T>(xs: seq<T>, ys: seq<T>, key: T -> string, cs: bool)
    requires Sorted(xs, key, cs) && Sorted(ys, key, cs)
    ensures Sorted(Merge(xs, ys, key, cs), key, cs)
    decreases |xs| + |ys|
  {
    if xs != [] && ys != [] {
      if CompareStrings(key(xs[0]), key(ys[0]), cs) < 0 {
        MergeSorts(xs[1..], ys, key, cs);
        MergeFront(xs[0], xs[1..], ys, key, cs);
      } else {
        CompareStringsOrder(key(xs[0]), key(ys[0]), key(xs[0]), cs);
        MergeSorts(xs, ys[1..], key, cs);
        MergeFront(ys[0], xs, ys[1..], key, cs);
      }
    }
  }

  /** An element no greater than the heads of two sorted lists may be put in front of their merge. */
  lemma MergeFront<T>(x: T, xs: seq<T>, ys: seq<T>, key: T -> string, cs: bool)
    requires Sorted(xs, key, cs) && Sorted(ys, key, cs) && Sorted(Merge(xs, ys, key, cs), key, cs)
    requires xs != [] ==> CompareStrings(key(x), key(xs[0]), cs) <= 0
    requires ys != [] ==> CompareStrings(key(x), key(ys[0]), cs) <= 0
    ensures Sorted([x] + Merge(xs, ys, key, cs), key, cs)
  {
    var m := Merge(xs, ys, key, cs);
    MergePermutes(xs, ys, key, cs);
    forall i | 0 <= i < |m|
      ensures CompareStrings(key(x), key(m[i]), cs) <= 0
    {
      assert m[i] in multiset(m);
      if m[i] in xs {
        CompareStringsOrder(key(x), key(xs[0]), key(m[i]), cs);
        CompareStringsOrder(key(m[i]), key(m[i]), key(m[i]), cs);
      } else {
        assert m[i] in ys;
        CompareStringsOrder(key(x), key(ys[0]), key(m[i]), cs);
        CompareStringsOrder(key(m[i]), key(m[i]), key(m[i]), cs);
      }
    }
  }

  lemma {:induction false} StrictlyIncreasingPairs<T>(xs: seq<T>, key: T -> string, cs: bool, i: nat, j: nat)
    requires StrictlyIncreasing(xs, key, cs) && i < j < |xs|
    ensures CompareStrings(key(xs[i]), key(xs[j]), cs) < 0
    decreases j - i
  {
    if i + 1 < j {
      StrictlyIncreasingPairs(xs, key, cs, i + 1, j);
      CompareStringsOrder(key(xs[i]), key(xs[i + 1]), key(xs[j]), cs);
    }
  }

  lemma {:induction false} SortPermutes<T>(xs: seq<T>, key: T -> string, cs: bool)
    ensures multiset(Sort(xs, key, cs)) == multiset(xs)
    ensures |Sort(xs, key, cs)| == |xs|
    decreases |xs|
  {
    if !(|xs| <= 1 || StrictlyIncreasing(xs, key, cs)) {
      var mid := (|xs| + 1) / 2;
      var (a, b) := (xs[..mid], xs[mid..]);
      assert xs == a + b;
      SortPermutes(a, key, cs);
      SortPermutes(b, key, cs);
      var (c, d) := (Sort(a, key, cs), Sort(b, key, cs));
      assert Sort(xs, key, cs) == Merge(c, d, key, cs);
      hide Sort, Merge, StrictlyIncreasing;
      MergePermutes(c, d, key, cs);
      assert |multiset(Merge(c, d, key, cs))| == |multiset(xs)|;
    }
  }

  lemma {:induction false} SortSorts<T>(xs: seq<T>, key: T -> string, cs: bool)
    ensures Sorted(Sort(xs, key, cs), key, cs)
    decreases |xs|
  {
    if |xs| <= 1 {
    } else if StrictlyIncreasing(xs, key, cs) {
      forall i, j | 0 <= i < j < |xs|
        ensures CompareStrings(key(xs[i]), key(xs[j]), cs) <= 0
      {
        StrictlyIncreasingPairs(xs, key, cs, i, j);
      }
    } else {
      var mid := (|xs| + 1) / 2;
      SortSorts(xs[..mid], key, cs);
      SortSorts(xs[mid..], key, cs);
      MergeSorts(Sort(xs[..mid], key, cs), Sort(xs[mid..], key, cs), key, cs);
    }
  }

  /** Different elements never compare equal. */
  ghost predicate Separate<T>(xs: seq<T>, key: T -> string, cs: bool) {
    forall i, j :: 0 <= i < |xs| && 0 <= j < |xs| && CompareStrings(key(xs[i]), key(xs[j]), cs) == 0 ==> xs[i] == xs[j]
  }

  lemma TailKeeps<T>(xs: seq<T>, key: T -> string, cs: bool)
    requires xs != []
    ensures Sorted(xs, key, cs) ==> Sorted(xs[1..], key, cs)
    ensures Separate(xs, key, cs) ==> Separate(xs[1..], key, cs)
  {
  }

  /** The result is determined by the elements when no two keys compare equal. */
  lemma {:induction false} SortedUnique<T>(xs: seq<T>, ys: seq<T>, key: T -> string, cs: bool)
    requires Sorted(xs, key, cs) && Sorted(ys, key, cs) && multiset(xs) == multiset(ys)
    requires Separate(xs, key, cs)
    ensures xs == ys
    decreases |xs|
  {
    assert |multiset(xs)| == |multiset(ys)|;
    if xs != [] {
      HeadsAgree(xs, ys, key, cs);
      TailKeeps(xs, key, cs);
      TailKeeps(ys, key, cs);
      hide *;
      TailMultiset(xs);
      TailMultiset(ys);
      SortedUnique(xs[1..], ys[1..], key, cs);
      ConsEqual(xs, ys);
    }
  }

  lemma ConsEqual<T>(xs: seq<T>, ys: seq<T>)
    requires xs != [] && ys != [] && xs[0] == ys[0] && xs[1..] == ys[1..]
    ensures xs == ys
  {
    assert xs == [xs[0]] + xs[1..] && ys == [ys[0]] + ys[1..];
  }

  lemma TailMultiset<T>(xs: seq<T>)
    requires xs != []
    ensures multiset(xs[1..]) == multiset(xs) - multiset{xs[0]}
  {
    assert xs == [xs[0]] + xs[1..];
  }

  lemma HeadsAgree<T>(xs: seq<T>, ys: seq<T>, key: T -> string, cs: bool)
    requires xs != [] && ys != []
    requires Sorted(xs, key, cs) && Sorted(ys, key, cs) && multiset(xs) == multiset(ys)
    requires Separate(xs, key, cs)
    ensures xs[0] == ys[0]
  {
    var (x, y) := (xs[0], ys[0]);
    assert x in multiset(ys) && y in multiset(xs);
    var i :| 0 <= i < |ys| && ys[i] == x;
    var j :| 0 <= j < |xs| && xs[j] == y;
    CompareStringsOrder(key(x), key(y), key(x), cs);
    assert i > 0 ==> CompareStrings(key(y), key(ys[i]), cs) <= 0;
    assert j > 0 ==> CompareStrings(key(x), key(xs[j]), cs) <= 0;
  }

  // ----- elements with equal keys -----

  /** The elements whose keys compare equal to k, in order. */
  function Among<T>(xs: seq<T>, k: string, key: T -> string, cs: bool): seq<T> {
    if xs == [] then []
    else (if CompareStrings(key(xs[0]), k, cs) == 0 then [xs[0]] else []) + Among(xs[1..], k, key, cs)
  }

  function Reversed<T>(xs: seq<T>): seq<T> {
    if xs == [] then [] else Reversed(xs[1..]) + [xs[0]]
  }

  lemma {:induction false} ReversedAppend<T>(xs: seq<T>, ys: seq<T>)
    ensures Reversed(xs + ys) == Reversed(ys) + Reversed(xs)
  {
    if xs == [] {
      assert xs + ys == ys && Reversed(ys) + [] == Reversed(ys);
    } else {
      ReversedAppend(xs[1..], ys);
      assert (xs + ys)[1..] == xs[1..] + ys;
    }
  }

  lemma AmongCons<T>(x: T, xs: seq<T>, k: string, key: T -> string, cs: bool)
    ensures Among([x] + xs, k, key, cs) == (if CompareStrings(key(x), k, cs) == 0 then [x] else []) + Among(xs, k, key, cs)
  {
    assert ([x] + xs)[1..] == xs;
    hide CompareStrings;
  }

  lemma {:induction false} AmongAppend<T>(xs: seq<T>, ys: seq<T>, k: string, key: T -> string, cs: bool)
    ensures Among(xs + ys, k, key, cs) == Among(xs, k, key, cs) + Among(ys, k, key, cs)
  {
    if xs == [] {
      assert xs + ys == ys && Among(xs, k, key, cs) == [];
      hide *;
    } else {
      hide *;
      var first := if CompareStrings(key(xs[0]), k, cs) == 0 then [xs[0]] else [];
      AmongAppend(xs[1..], ys, k, key, cs);
      AmongCons(xs[0], xs[1..], k, key, cs);
      AmongCons(xs[0], xs[1..] + ys, k, key, cs);
      AppendAssociative([xs[0]], xs[1..], ys);
      assert xs == [xs[0]] + xs[1..];
      AppendAssociative(first, Among(xs[1..], k, key, cs), Among(ys, k, key, cs));
    }
  }

  lemma {:induction false} AmongNone<T>(xs: seq<T>, k: string, key: T -> string, cs: bool)
    requires forall i :: 0 <= i < |xs| ==> CompareStrings(key(xs[i]), k, cs) != 0
    ensures Among(xs, k, key, cs) == []
  {
    if xs != [] {
      AmongNone(xs[1..], k, key, cs);
    }
  }

  /** Everything in a sorted list is greater than what is smaller than its head. */
  lemma AboveHead<T>(x: T, ys: seq<T>, k: string, key: T -> string, cs: bool)
    requires ys != [] && Sorted(ys, key, cs) && CompareStrings(key(x), key(ys[0]), cs) < 0 && CompareStrings(key(x), k, cs) == 0
    ensures Among(ys, k, key, cs) == []
  {
    forall i | 0 <= i < |ys|
      ensures CompareStrings(key(ys[i]), k, cs) != 0
    {
      CompareStringsOrder(key(x), key(ys[0]), key(ys[i]), cs);
      CompareStringsOrder(key(ys[i]), k, key(x), cs);
      CompareStringsOrder(k, key(x), k, cs);
      CompareStringsOrder(key(ys[i]), key(x), k, cs);
    }
    AmongNone(ys, k, key, cs);
  }

  lemma MergeCons<T>(xs: seq<T>, ys: seq<T>, key: T -> string, cs: bool)
    requires xs != [] && ys != []
    ensures Merge(xs, ys, key, cs)
            == if CompareStrings(key(xs[0]), key(ys[0]), cs) < 0 then [xs[0]] + Merge(xs[1..], ys, key, cs)
               else [ys[0]] + Merge(xs, ys[1..], key, cs)
  {
    hide CompareStrings;
  }

  lemma MergeNothing<T>(xs: seq<T>, ys: seq<T>, k: string, key: T -> string, cs: bool)
    requires xs == [] || ys == []
    ensures Among(Merge(xs, ys, key, cs), k, key, cs) == Among(ys, k, key, cs) + Among(xs, k, key, cs)
  {
    hide CompareStrings;
    assert Among<T>([], k, key, cs) == [];
  }

  lemma {:induction false} MergeAmong<T>(xs: seq<T>, ys: seq<T>, k: string, key: T -> string, cs: bool)
    requires Sorted(xs, key, cs) && Sorted(ys, key, cs)
    ensures Among(Merge(xs, ys, key, cs), k, key, cs) == Among(ys, k, key, cs) + Among(xs, k, key, cs)
    decreases |xs| + |ys|
  {
    hide *;
    if xs == [] || ys == [] {
      MergeNothing(xs, ys, k, key, cs);
    } else {
      MergeCons(xs, ys, key, cs);
      TailKeeps(xs, key, cs);
      TailKeeps(ys, key, cs);
      assert xs == [xs[0]] + xs[1..] && ys == [ys[0]] + ys[1..];
      AmongCons(xs[0], xs[1..], k, key, cs);
      AmongCons(ys[0], ys[1..], k, key, cs);
      if CompareStrings(key(xs[0]), key(ys[0]), cs) < 0 {
        MergeAmong(xs[1..], ys, k, key, cs);
        AmongCons(xs[0], Merge(xs[1..], ys, key, cs), k, key, cs);
        if CompareStrings(key(xs[0]), k, cs) == 0 {
          AboveHead(xs[0], ys, k, key, cs);
        }
      } else {
        MergeAmong(xs, ys[1..], k, key, cs);
        AmongCons(ys[0], Merge(xs, ys[1..], key, cs), k, key, cs);
      }
    }
  }

  /** In a strictly increasing list at most one key compares equal to k. */
  lemma {:induction false} AmongOne<T>(xs: seq<T>, k: string, key: T -> string, cs: bool)
    requires StrictlyIncreasing(xs, key, cs)
    ensures Reversed(Among(xs, k, key, cs)) == Among(xs, k, key, cs)
  {
    if xs != [] {
      assert StrictlyIncreasing(xs[1..], key, cs);
      AmongOne(xs[1..], k, key, cs);
      if CompareStrings(key(xs[0]), k, cs) == 0 {
        forall i | 0 <= i < |xs[1..]|
          ensures CompareStrings(key(xs[1..][i]), k, cs) != 0
        {
          StrictlyIncreasingPairs(xs, key, cs, 0, i + 1);
          CompareStringsOrder(key(xs[0]), key(xs[i + 1]), k, cs);
          CompareStringsOrder(key(xs[i + 1]), k, key(xs[0]), cs);
        }
        AmongNone(xs[1..], k, key, cs);
        assert Among(xs, k, key, cs) == [xs[0]];
      } else {
        assert Among(xs, k, key, cs) == Among(xs[1..], k, key, cs);
      }
    }
  }

  /** Elements whose keys compare equal come out in reverse order. */
  lemma {:induction false} SortReverses<T>(xs: seq<T>, k: string, key: T -> string, cs: bool)
    ensures Among(Sort(xs, key, cs), k, key, cs) == Reversed(Among(xs, k, key, cs))
    decreases |xs|
  {
    if |xs| <= 1 || StrictlyIncreasing(xs, key, cs) {
      AmongOne(xs, k, key, cs);
    } else {
      var mid := (|xs| + 1) / 2;
      var (a, b) := (xs[..mid], xs[mid..]);
      assert xs == a + b;
      SortReverses(a, k, key, cs);
      SortReverses(b, k, key, cs);
      SortSorts(a, key, cs);
      SortSorts(b, key, cs);
      MergeAmong(Sort(a, key, cs), Sort(b, key, cs), k, key, cs);
      AmongAppend(a, b, k, key, cs);
      ReversedAppend(Among(a, k, key, cs), Among(b, k, key, cs));
    }
  }

  lemma {:induction false} AmongMember<T>(xs: seq<T>, i: nat, key: T -> string, cs: bool)
    requires i < |xs|
    ensures xs[i] in Among(xs, key(xs[i]), key, cs)
  {
    CompareStringsOrder(key(xs[i]), key(xs[i]), key(xs[i]), cs);
    hide CompareStrings;
    if i > 0 {
      AmongMember(xs[1..], i - 1, key, cs);
    }
  }

  lemma {:induction false} AmongFrom<T>(xs: seq<T>, k: string, key: T -> string, cs: bool, x: T)
    requires x in Among(xs, k, key, cs)
    ensures x in xs && CompareStrings(key(x), k, cs) == 0
  {
    hide CompareStrings;
    if CompareStrings(key(xs[0]), k, cs) != 0 || x != xs[0] {
      AmongFrom(xs[1..], k, key, cs, x);
    }
  }

  /** The same elements for every key, in the same order. */
  ghost predicate SameAmong<T>(xs: seq<T>, ys: seq<T>, key: T -> string, cs: bool) {
    forall k :: Among(xs, k, key, cs) == Among(ys, k, key, cs)
  }

  lemma HeadNotAbove<T>(xs: seq<T>, ys: seq<T>, key: T -> string, cs: bool)
    requires xs != [] && Sorted(ys, key, cs) && SameAmong(xs, ys, key, cs)
    ensures ys != [] && CompareStrings(key(ys[0]), key(xs[0]), cs) <= 0
  {
    AmongMember(xs, 0, key, cs);
    assert Among(xs, key(xs[0]), key, cs) == Among(ys, key(xs[0]), key, cs);
    AmongFrom(ys, key(xs[0]), key, cs, xs[0]);
    var i :| 0 <= i < |ys| && ys[i] == xs[0];
    CompareStringsOrder(key(xs[0]), key(xs[0]), key(xs[0]), cs);
  }

  /** Two sorted lists with the same elements for every key are equal. */
  lemma {:induction false} SortedSame<T>(xs: seq<T>, ys: seq<T>, key: T -> string, cs: bool)
    requires Sorted(xs, key, cs) && Sorted(ys, key, cs) && SameAmong(xs, ys, key, cs)
    ensures xs == ys
    decreases |xs|
  {
    if xs == [] {
      if ys != [] {
        HeadNotAbove(ys, xs, key, cs);
      }
    } else {
      HeadNotAbove(xs, ys, key, cs);
      HeadNotAbove(ys, xs, key, cs);
      CompareStringsOrder(key(xs[0]), key(ys[0]), key(xs[0]), cs);
      CompareStringsOrder(key(xs[0]), key(xs[0]), key(xs[0]), cs);
      HeadsSame(xs, ys, key, cs);
      TailKeeps(xs, key, cs);
      TailKeeps(ys, key, cs);
      SortedSame(xs[1..], ys[1..], key, cs);
      ConsEqual(xs, ys);
    }
  }

  lemma HeadsSame<T>(xs: seq<T>, ys: seq<T>, key: T -> string, cs: bool)
    requires xs != [] && ys != [] && SameAmong(xs, ys, key, cs)
    requires CompareStrings(key(xs[0]), key(xs[0]), cs) == 0 == CompareStrings(key(ys[0]), key(xs[0]), cs)
    ensures xs[0] == ys[0] && SameAmong(xs[1..], ys[1..], key, cs)
  {
    var k := key(xs[0]);
    hide CompareStrings;
    assert Among(xs, k, key, cs) == Among(ys, k, key, cs);
    assert Among(xs, k, key, cs)[0] == xs[0] && Among(ys, k, key, cs)[0] == ys[0];
    forall j
      ensures Among(xs[1..], j, key, cs) == Among(ys[1..], j, key, cs)
    {
      assert Among(xs, j, key, cs) == Among(ys, j, key, cs);
      var first := if CompareStrings(key(xs[0]), j, cs) == 0 then [xs[0]] else [];
      assert Among(xs[1..], j, key, cs) == Among(xs, j, key, cs)[|first|..];
      assert Among(ys[1..], j, key, cs) == Among(ys, j, key, cs)[|first|..];
    }
  }

  /** Elements with equal keys have changed to the reverse order. */
  ghost predicate EqualReversed<T>(xs: seq<T>, r: seq<T>, key: T -> string, cs: bool) {
    forall k :: Among(r, k, key, cs) == Reversed(Among(xs, k, key, cs))
  }

  lemma SortReversesAll<T>(xs: seq<T>, key: T -> string, cs: bool)
    ensures EqualReversed(xs, Sort(xs, key, cs), key, cs)
  {
    hide Sort, Among, Reversed, CompareStrings;
    forall k
      ensures Among(Sort(xs, key, cs), k, key, cs) == Reversed(Among(xs, k, key, cs))
    {
      SortReverses(xs, k, key, cs);
    }
  }

  lemma ReversedSame<T>(xs: seq<T>, r: seq<T>, s: seq<T>, key: T -> string, cs: bool)
    requires EqualReversed(xs, r, key, cs) && EqualReversed(xs, s, key, cs)
    ensures SameAmong(r, s, key, cs)
  {
    hide Among, Reversed;
  }

  /** Main result: the sorted list is the one whose keys do not decrease and in which elements with equal keys have changed to the reverse
      order. */
  lemma SortExact<T>(xs: seq<T>, r: seq<T>, key: T -> string, cs: bool)
    ensures r == Sort(xs, key, cs) <==> Sorted(r, key, cs) && EqualReversed(xs, r, key, cs)
  {
    hide *;
    var s := Sort(xs, key, cs);
    SortSorts(xs, key, cs);
    SortReversesAll(xs, key, cs);
    if Sorted(r, key, cs) && EqualReversed(xs, r, key, cs) {
      ReversedSame(xs, r, s, key, cs);
      SortedSame(r, s, key, cs);
    }
  }
}
