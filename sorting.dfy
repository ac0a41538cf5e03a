/**
 * The five in-place sorts of libs/algorithms/src/algorithms.c. Each leaves the array
 * sorted under the comparator and holding the same elements (the same multiset).
 */
module Sorting {
  import opened Algorithms
  import opened Sequences

  /** Positions `lo` to `hi - 1` of `s` are in order. */
  ghost predicate SortedBetween<T>(s: seq<T>, lo: int, hi: int, cmp: (T, T) -> int)
  {
    forall i, j {:trigger cmp(s[i], s[j])} :: lo <= i < j < hi && 0 <= i && j < |s| ==> cmp(s[i], s[j]) <= 0
  }

  /** Every element before position `m` is at most every element from `m` on. */
  ghost predicate SplitAt<T>(s: seq<T>, m: int, cmp: (T, T) -> int)
  {
    forall i, j {:trigger cmp(s[i], s[j])} :: 0 <= i < m <= j < |s| ==> cmp(s[i], s[j]) <= 0
  }

  /** A sorted front, a sorted back and nothing in the front above the back: sorted. */
  lemma SortedJoin<T>(s: seq<T>, m: int, cmp: (T, T) -> int)
    requires 0 <= m <= |s| && SortedBetween(s, 0, m, cmp) && SortedBetween(s, m, |s|, cmp) && SplitAt(s, m, cmp)
    ensures Sorted(s, cmp)
  {
  }

  /** `s[j]` is a greatest element of `s[..j + 1]`. */
  ghost predicate MaxAt<T>(s: seq<T>, j: int, cmp: (T, T) -> int)
  {
    forall p :: 0 <= p <= j && j < |s| ==> cmp(s[p], s[j]) <= 0
  }

  /**
   * The first `j` comparisons of a bubble pass over `s` (lines 51-58): the sequence they
   * leave, and whether any of them swapped.
   */
  function BubbleUp<T>(s: seq<T>, j: int, cmp: (T, T) -> int): (r: (seq<T>, bool))
    requires 0 <= j < |s|
    ensures |r.0| == |s|
  {
    if j == 0 then (s, false)
    else
      var (t, swapped) := BubbleUp(s, j - 1, cmp);
      if cmp(t[j - 1], t[j]) > 0 then (Swapped(t, j - 1, j), true) else (t, swapped)
  }

  /** A comparison that swaps carries the greatest element so far up by one. */
  lemma MaxSwappedUp<T(!new)>(t: seq<T>, j: int, cmp: (T, T) -> int)
    requires Comparator(cmp) && 0 <= j && j + 1 < |t| && MaxAt(t, j, cmp) && cmp(t[j], t[j + 1]) > 0
    ensures MaxAt(Swapped(t, j, j + 1), j + 1, cmp)
  {
    var u := Swapped(t, j, j + 1);
    Flip(cmp, t[j], t[j + 1]);
    Reflexive(cmp, t[j]);
    forall p | 0 <= p < j
      ensures cmp(u[p], u[j + 1]) <= 0
    {
      assert u[p] == t[p];
    }
  }

  /** A comparison that does not swap finds the greatest element so far at `j + 1`. */
  lemma MaxKept<T(!new)>(t: seq<T>, j: int, cmp: (T, T) -> int)
    requires Comparator(cmp) && 0 <= j && j + 1 < |t| && MaxAt(t, j, cmp) && cmp(t[j], t[j + 1]) <= 0
    ensures MaxAt(t, j + 1, cmp)
  {
    Reflexive(cmp, t[j + 1]);
    forall p | 0 <= p <= j
      ensures cmp(t[p], t[j + 1]) <= 0
    {
      Transitive(cmp, t[p], t[j], t[j + 1]);
    }
  }

  /** A swap inside the front `t[..m]` leaves the sorted back and its bound alone. */
  lemma SwapInFront<T>(t: seq<T>, j: int, m: int, cmp: (T, T) -> int)
    requires 0 <= j && j + 1 < m <= |t| && SortedBetween(t, m, |t|, cmp) && SplitAt(t, m, cmp)
    ensures SortedBetween(Swapped(t, j, j + 1), m, |t|, cmp) && SplitAt(Swapped(t, j, j + 1), m, cmp)
  {
    var u := Swapped(t, j, j + 1);
    forall p, q | m <= p < q < |t|
      ensures cmp(u[p], u[q]) <= 0
    {
      assert u[p] == t[p] && u[q] == t[q];
    }
    forall p, q | 0 <= p < m <= q < |t|
      ensures cmp(u[p], u[q]) <= 0
    {
      assert u[p] == t[if p == j then j + 1 else if p == j + 1 then j else p] && u[q] == t[q];
    }
  }

  /** The `j`-th comparison of a pass either swaps `t[j - 1]` and `t[j]` or leaves `t` as it is. */
  lemma BubbleUpStep<T>(s: seq<T>, j: int, cmp: (T, T) -> int)
    requires 0 < j < |s|
    ensures var t := BubbleUp(s, j - 1, cmp).0;
      BubbleUp(s, j, cmp).0 == if cmp(t[j - 1], t[j]) > 0 then Swapped(t, j - 1, j) else t
  {
  }

  /** The comparisons of a pass only trade elements: they keep the multiset. */
  lemma {:induction false} BubbleUpPermutes<T>(s: seq<T>, j: int, cmp: (T, T) -> int)
    requires 0 <= j < |s|
    ensures multiset(BubbleUp(s, j, cmp).0) == multiset(s)
  {
    if j == 0 {
      assert BubbleUp(s, j, cmp).0 == s;
    } else {
      BubbleUpPermutes(s, j - 1, cmp);
      StepPermutes(s, j, cmp);
    }
  }

  /** One more comparison keeps the multiset the first `j - 1` left. */
  lemma StepPermutes<T>(s: seq<T>, j: int, cmp: (T, T) -> int)
    requires 0 < j < |s| && multiset(BubbleUp(s, j - 1, cmp).0) == multiset(s)
    ensures multiset(BubbleUp(s, j, cmp).0) == multiset(s)
  {
    var t := BubbleUp(s, j - 1, cmp).0;
    BubbleUpStep(s, j, cmp);
    if cmp(t[j - 1], t[j]) > 0 {
      SwapPermutes(t, j - 1, j);
    }
  }

  /** A pass over the front `s[..m]` leaves the sorted back and its bound alone. */
  lemma {:induction false} BubbleUpKeepsBack<T>(s: seq<T>, j: int, m: int, cmp: (T, T) -> int)
    requires 0 <= j < m <= |s| && SortedBetween(s, m, |s|, cmp) && SplitAt(s, m, cmp)
    ensures SortedBetween(BubbleUp(s, j, cmp).0, m, |s|, cmp) && SplitAt(BubbleUp(s, j, cmp).0, m, cmp)
  {
    if j > 0 {
      BubbleUpKeepsBack(s, j - 1, m, cmp);
      var t := BubbleUp(s, j - 1, cmp).0;
      if cmp(t[j - 1], t[j]) > 0 {
        SwapInFront(t, j - 1, m, cmp);
      }
    }
  }

  /** After `j` comparisons a greatest element of the first `j + 1` sits at `j`. */
  lemma {:induction false} BubbleUpMax<T(!new)>(s: seq<T>, j: int, cmp: (T, T) -> int)
    requires Comparator(cmp) && 0 <= j < |s|
    ensures MaxAt(BubbleUp(s, j, cmp).0, j, cmp)
  {
    if j == 0 {
      Reflexive(cmp, s[0]);
    } else {
      BubbleUpMax(s, j - 1, cmp);
      var t := BubbleUp(s, j - 1, cmp).0;
      if cmp(t[j - 1], t[j]) > 0 {
        MaxSwappedUp(t, j - 1, cmp);
      } else {
        MaxKept(t, j - 1, cmp);
      }
    }
  }

  /** Comparisons that swapped nothing left `s` as it was and found `s[..j + 1]` in order. */
  lemma {:induction false} BubbleUpUnswapped<T(!new)>(s: seq<T>, j: int, cmp: (T, T) -> int)
    requires Comparator(cmp) && 0 <= j < |s|
    ensures !BubbleUp(s, j, cmp).1 ==> BubbleUp(s, j, cmp).0 == s && SortedBetween(s, 0, j + 1, cmp)
  {
    if j > 0 && !BubbleUp(s, j, cmp).1 {
      BubbleUpUnswapped(s, j - 1, cmp);
      BubbleUpMax(s, j - 1, cmp);
      forall p | 0 <= p < j
        ensures cmp(s[p], s[j]) <= 0
      {
        Transitive(cmp, s[p], s[j - 1], s[j]);
      }
    }
  }

  /** At the end of a pass the greatest element of the front joins the sorted back. */
  lemma BubblePassed<T>(s: seq<T>, m: int, cmp: (T, T) -> int)
    requires 0 < m <= |s| && MaxAt(s, m - 1, cmp) && SortedBetween(s, m, |s|, cmp) && SplitAt(s, m, cmp)
    ensures SortedBetween(s, m - 1, |s|, cmp) && SplitAt(s, m - 1, cmp)
  {
  }

  /** What a whole pass of `m - 1` comparisons leaves: the facts `BubblePass` promises. */
  lemma BubblePassDone<T(!new)>(s: seq<T>, j: int, m: int, cmp: (T, T) -> int)
    requires Comparator(cmp) && 0 < m <= |s| && j == m - 1
    requires SortedBetween(s, m, |s|, cmp) && SplitAt(s, m, cmp)
    ensures multiset(BubbleUp(s, j, cmp).0) == multiset(s)
    ensures SortedBetween(BubbleUp(s, j, cmp).0, m - 1, |s|, cmp) && SplitAt(BubbleUp(s, j, cmp).0, m - 1, cmp)
    ensures !BubbleUp(s, j, cmp).1 ==> SortedBetween(BubbleUp(s, j, cmp).0, 0, m, cmp) && BubbleUp(s, j, cmp).0 == s
  {
    var t := BubbleUp(s, j, cmp).0;
    BubbleUpPermutes(s, j, cmp);
    BubbleUpKeepsBack(s, j, m, cmp);
    BubbleUpMax(s, j, cmp);
    BubbleUpUnswapped(s, j, cmp);
    BubblePassed(t, m, cmp);
  }

  /**
   * One pass of bubble_sort (lines 50-60) over the unsorted front `a[..m]`: afterwards
   * `a[m - 1]` is a greatest element of the front, so the sorted back grows by one; a pass
   * that swaps nothing found the front already in order.
   */
  method BubblePass<T(!new)>(a: array<T>, m: int, cmp: (T, T) -> int) returns (swapped: bool)
    requires Comparator(cmp) && 0 < m <= a.Length
    requires SortedBetween(a[..], m, a.Length, cmp) && SplitAt(a[..], m, cmp)
    modifies a
    ensures multiset(a[..]) == multiset(old(a[..]))
    ensures SortedBetween(a[..], m - 1, a.Length, cmp) && SplitAt(a[..], m - 1, cmp)
    ensures !swapped ==> SortedBetween(a[..], 0, m, cmp) && a[..] == old(a[..])
  {
    ghost var s0 := a[..];
    swapped := false;
    var j := 0;
    while j < m - 1
      invariant 0 <= j < m
      invariant a[..] == BubbleUp(s0, j, cmp).0 && swapped == BubbleUp(s0, j, cmp).1
    {
      if cmp(a[j], a[j + 1]) > 0 {
        Swap(a, j, j + 1);
        swapped := true;
      }
      j := j + 1;
    }
    BubblePassDone(s0, j, m, cmp);
  }

  /**
   * bubble_sort (lines 44-66): passes of adjacent swaps, each carrying the greatest
   * remaining element to the end of the unsorted front; stops after a pass without a
   * swap. Arrays of at most one element are left alone.
   */
  method BubbleSort<T(!new)>(a: array<T>, cmp: (T, T) -> int)
    requires Comparator(cmp)
    modifies a
    ensures Sorted(a[..], cmp) && multiset(a[..]) == multiset(old(a[..]))
    ensures a.Length <= 1 ==> a[..] == old(a[..])
  {
    var n := a.Length;
    if n <= 1 {
      return;
    }
    var i := 0;
    while i < n - 1
      invariant 0 <= i <= n - 1
      invariant multiset(a[..]) == multiset(old(a[..]))
      invariant SortedBetween(a[..], n - i, n, cmp) && SplitAt(a[..], n - i, cmp)
    {
      var swapped := BubblePass(a, n - i, cmp);
      if !swapped {
        SortedJoin(a[..], n - i, cmp);
        return;
      }
      i := i + 1;
    }
    SortedJoin(a[..], 1, cmp);
  }

  /**
   * One step of selection_sort (lines 76-96): with the front `s[..i]` sorted and below
   * the rest, and `s[mi]` a least element of `s[i..]`, putting `s[mi]` at `i` grows the
   * sorted front by one.
   */
  lemma Selected<T(!new)>(s: seq<T>, t: seq<T>, i: int, mi: int, cmp: (T, T) -> int)
    requires 0 <= i <= mi < |s| && |t| == |s| && t[i] == s[mi] && t[mi] == s[i]
    requires forall k :: 0 <= k < |s| && k != i && k != mi ==> t[k] == s[k]
    requires SortedBetween(s, 0, i, cmp) && SplitAt(s, i, cmp)
    requires forall k :: i <= k < |s| ==> cmp(s[mi], s[k]) <= 0
    ensures SortedBetween(t, 0, i + 1, cmp) && SplitAt(t, i + 1, cmp)
  {
    forall p, q | 0 <= p < q < i + 1
      ensures cmp(t[p], t[q]) <= 0
    {
      assert t[p] == s[p];
      if q < i {
        assert t[q] == s[q];
      }
    }
    forall p, q | 0 <= p < i + 1 <= q < |t|
      ensures cmp(t[p], t[q]) <= 0
    {
      var k := if q == mi then i else q;
      assert t[q] == s[k];
      if p < i {
        assert t[p] == s[p];
      }
    }
  }

  /**
   * The inner loop of selection_sort (lines 79-88): the index of the first least element
   * of `a[i..]`.
   */
  method MinFrom<T(!new)>(a: array<T>, i: int, cmp: (T, T) -> int) returns (mi: int)
    requires Comparator(cmp) && 0 <= i < a.Length
    ensures i <= mi < a.Length
    ensures forall k :: i <= k < a.Length ==> cmp(a[mi], a[k]) <= 0
    ensures forall k :: i <= k < mi ==> cmp(a[mi], a[k]) < 0
  {
    mi := i;
    Reflexive(cmp, a[i]);
    var j := i + 1;
    while j < a.Length
      invariant i <= mi < j <= a.Length
      invariant forall k :: i <= k < j ==> cmp(a[mi], a[k]) <= 0
      invariant forall k :: i <= k < mi ==> cmp(a[mi], a[k]) < 0
    {
      Flip(cmp, a[j], a[mi]);
      if cmp(a[j], a[mi]) < 0 {
        forall k | i <= k < j
          ensures cmp(a[j], a[k]) < 0
        {
          LtLe(cmp, a[j], a[mi], a[k]);
        }
        Reflexive(cmp, a[j]);
        mi := j;
      }
      j := j + 1;
    }
  }

  /**
   * selection_sort (lines 71-97): for each position in turn, find a least element of the
   * rest (the first one, comparing with `<`) and swap it into place.
   */
  method SelectionSort<T(!new)>(a: array<T>, cmp: (T, T) -> int)
    requires Comparator(cmp)
    modifies a
    ensures Sorted(a[..], cmp) && multiset(a[..]) == multiset(old(a[..]))
    ensures a.Length <= 1 ==> a[..] == old(a[..])
  {
    var n := a.Length;
    if n <= 1 {
      return;
    }
    var i := 0;
    while i < n - 1
      invariant 0 <= i <= n - 1
      invariant multiset(a[..]) == multiset(old(a[..]))
      invariant SortedBetween(a[..], 0, i, cmp) && SplitAt(a[..], i, cmp)
    {
      var mi := MinFrom(a, i, cmp);
      ghost var s := a[..];
      if mi != i {
        Swap(a, i, mi);
        SwapPermutes(s, i, mi);
        Selected(s, Swapped(s, i, mi), i, mi, cmp);
      } else {
        Selected(s, s, i, mi, cmp);
      }
      i := i + 1;
    }
    SortedJoin(a[..], n - 1, cmp);
  }

  /**
   * The inner loop of insertion_sort (lines 111-126): `a[i]` is copied out, the elements
   * before it that compare above it move up one place, and it is written into the gap.
   * The result is `a[i]` moved down to position `j`, just after the last element at most
   * it (or to the front).
   */
  method InsertKey<T>(a: array<T>, i: int, cmp: (T, T) -> int) returns (j: int)
    requires 0 < i < a.Length
    modifies a
    ensures 0 <= j <= i
    ensures a[..] == Inserted(Deleted(old(a[..]), i), j, old(a[i]))
    ensures 0 < j ==> cmp(old(a[j - 1]), old(a[i])) <= 0
    ensures forall k :: j <= k < i ==> cmp(old(a[k]), old(a[i])) > 0
  {
    ghost var s := a[..];
    var key := a[i];
    j := i;
    OpenedNone(s, i);
    while j > 0
      invariant 0 <= j <= i && a[..] == Opened(s, i, j)
      invariant forall k :: j <= k < i ==> cmp(s[k], key) > 0
    {
      if cmp(a[j - 1], key) <= 0 {
        break;
      }
      OpenedStep(s, i, j);
      a[j] := a[j - 1];
      j := j - 1;
    }
    OpenedFilled(s, i, j);
    a[j] := key;
  }

  /**
   * The array during the inner loop of insertion_sort: `s[j..i]` moved up one place, so
   * that `s[j]` appears twice and `s[i]` is gone.
   */
  function Opened<T>(s: seq<T>, i: int, j: int): (r: seq<T>)
    requires 0 <= j <= i < |s|
    ensures |r| == |s|
    ensures forall k :: 0 <= k < |s| ==> r[k] == if k <= j then s[k] else if k <= i then s[k - 1] else s[k]
  {
    s[..j + 1] + s[j..i] + s[i + 1..]
  }

  /** Before the inner loop nothing has moved. */
  lemma OpenedNone<T>(s: seq<T>, i: int)
    requires 0 <= i < |s|
    ensures Opened(s, i, i) == s
  {
    var r := Opened(s, i, i);
    assert forall k :: 0 <= k < |s| ==> r[k] == s[k];
  }

  /** One turn of the inner loop: `a[j - 1]` is copied up into `a[j]`. */
  lemma OpenedStep<T>(s: seq<T>, i: int, j: int)
    requires 0 < j <= i < |s|
    ensures Opened(s, i, j)[j - 1] == s[j - 1]
    ensures Opened(s, i, j - 1) == Opened(s, i, j)[j := s[j - 1]]
  {
    var r, t := Opened(s, i, j - 1), Opened(s, i, j)[j := s[j - 1]];
    assert forall k :: 0 <= k < |s| ==> r[k] == t[k];
  }

  /** Writing the key into the gap gives `s[i]` moved down to `j`. */
  lemma OpenedFilled<T>(s: seq<T>, i: int, j: int)
    requires 0 <= j <= i < |s|
    ensures Opened(s, i, j)[j := s[i]] == Inserted(Deleted(s, i), j, s[i])
  {
    var r := Opened(s, i, j)[j := s[i]];
    var d := Deleted(s, i);
    assert forall k :: j < k < |r| ==> r[k] == d[k - 1];
    AsInserted(d, j, s[i], r);
  }

  /** Moving `s[i]` down to just after the last element of the sorted `s[..i]` at most it keeps `s[..i + 1]` sorted. */
  lemma InsertedSorted<T(!new)>(s: seq<T>, i: int, j: int, cmp: (T, T) -> int)
    requires Comparator(cmp) && 0 <= j <= i < |s| && SortedBetween(s, 0, i, cmp)
    requires 0 < j ==> cmp(s[j - 1], s[i]) <= 0
    requires forall k :: j <= k < i ==> cmp(s[k], s[i]) > 0
    ensures SortedBetween(Inserted(Deleted(s, i), j, s[i]), 0, i + 1, cmp)
  {
    var d := Deleted(s, i);
    var r := Inserted(d, j, s[i]);
    assert forall k :: 0 <= k < j ==> r[k] == s[k];
    assert forall k :: j < k <= i ==> r[k] == d[k - 1] == s[k - 1];
    forall p, q | 0 <= p < q < i + 1
      ensures cmp(r[p], r[q]) <= 0
    {
      if q == j {
        if p < j - 1 {
          Transitive(cmp, s[p], s[j - 1], s[i]);
        }
      } else if p == j {
        Flip(cmp, s[q - 1], s[i]);
      } else if p > j {
        assert cmp(s[p - 1], s[q - 1]) <= 0;
      } else if q > j {
        assert cmp(s[p], s[q - 1]) <= 0;
      }
    }
  }

  /** One pass of the outer loop: `a[i]` moved into place keeps a sorted prefix and the elements. */
  lemma InsertStep<T(!new)>(s: seq<T>, t: seq<T>, i: int, j: int, cmp: (T, T) -> int)
    requires Comparator(cmp) && 0 <= j <= i < |s| && SortedBetween(s, 0, i, cmp)
    requires t == Inserted(Deleted(s, i), j, s[i])
    requires 0 < j ==> cmp(s[j - 1], s[i]) <= 0
    requires forall k :: j <= k < i ==> cmp(s[k], s[i]) > 0
    ensures SortedBetween(t, 0, i + 1, cmp) && multiset(t) == multiset(s)
  {
    InsertedSorted(s, i, j, cmp);
    MovedPermutes(s, i, j);
  }

  /** Moving one element to another position keeps the multiset. */
  lemma MovedPermutes<T>(s: seq<T>, i: int, j: int)
    requires 0 <= j <= i < |s|
    ensures multiset(Inserted(Deleted(s, i), j, s[i])) == multiset(s)
  {
    InsertedMultiset(Deleted(s, i), j, s[i]);
    DeletedMultiset(s, i);
  }

  /**
   * insertion_sort (lines 103-132): each element in turn is moved down into the sorted
   * front (`InsertKey`).
   */
  method InsertionSort<T(!new)>(a: array<T>, cmp: (T, T) -> int)
    requires Comparator(cmp)
    modifies a
    ensures Sorted(a[..], cmp) && multiset(a[..]) == multiset(old(a[..]))
    ensures a.Length <= 1 ==> a[..] == old(a[..])
  {
    var n := a.Length;
    if n <= 1 {
      return;
    }
    var i := 1;
    while i < n
      invariant 1 <= i <= n
      invariant multiset(a[..]) == multiset(old(a[..]))
      invariant SortedBetween(a[..], 0, i, cmp)
    {
      ghost var s := a[..];
      var j := InsertKey(a, i, cmp);
      InsertStep(s, a[..], i, j, cmp);
      i := i + 1;
    }
    SortedJoin(a[..], n, cmp);
  }

  /**
   * The loop of partition (lines 142-152) after the elements before `j` have been
   * looked at: the sequence it leaves and the boundary `i`. Elements comparing at most the
   * pivot `s[hi]` are swapped down to `i`, the others stay.
   */
  function PartitionScan<T>(s: seq<T>, lo: int, hi: int, j: int, cmp: (T, T) -> int): (r: (seq<T>, int))
    requires 0 <= lo <= j <= hi < |s|
    ensures |r.0| == |s| && lo <= r.1 <= j
    decreases j
  {
    if j == lo then (s, lo)
    else
      var (t, i) := PartitionScan(s, lo, hi, j - 1, cmp);
      if cmp(t[j - 1], s[hi]) <= 0 then (if i != j - 1 then Swapped(t, i, j - 1) else t, i + 1)
      else (t, i)
  }

  /** The scan only swaps elements: it keeps the multiset. */
  lemma {:induction false} ScanPermutes<T>(s: seq<T>, lo: int, hi: int, j: int, cmp: (T, T) -> int)
    requires 0 <= lo <= j <= hi < |s|
    ensures multiset(PartitionScan(s, lo, hi, j, cmp).0) == multiset(s)
    decreases j
  {
    if j > lo {
      ScanPermutes(s, lo, hi, j - 1, cmp);
      var (t, i) := PartitionScan(s, lo, hi, j - 1, cmp);
      if i != j - 1 {
        SwapPermutes(t, i, j - 1);
      }
    }
  }

  /** The scan touches only the positions it has looked at. */
  lemma {:induction false} ScanKeeps<T>(s: seq<T>, lo: int, hi: int, j: int, cmp: (T, T) -> int)
    requires 0 <= lo <= j <= hi < |s|
    ensures forall k :: 0 <= k < |s| && !(lo <= k < j) ==> PartitionScan(s, lo, hi, j, cmp).0[k] == s[k]
    decreases j
  {
    if j > lo {
      ScanKeeps(s, lo, hi, j - 1, cmp);
    }
  }

  /** `t[lo..i]` compares at most `x`, `t[i..j]` above it. */
  ghost predicate Parted<T>(t: seq<T>, lo: int, i: int, j: int, x: T, cmp: (T, T) -> int)
  {
    (forall k :: lo <= k < i && 0 <= k < |t| ==> cmp(t[k], x) <= 0) &&
    (forall k :: i <= k < j && 0 <= k < |t| ==> cmp(t[k], x) > 0)
  }

  /** Behind the boundary: at most the pivot; between boundary and `j`: above it. */
  lemma {:induction false} ScanSplits<T>(s: seq<T>, lo: int, hi: int, j: int, cmp: (T, T) -> int)
    requires 0 <= lo <= j <= hi < |s|
    ensures Parted(PartitionScan(s, lo, hi, j, cmp).0, lo, PartitionScan(s, lo, hi, j, cmp).1, j, s[hi], cmp)
    decreases j
  {
    if j > lo {
      ScanSplits(s, lo, hi, j - 1, cmp);
      var (t, i) := PartitionScan(s, lo, hi, j - 1, cmp);
      if cmp(t[j - 1], s[hi]) > 0 {
        assert PartitionScan(s, lo, hi, j, cmp) == (t, i);
      } else if i == j - 1 {
        assert PartitionScan(s, lo, hi, j, cmp) == (t, i + 1);
      } else {
        var u := Swapped(t, i, j - 1);
        assert PartitionScan(s, lo, hi, j, cmp) == (u, i + 1);
        assert forall k :: lo <= k < i + 1 ==> u[k] == if k == i then t[j - 1] else t[k];
        assert forall k :: i + 1 <= k < j ==> u[k] == if k == j - 1 then t[i] else t[k];
      }
    }
  }

  /**
   * partition (lines 138-160) on a sequence: the scan, then the pivot swapped from `hi` to
   * the boundary, which is returned.
   */
  function Partitioned<T>(s: seq<T>, lo: int, hi: int, cmp: (T, T) -> int): (r: (seq<T>, int))
    requires 0 <= lo < hi < |s|
    ensures |r.0| == |s| && lo <= r.1 <= hi
  {
    var (t, i) := PartitionScan(s, lo, hi, hi, cmp);
    (Swapped(t, i, hi), i)
  }

  /** Partition keeps the same elements. */
  lemma PartitionPermutes<T>(s: seq<T>, lo: int, hi: int, cmp: (T, T) -> int)
    requires 0 <= lo < hi < |s|
    ensures multiset(Partitioned(s, lo, hi, cmp).0) == multiset(s)
  {
    var (t, i) := PartitionScan(s, lo, hi, hi, cmp);
    ScanPermutes(s, lo, hi, hi, cmp);
    SwapPermutes(t, i, hi);
  }

  /** Partition leaves everything outside `[lo, hi]` alone. */
  lemma PartitionKeeps<T>(s: seq<T>, lo: int, hi: int, cmp: (T, T) -> int)
    requires 0 <= lo < hi < |s|
    ensures forall k :: 0 <= k < |s| && !(lo <= k <= hi) ==> Partitioned(s, lo, hi, cmp).0[k] == s[k]
  {
    ScanKeeps(s, lo, hi, hi, cmp);
  }

  /** After partition the pivot is in place: nothing greater before it, nothing not greater after it. */
  lemma PartitionSplits<T>(s: seq<T>, lo: int, hi: int, cmp: (T, T) -> int)
    requires 0 <= lo < hi < |s|
    ensures var u, p := Partitioned(s, lo, hi, cmp).0, Partitioned(s, lo, hi, cmp).1;
      u[p] == s[hi] &&
      (forall k :: lo <= k < p ==> cmp(u[k], u[p]) <= 0) &&
      (forall k :: p < k <= hi ==> cmp(u[k], u[p]) > 0)
  {
    var (t, i) := PartitionScan(s, lo, hi, hi, cmp);
    ScanKeeps(s, lo, hi, hi, cmp);
    ScanSplits(s, lo, hi, hi, cmp);
    var u := Swapped(t, i, hi);
    assert forall k :: i < k <= hi ==> u[k] == if k == hi then t[i] else t[k];
  }

  /** partition (lines 138-160) on the array: it leaves `a` as `Partitioned` says. */
  method Partition<T>(a: array<T>, lo: int, hi: int, cmp: (T, T) -> int) returns (p: int)
    requires 0 <= lo < hi < a.Length
    modifies a
    ensures a[..] == Partitioned(old(a[..]), lo, hi, cmp).0 && p == Partitioned(old(a[..]), lo, hi, cmp).1
  {
    ghost var s0 := a[..];
    var pivot := a[hi];
    var i := lo;
    var j := lo;
    while j < hi
      invariant lo <= j <= hi
      invariant a[..] == PartitionScan(s0, lo, hi, j, cmp).0 && i == PartitionScan(s0, lo, hi, j, cmp).1
    {
      if cmp(a[j], pivot) <= 0 {
        if i != j {
          Swap(a, i, j);
        }
        i := i + 1;
      }
      j := j + 1;
    }
    Swap(a, i, hi);
    p := i;
  }

  /**
   * quick_sort_recursive (lines 166-177) on a sequence: partition `[lo, hi]`, then sort
   * the part before the pivot (skipped when the pivot landed at index 0, where `pi - 1`
   * would wrap around in `size_t`) and the part after it.
   */
  function QuickSorted<T>(s: seq<T>, lo: int, hi: int, cmp: (T, T) -> int): (r: seq<T>)
    requires 0 <= lo <= hi + 1 <= |s|
    ensures |r| == |s|
    decreases hi + 1 - lo
  {
    if lo < hi then
      var t, p := Partitioned(s, lo, hi, cmp).0, Partitioned(s, lo, hi, cmp).1;
      QuickSorted(if p > 0 then QuickSorted(t, lo, p - 1, cmp) else t, p + 1, hi, cmp)
    else s
  }

  /** One unfolding of `QuickSorted` on a range of at least two elements. */
  lemma QuickSortedStep<T>(s: seq<T>, lo: int, hi: int, cmp: (T, T) -> int)
    requires 0 <= lo < hi < |s|
    ensures var t, p := Partitioned(s, lo, hi, cmp).0, Partitioned(s, lo, hi, cmp).1;
      QuickSorted(s, lo, hi, cmp) == QuickSorted(if p > 0 then QuickSorted(t, lo, p - 1, cmp) else t, p + 1, hi, cmp)
  {
  }

  /** `QuickSortedStep` with the partition, and the bounds either side of the pivot, named. */
  lemma QuickSortedHalves<T>(s: seq<T>, lo: int, hi: int, t: seq<T>, p: int, below: int, above: int, cmp: (T, T) -> int)
    requires 0 <= lo < hi < |s| && t == Partitioned(s, lo, hi, cmp).0 && p == Partitioned(s, lo, hi, cmp).1
    requires below == p - 1 && above == p + 1
    ensures QuickSorted(s, lo, hi, cmp) == QuickSorted(if p > 0 then QuickSorted(t, lo, below, cmp) else t, above, hi, cmp)
  {
    QuickSortedStep(s, lo, hi, cmp);
  }

  /** Quick sort of `[lo, hi]` is a permutation. */
  lemma {:induction false} QuickSortedPermutes<T>(s: seq<T>, lo: int, hi: int, cmp: (T, T) -> int)
    requires 0 <= lo <= hi + 1 <= |s|
    ensures multiset(QuickSorted(s, lo, hi, cmp)) == multiset(s)
    decreases hi + 1 - lo
  {
    if lo < hi {
      PartitionPermutes(s, lo, hi, cmp);
      var t, p := Partitioned(s, lo, hi, cmp).0, Partitioned(s, lo, hi, cmp).1;
      var below, above := p - 1, p + 1;
      var t1 := if p > 0 then QuickSorted(t, lo, below, cmp) else t;
      if p > 0 {
        QuickSortedPermutes(t, lo, below, cmp);
      }
      QuickSortedPermutes(t1, above, hi, cmp);
      QuickSortedHalves(s, lo, hi, t, p, below, above, cmp);
    }
  }

  /** Quick sort of `[lo, hi]` leaves everything outside that range alone. */
  lemma {:induction false} QuickSortedKeeps<T>(s: seq<T>, lo: int, hi: int, cmp: (T, T) -> int)
    requires 0 <= lo <= hi + 1 <= |s|
    ensures forall k :: 0 <= k < |s| && !(lo <= k <= hi) ==> QuickSorted(s, lo, hi, cmp)[k] == s[k]
    decreases hi + 1 - lo
  {
    if lo < hi {
      PartitionKeeps(s, lo, hi, cmp);
      var t, p := Partitioned(s, lo, hi, cmp).0, Partitioned(s, lo, hi, cmp).1;
      var below, above := p - 1, p + 1;
      var t1 := if p > 0 then QuickSorted(t, lo, below, cmp) else t;
      if p > 0 {
        QuickSortedKeeps(t, lo, below, cmp);
      }
      QuickSortedKeeps(t1, above, hi, cmp);
      QuickSortedHalves(s, lo, hi, t, p, below, above, cmp);
      var r := QuickSorted(t1, above, hi, cmp);
      forall k | 0 <= k < |s| && !(lo <= k <= hi)
        ensures r[k] == s[k]
      {
        assert r[k] == t1[k] == t[k];
      }
    }
  }

  /** Rearranging the range `[lo, hi]` and nothing else rearranges the slice `[lo, hi]`. */
  lemma MiddlePermutes<T>(s: seq<T>, t: seq<T>, lo: int, hi: int)
    requires |t| == |s| && 0 <= lo <= hi + 1 <= |s| && multiset(t) == multiset(s)
    requires forall k :: 0 <= k < |s| && !(lo <= k <= hi) ==> t[k] == s[k]
    ensures multiset(t[lo..hi + 1]) == multiset(s[lo..hi + 1])
  {
    assert s[..lo] == t[..lo] && s[hi + 1..] == t[hi + 1..];
    Pieces(s, lo, hi);
    Pieces(t, lo, hi);
    var ms, mt := multiset(s[lo..hi + 1]), multiset(t[lo..hi + 1]);
    forall x
      ensures mt[x] == ms[x]
    {
      assert multiset(t)[x] == multiset(s)[x];
    }
  }

  /** A sequence's elements are those before `lo`, those of `[lo, hi]` and those after `hi`. */
  lemma Pieces<T>(s: seq<T>, lo: int, hi: int)
    requires 0 <= lo <= hi + 1 <= |s|
    ensures multiset(s) == multiset(s[..lo]) + multiset(s[lo..hi + 1]) + multiset(s[hi + 1..])
  {
    assert s == s[..lo] + s[lo..hi + 1] + s[hi + 1..];
  }

  /**
   * Rearranging the range `[lo, hi]` keeps any property every element of that range
   * has.
   */
  lemma RangeKeeps<T>(s: seq<T>, t: seq<T>, lo: int, hi: int, P: T -> bool)
    requires |t| == |s| && 0 <= lo <= hi + 1 <= |s| && multiset(t) == multiset(s)
    requires forall k :: 0 <= k < |s| && !(lo <= k <= hi) ==> t[k] == s[k]
    requires forall k :: lo <= k <= hi ==> P(s[k])
    ensures forall k :: lo <= k <= hi ==> P(t[k])
  {
    MiddlePermutes(s, t, lo, hi);
    var ms, mt := s[lo..hi + 1], t[lo..hi + 1];
    forall k | lo <= k <= hi
      ensures P(t[k])
    {
      var x := t[k];
      assert x == mt[k - lo];
      assert x in multiset(mt);
      assert x in ms;
      var i :| 0 <= i < |ms| && ms[i] == x;
      assert s[lo + i] == x;
    }
  }

  /** A sorted range, a pivot no smaller than it, and a sorted range above the pivot: sorted. */
  lemma QuickJoin<T(!new)>(r: seq<T>, lo: int, p: int, hi: int, cmp: (T, T) -> int)
    requires Comparator(cmp) && 0 <= lo <= p <= hi < |r|
    requires SortedBetween(r, lo, p, cmp) && SortedBetween(r, p + 1, hi + 1, cmp)
    requires forall k :: lo <= k < p ==> cmp(r[k], r[p]) <= 0
    requires forall k :: p < k <= hi ==> cmp(r[k], r[p]) > 0
    ensures SortedBetween(r, lo, hi + 1, cmp)
  {
    forall i, j | lo <= i < j < hi + 1
      ensures cmp(r[i], r[j]) <= 0
    {
      if i < p < j {
        Flip(cmp, r[j], r[p]);
        LeLt(cmp, r[i], r[p], r[j]);
      } else if i == p {
        Flip(cmp, r[j], r[p]);
      }
    }
  }

  /** Every element of `[lo, hi)` is at most `x`. */
  ghost predicate AllAtMost<T>(s: seq<T>, lo: int, hi: int, x: T, cmp: (T, T) -> int)
    requires 0 <= lo && hi <= |s|
  {
    forall k :: lo <= k < hi ==> cmp(s[k], x) <= 0
  }

  /** Every element of `[lo, hi)` is greater than `x`. */
  ghost predicate AllAbove<T>(s: seq<T>, lo: int, hi: int, x: T, cmp: (T, T) -> int)
    requires 0 <= lo && hi <= |s|
  {
    forall k :: lo <= k < hi ==> cmp(s[k], x) > 0
  }

  /** Sorting the part before the pivot keeps it below the pivot and leaves the rest alone. */
  lemma QuickLowerHalf<T>(t: seq<T>, lo: int, p: int, cmp: (T, T) -> int)
    requires 0 <= lo <= p < |t| && AllAtMost(t, lo, p, t[p], cmp)
    ensures var t1 := QuickSorted(t, lo, p - 1, cmp);
      AllAtMost(t1, lo, p, t[p], cmp) && forall k :: p <= k < |t| ==> t1[k] == t[k]
  {
    var t1 := QuickSorted(t, lo, p - 1, cmp);
    QuickSortedPermutes(t, lo, p - 1, cmp);
    QuickSortedKeeps(t, lo, p - 1, cmp);
    RangeKeeps(t, t1, lo, p - 1, x => cmp(x, t[p]) <= 0);
  }

  /**
   * Rearranging the part after the pivot into sorted order, when the part before it is
   * sorted and at most the pivot and the part after it is above the pivot, sorts the
   * whole range.
   */
  lemma QuickUpperHalf<T(!new)>(t: seq<T>, r: seq<T>, lo: int, p: int, hi: int, cmp: (T, T) -> int)
    requires Comparator(cmp) && 0 <= lo <= p <= hi < |t| && |r| == |t|
    requires SortedBetween(t, lo, p, cmp) && AllAtMost(t, lo, p, t[p], cmp) && AllAbove(t, p + 1, hi + 1, t[p], cmp)
    requires multiset(r) == multiset(t) && forall k :: 0 <= k < |t| && !(p + 1 <= k <= hi) ==> r[k] == t[k]
    requires SortedBetween(r, p + 1, hi + 1, cmp)
    ensures SortedBetween(r, lo, hi + 1, cmp)
  {
    RangeKeeps(t, r, p + 1, hi, x => cmp(x, t[p]) > 0);
    assert SortedBetween(r, lo, p, cmp) by {
      assert forall k :: 0 <= k <= p ==> r[k] == t[k];
    }
    QuickJoin(r, lo, p, hi, cmp);
  }

  /** `QuickUpperHalf` for quick sort of the part after the pivot. */
  lemma QuickUpperSorted<T(!new)>(t: seq<T>, lo: int, p: int, hi: int, cmp: (T, T) -> int)
    requires Comparator(cmp) && 0 <= lo <= p <= hi < |t|
    requires SortedBetween(t, lo, p, cmp) && AllAtMost(t, lo, p, t[p], cmp) && AllAbove(t, p + 1, hi + 1, t[p], cmp)
    requires SortedBetween(QuickSorted(t, p + 1, hi, cmp), p + 1, hi + 1, cmp)
    ensures SortedBetween(QuickSorted(t, p + 1, hi, cmp), lo, hi + 1, cmp)
  {
    QuickSortedPermutes(t, p + 1, hi, cmp);
    QuickSortedKeeps(t, p + 1, hi, cmp);
    QuickUpperHalf(t, QuickSorted(t, p + 1, hi, cmp), lo, p, hi, cmp);
  }

  /** Quick sort of `[lo, hi]` leaves that range sorted. */
  lemma {:induction false} QuickSortedSorts<T(!new)>(s: seq<T>, lo: int, hi: int, cmp: (T, T) -> int)
    requires Comparator(cmp) && 0 <= lo <= hi + 1 <= |s|
    ensures SortedBetween(QuickSorted(s, lo, hi, cmp), lo, hi + 1, cmp)
    decreases hi + 1 - lo
  {
    if lo < hi {
      PartitionSplits(s, lo, hi, cmp);
      var t, p := Partitioned(s, lo, hi, cmp).0, Partitioned(s, lo, hi, cmp).1;
      var below, above := p - 1, p + 1;
      var t1 := if p > 0 then QuickSorted(t, lo, below, cmp) else t;
      if p > 0 {
        QuickSortedSorts(t, lo, below, cmp);
        QuickLowerHalf(t, lo, p, cmp);
      }
      assert t1[p] == t[p];
      assert AllAbove(t1, above, hi + 1, t1[p], cmp) by {
        assert forall k :: p < k < |s| ==> t1[k] == t[k];
      }
      QuickSortedSorts(t1, above, hi, cmp);
      QuickUpperSorted(t1, lo, p, hi, cmp);
      QuickSortedHalves(s, lo, hi, t, p, below, above, cmp);
    }
  }

  /** quick_sort_recursive (lines 166-177) on the array: it leaves `a` as `QuickSorted` says. */
  method QuickSortRange<T>(a: array<T>, lo: int, hi: int, cmp: (T, T) -> int)
    requires 0 <= lo <= hi + 1 <= a.Length
    modifies a
    ensures a[..] == QuickSorted(old(a[..]), lo, hi, cmp)
    decreases hi + 1 - lo
  {
    if lo < hi {
      ghost var s0 := a[..];
      var p := Partition(a, lo, hi, cmp);
      ghost var t := a[..];
      var below, above := p - 1, p + 1;
      if p > 0 {
        QuickSortRange(a, lo, below, cmp);
      }
      QuickSortRange(a, above, hi, cmp);
      QuickSortedHalves(s0, lo, hi, t, p, below, above, cmp);
    }
  }

  /** quick_sort (lines 183-189): arrays of at most one element are left alone. */
  method QuickSort<T(!new)>(a: array<T>, cmp: (T, T) -> int)
    requires Comparator(cmp)
    modifies a
    ensures Sorted(a[..], cmp) && multiset(a[..]) == multiset(old(a[..]))
    ensures a.Length <= 1 ==> a[..] == old(a[..])
  {
    if a.Length <= 1 {
      return;
    }
    ghost var s0 := a[..];
    QuickSortRange(a, 0, a.Length - 1, cmp);
    QuickSortedSorts(s0, 0, a.Length - 1, cmp);
    QuickSortedPermutes(s0, 0, a.Length - 1, cmp);
    assert SortedBetween(a[..], 0, a.Length, cmp);
  }
}
