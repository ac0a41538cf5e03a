/**
 * Merge sort of libs/algorithms/src/algorithms.c (lines 196-283): `merge` combines two
 * adjacent sorted runs through temporary copies, `merge_sort_recursive` halves the range,
 * and `merge_sort` sorts the whole array. `Merge` below is the merge as a function on
 * sequences; the methods are proved to leave the array as the functions say, and the
 * lemmas prove that the result is sorted, a permutation, and that merging is stable.
 */
module Merging {
  import opened Algorithms
  import opened Sorting

  /**
   * Merging two runs as lines 220-250 do: while both runs have elements, take the left
   * one when it compares at most the right one, otherwise the right one; then copy what
   * remains.
   */
  function Merge<T>(l: seq<T>, r: seq<T>, cmp: (T, T) -> int): (m: seq<T>)
    ensures |m| == |l| + |r|
    decreases |l| + |r|
  {
    if |l| == 0 then r
    else if |r| == 0 then l
    else if cmp(l[0], r[0]) <= 0 then [l[0]] + Merge(l[1..], r, cmp)
    else [r[0]] + Merge(l, r[1..], cmp)
  }

  /** A non-empty sequence's elements are its head and those of its tail. */
  lemma HeadSplit<T>(s: seq<T>)
    requires |s| > 0
    ensures multiset(s) == multiset{s[0]} + multiset(s[1..])
  {
    assert s == [s[0]] + s[1..];
  }

  /** The elements of a slice are those of its two parts. */
  lemma SliceSplit<T>(s: seq<T>, i: int, j: int, k: int)
    requires 0 <= i <= j <= k <= |s|
    ensures multiset(s[i..k]) == multiset(s[i..j]) + multiset(s[j..k])
  {
    assert s[i..k] == s[i..j] + s[j..k];
  }

  /** Merging keeps exactly the elements of both runs. */
  lemma {:induction false} MergePermutes<T>(l: seq<T>, r: seq<T>, cmp: (T, T) -> int)
    ensures multiset(Merge(l, r, cmp)) == multiset(l) + multiset(r)
    decreases |l| + |r|
  {
    if |l| != 0 && |r| != 0 {
      if cmp(l[0], r[0]) <= 0 {
        MergePermutes(l[1..], r, cmp);
        assert Merge(l, r, cmp) == [l[0]] + Merge(l[1..], r, cmp);
        HeadSplit(l);
      } else {
        MergePermutes(l, r[1..], cmp);
        assert Merge(l, r, cmp) == [r[0]] + Merge(l, r[1..], cmp);
        HeadSplit(r);
      }
    }
  }

  /** Every element of `s` is at least `x`. */
  ghost predicate AllAtLeast<T>(s: seq<T>, x: T, cmp: (T, T) -> int)
  {
    forall k :: 0 <= k < |s| ==> cmp(x, s[k]) <= 0
  }

  /** A lower bound of both runs is a lower bound of their merge. */
  lemma {:induction false} MergeAbove<T>(l: seq<T>, r: seq<T>, x: T, cmp: (T, T) -> int)
    requires AllAtLeast(l, x, cmp) && AllAtLeast(r, x, cmp)
    ensures AllAtLeast(Merge(l, r, cmp), x, cmp)
    decreases |l| + |r|
  {
    if |l| != 0 && |r| != 0 {
      if cmp(l[0], r[0]) <= 0 {
        MergeAbove(l[1..], r, x, cmp);
      } else {
        MergeAbove(l, r[1..], x, cmp);
      }
    }
  }

  /** An element at most every element of a sorted sequence, put in front: still sorted. */
  lemma SortedCons<T>(x: T, s: seq<T>, cmp: (T, T) -> int)
    requires Sorted(s, cmp) && AllAtLeast(s, x, cmp)
    ensures Sorted([x] + s, cmp)
  {
    var u := [x] + s;
    forall i, j | 0 <= i < j < |u|
      ensures cmp(u[i], u[j]) <= 0
    {
      assert u[j] == s[j - 1];
      if 0 < i {
        assert u[i] == s[i - 1];
      }
    }
  }

  /** The first element of a sorted sequence is at most all of it. */
  lemma HeadAtMost<T(!new)>(s: seq<T>, cmp: (T, T) -> int)
    requires Comparator(cmp) && Sorted(s, cmp) && 0 < |s|
    ensures AllAtLeast(s, s[0], cmp)
  {
    Reflexive(cmp, s[0]);
  }

  /** Merging two sorted runs gives a sorted run. */
  lemma {:induction false} MergeSorts<T(!new)>(l: seq<T>, r: seq<T>, cmp: (T, T) -> int)
    requires Comparator(cmp) && Sorted(l, cmp) && Sorted(r, cmp)
    ensures Sorted(Merge(l, r, cmp), cmp)
    decreases |l| + |r|
  {
    if |l| != 0 && |r| != 0 {
      HeadAtMost(l, cmp);
      HeadAtMost(r, cmp);
      if cmp(l[0], r[0]) <= 0 {
        MergeSorts(l[1..], r, cmp);
        forall k | 0 <= k < |r|
          ensures cmp(l[0], r[k]) <= 0
        {
          Transitive(cmp, l[0], r[0], r[k]);
        }
        MergeAbove(l[1..], r, l[0], cmp);
        SortedCons(l[0], Merge(l[1..], r, cmp), cmp);
      } else {
        MergeSorts(l, r[1..], cmp);
        Flip(cmp, l[0], r[0]);
        forall k | 0 <= k < |l|
          ensures cmp(r[0], l[k]) <= 0
        {
          Transitive(cmp, r[0], l[0], l[k]);
        }
        MergeAbove(l, r[1..], r[0], cmp);
        SortedCons(r[0], Merge(l, r[1..], cmp), cmp);
      }
    }
  }

  /** The elements of `s` that compare equal to `x`, in their order in `s`. */
  function Equivalents<T>(s: seq<T>, x: T, cmp: (T, T) -> int): (e: seq<T>)
    ensures |e| <= |s|
  {
    if |s| == 0 then []
    else (if cmp(s[0], x) == 0 then [s[0]] else []) + Equivalents(s[1..], x, cmp)
  }

  /** Picking out the equivalents of `x` distributes over concatenation. */
  lemma {:induction false} EquivalentsAppend<T>(s: seq<T>, t: seq<T>, x: T, cmp: (T, T) -> int)
    ensures Equivalents(s + t, x, cmp) == Equivalents(s, x, cmp) + Equivalents(t, x, cmp)
  {
    if |s| != 0 {
      assert (s + t)[0] == s[0] && (s + t)[1..] == s[1..] + t;
      EquivalentsAppend(s[1..], t, x, cmp);
    } else {
      assert s + t == t;
    }
  }

  /** A sequence with nothing equivalent to `x` has no equivalents of `x`. */
  lemma {:induction false} NoEquivalents<T>(s: seq<T>, x: T, cmp: (T, T) -> int)
    requires forall k :: 0 <= k < |s| ==> cmp(s[k], x) != 0
    ensures Equivalents(s, x, cmp) == []
  {
    if |s| != 0 {
      NoEquivalents(s[1..], x, cmp);
    }
  }

  /** A sorted sequence starting above something equivalent to `x` has no equivalents of `x`. */
  lemma AboveNoEquivalents<T(!new)>(l: seq<T>, y: T, x: T, cmp: (T, T) -> int)
    requires Comparator(cmp) && Sorted(l, cmp) && 0 < |l| && cmp(l[0], y) > 0 && cmp(y, x) == 0
    ensures Equivalents(l, x, cmp) == []
  {
    Flip(cmp, l[0], y);
    Flip(cmp, y, x);
    HeadAtMost(l, cmp);
    forall k | 0 <= k < |l|
      ensures cmp(l[k], x) != 0
    {
      LtLe(cmp, y, l[0], l[k]);
      LeLt(cmp, x, y, l[k]);
      Flip(cmp, x, l[k]);
    }
    NoEquivalents(l, x, cmp);
  }

  /** The equivalents of `x` in the part that is kept of the head `y`. */
  function HeadEquivalent<T>(y: T, x: T, cmp: (T, T) -> int): (e: seq<T>)
    ensures e == [] || e == [y]
  {
    if cmp(y, x) == 0 then [y] else []
  }

  /** Picking out equivalents of a sequence with a head put in front. */
  lemma EquivalentsCons<T>(y: T, s: seq<T>, x: T, cmp: (T, T) -> int)
    ensures Equivalents([y] + s, x, cmp) == HeadEquivalent(y, x, cmp) + Equivalents(s, x, cmp)
  {
    assert ([y] + s)[1..] == s;
  }

  /** Concatenation is associative. */
  lemma AppendAssoc<T>(x: seq<T>, y: seq<T>, z: seq<T>)
    ensures x + (y + z) == (x + y) + z
  {
  }

  /** One step of `MergeStable` where the left run's head is taken. */
  lemma {:induction false} StableTakeLeft<T>(l: seq<T>, r: seq<T>, x: T, cmp: (T, T) -> int)
    requires 0 < |l| && 0 < |r| && cmp(l[0], r[0]) <= 0
    requires Equivalents(Merge(l[1..], r, cmp), x, cmp) == Equivalents(l[1..], x, cmp) + Equivalents(r, x, cmp)
    ensures Equivalents(Merge(l, r, cmp), x, cmp) == Equivalents(l, x, cmp) + Equivalents(r, x, cmp)
  {
    assert Merge(l, r, cmp) == [l[0]] + Merge(l[1..], r, cmp);
    EquivalentsCons(l[0], Merge(l[1..], r, cmp), x, cmp);
    var h := HeadEquivalent(l[0], x, cmp);
    assert Equivalents(l, x, cmp) == h + Equivalents(l[1..], x, cmp);
    AppendAssoc(h, Equivalents(l[1..], x, cmp), Equivalents(r, x, cmp));
  }

  /**
   * A head taken from the right run before all of a sorted left run that is above it:
   * either it is not equivalent to `x` or nothing in the left run is.
   */
  lemma {:induction false} HeadCommutes<T(!new)>(l: seq<T>, y: T, x: T, cmp: (T, T) -> int)
    requires Comparator(cmp) && Sorted(l, cmp) && 0 < |l| && cmp(l[0], y) > 0
    ensures HeadEquivalent(y, x, cmp) + Equivalents(l, x, cmp) == Equivalents(l, x, cmp) + HeadEquivalent(y, x, cmp)
  {
    if cmp(y, x) == 0 {
      AboveNoEquivalents(l, y, x, cmp);
    }
  }

  /** One step of `MergeStable` where the right run's head is taken. */
  lemma {:induction false} StableTakeRight<T(!new)>(l: seq<T>, r: seq<T>, x: T, cmp: (T, T) -> int)
    requires Comparator(cmp) && Sorted(l, cmp)
    requires 0 < |l| && 0 < |r| && cmp(l[0], r[0]) > 0
    requires Equivalents(Merge(l, r[1..], cmp), x, cmp) == Equivalents(l, x, cmp) + Equivalents(r[1..], x, cmp)
    ensures Equivalents(Merge(l, r, cmp), x, cmp) == Equivalents(l, x, cmp) + Equivalents(r, x, cmp)
  {
    assert Merge(l, r, cmp) == [r[0]] + Merge(l, r[1..], cmp);
    EquivalentsCons(r[0], Merge(l, r[1..], cmp), x, cmp);
    var h, el, er := HeadEquivalent(r[0], x, cmp), Equivalents(l, x, cmp), Equivalents(r[1..], x, cmp);
    assert Equivalents(r, x, cmp) == h + er;
    HeadCommutes(l, r[0], x, cmp);
    AppendAssoc(h, el, er);
    AppendAssoc(el, h, er);
  }

  /**
   * Merging is stable: among elements that compare equal to any `x`, those of the left
   * run come first and each run keeps its own order. This is what taking the left
   * element on a tie (line 225) buys.
   */
  lemma {:induction false} MergeStable<T(!new)>(l: seq<T>, r: seq<T>, x: T, cmp: (T, T) -> int)
    requires Comparator(cmp) && Sorted(l, cmp)
    ensures Equivalents(Merge(l, r, cmp), x, cmp) == Equivalents(l, x, cmp) + Equivalents(r, x, cmp)
    decreases |l| + |r|
  {
    if |l| == 0 {
      assert Equivalents(l, x, cmp) == [];
    } else if |r| == 0 {
      assert Equivalents(r, x, cmp) == [];
    } else if cmp(l[0], r[0]) <= 0 {
      MergeStable(l[1..], r, x, cmp);
      StableTakeLeft(l, r, x, cmp);
    } else {
      MergeStable(l, r[1..], x, cmp);
      StableTakeRight(l, r, x, cmp);
    }
  }

  /**
   * merge (lines 196-254) on a sequence: the runs `[lo, mid]` and `(mid, hi]` replaced by
   * their merge, everything else as it was.
   */
  function Merged<T>(s: seq<T>, lo: int, mid: int, hi: int, cmp: (T, T) -> int): (r: seq<T>)
    requires 0 <= lo <= mid <= hi < |s|
    ensures |r| == |s|
  {
    s[..lo] + Merge(s[lo..mid + 1], s[mid + 1..hi + 1], cmp) + s[hi + 1..]
  }

  /** Replacing the middle of a concatenation by a permutation of it permutes the whole. */
  lemma PermutedMiddle<T>(a: seq<T>, b: seq<T>, c: seq<T>, b': seq<T>, x: multiset<T>)
    requires multiset(b) == x && multiset(b') == x
    ensures multiset(a + b + c) == multiset(a + b' + c)
  {
  }

  /** A sequence is its three slices at `i` and `j`, put back together. */
  lemma ThreeWayJoin<T>(s: seq<T>, i: int, j: int)
    requires 0 <= i <= j <= |s|
    ensures s[..i] + s[i..j] + s[j..] == s
  {
  }

  /** Merging two adjacent runs keeps the same elements. */
  lemma MergedPermutes<T>(s: seq<T>, lo: int, mid: int, hi: int, cmp: (T, T) -> int)
    requires 0 <= lo <= mid <= hi < |s|
    ensures multiset(Merged(s, lo, mid, hi, cmp)) == multiset(s)
  {
    MergedRunsPermute(s, lo, mid, hi, cmp);
    MiddleReplaced(s, lo, hi + 1, Merge(s[lo..mid + 1], s[mid + 1..hi + 1], cmp));
  }

  /** Merging the two runs gives the elements of the range they cover. */
  lemma MergedRunsPermute<T>(s: seq<T>, lo: int, mid: int, hi: int, cmp: (T, T) -> int)
    requires 0 <= lo <= mid <= hi < |s|
    ensures multiset(Merge(s[lo..mid + 1], s[mid + 1..hi + 1], cmp)) == multiset(s[lo..hi + 1])
  {
    var l, r := s[lo..mid + 1], s[mid + 1..hi + 1];
    MergePermutes(l, r, cmp);
    JoinedRuns(s, lo, mid, hi, l, r);
  }

  /** The two runs side by side are the range they cover. */
  lemma JoinedRuns<T>(s: seq<T>, lo: int, mid: int, hi: int, l: seq<T>, r: seq<T>)
    requires 0 <= lo <= mid <= hi < |s| && l == s[lo..mid + 1] && r == s[mid + 1..hi + 1]
    ensures multiset(s[lo..hi + 1]) == multiset(l) + multiset(r)
  {
    SliceSplit(s, lo, mid + 1, hi + 1);
  }

  /** Replacing the slice `s[i..j]` by a permutation of it permutes `s`. */
  lemma MiddleReplaced<T>(s: seq<T>, i: int, j: int, m: seq<T>)
    requires 0 <= i <= j <= |s| && multiset(m) == multiset(s[i..j])
    ensures multiset(s[..i] + m + s[j..]) == multiset(s)
  {
    PermutedMiddle(s[..i], m, s[j..], s[i..j], multiset(m));
    ThreeWayJoin(s, i, j);
  }

  /** Merging two adjacent runs leaves everything outside them alone. */
  lemma MergedKeeps<T>(s: seq<T>, lo: int, mid: int, hi: int, cmp: (T, T) -> int)
    requires 0 <= lo <= mid <= hi < |s|
    ensures forall k :: 0 <= k < |s| && !(lo <= k <= hi) ==> Merged(s, lo, mid, hi, cmp)[k] == s[k]
  {
  }

  /** `SortedBetween` on a range is `Sorted` on its slice. */
  lemma SortedSlice<T>(s: seq<T>, lo: int, hi: int, cmp: (T, T) -> int)
    requires 0 <= lo <= hi <= |s|
    ensures SortedBetween(s, lo, hi, cmp) <==> Sorted(s[lo..hi], cmp)
  {
    if Sorted(s[lo..hi], cmp) {
      forall i, j | lo <= i < j < hi
        ensures cmp(s[i], s[j]) <= 0
      {
        assert s[i] == s[lo..hi][i - lo] && s[j] == s[lo..hi][j - lo];
      }
    }
    if SortedBetween(s, lo, hi, cmp) {
      forall i, j | 0 <= i < j < hi - lo
        ensures cmp(s[lo..hi][i], s[lo..hi][j]) <= 0
      {
        assert s[lo..hi][i] == s[lo + i] && s[lo..hi][j] == s[lo + j];
      }
    }
  }

  /** Merging two adjacent sorted runs leaves their union sorted. */
  lemma MergedSorts<T(!new)>(s: seq<T>, lo: int, mid: int, hi: int, cmp: (T, T) -> int)
    requires Comparator(cmp) && 0 <= lo <= mid <= hi < |s|
    requires SortedBetween(s, lo, mid + 1, cmp) && SortedBetween(s, mid + 1, hi + 1, cmp)
    ensures SortedBetween(Merged(s, lo, mid, hi, cmp), lo, hi + 1, cmp)
  {
    var m := Merged(s, lo, mid, hi, cmp);
    SortedSlice(s, lo, mid + 1, cmp);
    SortedSlice(s, mid + 1, hi + 1, cmp);
    MergeSorts(s[lo..mid + 1], s[mid + 1..hi + 1], cmp);
    assert m[lo..hi + 1] == Merge(s[lo..mid + 1], s[mid + 1..hi + 1], cmp);
    SortedSlice(m, lo, hi + 1, cmp);
  }

  /**
   * The merge of the remainders `l[i..]` and `r[j..]`, followed index by index as the
   * loops of lines 220-250 do.
   */
  function MergeFrom<T>(l: seq<T>, r: seq<T>, i: int, j: int, cmp: (T, T) -> int): (m: seq<T>)
    requires 0 <= i <= |l| && 0 <= j <= |r|
    ensures |m| == |l| - i + |r| - j
    decreases |l| - i + |r| - j
  {
    if i == |l| then r[j..]
    else if j == |r| then l[i..]
    else if cmp(l[i], r[j]) <= 0 then [l[i]] + MergeFrom(l, r, i + 1, j, cmp)
    else [r[j]] + MergeFrom(l, r, i, j + 1, cmp)
  }

  /** Following indices merges the same as taking slices. */
  lemma {:induction false} MergeFromIsMerge<T>(l: seq<T>, r: seq<T>, i: int, j: int, cmp: (T, T) -> int)
    requires 0 <= i <= |l| && 0 <= j <= |r|
    ensures MergeFrom(l, r, i, j, cmp) == Merge(l[i..], r[j..], cmp)
    decreases |l| - i + |r| - j
  {
    if i < |l| && j < |r| {
      assert l[i..][0] == l[i] && l[i..][1..] == l[i + 1..];
      assert r[j..][0] == r[j] && r[j..][1..] == r[j + 1..];
      if cmp(l[i], r[j]) <= 0 {
        MergeFromIsMerge(l, r, i + 1, j, cmp);
      } else {
        MergeFromIsMerge(l, r, i, j + 1, cmp);
      }
    }
  }

  /** Taking one element: the suffix of the merge from `d + 1` is the merge of what remains. */
  lemma Advance<T>(m: seq<T>, d: int, x: T, rest: seq<T>)
    requires 0 <= d <= |m| && m[d..] == [x] + rest
    ensures d < |m| && m[d] == x && m[d + 1..] == rest
  {
    assert m[d..][0] == m[d] && m[d..][1..] == m[d + 1..];
  }

  /** One turn of a tail loop of merge: the merge continues with `src[n]`. */
  lemma CopyStep<T>(m: seq<T>, d: int, src: seq<T>, n: int, rest: seq<T>)
    requires 0 <= n < |src| && 0 <= d <= |m| && m[d..] == src[n..] + rest
    ensures d < |m| && m[d] == src[n] && m[d + 1..] == src[n + 1..] + rest
  {
    assert src[n..] + rest == [src[n]] + (src[n + 1..] + rest);
    Advance(m, d, src[n], src[n + 1..] + rest);
  }

  /** Once one run is used up, what remains of the merge is the rest of the other run. */
  lemma {:induction false} TailMerge<T>(l: seq<T>, r: seq<T>, i: int, j: int, cmp: (T, T) -> int)
    requires 0 <= i <= |l| && 0 <= j <= |r| && (i == |l| || j == |r|)
    ensures MergeFrom(l, r, i, j, cmp) == l[i..] + r[j..]
  {
    if i == |l| {
      assert l[i..] == [];
    } else {
      assert r[j..] == [];
    }
  }

  /** The array while merging: the first `n` merged elements written from `lo` on. */
  function Written<T>(s: seq<T>, m: seq<T>, lo: int, k: int): (w: seq<T>)
    requires 0 <= lo <= k <= |s| && k - lo <= |m|
    ensures |w| == |s|
  {
    s[..lo] + m[..k - lo] + s[k..]
  }

  /** `Written` one element at a time, as the loop writes it. */
  function Filled<T>(s: seq<T>, m: seq<T>, lo: int, n: int): (w: seq<T>)
    requires 0 <= lo && 0 <= n <= |m| && lo + n <= |s|
    ensures |w| == |s|
  {
    if n == 0 then s else Filled(s, m, lo, n - 1)[lo + n - 1 := m[n - 1]]
  }

  /** Writing one element at a time ends with the merged prefix in place. */
  lemma {:induction false} FilledIsWritten<T>(s: seq<T>, m: seq<T>, lo: int, n: int)
    requires 0 <= lo && 0 <= n <= |m| && lo + n <= |s|
    ensures Filled(s, m, lo, n) == Written(s, m, lo, lo + n)
  {
    if n > 0 {
      FilledIsWritten(s, m, lo, n - 1);
      Emitted(s, m, lo, lo + n - 1);
    }
  }

  /** Writing the next merged element at `k` extends the merged prefix by one. */
  lemma Emitted<T>(s: seq<T>, m: seq<T>, lo: int, k: int)
    requires 0 <= lo <= k < |s| && k - lo < |m|
    ensures Written(s, m, lo, k)[k := m[k - lo]] == Written(s, m, lo, k + 1)
  {
  }

  /**
   * One pass of the first loop of merge: the smaller head is the next element of the
   * merge, and the merge from `d + 1` on is the merge of what remains.
   */
  lemma HeadStep<T>(m: seq<T>, d: int, l: seq<T>, r: seq<T>, i: int, j: int, cmp: (T, T) -> int)
    requires 0 <= d <= |m| && 0 <= i < |l| && 0 <= j < |r| && m[d..] == MergeFrom(l, r, i, j, cmp)
    ensures d < |m|
    ensures cmp(l[i], r[j]) <= 0 ==> m[d] == l[i] && m[d + 1..] == MergeFrom(l, r, i + 1, j, cmp)
    ensures cmp(l[i], r[j]) > 0 ==> m[d] == r[j] && m[d + 1..] == MergeFrom(l, r, i, j + 1, cmp)
  {
    if cmp(l[i], r[j]) <= 0 {
      Advance(m, d, l[i], MergeFrom(l, r, i + 1, j, cmp));
    } else {
      Advance(m, d, r[j], MergeFrom(l, r, i, j + 1, cmp));
    }
  }

  /** Once the whole merge is written, the array is `Merged`. */
  lemma AllWritten<T>(s: seq<T>, lo: int, mid: int, hi: int, cmp: (T, T) -> int)
    requires 0 <= lo <= mid <= hi < |s|
    ensures Written(s, Merge(s[lo..mid + 1], s[mid + 1..hi + 1], cmp), lo, hi + 1) == Merged(s, lo, mid, hi, cmp)
  {
  }

  /** Once all of the merge is written from `lo` on, the array is `Merged`. */
  lemma FilledMerged<T>(w: seq<T>, s: seq<T>, lo: int, mid: int, hi: int, l: seq<T>, r: seq<T>, m: seq<T>, n: int, cmp: (T, T) -> int)
    requires 0 <= lo <= mid <= hi < |s| && l == s[lo..mid + 1] && r == s[mid + 1..hi + 1]
    requires m == MergeFrom(l, r, 0, 0, cmp)
    requires n == |m|
    requires w == Filled(s, m, lo, n)
    ensures w == Merged(s, lo, mid, hi, cmp)
  {
    FilledIsWritten(s, m, lo, n);
    MergeFromIsMerge(l, r, 0, 0, cmp);
    assert l[0..] == l && r[0..] == r;
    AllWritten(s, lo, mid, hi, cmp);
  }

  /** One element copied into the array (the `memcpy` of lines 226 and 229). */
  method Put<T>(a: array<T>, k: int, v: T)
    requires 0 <= k < a.Length
    modifies a
    ensures a[..] == old(a[..])[k := v]
  {
    a[k] := v;
  }

  /**
   * The first loop of merge (lines 218-233): while both runs have elements, write the
   * smaller head (the left one on a tie) at `k`. It stops with one run used up and the
   * merge written up to `lo + i + j`.
   */
  method MergeHeads<T>(a: array<T>, lo: int, left: seq<T>, right: seq<T>, cmp: (T, T) -> int,
                       ghost s0: seq<T>, ghost m: seq<T>) returns (i: int, j: int)
    requires 0 <= lo && lo + |left| + |right| <= a.Length && a[..] == s0
    requires m == MergeFrom(left, right, 0, 0, cmp)
    modifies a
    ensures 0 <= i <= |left| && 0 <= j <= |right| && (i == |left| || j == |right|)
    ensures a[..] == Filled(s0, m, lo, i + j) && m[i + j..] == MergeFrom(left, right, i, j, cmp)
  {
    i, j := 0, 0;
    var k := lo;
    ghost var n := 0;
    while i < |left| && j < |right|
      invariant 0 <= i <= |left| && 0 <= j <= |right| && n == i + j && k == lo + n
      invariant a[..] == Filled(s0, m, lo, n)
      invariant m[n..] == MergeFrom(left, right, i, j, cmp)
    {
      HeadStep(m, n, left, right, i, j, cmp);
      if cmp(left[i], right[j]) <= 0 {
        Put(a, k, left[i]);
        i := i + 1;
      } else {
        Put(a, k, right[j]);
        j := j + 1;
      }
      k := k + 1;
      n := n + 1;
    }
  }

  /**
   * A trailing loop of merge (lines 236-242 for the left run, 244-250 for the right one):
   * copy `src[i..]`, which is what comes next in the merge, to the array from `k` on.
   */
  method CopyRest<T>(a: array<T>, k: int, src: seq<T>, i: int,
                     ghost s0: seq<T>, ghost m: seq<T>, ghost lo: int, ghost rest: seq<T>) returns (k': int)
    requires 0 <= i <= |src| && 0 <= lo <= k && lo + |m| <= |s0|
    requires k - lo <= |m| && m[k - lo..] == src[i..] + rest
    requires a[..] == Filled(s0, m, lo, k - lo)
    modifies a
    ensures k' == k + |src| - i
    ensures a[..] == Filled(s0, m, lo, k' - lo) && m[k' - lo..] == rest
  {
    var n := i;
    k' := k;
    ghost var d := k - lo;
    while n < |src|
      invariant i <= n <= |src| && k' == k + n - i && d == k' - lo
      invariant a[..] == Filled(s0, m, lo, d) && m[d..] == src[n..] + rest
    {
      CopyStep(m, d, src, n, rest);
      Put(a, k', src[n]);
      n := n + 1;
      k' := k' + 1;
      d := d + 1;
    }
    assert src[n..] + rest == rest;
  }

  /** The two tail loops of merge: whatever is left of either run is copied after the heads. */
  method CopyTails<T>(a: array<T>, k: int, left: seq<T>, i: int, right: seq<T>, j: int,
                      ghost s0: seq<T>, ghost m: seq<T>, ghost lo: int, ghost cmp: (T, T) -> int)
    requires 0 <= i <= |left| && 0 <= j <= |right| && (i == |left| || j == |right|)
    requires 0 <= lo <= k && lo + |m| <= |s0| && k - lo <= |m|
    requires m[k - lo..] == MergeFrom(left, right, i, j, cmp)
    requires a[..] == Filled(s0, m, lo, k - lo)
    modifies a
    ensures a[..] == Filled(s0, m, lo, |m|)
  {
    TailMerge(left, right, i, j, cmp);
    var k1 := CopyRest(a, k, left, i, s0, m, lo, right[j..]);
    assert right[j..] == right[j..] + [];
    var k2 := CopyRest(a, k1, right, j, s0, m, lo, []);
    assert k2 - lo == |m|;
  }

  /** merge (lines 196-254) on the array: it leaves `a` as `Merged` says. */
  method MergeRuns<T>(a: array<T>, lo: int, mid: int, hi: int, cmp: (T, T) -> int)
    requires 0 <= lo <= mid <= hi < a.Length
    modifies a
    ensures a[..] == Merged(old(a[..]), lo, mid, hi, cmp)
  {
    ghost var s0 := a[..];
    var left := a[lo..mid + 1];
    var right := a[mid + 1..hi + 1];
    ghost var m := MergeFrom(left, right, 0, 0, cmp);
    FilledMerged(Filled(s0, m, lo, |m|), s0, lo, mid, hi, left, right, m, |m|, cmp);
    var i, j := MergeHeads(a, lo, left, right, cmp, s0, m);
    CopyTails(a, lo + i + j, left, i, right, j, s0, m, lo, cmp);
  }

  /** The midpoint `left + (right - left) / 2` of line 264, rounded down. */
  function Midpoint(lo: int, hi: int): (mid: int)
    requires lo < hi
    ensures lo <= mid < hi
  {
    lo + (hi - lo) / 2
  }

  /**
   * merge_sort_recursive (lines 260-271): sort each half of `[lo, hi]`, the front half
   * first, then merge them. The midpoint is `lo + (hi - lo) / 2`, as in the source.
   */
  function MergeSorted<T>(s: seq<T>, lo: int, hi: int, cmp: (T, T) -> int): (r: seq<T>)
    requires 0 <= lo <= hi < |s|
    ensures |r| == |s|
    decreases hi - lo, 1
  {
    if lo < hi then Halves(s, lo, Midpoint(lo, hi), hi, cmp) else s
  }

  /** The recursive step of `MergeSorted`: sort each half, then merge them. */
  function Halves<T>(s: seq<T>, lo: int, mid: int, hi: int, cmp: (T, T) -> int): (r: seq<T>)
    requires 0 <= lo <= mid < hi < |s|
    ensures |r| == |s|
    decreases hi - lo, 0
  {
    Merged(MergeSorted(MergeSorted(s, lo, mid, cmp), mid + 1, hi, cmp), lo, mid, hi, cmp)
  }

  /** One step of `MergeSorted`, with the midpoint and the start of the upper half named. */
  lemma MergeSortedHalves<T>(s: seq<T>, lo: int, mid: int, mid': int, hi: int, cmp: (T, T) -> int)
    requires 0 <= lo < hi < |s| && mid == Midpoint(lo, hi) && mid' == mid + 1
    ensures MergeSorted(s, lo, hi, cmp) == Halves(s, lo, mid, hi, cmp)
    ensures Halves(s, lo, mid, hi, cmp) == Merged(MergeSorted(MergeSorted(s, lo, mid, cmp), mid', hi, cmp), lo, mid, hi, cmp)
  {
  }

  /** Having the same elements is transitive, over three steps. */
  lemma SameElements<T>(a: seq<T>, b: seq<T>, c: seq<T>, d: seq<T>)
    requires multiset(a) == multiset(b) && multiset(b) == multiset(c) && multiset(c) == multiset(d)
    ensures multiset(a) == multiset(d)
  {
  }

  /** Merge sort of `[lo, hi]` keeps the same elements. */
  lemma {:induction false} MergeSortedPermutes<T>(s: seq<T>, lo: int, hi: int, cmp: (T, T) -> int)
    requires 0 <= lo <= hi < |s|
    ensures multiset(MergeSorted(s, lo, hi, cmp)) == multiset(s)
    decreases hi - lo
  {
    if lo < hi {
      var mid := Midpoint(lo, hi);
      var mid' := mid + 1;
      var t1 := MergeSorted(s, lo, mid, cmp);
      var t2 := MergeSorted(t1, mid', hi, cmp);
      MergeSortedPermutes(s, lo, mid, cmp);
      MergeSortedPermutes(t1, mid', hi, cmp);
      MergedPermutes(t2, lo, mid, hi, cmp);
      MergeSortedHalves(s, lo, mid, mid', hi, cmp);
      SameElements(Merged(t2, lo, mid, hi, cmp), t2, t1, s);
    }
  }

  /** Merge sort of `[lo, hi]` leaves everything outside that range alone. */
  lemma {:induction false} MergeSortedKeeps<T>(s: seq<T>, lo: int, hi: int, cmp: (T, T) -> int)
    requires 0 <= lo <= hi < |s|
    ensures forall k :: 0 <= k < |s| && !(lo <= k <= hi) ==> MergeSorted(s, lo, hi, cmp)[k] == s[k]
    decreases hi - lo
  {
    if lo < hi {
      var mid := Midpoint(lo, hi);
      var mid' := mid + 1;
      var t1 := MergeSorted(s, lo, mid, cmp);
      var t2 := MergeSorted(t1, mid', hi, cmp);
      MergeSortedKeeps(s, lo, mid, cmp);
      MergeSortedKeeps(t1, mid', hi, cmp);
      MergedKeeps(t2, lo, mid, hi, cmp);
      MergeSortedHalves(s, lo, mid, mid', hi, cmp);
      var r := Merged(t2, lo, mid, hi, cmp);
      forall k | 0 <= k < |s| && !(lo <= k <= hi)
        ensures MergeSorted(s, lo, hi, cmp)[k] == s[k]
      {
        assert r[k] == t2[k] == t1[k] == s[k];
      }
    }
  }

  /** A sorted range stays sorted when every position in it keeps its element. */
  lemma SortedKept<T>(s: seq<T>, t: seq<T>, lo: int, hi: int, cmp: (T, T) -> int)
    requires |t| == |s| && 0 <= lo <= hi <= |s| && SortedBetween(s, lo, hi, cmp)
    requires forall k :: lo <= k < hi ==> t[k] == s[k]
    ensures SortedBetween(t, lo, hi, cmp)
  {
    forall i, j | lo <= i < j < hi
      ensures cmp(t[i], t[j]) <= 0
    {
      assert t[i] == s[i] && t[j] == s[j];
    }
  }

  /** Merge sort leaves `[lo, hi]` sorted. */
  lemma {:induction false} MergeSortedSorts<T(!new)>(s: seq<T>, lo: int, hi: int, cmp: (T, T) -> int)
    requires Comparator(cmp) && 0 <= lo <= hi < |s|
    ensures SortedBetween(MergeSorted(s, lo, hi, cmp), lo, hi + 1, cmp)
    decreases hi - lo
  {
    if lo < hi {
      var mid := Midpoint(lo, hi);
      var mid' := mid + 1;
      var t1 := MergeSorted(s, lo, mid, cmp);
      var t2 := MergeSorted(t1, mid', hi, cmp);
      MergeSortedSorts(s, lo, mid, cmp);
      MergeSortedSorts(t1, mid', hi, cmp);
      MergeSortedKeeps(t1, mid', hi, cmp);
      SortedKept(t1, t2, lo, mid', cmp);
      MergedSorts(t2, lo, mid, hi, cmp);
      MergeSortedHalves(s, lo, mid, mid', hi, cmp);
    }
  }

  /** The run `[lo, hi]` of `s`, both ends included as in merge_sort_recursive. */
  function Run<T>(s: seq<T>, lo: int, hi: int): (r: seq<T>)
    requires 0 <= lo <= hi < |s|
    ensures |r| == hi + 1 - lo
  {
    s[lo..hi + 1]
  }

  /** Two sequences that agree on `[lo, hi]` have the same run there. */
  lemma SameRun<T>(s: seq<T>, t: seq<T>, lo: int, hi: int)
    requires 0 <= lo <= hi < |s| && hi < |t|
    requires forall k :: lo <= k <= hi ==> t[k] == s[k]
    ensures Run(t, lo, hi) == Run(s, lo, hi)
  {
  }

  /** A run is its lower half followed by its upper half. */
  lemma RunSplit<T>(s: seq<T>, lo: int, mid: int, mid': int, hi: int)
    requires 0 <= lo <= mid < hi < |s| && mid' == mid + 1
    ensures Run(s, lo, hi) == Run(s, lo, mid) + Run(s, mid', hi)
  {
  }

  /** After `Merged`, the run `[lo, hi]` is the merge of the two runs it was made of. */
  lemma MergedRun<T>(s: seq<T>, lo: int, mid: int, mid': int, hi: int, cmp: (T, T) -> int)
    requires 0 <= lo <= mid < hi < |s| && mid' == mid + 1
    ensures Run(Merged(s, lo, mid, hi, cmp), lo, hi) == Merge(Run(s, lo, mid), Run(s, mid', hi), cmp)
  {
    assert Merged(s, lo, mid, hi, cmp)[lo..hi + 1] == Merge(s[lo..mid + 1], s[mid + 1..hi + 1], cmp);
  }

  /** A run sorted in place is a sorted sequence. */
  lemma SortedRun<T>(s: seq<T>, lo: int, hi: int, cmp: (T, T) -> int)
    requires 0 <= lo <= hi < |s| && SortedBetween(s, lo, hi + 1, cmp)
    ensures Sorted(Run(s, lo, hi), cmp)
  {
    SortedSlice(s, lo, hi + 1, cmp);
  }

  /** The bookkeeping of the stability step, over plain sequences. */
  lemma StableCombine<T>(g: seq<T>, m: seq<T>, a: seq<T>, b: seq<T>, a0: seq<T>, b0: seq<T>, w: seq<T>,
                         x: T, cmp: (T, T) -> int)
    requires g == m && w == a0 + b0
    requires Equivalents(m, x, cmp) == Equivalents(a, x, cmp) + Equivalents(b, x, cmp)
    requires Equivalents(a, x, cmp) == Equivalents(a0, x, cmp) && Equivalents(b, x, cmp) == Equivalents(b0, x, cmp)
    ensures Equivalents(g, x, cmp) == Equivalents(w, x, cmp)
  {
    EquivalentsAppend(a0, b0, x, cmp);
  }

  /**
   * Merge sort is stable: the elements of the run `[lo, hi]` equivalent to any `x` come
   * out in the order they went in.
   */
  lemma {:induction false} MergeSortedStable<T(!new)>(s: seq<T>, lo: int, hi: int, x: T, cmp: (T, T) -> int)
    requires Comparator(cmp) && 0 <= lo <= hi < |s|
    ensures Equivalents(Run(MergeSorted(s, lo, hi, cmp), lo, hi), x, cmp) == Equivalents(Run(s, lo, hi), x, cmp)
    decreases hi - lo
  {
    if lo < hi {
      var mid := Midpoint(lo, hi);
      var mid' := mid + 1;
      var t1 := MergeSorted(s, lo, mid, cmp);
      var t2 := MergeSorted(t1, mid', hi, cmp);
      MergeSortedStable(s, lo, mid, x, cmp);
      MergeSortedStable(t1, mid', hi, x, cmp);
      MergeSortedKeeps(s, lo, mid, cmp);
      MergeSortedKeeps(t1, mid', hi, cmp);
      SameRun(t1, t2, lo, mid);
      SameRun(s, t1, mid', hi);
      MergeSortedSorts(s, lo, mid, cmp);
      SortedRun(t1, lo, mid, cmp);
      MergeStable(Run(t2, lo, mid), Run(t2, mid', hi), x, cmp);
      MergeSortedHalves(s, lo, mid, mid', hi, cmp);
      MergedRun(t2, lo, mid, mid', hi, cmp);
      RunSplit(s, lo, mid, mid', hi);
      StableCombine(Run(MergeSorted(s, lo, hi, cmp), lo, hi), Merge(Run(t2, lo, mid), Run(t2, mid', hi), cmp),
                    Run(t2, lo, mid), Run(t2, mid', hi), Run(s, lo, mid), Run(s, mid', hi), Run(s, lo, hi), x, cmp);
    }
  }

  /** Merge sort of a whole sequence: sorted, the same elements, and stable. */
  lemma MergeSortedWhole<T(!new)>(s: seq<T>, hi: int, cmp: (T, T) -> int)
    requires Comparator(cmp) && 0 <= hi == |s| - 1
    ensures Sorted(MergeSorted(s, 0, hi, cmp), cmp) && multiset(MergeSorted(s, 0, hi, cmp)) == multiset(s)
    ensures forall x :: Equivalents(MergeSorted(s, 0, hi, cmp), x, cmp) == Equivalents(s, x, cmp)
  {
    MergeSortedSorts(s, 0, hi, cmp);
    MergeSortedPermutes(s, 0, hi, cmp);
    forall x
      ensures Equivalents(MergeSorted(s, 0, hi, cmp), x, cmp) == Equivalents(s, x, cmp)
    {
      WholeStable(s, hi, x, cmp);
    }
  }

  /** MergeSortedStable for the run that is the whole sequence. */
  lemma WholeStable<T(!new)>(s: seq<T>, hi: int, x: T, cmp: (T, T) -> int)
    requires Comparator(cmp) && 0 <= hi == |s| - 1
    ensures Equivalents(MergeSorted(s, 0, hi, cmp), x, cmp) == Equivalents(s, x, cmp)
  {
    MergeSortedStable(s, 0, hi, x, cmp);
    var r := MergeSorted(s, 0, hi, cmp);
    assert Run(r, 0, hi) == r;
    assert Run(s, 0, hi) == s;
  }

  /** merge_sort_recursive (lines 260-271) on the array: it leaves `a` as `MergeSorted` says. */
  method MergeSortRange<T>(a: array<T>, lo: int, hi: int, cmp: (T, T) -> int)
    requires 0 <= lo <= hi < a.Length
    modifies a
    ensures a[..] == MergeSorted(old(a[..]), lo, hi, cmp)
    decreases hi - lo
  {
    if lo < hi {
      ghost var s0 := a[..];
      var mid := Midpoint(lo, hi);
      var mid' := mid + 1;
      MergeSortRange(a, lo, mid, cmp);
      MergeSortRange(a, mid', hi, cmp);
      MergeRuns(a, lo, mid, hi, cmp);
      MergeSortedHalves(s0, lo, mid, mid', hi, cmp);
    }
  }

  /**
   * merge_sort (lines 277-283): arrays of at most one element are left alone; otherwise
   * the result is sorted, a permutation, and stable.
   */
  method MergeSort<T(!new)>(a: array<T>, cmp: (T, T) -> int)
    requires Comparator(cmp)
    modifies a
    ensures Sorted(a[..], cmp) && multiset(a[..]) == multiset(old(a[..]))
    ensures forall x :: Equivalents(a[..], x, cmp) == Equivalents(old(a[..]), x, cmp)
    ensures a.Length <= 1 ==> a[..] == old(a[..])
  {
    if a.Length <= 1 {
      return;
    }
    ghost var s0 := a[..];
    var hi := a.Length - 1;
    MergeSortRange(a, 0, hi, cmp);
    MergeSortedWhole(s0, hi, cmp);
  }
}
