/**
 * The sorting and searching routines of libs/algorithms/src/algorithms.c.
 *
 * The C functions work on `size` elements of `element_size` bytes behind a `void *` and
 * take a `qsort`-style comparator; here the array is an `array<T>` and the comparator a
 * function `cmp: (T, T) -> int` whose sign is what counts. The comparator is assumed to
 * be a total preorder (`Comparator`), as every comparator handed to these routines is.
 */
module Algorithms {
  import opened SizeT
  import opened Sequences

  /**
   * A total preorder given by the sign of `cmp`: `cmp(x, y) < 0` exactly when
   * `cmp(y, x) > 0` (so `cmp(x, x) == 0` and `cmp(x, y) == 0` is symmetric), and "at most"
   * (`cmp <= 0`) is transitive.
   */
  ghost predicate Comparator<T(!new)>(cmp: (T, T) -> int)
  {
    (forall x, y :: Opposed(cmp, x, y)) &&
    (forall x, y, z :: Chained(cmp, x, y, z))
  }

  /**
   * Antisymmetry of the sign for one pair, kept apart like `Chained` below (used through
   * `Flip`).
   */
  ghost predicate Opposed<T>(cmp: (T, T) -> int, x: T, y: T)
  {
    cmp(x, y) < 0 <==> cmp(y, x) > 0
  }

  /** Swapping the arguments swaps "below" and "above". */
  lemma Flip<T(!new)>(cmp: (T, T) -> int, x: T, y: T)
    requires Comparator(cmp)
    ensures cmp(x, y) < 0 <==> cmp(y, x) > 0
    ensures cmp(x, y) > 0 <==> cmp(y, x) < 0
  {
    assert Opposed(cmp, x, y) && Opposed(cmp, y, x);
  }

  /** Every element compares equal to itself. */
  lemma Reflexive<T(!new)>(cmp: (T, T) -> int, x: T)
    requires Comparator(cmp)
    ensures cmp(x, x) == 0
  {
    assert Opposed(cmp, x, x);
  }

  /**
   * Transitivity of "at most" for one triple. Kept apart so that the solver chains
   * comparisons only where a proof asks for it (through `Transitive`, `LeLt`, `LtLe`).
   */
  ghost predicate Chained<T>(cmp: (T, T) -> int, x: T, y: T, z: T)
  {
    cmp(x, y) <= 0 && cmp(y, z) <= 0 ==> cmp(x, z) <= 0
  }

  /** "At most" is transitive. */
  lemma Transitive<T(!new)>(cmp: (T, T) -> int, x: T, y: T, z: T)
    requires Comparator(cmp) && cmp(x, y) <= 0 && cmp(y, z) <= 0
    ensures cmp(x, z) <= 0
  {
    assert Chained(cmp, x, y, z);
  }

  /** Every element is at most every later one. */
  ghost predicate Sorted<T>(s: seq<T>, cmp: (T, T) -> int)
  {
    forall i, j :: 0 <= i < j < |s| ==> cmp(s[i], s[j]) <= 0
  }

  /** Every element is at most the next one: what is_sorted checks. */
  ghost predicate AdjacentSorted<T>(s: seq<T>, cmp: (T, T) -> int)
  {
    forall i :: 0 < i < |s| ==> cmp(s[i - 1], s[i]) <= 0
  }

  /** For a total preorder the two readings of "sorted" agree. */
  lemma {:induction false} AdjacentSortedIsSorted<T(!new)>(s: seq<T>, cmp: (T, T) -> int)
    requires Comparator(cmp)
    ensures AdjacentSorted(s, cmp) <==> Sorted(s, cmp)
  {
    if AdjacentSorted(s, cmp) {
      forall i, j | 0 <= i < j < |s|
        ensures cmp(s[i], s[j]) <= 0
      {
        var k := i + 1;
        while k < j
          invariant i < k <= j && cmp(s[i], s[k]) <= 0
        {
          assert cmp(s[k], s[k + 1]) <= 0;
          Transitive(cmp, s[i], s[k], s[k + 1]);
          k := k + 1;
        }
      }
    }
  }

  /** "At most" followed by "below" is "below". */
  lemma LeLt<T(!new)>(cmp: (T, T) -> int, x: T, y: T, z: T)
    requires Comparator(cmp) && cmp(x, y) <= 0 && cmp(y, z) < 0
    ensures cmp(x, z) < 0
  {
    Flip(cmp, x, z);
    Flip(cmp, y, z);
    assert Chained(cmp, z, x, y);
  }

  /** "Below" followed by "at most" is "below". */
  lemma LtLe<T(!new)>(cmp: (T, T) -> int, x: T, y: T, z: T)
    requires Comparator(cmp) && cmp(x, y) < 0 && cmp(y, z) <= 0
    ensures cmp(x, z) < 0
  {
    Flip(cmp, x, z);
    Flip(cmp, x, y);
    assert Chained(cmp, y, z, x);
  }

  /** compare_int (lines 437-441): -1, 0 or 1 as `x` is below, equal to or above `y`. */
  function CompareInt(x: int, y: int): (r: int)
    ensures r == -1 || r == 0 || r == 1
    ensures r < 0 <==> x < y
    ensures r == 0 <==> x == y
    ensures r > 0 <==> x > y
  {
    (if x > y then 1 else 0) - (if x < y then 1 else 0)
  }

  /** compare_int orders the integers: it is a comparator in the above sense. */
  lemma CompareIntIsComparator()
    ensures Comparator(CompareInt)
  {
  }

  /** is_sorted (lines 416-431): whether every adjacent pair compares at most 0. */
  method IsSorted<T>(a: array<T>, cmp: (T, T) -> int) returns (r: bool)
    ensures r <==> AdjacentSorted(a[..], cmp)
  {
    if a.Length <= 1 {
      return true;
    }
    var i := 1;
    while i < a.Length
      invariant 1 <= i <= a.Length
      invariant forall k :: 0 < k < i ==> cmp(a[k - 1], a[k]) <= 0
    {
      if cmp(a[i - 1], a[i]) > 0 {
        return false;
      }
      i := i + 1;
    }
    return true;
  }

  /**
   * linear_search (lines 289-303): the least index whose element compares equal to
   * `target`, or SIZE_MAX when there is none.
   */
  method LinearSearch<T>(a: array<T>, target: T, cmp: (T, T) -> int) returns (r: nat)
    ensures (exists i :: 0 <= i < a.Length && cmp(a[i], target) == 0) ==>
      r < a.Length && cmp(a[r], target) == 0 && forall i :: 0 <= i < r ==> cmp(a[i], target) != 0
    ensures (forall i :: 0 <= i < a.Length ==> cmp(a[i], target) != 0) ==> r == SIZE_MAX
  {
    var i := 0;
    while i < a.Length
      invariant i <= a.Length
      invariant forall k :: 0 <= k < i ==> cmp(a[k], target) != 0
    {
      if cmp(a[i], target) == 0 {
        return i;
      }
      i := i + 1;
    }
    return SIZE_MAX;
  }

  /** In a sorted sequence, whatever precedes an element below `t` is below `t` too. */
  lemma BelowBefore<T(!new)>(s: seq<T>, cmp: (T, T) -> int, t: T, m: int)
    requires Comparator(cmp) && Sorted(s, cmp) && 0 <= m < |s| && cmp(s[m], t) < 0
    ensures forall i :: 0 <= i <= m ==> cmp(s[i], t) < 0
  {
    forall i | 0 <= i < m
      ensures cmp(s[i], t) < 0
    {
      LeLt(cmp, s[i], s[m], t);
    }
  }

  /** In a sorted sequence, whatever follows an element above `t` is above `t` too. */
  lemma AboveAfter<T(!new)>(s: seq<T>, cmp: (T, T) -> int, t: T, m: int)
    requires Comparator(cmp) && Sorted(s, cmp) && 0 <= m < |s| && cmp(s[m], t) > 0
    ensures forall i :: m <= i < |s| ==> cmp(s[i], t) > 0
  {
    forall i | m < i < |s|
      ensures cmp(s[i], t) > 0
    {
      Flip(cmp, s[m], t);
      LtLe(cmp, t, s[m], s[i]);
      Flip(cmp, s[i], t);
    }
  }

  /**
   * binary_search (lines 309-335) on a sorted array: an index whose element compares
   * equal to `target`, or SIZE_MAX when none does. The array must not be empty: for size
   * 0 the C code starts with `right = size - 1`, which wraps around (see `FirstProbe`).
   */
  method BinarySearch<T(!new)>(a: array<T>, target: T, cmp: (T, T) -> int) returns (r: nat)
    requires Comparator(cmp) && Sorted(a[..], cmp) && 0 < a.Length
    ensures (exists i :: 0 <= i < a.Length && cmp(a[i], target) == 0) ==> r < a.Length && cmp(a[r], target) == 0
    ensures (forall i :: 0 <= i < a.Length ==> cmp(a[i], target) != 0) ==> r == SIZE_MAX
  {
    var left, right := 0, a.Length - 1;
    while left <= right
      invariant right < a.Length && left <= right + 1
      invariant forall i :: 0 <= i < left ==> cmp(a[i], target) < 0
      invariant forall i :: right < i < a.Length ==> cmp(a[i], target) > 0
      decreases right + 1 - left
    {
      var mid := left + (right - left) / 2;
      var c := cmp(a[mid], target);
      if c == 0 {
        return mid;
      } else if c < 0 {
        BelowBefore(a[..], cmp, target, mid);
        left := mid + 1;
      } else {
        AboveAfter(a[..], cmp, target, mid);
        if mid == 0 {
          break;
        }
        right := mid - 1;
      }
    }
    return SIZE_MAX;
  }

  /**
   * The first element binary_search reads, as the C code computes it: `right = size - 1`
   * in `size_t`, then `mid = left + (right - left) / 2` with `left = 0`.
   */
  function FirstProbe(size: nat): (mid: nat)
    requires size < WORD
    ensures 0 < size ==> mid < size
  {
    var right := (size + WORD - 1) % WORD;
    right / 2
  }

  /** On an empty array the first probe is far past the end: the read is out of bounds. */
  lemma EmptyProbeOutOfBounds()
    ensures FirstProbe(0) == SIZE_MAX / 2
  {
  }

  /**
   * binary_search with the empty array answered before `right = size - 1` is computed:
   * SIZE_MAX, like any other search that finds nothing.
   */
  method CheckedBinarySearch<T(!new)>(a: array<T>, target: T, cmp: (T, T) -> int) returns (r: nat)
    requires Comparator(cmp) && Sorted(a[..], cmp)
    ensures (exists i :: 0 <= i < a.Length && cmp(a[i], target) == 0) ==> r < a.Length && cmp(a[r], target) == 0
    ensures (forall i :: 0 <= i < a.Length ==> cmp(a[i], target) != 0) ==> r == SIZE_MAX
  {
    if a.Length == 0 {
      return SIZE_MAX;
    }
    r := BinarySearch(a, target, cmp);
  }

  /**
   * find_max (lines 341-357): SIZE_MAX for an empty array, else the first index of a
   * greatest element.
   */
  method FindMax<T(!new)>(a: array<T>, cmp: (T, T) -> int) returns (r: nat)
    requires Comparator(cmp)
    ensures a.Length == 0 ==> r == SIZE_MAX
    ensures 0 < a.Length ==> r < a.Length
    ensures 0 < a.Length ==> forall i :: 0 <= i < a.Length ==> cmp(a[i], a[r]) <= 0
    ensures 0 < a.Length ==> forall i :: 0 <= i < r ==> cmp(a[i], a[r]) < 0
  {
    if a.Length == 0 {
      return SIZE_MAX;
    }
    r := 0;
    Reflexive(cmp, a[0]);
    var i := 1;
    while i < a.Length
      invariant r < i <= a.Length
      invariant forall k :: 0 <= k < i ==> cmp(a[k], a[r]) <= 0
      invariant forall k :: 0 <= k < r ==> cmp(a[k], a[r]) < 0
    {
      if cmp(a[i], a[r]) > 0 {
        Flip(cmp, a[i], a[r]);
        Reflexive(cmp, a[i]);
        forall k | 0 <= k < i
          ensures cmp(a[k], a[i]) < 0
        {
          LeLt(cmp, a[k], a[r], a[i]);
        }
        r := i;
      }
      i := i + 1;
    }
  }

  /**
   * find_min (lines 363-379): SIZE_MAX for an empty array, else the first index of a
   * least element.
   */
  method FindMin<T(!new)>(a: array<T>, cmp: (T, T) -> int) returns (r: nat)
    requires Comparator(cmp)
    ensures a.Length == 0 ==> r == SIZE_MAX
    ensures 0 < a.Length ==> r < a.Length
    ensures 0 < a.Length ==> forall i :: 0 <= i < a.Length ==> cmp(a[r], a[i]) <= 0
    ensures 0 < a.Length ==> forall i :: 0 <= i < r ==> cmp(a[r], a[i]) < 0
  {
    if a.Length == 0 {
      return SIZE_MAX;
    }
    r := 0;
    Reflexive(cmp, a[0]);
    var i := 1;
    while i < a.Length
      invariant r < i <= a.Length
      invariant forall k :: 0 <= k < i ==> cmp(a[r], a[k]) <= 0
      invariant forall k :: 0 <= k < r ==> cmp(a[r], a[k]) < 0
    {
      Flip(cmp, a[i], a[r]);
      if cmp(a[i], a[r]) < 0 {
        Reflexive(cmp, a[i]);
        forall k | 0 <= k < i
          ensures cmp(a[i], a[k]) < 0
        {
          LtLe(cmp, a[i], a[r], a[k]);
        }
        r := i;
      }
      i := i + 1;
    }
  }

  /** `s` with the elements at `i` and `j` traded. */
  function Swapped<T>(s: seq<T>, i: int, j: int): (r: seq<T>)
    requires 0 <= i < |s| && 0 <= j < |s|
    ensures |r| == |s| && r[i] == s[j] && r[j] == s[i]
    ensures forall k {:trigger r[k]} :: 0 <= k < |s| && k != i && k != j ==> r[k] == s[k]
  {
    s[i := s[j]][j := s[i]]
  }

  /** swap_elements (lines 17-30): the elements at `i` and `j` trade places. */
  method Swap<T>(a: array<T>, i: nat, j: nat)
    requires i < a.Length && j < a.Length
    modifies a
    ensures a[..] == Swapped(old(a[..]), i, j)
  {
    a[i], a[j] := a[j], a[i];
  }

  /** Trading two elements keeps the multiset: a swap is a permutation. */
  lemma SwapPermutes<T>(s: seq<T>, i: int, j: int)
    requires 0 <= i < |s| && 0 <= j < |s|
    ensures multiset(Swapped(s, i, j)) == multiset(s)
  {
  }

  /** reverse_array (lines 385-394): element `i` moves to `size - 1 - i`. */
  method ReverseArray<T>(a: array<T>)
    modifies a
    ensures a[..] == Reversed(old(a[..]))
  {
    var n := a.Length;
    if n <= 1 {
      return;
    }
    ghost var s := a[..];
    var i := 0;
    while i < n / 2
      invariant i <= n / 2
      invariant forall k :: 0 <= k < i ==> a[k] == s[n - 1 - k] && a[n - 1 - k] == s[k]
      invariant forall k :: i <= k < n - i ==> a[k] == s[k]
    {
      Swap(a, i, n - 1 - i);
      i := i + 1;
    }
  }
}
