/**
 * Positional edits of a sequence of elements: the meaning of the insert, remove and
 * reverse operations of the containers in libs/data_structures (dynamic array, stack,
 * doubly linked list). Each container method is proved to edit its contents as stated
 * here.
 */
module Sequences {

  /** `e` placed at position `i`: what darray_insert and list_insert do to the contents. */
  function Inserted<T>(s: seq<T>, i: nat, e: T): (r: seq<T>)
    requires i <= |s|
    ensures |r| == |s| + 1 && r[i] == e
    ensures forall k {:trigger r[k]} :: 0 <= k < i ==> r[k] == s[k]
    ensures forall k :: i < k < |r| ==> r[k] == s[k - 1]
  {
    s[..i] + [e] + s[i..]
  }

  /** Position `i` dropped: what darray_remove and list_remove do to the contents. */
  function Deleted<T>(s: seq<T>, i: nat): (r: seq<T>)
    requires i < |s|
    ensures |r| == |s| - 1
    ensures forall k {:trigger r[k]} :: 0 <= k < i ==> r[k] == s[k]
    ensures forall k :: i <= k < |r| ==> r[k] == s[k + 1]
  {
    s[..i] + s[i + 1..]
  }

  /** The elements in the opposite order. */
  function Reversed<T>(s: seq<T>): (r: seq<T>)
    ensures |r| == |s|
    ensures forall k :: 0 <= k < |s| ==> r[k] == s[|s| - 1 - k]
  {
    seq(|s|, k requires 0 <= k < |s| => s[|s| - 1 - k])
  }

  /** Positions `i` and `j` both exist and hold different elements. */
  ghost predicate Apart<T>(s: seq<T>, i: int, j: int)
  {
    0 <= i < |s| && 0 <= j < |s| && s[i] != s[j]
  }

  /**
   * No element occurs twice. Stated through `Apart` so that a proof names the pair of
   * positions it needs instead of the solver pairing up every index it has seen.
   */
  ghost predicate Distinct<T>(s: seq<T>)
  {
    forall i, j :: 0 <= i < j < |s| ==> Apart(s, i, j)
  }

  /** Two different positions of distinct elements hold different elements. */
  lemma DistinctAt<T>(s: seq<T>, i: int, j: int)
    requires Distinct(s) && 0 <= i < |s| && 0 <= j < |s| && i != j
    ensures s[i] != s[j]
  {
    if i < j {
      assert Apart(s, i, j);
    } else {
      assert Apart(s, j, i);
    }
  }

  /**
   * A sequence that is `s` with `e` placed at position `i` (given position by position)
   * has the elements of `s` and `e`, and keeps them distinct when `e` is new.
   */
  lemma InsertionDistinct<T>(s: seq<T>, i: nat, e: T, r: seq<T>)
    requires i <= |s| && |r| == |s| + 1 && r[i] == e
    requires forall k :: 0 <= k < i ==> r[k] == s[k]
    requires forall k :: i < k < |r| ==> r[k] == s[k - 1]
    requires Distinct(s) && e !in s
    ensures Distinct(r)
    ensures forall x :: x in r <==> x == e || x in s
  {
    forall p, q | 0 <= p < q < |r|
      ensures Apart(r, p, q)
    {
      if p != i && q != i {
        assert Apart(s, if p < i then p else p - 1, if q < i then q else q - 1);
      } else if p == i {
        assert r[q] == s[q - 1];
      } else {
        assert r[p] == s[p];
      }
    }
    forall x
      ensures x in r <==> x == e || x in s
    {
      if x in s {
        var k :| 0 <= k < |s| && s[k] == x;
        assert r[if k < i then k else k + 1] == x;
      }
      if x in r && x != e {
        var k :| 0 <= k < |r| && r[k] == x;
        assert x == s[if k < i then k else k - 1];
      }
    }
  }

  /**
   * A sequence that is `s` without position `i` (given position by position) has the
   * elements of `s` but `s[i]`, and keeps them distinct.
   */
  lemma DeletionDistinct<T>(s: seq<T>, i: nat, r: seq<T>)
    requires i < |s| && |r| == |s| - 1
    requires forall k :: 0 <= k < i ==> r[k] == s[k]
    requires forall k :: i <= k < |r| ==> r[k] == s[k + 1]
    requires Distinct(s)
    ensures Distinct(r)
    ensures forall x :: x in r <==> x in s && x != s[i]
  {
    forall p, q | 0 <= p < q < |r|
      ensures Apart(r, p, q)
    {
      assert Apart(s, if p < i then p else p + 1, if q < i then q else q + 1);
    }
    forall x
      ensures x in r <==> x in s && x != s[i]
    {
      if x in r {
        var k :| 0 <= k < |r| && r[k] == x;
        DistinctAt(s, if k < i then k else k + 1, i);
      }
      if x in s && x != s[i] {
        var k :| 0 <= k < |s| && s[k] == x;
        assert r[if k < i then k else k - 1] == x;
      }
    }
  }

  /**
   * A sequence that is `s` back to front (given position by position) has the elements
   * of `s` and keeps them distinct.
   */
  lemma ReversalDistinct<T>(s: seq<T>, r: seq<T>)
    requires |r| == |s| && forall k :: 0 <= k < |s| ==> r[k] == s[|s| - 1 - k]
    requires Distinct(s)
    ensures Distinct(r)
    ensures forall x :: x in r <==> x in s
  {
    forall p, q | 0 <= p < q < |r|
      ensures Apart(r, p, q)
    {
      assert Apart(s, |s| - 1 - q, |s| - 1 - p);
    }
    forall x
      ensures x in r <==> x in s
    {
      if x in r {
        var k :| 0 <= k < |r| && r[k] == x;
        assert s[|s| - 1 - k] == x;
      }
      if x in s {
        var k :| 0 <= k < |s| && s[k] == x;
        assert r[|s| - 1 - k] == x;
      }
    }
  }

  /** A sequence that agrees with an insertion position by position is that insertion. */
  lemma AsInserted<T>(s: seq<T>, i: nat, e: T, r: seq<T>)
    requires i <= |s| && |r| == |s| + 1 && r[i] == e
    requires forall k :: 0 <= k < i ==> r[k] == s[k]
    requires forall k :: i < k < |r| ==> r[k] == s[k - 1]
    ensures r == Inserted(s, i, e)
  {
    var t := Inserted(s, i, e);
    assert forall k :: 0 <= k < |r| ==> r[k] == t[k];
  }

  /** A sequence that agrees with a deletion position by position is that deletion. */
  lemma AsDeleted<T>(s: seq<T>, i: nat, r: seq<T>)
    requires i < |s| && |r| == |s| - 1
    requires forall k :: 0 <= k < i ==> r[k] == s[k]
    requires forall k :: i <= k < |r| ==> r[k] == s[k + 1]
    ensures r == Deleted(s, i)
  {
    var t := Deleted(s, i);
    assert forall k :: 0 <= k < |r| ==> r[k] == t[k];
  }

  /** A sequence that agrees with the reversal position by position is the reversal. */
  lemma AsReversed<T>(s: seq<T>, r: seq<T>)
    requires |r| == |s| && forall k :: 0 <= k < |s| ==> r[k] == s[|s| - 1 - k]
    ensures r == Reversed(s)
  {
    var t := Reversed(s);
    assert forall k :: 0 <= k < |r| ==> r[k] == t[k];
  }

  /** Removing what was just inserted gives the original sequence back. */
  lemma DeleteInserted<T>(s: seq<T>, i: nat, e: T)
    requires i <= |s|
    ensures Deleted(Inserted(s, i, e), i) == s
  {
    var r := Deleted(Inserted(s, i, e), i);
    assert forall k :: 0 <= k < |s| ==> r[k] == s[k];
  }

  /** Re-inserting a removed element at its old position gives the original sequence back. */
  lemma InsertDeleted<T>(s: seq<T>, i: nat)
    requires i < |s|
    ensures Inserted(Deleted(s, i), i, s[i]) == s
  {
    var r := Inserted(Deleted(s, i), i, s[i]);
    assert forall k :: 0 <= k < |s| ==> r[k] == s[k];
  }

  /** Inserting at either end is prepending or appending (list_insert delegates these). */
  lemma InsertedAtEnds<T>(s: seq<T>, e: T)
    ensures Inserted(s, 0, e) == [e] + s
    ensures Inserted(s, |s|, e) == s + [e]
  {
    assert Inserted(s, |s|, e) == s + [e];
  }

  /** Deleting at either end drops the first or the last element. */
  lemma DeletedAtEnds<T>(s: seq<T>)
    requires s != []
    ensures Deleted(s, 0) == s[1..]
    ensures Deleted(s, |s| - 1) == s[..|s| - 1]
  {
    assert Deleted(s, 0) == s[1..];
  }

  /** Reversal is an involution. */
  lemma ReversedTwice<T>(s: seq<T>)
    ensures Reversed(Reversed(s)) == s
  {
    var r := Reversed(Reversed(s));
    assert forall k :: 0 <= k < |s| ==> r[k] == s[k];
  }

  /** Inserting adds exactly the inserted element to the multiset. */
  lemma InsertedMultiset<T>(s: seq<T>, i: nat, e: T)
    requires i <= |s|
    ensures multiset(Inserted(s, i, e)) == multiset(s) + multiset{e}
  {
    assert s == s[..i] + s[i..];
  }

  /** Deleting removes exactly the deleted element from the multiset. */
  lemma DeletedMultiset<T>(s: seq<T>, i: nat)
    requires i < |s|
    ensures multiset(Deleted(s, i)) + multiset{s[i]} == multiset(s)
  {
    assert s == s[..i] + [s[i]] + s[i + 1..];
  }
}
