/**
 * A run of memory_pool.c in which the free-list links and the free lists part ways.
 *
 * The pool keeps each size class's free list as a chain through the headers' `next`
 * field, but coalesce_blocks and split_block rewrite the same `next`/`prev` pair as the
 * physical chain, and coalesce_blocks never unlinks the neighbours it absorbs. On a 4096
 * byte pool (page size 4096, alignment 8) the calls
 *
 *   p1 = alloc(600); p2 = alloc(1000); free(p1); p3 = alloc(1400); free(p3);
 *   p4 = alloc(600); free(p4); alloc(800)
 *
 * reach, after `free(p3)`, the headers `HeadersBefore` below: block 3144 was absorbed
 * into block 1696 but is still the head of list 6, and block 0's `prev` names 1696 (the
 * write of line 331). `alloc(600)` then takes block 0 off list 6, and
 * remove_from_free_list patches `1696->next` (line 396) where the list needed
 * `3144->next`; `free(p4)` pushes block 0 back with `next = 3144` (line 419). List 6 is
 * now the cycle 0, 3144, 0, ... and the search of lines 460-473 for `alloc(800)` never
 * ends (3144 fits but is no exact fit, so nothing breaks the walk); get_stats (line 591)
 * loops the same way.
 *
 * The model keeps each free list as a sequence (`Arena`'s `buckets`), which is what the
 * list links are evidently meant to be: in it list 6 is [0, 3144] and the search returns
 * block 3144. The lemmas below run the model's own `Allocate` and `Release` over the last
 * three calls and show both sides: the headers' links form the cycle the C code walks,
 * while the model's list stays finite.
 */
module PoolCycle {
  import opened Wrappers
  import opened SizeT
  import opened MemoryPool

  /** A header with intact signatures. */
  function H(size: nat, isFree: bool, next: Option<nat>, prev: Option<nat>): Header {
    Header(BLOCK_SIGNATURE, size, isFree, next, prev, BLOCK_SIGNATURE)
  }

  /** Free lists that are empty except lists 6 and 8. */
  function Lists(l6: seq<nat>, l8: seq<nat>): (r: seq<seq<nat>>)
    ensures |r| == MAX_FREE_LISTS
  {
    seq(MAX_FREE_LISTS, i => if i == 6 then l6 else if i == 8 then l8 else [])
  }

  /** Free-list counts that are 0 except those of lists 6 and 8. */
  function Counts(c6: nat, c8: nat): (r: seq<nat>)
    ensures |r| == MAX_FREE_LISTS
  {
    seq(MAX_FREE_LISTS, i => if i == 6 then c6 else if i == 8 then c8 else 0)
  }

  /** The pool right after `free(p3)`. */
  function HeadersBefore(): map<nat, Header> {
    map[0 := H(600, true, None, Some(1696)), 648 := H(1000, false, Some(1696), None),
        1696 := H(2352, true, None, None), 3144 := H(904, true, Some(0), None)]
  }
  function ListsBefore(): seq<seq<nat>> { Lists([3144, 0], [1696]) }
  function CountsBefore(): seq<nat> { Counts(2, 1) }
  function TallyBefore(): Tally { Tally(1000, 2400, 3, 2, 3) }

  /** The pool after `p4 = alloc(600)`, which took block 0. */
  function HeadersTaken(): map<nat, Header> { HeadersBefore()[0 := H(600, false, None, None)] }
  function ListsTaken(): seq<seq<nat>> { Lists([3144], [1696]) }
  function CountsTaken(): seq<nat> { Counts(1, 1) }
  function TallyTaken(): Tally { Tally(1600, 2400, 4, 2, 3) }

  /** Block 0 marked free again, before it rejoins list 6. */
  function HeadersMarked(): map<nat, Header> { HeadersBefore()[0 := H(600, true, None, None)] }

  /** The pool after `free(p4)`. */
  function HeadersAfter(): map<nat, Header> {
    HeadersMarked()[0 := H(600, true, Some(3144), None)][3144 := H(904, true, Some(0), Some(0))]
  }
  function ListsAfter(): seq<seq<nat>> { Lists([0, 3144], [1696]) }
  function CountsAfter(): seq<nat> { Counts(2, 1) }
  function TallyAfter(): Tally { Tally(1000, 2400, 4, 3, 3) }

  lemma BeforeIsArena()
    ensures Arena(HeadersBefore(), ListsBefore(), CountsBefore(), 4096)
  {
  }

  lemma TakenIsArena()
    ensures Arena(HeadersTaken(), ListsTaken(), CountsTaken(), 4096)
  {
  }

  lemma AfterIsArena()
    ensures Arena(HeadersAfter(), ListsAfter(), CountsAfter(), 4096)
  {
  }

  /** A request that is already a multiple of 8 is not rounded. */
  lemma AlignedAsIs(size: nat)
    requires size < WORD && size % 8 == 0
    ensures IsPowerOfTwo(8) && Aligned(size, 8) == size
  {
    assert Pow2(3) == 8;
    AlignSizeOfPowerOfTwo(size, 3);
  }

  /** The capacity test passes for the requests of this run. */
  lemma Room(aligned: nat, used: nat)
    requires aligned <= 800 && used <= 1000
    ensures !TooLarge(aligned, 4096, used)
  {
  }

  /** An empty list contributes no entries to the search. */
  lemma {:induction false} ScanOrderEmpty(buckets: seq<seq<nat>>, lo: nat, hi: nat)
    requires lo <= hi <= |buckets| && forall i :: lo <= i < hi ==> buckets[i] == []
    ensures ScanOrder(buckets, lo, hi) == []
    decreases hi
  {
    if hi > lo {
      ScanOrderEmpty(buckets, lo, hi - 1);
    }
  }

  /** The entries searched from list 6 on when, from there, only lists 6 and 8 hold blocks. */
  lemma CandidatesFromSix(buckets: seq<seq<nat>>, aligned: nat)
    requires |buckets| == MAX_FREE_LISTS && FreeListIndex(aligned) == 6 && buckets[7] == []
    requires forall i :: 9 <= i < MAX_FREE_LISTS ==> buckets[i] == []
    ensures Candidates(buckets, aligned) == Entries(buckets[6], 6) + Entries(buckets[8], 8)
  {
    ScanOrderSplit(buckets, 6, 9, MAX_FREE_LISTS);
    ScanOrderEmpty(buckets, 9, MAX_FREE_LISTS);
    assert ScanOrder(buckets, 6, 7) == Entries(buckets[6], 6);
    assert ScanOrder(buckets, 6, 8) == Entries(buckets[6], 6);
  }

  /** The entries `alloc(600)` visits after `free(p3)`. */
  lemma CandidatesBefore(lists: seq<seq<nat>>)
    requires lists == ListsBefore()
    ensures Candidates(lists, 600) == [(3144, 6), (0, 6), (1696, 8)]
  {
    assert FreeListIndex(600) == 6;
    CandidatesFromSix(lists, 600);
    assert Entries([3144, 0], 6) + Entries([1696], 8) == [(3144, 6), (0, 6), (1696, 8)];
  }

  /** Over three fitting entries whose middle one is strictly the smallest, the search picks that one. */
  lemma MiddleIsBest(hs: map<nat, Header>, aligned: nat, cs: seq<(nat, nat)>)
    requires |cs| == 3 && Fits(hs, cs[0].0, aligned) && Fits(hs, cs[1].0, aligned) && Fits(hs, cs[2].0, aligned)
    requires hs[cs[1].0].size < hs[cs[0].0].size && hs[cs[1].0].size <= hs[cs[2].0].size
    ensures BestFit(hs, aligned, cs) == Some(cs[1])
  {
    assert cs[..2][..1][..0] == [];
    assert BestFit(hs, aligned, cs[..2][..1]) == Some(cs[0]);
    assert BestFit(hs, aligned, cs[..2]) == Some(cs[1]);
  }

  /** `alloc(600)` after `free(p3)`: the search settles on the exact fit, block 0 of list 6. */
  lemma ChoosesBlockZero(hs: map<nat, Header>, lists: seq<seq<nat>>)
    requires hs == HeadersBefore() && lists == ListsBefore()
    ensures BestFit(hs, 600, Candidates(lists, 600)) == Some((0, 6))
  {
    CandidatesBefore(lists);
    FitsBefore(hs[0], hs[3144], hs[1696]);
    MiddleIsBest(hs, 600, [(3144, 6), (0, 6), (1696, 8)]);
  }

  lemma FitsBefore(h0: Header, h3144: Header, h1696: Header)
    requires h0 == H(600, true, None, Some(1696)) && h3144 == H(904, true, Some(0), None)
    requires h1696 == H(2352, true, None, None)
    ensures ValidHeader(h0) && ValidHeader(h3144) && ValidHeader(h1696)
  {
  }

  /** The entries `alloc(800)` visits after `free(p4)`. */
  lemma CandidatesAfter(lists: seq<seq<nat>>)
    requires lists == ListsAfter()
    ensures Candidates(lists, 800) == [(0, 6), (3144, 6), (1696, 8)]
  {
    assert FreeListIndex(800) == 6;
    CandidatesFromSix(lists, 800);
    assert Entries([0, 3144], 6) + Entries([1696], 8) == [(0, 6), (3144, 6), (1696, 8)];
  }

  /** Over three entries of which the first does not fit, the search picks the second if it is no larger than the third. */
  lemma SecondIsBest(hs: map<nat, Header>, aligned: nat, cs: seq<(nat, nat)>)
    requires |cs| == 3 && !Fits(hs, cs[0].0, aligned) && Fits(hs, cs[1].0, aligned) && Fits(hs, cs[2].0, aligned)
    requires hs[cs[1].0].size <= hs[cs[2].0].size
    ensures BestFit(hs, aligned, cs) == Some(cs[1])
  {
    assert cs[..2][..1][..0] == [];
    assert BestFit(hs, aligned, cs[..2][..1]) == None;
    assert BestFit(hs, aligned, cs[..2]) == Some(cs[1]);
  }

  /** `alloc(800)` after `free(p4)`: over the model's list 6, [0, 3144], the search picks block 3144. */
  lemma ChoosesBlock3144(hs: map<nat, Header>, lists: seq<seq<nat>>)
    requires hs == HeadersAfter() && lists == ListsAfter()
    ensures BestFit(hs, 800, Candidates(lists, 800)) == Some((3144, 6))
  {
    CandidatesAfter(lists);
    FitsAfter(hs[0], hs[3144], hs[1696]);
    SecondIsBest(hs, 800, [(0, 6), (3144, 6), (1696, 8)]);
  }

  lemma FitsAfter(h0: Header, h3144: Header, h1696: Header)
    requires h0 == H(600, true, Some(3144), None) && h3144 == H(904, true, Some(0), Some(0))
    requires h1696 == H(2352, true, None, None)
    ensures ValidHeader(h0) && ValidHeader(h3144) && ValidHeader(h1696)
  {
  }

  /** remove_from_free_list on block 0 of list 6. */
  lemma UnlinkBlockZero(hs: map<nat, Header>)
    requires hs == HeadersBefore()
    ensures Closed(hs) && Unlink(hs, 0) == HeadersMarked()
  {
    assert Closed(hs);
  }

  /** List 6 after block 0 leaves it, and its count. */
  lemma ListsTakenFrom(lists: seq<seq<nat>>, counts: seq<nat>)
    requires lists == ListsBefore() && counts == CountsBefore()
    ensures lists[6 := RemoveFirst(lists[6], 0)] == ListsTaken() && counts[6 := SubW(counts[6], 1)] == CountsTaken()
  {
    assert RemoveFirst([0], 0) == [];
    assert RemoveFirst([3144, 0], 0) == [3144];
  }

  lemma RemovedBlockZero(hs: map<nat, Header>, lists: seq<seq<nat>>, counts: seq<nat>)
    requires hs == HeadersBefore() && lists == ListsBefore() && counts == CountsBefore()
    ensures Arena(hs, lists, counts, 4096)
    ensures Removed(hs, lists, counts, 0, 6) == (HeadersMarked(), ListsTaken(), CountsTaken())
  {
    BeforeIsArena();
    UnlinkBlockZero(hs);
    ListsTakenFrom(lists, counts);
  }

  /** Block 0 holds exactly the 600 bytes asked for: split_block leaves it whole. */
  lemma NoSplit()
    ensures Closed(HeadersMarked()) && Split(HeadersMarked(), 0, 600) == (HeadersMarked(), None)
  {
  }

  /** Lines 486-512 for block 0 of list 6. */
  lemma TakeAllocated(hs: map<nat, Header>, lists: seq<seq<nat>>, counts: seq<nat>, tally: Tally)
    requires hs == HeadersBefore() && lists == ListsBefore() && counts == CountsBefore() && tally == TallyBefore()
    ensures Arena(hs, lists, counts, 4096)
    ensures Allocated(hs, lists, counts, tally, 4096, 0, 6, 600)
      == (HeadersTaken(), ListsTaken(), CountsTaken(), TallyTaken(), Some(48))
  {
    RemovedBlockZero(hs, lists, counts);
    NoSplit();
    TakenIsArena();
    MarkedUsed(HeadersMarked());
    TallyTakenFrom(tally);
    assert AddedIfSplit(HeadersMarked(), ListsTaken(), CountsTaken(), 4096, None) == (HeadersMarked(), ListsTaken(), CountsTaken());
  }

  /** Block 0 marked in use. */
  lemma MarkedUsed(hs: map<nat, Header>)
    requires hs == HeadersMarked()
    ensures hs[0 := hs[0].(isFree := false)] == HeadersTaken()
  {
  }

  /** The statistics after a 600 byte block is taken without a split. */
  lemma TallyTakenFrom(tally: Tally)
    requires tally == TallyBefore()
    ensures var used: nat := (tally.used + 600) % WORD;
      tally.(used := used, peak := Max(tally.peak, used), allocations := Inc(tally.allocations),
             blocks := tally.blocks) == TallyTaken()
  {
  }

  /**
   * `p4 = alloc(600)`: block 0 leaves list 6 without a split; unlinking it rewrites the
   * `next` of block 1696, its stale `prev`, and leaves `3144->next` at 0.
   */
  lemma TakeBlockZero(hs: map<nat, Header>, lists: seq<seq<nat>>, counts: seq<nat>, tally: Tally)
    requires hs == HeadersBefore() && lists == ListsBefore() && counts == CountsBefore() && tally == TallyBefore()
    ensures Arena(hs, lists, counts, 4096) && IsPowerOfTwo(8)
    ensures Allocate(hs, lists, counts, tally, 4096, 8, 600)
      == (HeadersTaken(), ListsTaken(), CountsTaken(), TallyTaken(), Some(48))
  {
    AlignedAsIs(600);
    ChoosesBlockZero(hs, lists);
    TakeAllocated(hs, lists, counts, tally);
    Room(600, tally.used);
  }

  /** `alloc(800)` in the model: block 3144 is chosen and its payload returned. */
  lemma AllocatesBlock3144(hs: map<nat, Header>, lists: seq<seq<nat>>, counts: seq<nat>, tally: Tally)
    requires hs == HeadersAfter() && lists == ListsAfter() && counts == CountsAfter() && tally == TallyAfter()
    ensures Arena(hs, lists, counts, 4096) && IsPowerOfTwo(8)
    ensures Allocate(hs, lists, counts, tally, 4096, 8, 800).4 == Some(3192)
  {
    AfterIsArena();
    AlignedAsIs(800);
    ChoosesBlock3144(hs, lists);
    Room(800, tally.used);
  }

  /** Freeing block 0 again: neither of its links names a neighbour, so nothing merges. */
  lemma NothingMerges()
    ensures Closed(HeadersMarked()) && InArena(HeadersMarked(), 4096)
    ensures Coalesce(HeadersMarked(), 0, 4096, 3) == (HeadersMarked(), 0, [0], 3)
  {
    var m := HeadersMarked();
    assert !MergesNext(m, 0) && !MergesPrev(m, 0);
    assert MergeForward(m, 0, 4096, 3) == (m, [], 3);
    assert MergeBackward(m, 0, 4096, 3) == (m, 0, [], 3);
    assert [] + [0] + [] == [0];
  }

  /** The link writes of add_to_free_list for block 0 in front of 3144. */
  lemma PushedLinks()
    ensures Closed(HeadersMarked()) && Pushed(HeadersMarked(), 0, Some(3144)) == HeadersAfter()
  {
  }

  /** List 6 after the push, and its count. */
  lemma ListsPushed(lists: seq<seq<nat>>, counts: seq<nat>)
    requires lists == ListsTaken() && counts == CountsTaken()
    ensures lists[6 := [0] + lists[6]] == ListsAfter() && counts[6 := Inc(counts[6])] == CountsAfter()
  {
    assert [0] + [3144] == [0, 3144];
  }

  /** add_to_free_list puts block 0 in front of 3144 on list 6 and points 0 at 3144. */
  lemma PushedBack(hs: map<nat, Header>, lists: seq<seq<nat>>, counts: seq<nat>)
    requires hs == HeadersMarked() && lists == ListsTaken() && counts == CountsTaken()
    ensures Closed(hs) && Listed(hs, lists)
    ensures Added(hs, lists, counts, 0) == (HeadersAfter(), ListsAfter(), CountsAfter())
  {
    TakenIsArena();
    PushedLinks();
    assert FreeListIndex(600) == 6;
    assert Head(lists[6]) == Some(3144);
    ListsPushed(lists, counts);
  }

  /** `free(p4)`. */
  lemma FreeBlockZero(hs: map<nat, Header>, lists: seq<seq<nat>>, counts: seq<nat>, tally: Tally)
    requires hs == HeadersTaken() && lists == ListsTaken() && counts == CountsTaken() && tally == TallyTaken()
    ensures Arena(hs, lists, counts, 4096)
    ensures Release(hs, lists, counts, tally, 4096, Some(48))
      == (HeadersAfter(), ListsAfter(), CountsAfter(), TallyAfter(), Released)
  {
    TakenIsArena();
    MarkedFree(hs);
    NothingMerges();
    PushedBack(HeadersMarked(), lists, counts);
    TallyFreed(tally, hs[0].size);
  }

  /** Block 0 marked free by line 546. */
  lemma MarkedFree(hs: map<nat, Header>)
    requires hs == HeadersTaken()
    ensures Marked(hs, 0, true, 4096) == HeadersMarked()
  {
  }

  /** The statistics after the 600 byte block is freed without a merge. */
  lemma TallyFreed(tally: Tally, size: nat)
    requires tally == TallyTaken() && size == 600
    ensures tally.(used := SubW(tally.used, size), deallocations := Inc(tally.deallocations), blocks := 3) == TallyAfter()
  {
  }

  /**
   * The last three calls of the run. After `free(p4)` the links of list 6 run 0 -> 3144
   * -> 0: a `Walk` from the head of list 6 never reaches NULL, however many steps it
   * takes, which is the search of lines 460-473 as written. The model's list 6 is
   * [0, 3144] and its `alloc(800)` returns the payload of block 3144.
   */
  lemma FreeListCycle(hs: map<nat, Header>, lists: seq<seq<nat>>, counts: seq<nat>, tally: Tally)
    requires hs == HeadersBefore() && lists == ListsBefore() && counts == CountsBefore() && tally == TallyBefore()
    ensures Arena(hs, lists, counts, 4096) && IsPowerOfTwo(8)
    ensures Allocate(hs, lists, counts, tally, 4096, 8, 600)
      == (HeadersTaken(), ListsTaken(), CountsTaken(), TallyTaken(), Some(48))
    ensures Arena(HeadersTaken(), ListsTaken(), CountsTaken(), 4096)
    ensures Release(HeadersTaken(), ListsTaken(), CountsTaken(), TallyTaken(), 4096, Some(48))
      == (HeadersAfter(), ListsAfter(), CountsAfter(), TallyAfter(), Released)
    ensures HeadersAfter()[0].next == Some(3144) && HeadersAfter()[3144].next == Some(0)
    ensures ListsAfter()[6] == [0, 3144]
    ensures forall n: nat :: |Walk(HeadersAfter(), Some(0), n)| == n
    ensures Arena(HeadersAfter(), ListsAfter(), CountsAfter(), 4096)
    ensures Allocate(HeadersAfter(), ListsAfter(), CountsAfter(), TallyAfter(), 4096, 8, 800).4 == Some(3192)
  {
    TakeBlockZero(hs, lists, counts, tally);
    FreeBlockZero(HeadersTaken(), ListsTaken(), CountsTaken(), TallyTaken());
    CycleAfter(HeadersAfter(), ListsAfter());
    forall n: nat
      ensures |Walk(HeadersAfter(), Some(0), n)| == n
    {
      WalkNeverEnds(HeadersAfter(), 0, n);
    }
    AllocatesBlock3144(HeadersAfter(), ListsAfter(), CountsAfter(), TallyAfter());
  }

  /**
   * The first `n` blocks the loops of lines 461 and 591 visit from `cur`, following
   * `next` and stopping at NULL (None).
   */
  function Walk(hs: map<nat, Header>, cur: Option<nat>, n: nat): (r: seq<nat>)
    ensures |r| <= n
    ensures forall j :: 0 <= j < |r| ==> r[j] in hs
    decreases n
  {
    if n == 0 || cur.None? || cur.value !in hs then [] else [cur.value] + Walk(hs, hs[cur.value].next, n - 1)
  }

  /** Over links in which 0 and 3144 name each other, a walk from either never reaches NULL. */
  lemma {:induction false} WalkNeverEnds(hs: map<nat, Header>, start: nat, n: nat)
    requires 0 in hs && 3144 in hs && hs[0].next == Some(3144) && hs[3144].next == Some(0)
    requires start == 0 || start == 3144
    ensures |Walk(hs, Some(start), n)| == n
    ensures forall j :: 0 <= j < n ==> Walk(hs, Some(start), n)[j] == if (j % 2 == 0) == (start == 0) then 0 else 3144
    decreases n
  {
    if n > 0 {
      var other := if start == 0 then 3144 else 0;
      WalkNeverEnds(hs, other, n - 1);
      var w := Walk(hs, Some(start), n);
      assert w == [start] + Walk(hs, Some(other), n - 1);
      forall j | 0 <= j < n
        ensures w[j] == if (j % 2 == 0) == (start == 0) then 0 else 3144
      {
        if j > 0 {
          assert w[j] == Walk(hs, Some(other), n - 1)[j - 1];
        }
      }
    }
  }

  /** After `free(p4)` the `next` links of blocks 0 and 3144 name each other. */
  lemma CycleAfter(hs: map<nat, Header>, lists: seq<seq<nat>>)
    requires hs == HeadersAfter() && lists == ListsAfter()
    ensures 0 in hs && 3144 in hs && hs[0].next == Some(3144) && hs[3144].next == Some(0) && lists[6] == [0, 3144]
  {
  }
}
