/**
 * A run of memory_pool.c after which validate_pool rejects a pool that is in order.
 *
 * validate_pool (lines 686-711) sums the sizes of the blocks in use along the `next`
 * links from first_block, but add_to_free_list (line 419) overwrites a freed block's
 * `next` with the head of its free list, so the walk leaves the physical chain as soon as
 * a block is freed. On a 4096 byte pool (page size 4096, alignment 8) the calls
 *
 *   p1 = alloc(16); p2 = alloc(32); free(p1); validate_pool()
 *
 * leave block 0 free with `next` NULL (list 0 was empty): the walk stops after block 0
 * and counts 0 bytes while used_size is 32, so validate_pool reports a mismatch. Before
 * `free(p1)` it passes.
 *
 * The evidently intended check visits every block of the arena, which the headers tile:
 * `TiledWalk` steps from each block to the one right after its payload. It reads sizes
 * and flags only, so no relinking of the free lists can change what it counts, and over
 * this run it agrees with used_size throughout.
 */
module PoolValidate {
  import opened Wrappers
  import opened SizeT
  import opened MemoryPool
  import PoolCycle
  import PoolAllocator

  /**
   * The corrected walk from the block at offset `b`, `used` bytes in: the bytes in use it
   * counts up to the end of the arena, or None when a header is missing or fails
   * validate_block, or a block runs past the arena's end.
   */
  function TiledWalk(hs: map<nat, Header>, b: nat, total: nat, used: nat): Option<nat>
    decreases total - b
  {
    if b == total then Some(used)
    else if b > total || b !in hs || !ValidHeader(hs[b]) || b + HEADER_SIZE + hs[b].size > total then None
    else
      var h := hs[b];
      TiledWalk(hs, b + HEADER_SIZE + h.size, total, if h.isFree then used else (used + h.size) % WORD)
  }

  /**
   * Rewriting links (what remove_from_free_list, add_to_free_list and the relinking of
   * split_block and coalesce_blocks do) never changes what the corrected walk counts.
   */
  lemma {:induction false} TiledIgnoresLinks(hs: map<nat, Header>, hs': map<nat, Header>, b: nat, total: nat, used: nat)
    requires Relinked(hs, hs')
    ensures TiledWalk(hs', b, total, used) == TiledWalk(hs, b, total, used)
    decreases total - b
  {
    if b < total && b in hs && ValidHeader(hs[b]) && b + HEADER_SIZE + hs[b].size <= total {
      var h := hs[b];
      TiledIgnoresLinks(hs, hs', b + HEADER_SIZE + h.size, total, if h.isFree then used else (used + h.size) % WORD);
    }
  }

  /** Free lists that are empty except lists 0 and 8. */
  function Lists(l0: seq<nat>, l8: seq<nat>): (r: seq<seq<nat>>)
    ensures |r| == MAX_FREE_LISTS
  {
    seq(MAX_FREE_LISTS, i => if i == 0 then l0 else if i == 8 then l8 else [])
  }

  /** Free-list counts that are 0 except those of lists 0 and 8. */
  function Counts(c0: nat, c8: nat): (r: seq<nat>)
    ensures |r| == MAX_FREE_LISTS
  {
    seq(MAX_FREE_LISTS, i => if i == 0 then c0 else if i == 8 then c8 else 0)
  }

  /** The pool memory_pool_init leaves: one free block of 4048 bytes on list 8. */
  function Headers0(): map<nat, Header> { map[0 := PoolCycle.H(4048, true, None, None)] }
  function Lists0(): seq<seq<nat>> { Lists([], [0]) }
  function Counts0(): seq<nat> { Counts(0, 1) }
  function Tally0(): Tally { Tally(0, 0, 0, 0, 1) }

  /** Block 0 cut after 16 bytes, before the remainder at 64 joins list 8. */
  function HeadersCut16(): map<nat, Header> {
    map[0 := PoolCycle.H(16, true, Some(64), None), 64 := PoolCycle.H(3984, true, None, Some(0))]
  }

  /** After `p1 = alloc(16)`. */
  function Headers1(): map<nat, Header> {
    map[0 := PoolCycle.H(16, false, Some(64), None), 64 := PoolCycle.H(3984, true, None, None)]
  }
  function Lists1(): seq<seq<nat>> { Lists([], [64]) }
  function Counts1(): seq<nat> { Counts(0, 1) }
  function Tally1(): Tally { Tally(16, 16, 1, 0, 2) }

  /** Block 64 cut after 32 bytes, before the remainder at 144 joins list 8. */
  function HeadersCut32(): map<nat, Header> {
    map[0 := PoolCycle.H(16, false, Some(64), None), 64 := PoolCycle.H(32, true, Some(144), None),
        144 := PoolCycle.H(3904, true, None, Some(64))]
  }

  /** After `p2 = alloc(32)`. */
  function Headers2(): map<nat, Header> {
    map[0 := PoolCycle.H(16, false, Some(64), None), 64 := PoolCycle.H(32, false, Some(144), None),
        144 := PoolCycle.H(3904, true, None, None)]
  }
  function Lists2(): seq<seq<nat>> { Lists([], [144]) }
  function Counts2(): seq<nat> { Counts(0, 1) }
  function Tally2(): Tally { Tally(48, 48, 2, 0, 3) }

  /** Block 0 marked free by `free(p1)`, before it joins list 0. */
  function HeadersMarked(): map<nat, Header> { Headers2()[0 := PoolCycle.H(16, true, Some(64), None)] }

  /** After `free(p1)`: block 0 heads list 0, and line 419 has set its `next` to NULL. */
  function Headers3(): map<nat, Header> { Headers2()[0 := PoolCycle.H(16, true, None, None)] }
  function Lists3(): seq<seq<nat>> { Lists([0], [144]) }
  function Counts3(): seq<nat> { Counts(1, 1) }
  function Tally3(): Tally { Tally(32, 48, 2, 1, 3) }

  lemma Arena0()
    ensures Arena(Headers0(), Lists0(), Counts0(), 4096)
  {
    assert Headers0()[0].size == 4048;
  }

  lemma Arena1()
    ensures Arena(Headers1(), Lists1(), Counts1(), 4096)
  {
  }

  lemma Arena2()
    ensures Arena(Headers2(), Lists2(), Counts2(), 4096)
  {
  }

  /** The state memory_pool_init leaves for 4096 bytes on 4096 byte pages. */
  lemma InitialState()
    ensures IsPowerOfTwo(8) && IsPowerOfTwo(4096) && AlignSize(4096, 4096) == 4096
    ensures FreeListIndex(4096 - HEADER_SIZE) == 8
    ensures map[0 := Header(BLOCK_SIGNATURE, 4096 - HEADER_SIZE, true, None, None, BLOCK_SIGNATURE)] == Headers0()
    ensures EmptyLists()[8 := [0]] == Lists0() && EmptyCounts()[8 := 1] == Counts0()
  {
    InitialSizes();
    InitialLists();
  }

  /** The sizes memory_pool_init computes for 4096 bytes on 4096 byte pages. */
  lemma InitialSizes()
    ensures IsPowerOfTwo(8) && IsPowerOfTwo(4096) && AlignSize(4096, 4096) == 4096
    ensures FreeListIndex(4096 - HEADER_SIZE) == 8
  {
    PoolCycle.AlignedAsIs(8);
    assert Pow2(12) == 4096;
    AlignSizeOfPowerOfTwo(4096, 12);
  }

  /** The lists memory_pool_init leaves: block 0 alone on list 8. */
  lemma InitialLists()
    ensures EmptyLists()[8 := [0]] == Lists0() && EmptyCounts()[8 := 1] == Counts0()
  {
    assert EmptyLists()[8 := [0]] == Lists0();
    assert EmptyCounts()[8 := 1] == Counts0();
  }

  /** Lists that hold only block `b`, on list 8. */
  lemma OnlyList8(buckets: seq<seq<nat>>, b: nat)
    requires buckets == Lists([], [b])
    ensures |buckets| == MAX_FREE_LISTS && buckets[8] == [b]
    ensures forall i :: 0 <= i < MAX_FREE_LISTS && i != 8 ==> buckets[i] == []
  {
  }

  /** The entries of lists `lo` (0 or 1) and up when only list 8 holds a block. */
  lemma ScanFromLow(buckets: seq<seq<nat>>, lo: nat, b: nat)
    requires |buckets| == MAX_FREE_LISTS && buckets[8] == [b] && lo <= 1
    requires forall i :: 0 <= i < MAX_FREE_LISTS && i != 8 ==> buckets[i] == []
    ensures ScanOrder(buckets, lo, MAX_FREE_LISTS) == [(b, 8)]
  {
    ScanOrderSplit(buckets, lo, 9, MAX_FREE_LISTS);
    PoolCycle.ScanOrderEmpty(buckets, 9, MAX_FREE_LISTS);
    PoolCycle.ScanOrderEmpty(buckets, lo, 8);
    assert Entries([b], 8) == [(b, 8)];
    assert ScanOrder(buckets, lo, 9) == ScanOrder(buckets, lo, 8) + Entries(buckets[8], 8);
  }

  /** The only candidate is chosen when it fits. */
  lemma OnlyCandidate(hs: map<nat, Header>, aligned: nat, c: (nat, nat))
    requires Fits(hs, c.0, aligned)
    ensures BestFit(hs, aligned, [c]) == Some(c)
  {
    assert [c][..0] == [];
  }

  /** List 8 after its only block leaves it, and its count. */
  lemma EmptiedList8(lists: seq<seq<nat>>, counts: seq<nat>, b: nat)
    requires lists == Lists([], [b]) && counts == Counts(0, 1)
    ensures lists[8 := RemoveFirst(lists[8], b)] == Lists([], []) && counts[8 := SubW(counts[8], 1)] == Counts(0, 0)
  {
    assert RemoveFirst([b], b) == [];
  }

  /** List 8 after a block is pushed on it while empty, and its count. */
  lemma RefilledList8(lists: seq<seq<nat>>, counts: seq<nat>, b: nat)
    requires lists == Lists([], []) && counts == Counts(0, 0)
    ensures lists[8 := [b] + lists[8]] == Lists([], [b]) && counts[8 := Inc(counts[8])] == Counts(0, 1)
  {
    assert [b] + [] == [b];
  }

  /** split_block cuts block 0 after 16 bytes, placing the remainder at 64. */
  lemma CutSixteen(hs: map<nat, Header>)
    requires hs == Headers0()
    ensures Closed(hs) && Split(hs, 0, 16) == (HeadersCut16(), Some(64))
  {
    var h := hs[0];
    var hs1 := Placed(hs, 64, PoolCycle.H(3984, true, None, Some(0)));
    assert hs1 == map[0 := h, 64 := PoolCycle.H(3984, true, None, Some(0))];
    var hs2 := Resized(hs1, 0, 16, None);
    assert hs2 == map[0 := PoolCycle.H(16, true, None, None), 64 := PoolCycle.H(3984, true, None, Some(0))];
    assert SetNext(hs2, 0, Some(64)) == HeadersCut16();
    assert SplitHeaders(hs, 0, 16) == HeadersCut16();
  }

  /** split_block cuts block 64 after 32 bytes, placing the remainder at 144. */
  lemma CutThirtyTwo(hs: map<nat, Header>)
    requires hs == Headers1()
    ensures Closed(hs) && Split(hs, 64, 32) == (HeadersCut32(), Some(144))
  {
    var h := hs[64];
    var hs1 := Placed(hs, 144, PoolCycle.H(3904, true, None, Some(64)));
    assert hs1 == map[0 := hs[0], 64 := h, 144 := PoolCycle.H(3904, true, None, Some(64))];
    var hs2 := Resized(hs1, 64, 32, None);
    assert hs2 == map[0 := hs[0], 64 := PoolCycle.H(32, true, None, None), 144 := PoolCycle.H(3904, true, None, Some(64))];
    assert SetNext(hs2, 64, Some(144)) == HeadersCut32();
    assert SplitHeaders(hs, 64, 32) == HeadersCut32();
  }

  /**
   * Lines 486-512 for block `b`, alone on list 8, when split_block cuts it and the
   * remainder `nb` is pushed on the emptied list 8.
   */
  lemma TakeWithCut(hs: map<nat, Header>, lists: seq<seq<nat>>, counts: seq<nat>, tally: Tally, b: nat, aligned: nat,
                    cut: map<nat, Header>, nb: nat, pushed: map<nat, Header>)
    requires Arena(hs, lists, counts, 4096) && b in hs && ValidHeader(hs[b]) && aligned <= hs[b].size
    requires lists == Lists([], [b]) && counts == Counts(0, 1) && Unlink(hs, b) == hs
    requires Split(hs, b, aligned) == (cut, Some(nb)) && Arena(cut, Lists([], []), Counts(0, 0), 4096) && nb in cut
    requires AddedIfSplit(cut, Lists([], []), Counts(0, 0), 4096, Some(nb)) == (pushed, Lists([], [nb]), Counts(0, 1))
    requires b in pushed
    ensures Allocated(hs, lists, counts, tally, 4096, b, 8, aligned) == Finished(tally, b, (pushed, Lists([], [nb]), Counts(0, 1)), true)
  {
    EmptiedList8(lists, counts, b);
  }

  /** The remainder of a cut, pushed on an empty list 8, loses its `prev` link. */
  lemma PushedRemainder(cut: map<nat, Header>, nb: nat, size: nat, prev: nat)
    requires Closed(cut) && Arena(cut, Lists([], []), Counts(0, 0), 4096) && nb in cut
    requires cut[nb] == PoolCycle.H(size, true, None, Some(prev)) && 2048 < size <= 4096
    ensures AddedIfSplit(cut, Lists([], []), Counts(0, 0), 4096, Some(nb))
      == (cut[nb := PoolCycle.H(size, true, None, None)], Lists([], [nb]), Counts(0, 1))
  {
    assert FreeListIndex(size) == 8;
    assert Pushed(cut, nb, None) == cut[nb := PoolCycle.H(size, true, None, None)];
    RefilledList8(Lists([], []), Counts(0, 0), nb);
  }

  /** Unlinking a block that has no links changes nothing. */
  lemma UnlinkAlone(hs: map<nat, Header>, b: nat)
    requires b in hs && Closed(hs) && hs[b].next == None && hs[b].prev == None
    ensures Unlink(hs, b) == hs
  {
  }

  lemma ArenaCut16()
    ensures Arena(HeadersCut16(), Lists([], []), Counts(0, 0), 4096)
  {
  }

  lemma ArenaCut32()
    ensures Arena(HeadersCut32(), Lists([], []), Counts(0, 0), 4096)
  {
  }

  /** Lines 495-512 after a split: the block is marked used and counted, and one more block exists. */
  lemma FinishedTake(tally: Tally, b: nat, pushed: map<nat, Header>, lists: seq<seq<nat>>, counts: seq<nat>,
                     hs': map<nat, Header>, tally': Tally)
    requires b in pushed && hs' == pushed[b := pushed[b].(isFree := false)]
    requires tally.used + pushed[b].size < WORD && tally.allocations + 1 < WORD && tally.blocks + 1 < WORD
    requires tally' == Tally(tally.used + pushed[b].size, Max(tally.peak, tally.used + pushed[b].size),
                             tally.allocations + 1, tally.deallocations, tally.blocks + 1)
    ensures Finished(tally, b, (pushed, lists, counts), true) == (hs', lists, counts, tally', Some(b + HEADER_SIZE))
  {
  }

  /** Lines 486-512 for block 0 of list 8 and 16 bytes: block 0 is cut, 64 joins list 8. */
  lemma TakeSixteen(hs: map<nat, Header>, lists: seq<seq<nat>>, counts: seq<nat>, tally: Tally)
    requires hs == Headers0() && lists == Lists0() && counts == Counts0() && tally == Tally0()
    ensures Arena(hs, lists, counts, 4096)
    ensures Allocated(hs, lists, counts, tally, 4096, 0, 8, 16) == (Headers1(), Lists1(), Counts1(), Tally1(), Some(48))
  {
    Arena0();
    UnlinkAlone(hs, 0);
    CutSixteen(hs);
    var cut := HeadersCut16();
    ArenaCut16();
    PushedRemainder(cut, 64, 3984, 0);
    var pushed := cut[64 := PoolCycle.H(3984, true, None, None)];
    TakeWithCut(hs, lists, counts, tally, 0, 16, cut, 64, pushed);
    FinishedSixteen();
  }

  /** Lines 495-512 of `alloc(16)`: block 0 is marked used and counted. */
  lemma FinishedSixteen()
    ensures Finished(Tally0(), 0, (HeadersCut16()[64 := PoolCycle.H(3984, true, None, None)], Lists1(), Counts1()), true)
      == (Headers1(), Lists1(), Counts1(), Tally1(), Some(48))
  {
    MarkedSixteen();
    TalliedTake(Tally0(), 16, Tally1());
    FinishedTake(Tally0(), 0, HeadersCut16()[64 := PoolCycle.H(3984, true, None, None)], Lists1(), Counts1(), Headers1(), Tally1());
  }

  /** The counters after a split allocation of `size` bytes (lines 499-510) in the run. */
  lemma TalliedTake(tally: Tally, size: nat, tally': Tally)
    requires (tally, size, tally') in {(Tally0(), 16, Tally1()), (Tally1(), 32, Tally2())}
    ensures tally.used + size < WORD && tally.allocations + 1 < WORD && tally.blocks + 1 < WORD
    ensures tally' == Tally(tally.used + size, Max(tally.peak, tally.used + size),
                            tally.allocations + 1, tally.deallocations, tally.blocks + 1)
  {
  }

  /** Block 0, cut and with 64 pushed on list 8, marked used: the headers after `alloc(16)`. */
  lemma MarkedSixteen()
    ensures var p := HeadersCut16()[64 := PoolCycle.H(3984, true, None, None)];
      0 in p && p[0].size == 16 && p[0 := p[0].(isFree := false)] == Headers1()
  {
    var p := HeadersCut16()[64 := PoolCycle.H(3984, true, None, None)];
    assert p == map[0 := PoolCycle.H(16, true, Some(64), None), 64 := PoolCycle.H(3984, true, None, None)];
  }

  /** `p1 = alloc(16)` on the fresh pool. */
  lemma AllocSixteen(hs: map<nat, Header>, lists: seq<seq<nat>>, counts: seq<nat>, tally: Tally)
    requires hs == Headers0() && lists == Lists0() && counts == Counts0() && tally == Tally0()
    ensures Arena(hs, lists, counts, 4096) && IsPowerOfTwo(8)
    ensures Allocate(hs, lists, counts, tally, 4096, 8, 16) == (Headers1(), Lists1(), Counts1(), Tally1(), Some(48))
  {
    PoolCycle.AlignedAsIs(16);
    assert FreeListIndex(16) == 0;
    OnlyList8(lists, 0);
    ScanFromLow(lists, 0, 0);
    OnlyCandidate(hs, 16, (0, 8));
    TakeSixteen(hs, lists, counts, tally);
  }

  /** Lines 486-512 for block 64 of list 8 and 32 bytes: block 64 is cut, 144 joins list 8. */
  lemma TakeThirtyTwo(hs: map<nat, Header>, lists: seq<seq<nat>>, counts: seq<nat>, tally: Tally)
    requires hs == Headers1() && lists == Lists1() && counts == Counts1() && tally == Tally1()
    ensures Arena(hs, lists, counts, 4096)
    ensures Allocated(hs, lists, counts, tally, 4096, 64, 8, 32) == (Headers2(), Lists2(), Counts2(), Tally2(), Some(112))
  {
    Arena1();
    UnlinkAlone(hs, 64);
    CutThirtyTwo(hs);
    var cut := HeadersCut32();
    ArenaCut32();
    PushedRemainder(cut, 144, 3904, 64);
    var pushed := cut[144 := PoolCycle.H(3904, true, None, None)];
    TakeWithCut(hs, lists, counts, tally, 64, 32, cut, 144, pushed);
    FinishedThirtyTwo();
  }

  /** Lines 495-512 of `alloc(32)`: block 64 is marked used and counted. */
  lemma FinishedThirtyTwo()
    ensures Finished(Tally1(), 64, (HeadersCut32()[144 := PoolCycle.H(3904, true, None, None)], Lists2(), Counts2()), true)
      == (Headers2(), Lists2(), Counts2(), Tally2(), Some(112))
  {
    MarkedThirtyTwo();
    TalliedTake(Tally1(), 32, Tally2());
    FinishedTake(Tally1(), 64, HeadersCut32()[144 := PoolCycle.H(3904, true, None, None)], Lists2(), Counts2(), Headers2(), Tally2());
  }

  /** Block 64, cut and with 144 pushed on list 8, marked used: the headers after `alloc(32)`. */
  lemma MarkedThirtyTwo()
    ensures var p := HeadersCut32()[144 := PoolCycle.H(3904, true, None, None)];
      64 in p && p[64].size == 32 && p[64 := p[64].(isFree := false)] == Headers2()
  {
    var p := HeadersCut32()[144 := PoolCycle.H(3904, true, None, None)];
    assert p == map[0 := PoolCycle.H(16, false, Some(64), None), 64 := PoolCycle.H(32, true, Some(144), None),
                    144 := PoolCycle.H(3904, true, None, None)];
  }

  /** `p2 = alloc(32)`. */
  lemma AllocThirtyTwo(hs: map<nat, Header>, lists: seq<seq<nat>>, counts: seq<nat>, tally: Tally)
    requires hs == Headers1() && lists == Lists1() && counts == Counts1() && tally == Tally1()
    ensures Arena(hs, lists, counts, 4096) && IsPowerOfTwo(8)
    ensures Allocate(hs, lists, counts, tally, 4096, 8, 32) == (Headers2(), Lists2(), Counts2(), Tally2(), Some(112))
  {
    PoolCycle.AlignedAsIs(32);
    assert FreeListIndex(32) == 1;
    OnlyList8(lists, 64);
    ScanFromLow(lists, 1, 64);
    assert Candidates(lists, 32) == [(64, 8)];
    assert !TooLarge(32, 4096, tally.used);
    OnlyCandidate(hs, 32, (64, 8));
    TakeThirtyTwo(hs, lists, counts, tally);
  }

  /** Freeing block 0: its successor 64 is in use and it has no predecessor, so nothing merges. */
  lemma NothingMerges()
    ensures Closed(HeadersMarked()) && InArena(HeadersMarked(), 4096)
    ensures Coalesce(HeadersMarked(), 0, 4096, 3) == (HeadersMarked(), 0, [0], 3)
  {
    var m := HeadersMarked();
    assert !MergesNext(m, 0) && !MergesPrev(m, 0);
    assert MergeForward(m, 0, 4096, 3) == (m, [], 3);
    assert MergeBackward(m, 0, 4096, 3) == (m, 0, [], 3);
    assert [] + [0] + [] == [0];
  }

  /** add_to_free_list puts block 0 on the empty list 0, which sets its `next` to NULL. */
  lemma PushedOnList0(hs: map<nat, Header>, lists: seq<seq<nat>>, counts: seq<nat>)
    requires hs == HeadersMarked() && lists == Lists2() && counts == Counts2()
    ensures Closed(hs) && Listed(hs, lists)
    ensures Added(hs, lists, counts, 0) == (Headers3(), Lists3(), Counts3())
  {
    Arena2();
    assert FreeListIndex(16) == 0;
    assert Pushed(hs, 0, None) == Headers3();
    assert [0] + lists[0] == [0];
    assert lists[0 := [0]] == Lists3();
    assert counts[0 := Inc(counts[0])] == Counts3();
  }

  /** `free(p1)`. */
  lemma FreeSixteen(hs: map<nat, Header>, lists: seq<seq<nat>>, counts: seq<nat>, tally: Tally)
    requires hs == Headers2() && lists == Lists2() && counts == Counts2() && tally == Tally2()
    ensures Arena(hs, lists, counts, 4096)
    ensures Release(hs, lists, counts, tally, 4096, Some(48)) == (Headers3(), Lists3(), Counts3(), Tally3(), Released)
  {
    Arena2();
    assert Marked(hs, 0, true, 4096) == HeadersMarked();
    NothingMerges();
    PushedOnList0(HeadersMarked(), lists, counts);
  }

  /**
   * The walk of validate_pool as written counts the used bytes right while no block has
   * been freed, and 0 of the 32 bytes in use after `free(p1)`: block 0's `next` no longer
   * leads on to block 64.
   */
  lemma AsWrittenWalks()
    ensures PoolWalk(Headers1(), Some(0)) == Some(Tally1().used)
    ensures PoolWalk(Headers2(), Some(0)) == Some(Tally2().used)
    ensures PoolWalk(Headers3(), Some(0)) == Some(0) && Tally3().used == 32
  {
    WalkStep(Headers1(), Some(0), 0, 0);
    WalkStep(Headers1(), Some(64), 1, 16);
    WalkStep(Headers2(), Some(0), 0, 0);
    WalkStep(Headers2(), Some(64), 1, 16);
    WalkStep(Headers2(), Some(144), 2, 48);
    WalkStep(Headers3(), Some(0), 0, 0);
  }

  /** The corrected walk agrees with used_size in every state of the run. */
  lemma TiledWalks()
    ensures TiledWalk(Headers0(), 0, 4096, 0) == Some(Tally0().used)
    ensures TiledWalk(Headers1(), 0, 4096, 0) == Some(Tally1().used)
    ensures TiledWalk(Headers2(), 0, 4096, 0) == Some(Tally2().used)
    ensures TiledWalk(Headers3(), 0, 4096, 0) == Some(Tally3().used)
  {
    assert TiledWalk(Headers3(), 144, 4096, 32) == Some(32);
    assert TiledWalk(Headers3(), 64, 4096, 0) == Some(32);
    assert TiledWalk(Headers2(), 144, 4096, 48) == Some(48);
    assert TiledWalk(Headers2(), 64, 4096, 16) == Some(48);
    assert TiledWalk(Headers1(), 64, 4096, 16) == Some(16);
  }

  /** A live 4096 byte pool with alignment 8 whose arena is in the given state. */
  ghost predicate InState(pool: PoolAllocator.Pool, hs: map<nat, Header>, lists: seq<seq<nat>>, counts: seq<nat>, tally: Tally)
    reads pool
  {
    && pool.Valid() && pool.signature == POOL_SIGNATURE && pool.hasMemory && pool.totalSize == 4096
    && pool.alignment == 8 && pool.firstBlock == Some(0)
    && pool.headers == hs && pool.buckets == lists && pool.counts == counts && pool.tally == tally
  }

  /** memory_pool_init for 4096 bytes, alignment 8, on 4096 byte pages with the mapping granted. */
  method FreshPool() returns (pool: PoolAllocator.Pool)
    ensures fresh(pool) && InState(pool, Headers0(), Lists0(), Counts0(), Tally0())
  {
    InitialState();
    pool := new PoolAllocator.Pool.Init(4096, 8, 4096, true, None);
  }

  /** memory_pool_alloc on the pool object, from one state of the run to the next that Allocate gives. */
  method AllocOn(pool: PoolAllocator.Pool, size: nat, ghost hs: map<nat, Header>, ghost lists: seq<seq<nat>>,
                 ghost counts: seq<nat>, ghost tally: Tally, ghost hs': map<nat, Header>, ghost lists': seq<seq<nat>>,
                 ghost counts': seq<nat>, ghost tally': Tally, ghost expected: Option<nat>)
      returns (ptr: Option<nat>)
    requires InState(pool, hs, lists, counts, tally) && size < WORD
    requires Allocate(hs, lists, counts, tally, 4096, 8, size) == (hs', lists', counts', tally', expected)
    modifies pool
    ensures InState(pool, hs', lists', counts', tally') && ptr == expected
  {
    ptr := pool.Alloc(size);
  }

  /** `p1 = alloc(16)` on the pool object. */
  method AllocSixteenOn(pool: PoolAllocator.Pool) returns (p1: Option<nat>)
    requires InState(pool, Headers0(), Lists0(), Counts0(), Tally0())
    modifies pool
    ensures InState(pool, Headers1(), Lists1(), Counts1(), Tally1()) && p1 == Some(48)
  {
    AllocSixteen(Headers0(), Lists0(), Counts0(), Tally0());
    p1 := AllocOn(pool, 16, Headers0(), Lists0(), Counts0(), Tally0(), Headers1(), Lists1(), Counts1(), Tally1(), Some(48));
  }

  /** `p2 = alloc(32)` on the pool object. */
  method AllocThirtyTwoOn(pool: PoolAllocator.Pool) returns (p2: Option<nat>)
    requires InState(pool, Headers1(), Lists1(), Counts1(), Tally1())
    modifies pool
    ensures InState(pool, Headers2(), Lists2(), Counts2(), Tally2()) && p2 == Some(112)
  {
    AllocThirtyTwo(Headers1(), Lists1(), Counts1(), Tally1());
    p2 := AllocOn(pool, 32, Headers1(), Lists1(), Counts1(), Tally1(), Headers2(), Lists2(), Counts2(), Tally2(), Some(112));
  }

  /** `free(p1)` on the pool object. */
  method FreeSixteenOn(pool: PoolAllocator.Pool) returns (outcome: FreeOutcome)
    requires InState(pool, Headers2(), Lists2(), Counts2(), Tally2())
    modifies pool
    ensures InState(pool, Headers3(), Lists3(), Counts3(), Tally3()) && outcome == Released
  {
    FreeSixteen(pool.headers, pool.buckets, pool.counts, pool.tally);
    outcome := pool.Free(Some(48));
  }

  /**
   * The run on a pool object: validate_pool passes after the two allocations and fails
   * after `free(p1)`, although the pool then holds exactly `used` = 32 bytes in use,
   * which the corrected walk counts.
   */
  method ValidateAfterFree() returns (before: bool, after: bool, tiled: Option<nat>, used: nat)
    ensures before && !after && used == 32 && tiled == Some(used)
  {
    var pool := FreshPool();
    var p1 := AllocSixteenOn(pool);
    var p2 := AllocThirtyTwoOn(pool);
    AsWrittenWalks();
    before := pool.ValidatePool();
    var outcome := FreeSixteenOn(pool);
    after := pool.ValidatePool();
    TiledWalks();
    tiled := TiledWalk(pool.headers, 0, pool.totalSize, 0);
    used := pool.tally.used;
  }
}
