/**
 * The MemoryPool object of apps/intermediate/memory_pool/src/memory_pool.c and the
 * functions that update it in place. Each method is proved against the value-level
 * definitions of module MemoryPool (Removed, Added, Split, Coalesce, Allocate, Release,
 * BestFit, WalkUsed), whose properties are lemmas there.
 */
module PoolAllocator {
  import opened Wrappers
  import opened SizeT
  import opened MemoryPool

  /** remove_from_free_list (lines 382-402) for block `b` of list `listIndex`. */
  method RemoveFromFreeList(hs: map<nat, Header>, lists: seq<seq<nat>>, cs: seq<nat>, b: nat, listIndex: nat)
    returns (hs': map<nat, Header>, lists': seq<seq<nat>>, cs': seq<nat>)
    requires b in hs && Closed(hs) && |lists| == MAX_FREE_LISTS && |cs| == MAX_FREE_LISTS
    ensures (hs', lists', cs') == Removed(hs, lists, cs, b, listIndex)
  {
    if listIndex >= MAX_FREE_LISTS {
      return hs, lists, cs;
    }
    hs', lists' := Unlink(hs, b), lists[listIndex := RemoveFirst(lists[listIndex], b)];
    cs' := cs[listIndex := SubW(cs[listIndex], 1)];
  }

  /** add_to_free_list (lines 412-428): a valid block is pushed on the list of its size. */
  method AddToFreeList(hs: map<nat, Header>, lists: seq<seq<nat>>, cs: seq<nat>, b: nat)
    returns (hs': map<nat, Header>, lists': seq<seq<nat>>, cs': seq<nat>)
    requires b in hs && Closed(hs) && |lists| == MAX_FREE_LISTS && |cs| == MAX_FREE_LISTS
    requires Listed(hs, lists)
    ensures (hs', lists', cs') == Added(hs, lists, cs, b)
  {
    if !ValidHeader(hs[b]) {
      return hs, lists, cs;
    }
    var i := GetFreeListIndex(hs[b].size);
    assert lists[i] != [] ==> lists[i][0] in hs;
    hs', lists' := Pushed(hs, b, Head(lists[i])), lists[i := [b] + lists[i]];
    cs' := cs[i := Inc(cs[i])];
  }

  /**
   * split_block (lines 265-303): a valid block whose remainder after the aligned request
   * can hold a header and MIN_BLOCK_SIZE bytes is cut in two; the second part is returned
   * and the pool's block count grows by one.
   */
  method SplitBlock(hs: map<nat, Header>, blocks: nat, alignment: nat, b: nat, requested: nat)
    returns (hs': map<nat, Header>, blocks': nat, nb: Option<nat>)
    requires b in hs && Closed(hs) && requested < WORD && alignment < WORD
    requires ValidHeader(hs[b]) ==> AlignSize(requested, alignment) <= hs[b].size
    ensures (hs', nb) == Split(hs, b, AlignSize(requested, alignment))
    ensures blocks' == if nb.Some? then Inc(blocks) else blocks
  {
    if !ValidHeader(hs[b]) {
      return hs, blocks, None;
    }
    var aligned := AlignSize(requested, alignment);
    var remaining := hs[b].size - aligned;
    if remaining < HEADER_SIZE + MIN_BLOCK_SIZE {
      return hs, blocks, None;
    }
    hs', blocks' := SplitHeaders(hs, b, aligned), Inc(blocks);
    nb := Some(b + HEADER_SIZE + aligned);
  }

  /**
   * coalesce_blocks (lines 314-371): the forward loop, then the backward loop, each
   * merging while the neighbour is free, valid and adjacent.
   */
  method CoalesceBlocks(hs: map<nat, Header>, total: nat, blocks: nat, b: nat)
    returns (hs': map<nat, Header>, r: nat, blocks': nat)
    requires b in hs && Closed(hs) && InArena(hs, total)
    ensures var c := Coalesce(hs, b, total, blocks); hs' == c.0 && r == c.1 && blocks' == c.3
  {
    if !(ValidHeader(hs[b]) && hs[b].isFree) {
      return hs, b, blocks;
    }
    hs', blocks' := MergeForwardLoop(hs, b, total, blocks);
    hs', r, blocks' := MergeBackwardLoop(hs', b, total, blocks');
  }

  /**
   * Lines 486-512 of memory_pool_alloc once block `b` of list `i` was chosen: it leaves
   * its list, split_block cuts off what the request does not need when that can form a
   * block of its own, which joins a free list, and the block is marked used and counted.
   */
  method TakeBlock(hs: map<nat, Header>, lists: seq<seq<nat>>, cs: seq<nat>, tally: Tally, total: nat,
                   alignment: nat, b: nat, i: nat, aligned: nat)
    returns (hs': map<nat, Header>, lists': seq<seq<nat>>, cs': seq<nat>, tally': Tally, ptr: Option<nat>)
    requires Arena(hs, lists, cs, total) && b in hs && aligned < WORD && alignment < WORD
    requires AlignSize(aligned, alignment) == aligned && (ValidHeader(hs[b]) ==> aligned <= hs[b].size)
    ensures (hs', lists', cs', tally', ptr) == Allocated(hs, lists, cs, tally, total, b, i, aligned)
  {
    ghost var removed, split := AllocatedStages(hs, lists, cs, tally, total, b, i, aligned);
    var blocks, nb;
    hs', lists', cs', blocks, nb := PlaceBlock(hs, lists, cs, total, tally.blocks, alignment, b, i, aligned, removed, split);
    hs', tally', ptr := MarkTaken(hs', lists', cs', tally, blocks, b, nb.Some?);
  }

  /** Lines 495-512 of memory_pool_alloc: the block is marked used and counted, its payload returned. */
  method MarkTaken(hs: map<nat, Header>, ghost lists: seq<seq<nat>>, ghost cs: seq<nat>, tally: Tally, blocks: nat, b: nat,
                   ghost didSplit: bool)
    returns (hs': map<nat, Header>, tally': Tally, ptr: Option<nat>)
    requires b in hs && blocks == if didSplit then Inc(tally.blocks) else tally.blocks
    ensures (hs', lists, cs, tally', ptr) == Finished(tally, b, (hs, lists, cs), didSplit)
  {
    hs' := hs[b := hs[b].(isFree := false)];
    var used := (tally.used + hs'[b].size) % WORD;
    tally' := tally.(used := used, peak := Max(tally.peak, used), allocations := Inc(tally.allocations), blocks := blocks);
    ptr := Some(b + HEADER_SIZE);
  }

  /**
   * Lines 486-493 of memory_pool_alloc: block `b` leaves list `i`, and the rest split off
   * from it, if any, joins the free list of its size.
   */
  method PlaceBlock(hs: map<nat, Header>, lists: seq<seq<nat>>, cs: seq<nat>, total: nat, blocks: nat,
                    alignment: nat, b: nat, i: nat, aligned: nat,
                    ghost removed: (map<nat, Header>, seq<seq<nat>>, seq<nat>), ghost split: (map<nat, Header>, Option<nat>))
    returns (hs': map<nat, Header>, lists': seq<seq<nat>>, cs': seq<nat>, blocks': nat, nb: Option<nat>)
    requires Arena(hs, lists, cs, total) && b in hs && aligned < WORD && alignment < WORD
    requires AlignSize(aligned, alignment) == aligned && (ValidHeader(hs[b]) ==> aligned <= hs[b].size)
    requires removed == Removed(hs, lists, cs, b, i) && Arena(removed.0, removed.1, removed.2, total)
    requires split == Split(removed.0, b, aligned) && Arena(split.0, removed.1, removed.2, total)
    requires split.1.Some? ==> split.1.value in split.0
    ensures (hs', lists', cs') == AddedIfSplit(split.0, removed.1, removed.2, total, split.1) && nb == split.1
    ensures blocks' == if nb.Some? then Inc(blocks) else blocks
  {
    hs', lists', cs' := RemoveFromFreeList(hs, lists, cs, b, i);
    hs', blocks', nb := SplitBlock(hs', blocks, alignment, b, aligned);
    if nb.Some? {
      hs', lists', cs' := AddToFreeList(hs', lists', cs', nb.value);
    }
  }

  /**
   * Lines 541-556 of memory_pool_free for a valid block in use: the statistics are
   * updated, the block is marked free, coalesced with its free neighbours, and the
   * result joins the free list of its size.
   */
  method ReleaseBlock(hs: map<nat, Header>, lists: seq<seq<nat>>, cs: seq<nat>, tally: Tally, total: nat, b: nat)
    returns (hs': map<nat, Header>, lists': seq<seq<nat>>, cs': seq<nat>, tally': Tally)
    requires Arena(hs, lists, cs, total) && b in hs
    ensures (hs', lists', cs', tally') == Freed(hs, lists, cs, tally, total, b)
  {
    ghost var marked, merged := FreedStages(hs, lists, cs, tally, total, b);
    tally' := tally.(used := SubW(tally.used, hs[b].size), deallocations := Inc(tally.deallocations));
    hs' := hs[b := hs[b].(isFree := true)];
    var m, blocks;
    hs', m, blocks := CoalesceBlocks(hs', total, tally'.blocks, b);
    tally' := tally'.(blocks := blocks);
    hs', lists', cs' := AddToFreeList(hs', lists, cs, m);
  }

  /**
   * memory_pool_alloc (lines 439-513) past the signature check: a zero size and a request
   * larger than the bytes not in use are refused, then the best-fit search, and the chosen
   * block is taken.
   */
  method AllocateBlock(hs: map<nat, Header>, lists: seq<seq<nat>>, cs: seq<nat>, tally: Tally, total: nat,
                       alignment: nat, size: nat)
    returns (hs': map<nat, Header>, lists': seq<seq<nat>>, cs': seq<nat>, tally': Tally, ptr: Option<nat>)
    requires Arena(hs, lists, cs, total) && size < WORD && alignment < WORD && IsPowerOfTwo(alignment)
    ensures (hs', lists', cs', tally', ptr) == Allocate(hs, lists, cs, tally, total, alignment, size)
  {
    if size == 0 {
      AllocateRefused(hs, lists, cs, tally, total, alignment, size);
      return hs, lists, cs, tally, None;
    }
    var aligned := AlignSize(size, alignment);
    AlignTwice(size, alignment);
    assert Aligned(size, alignment) == aligned;
    if (aligned + HEADER_SIZE) % WORD > SubW(total, tally.used) {
      assert TooLarge(Aligned(size, alignment), total, tally.used);
      AllocateRefused(hs, lists, cs, tally, total, alignment, size);
      return hs, lists, cs, tally, None;
    }
    assert !TooLarge(Aligned(size, alignment), total, tally.used);
    var best := FindBestBlock(hs, lists, aligned);
    if best.None? {
      assert BestFit(hs, Aligned(size, alignment), Candidates(lists, Aligned(size, alignment))).None?;
      AllocateRefused(hs, lists, cs, tally, total, alignment, size);
      return hs, lists, cs, tally, None;
    }
    assert BestFit(hs, Aligned(size, alignment), Candidates(lists, Aligned(size, alignment))) == Some((best.value.0, best.value.1));
    AllocateChosen(hs, lists, cs, tally, total, alignment, size, best.value.0, best.value.1);
    hs', lists', cs', tally', ptr := TakeBlock(hs, lists, cs, tally, total, alignment, best.value.0, best.value.1, aligned);
  }

  /**
   * memory_pool_free (lines 523-557) past the signature check: NULL is ignored, a pointer
   * whose header does not validate is refused, a double free is reported, and a valid
   * block in use is released.
   */
  method ReleasePointer(hs: map<nat, Header>, lists: seq<seq<nat>>, cs: seq<nat>, tally: Tally, total: nat,
                        ptr: Option<nat>)
    returns (hs': map<nat, Header>, lists': seq<seq<nat>>, cs': seq<nat>, tally': Tally, outcome: FreeOutcome)
    requires Arena(hs, lists, cs, total) && TallyFits(tally)
    ensures (hs', lists', cs', tally', outcome) == Release(hs, lists, cs, tally, total, ptr)
    ensures Arena(hs', lists', cs', total) && TallyFits(tally') && hs.Keys <= hs'.Keys
  {
    if ptr.None? {
      return hs, lists, cs, tally, Ignored;
    }
    var b := BlockOf(ptr.value);
    if !ValidateBlock(hs, b) {
      return hs, lists, cs, tally, InvalidBlock;
    }
    if hs[b.value].isFree {
      return hs, lists, cs, tally, DoubleFree;
    }
    ghost var f := Freed(hs, lists, cs, tally, total, b.value);
    FreedKeepsArena(hs, lists, cs, tally, total, b.value);
    hs', lists', cs', tally' := ReleaseBlock(hs, lists, cs, tally, total, b.value);
    assert hs' == f.0 && lists' == f.1 && cs' == f.2 && tally' == f.3;
    outcome := Released;
  }

  /**
   * The best-fit search of memory_pool_alloc (lines 458-478): the free lists from the size
   * class of `aligned` upward, each from its head, keeping the first strictly smaller
   * fitting block; an exact fit ends the search (the inner and the outer `break`).
   */
  method FindBestBlock(hs: map<nat, Header>, buckets: seq<seq<nat>>, aligned: nat) returns (best: Option<(nat, nat)>)
    requires |buckets| == MAX_FREE_LISTS && Listed(hs, buckets)
    ensures best == BestFit(hs, aligned, Candidates(buckets, aligned))
  {
    var lo := GetFreeListIndex(aligned);
    ghost var seen: seq<(nat, nat)> := [];
    best := None;
    var i := lo;
    while i < MAX_FREE_LISTS
      invariant lo <= i <= MAX_FREE_LISTS && seen == ScanOrder(buckets, lo, i)
      invariant best == BestFit(hs, aligned, seen)
      invariant best.Some? ==> hs[best.value.0].size != aligned
    {
      var exact;
      best, exact := ScanList(hs, aligned, buckets[i], i, seen, best);
      seen := seen + Entries(buckets[i], i);
      if exact {
        ExactFitEnds(hs, aligned, buckets, lo, i + 1);
        return;
      }
      i := i + 1;
    }
  }

  /**
   * The inner loop of the search over list `i`, after the entries `seen`: each valid,
   * free, large enough block strictly smaller than the best so far replaces it, and an
   * exact fit stops the search.
   */
  method ScanList(hs: map<nat, Header>, aligned: nat, bucket: seq<nat>, i: nat,
                  ghost seen: seq<(nat, nat)>, best0: Option<(nat, nat)>)
    returns (best: Option<(nat, nat)>, exact: bool)
    requires best0 == BestFit(hs, aligned, seen)
    requires best0.Some? ==> hs[best0.value.0].size != aligned
    ensures best == BestFit(hs, aligned, seen + Entries(bucket, i))
    ensures exact <==> best.Some? && hs[best.value.0].size == aligned
  {
    best, exact := best0, false;
    ghost var cur := seen;
    var j := 0;
    while j < |bucket|
      invariant 0 <= j <= |bucket| && !exact
      invariant cur == seen + Entries(bucket[..j], i)
      invariant best == BestFit(hs, aligned, cur)
      invariant best.Some? ==> hs[best.value.0].size != aligned
    {
      var c := bucket[j];
      BestFitStep(hs, aligned, cur, (c, i));
      EntriesStep(bucket, j, i);
      cur := cur + [(c, i)];
      if ValidateBlock(hs, Some(c)) && hs[c].isFree && hs[c].size >= aligned {
        if best.None? || hs[c].size < hs[best.value.0].size {
          best := Some((c, i));
          if hs[c].size == aligned {
            ExactFitInList(hs, aligned, seen, bucket, i, j, cur);
            return best, true;
          }
        }
      }
      j := j + 1;
    }
    assert bucket[..j] == bucket;
  }

  /** Once the search holds an exact fit after entry `j` of a list, the rest of the list changes nothing. */
  lemma ExactFitInList(hs: map<nat, Header>, aligned: nat, seen: seq<(nat, nat)>, bucket: seq<nat>, i: nat, j: nat,
                       cur: seq<(nat, nat)>)
    requires j < |bucket| && cur == seen + Entries(bucket[..j], i) + [(bucket[j], i)]
    requires var b := BestFit(hs, aligned, cur); b.Some? && hs[b.value.0].size == aligned
    ensures BestFit(hs, aligned, seen + Entries(bucket, i)) == BestFit(hs, aligned, cur)
  {
    EntriesStep(bucket, j, i);
    EntriesPrefix(bucket, j + 1, i);
    var all := seen + Entries(bucket, i);
    assert all[..|cur|] == cur;
    ExactFitIsFinal(hs, aligned, all, |cur|);
  }

  /** Once the search holds an exact fit after the lists before `hi`, the lists from `hi` on change nothing. */
  lemma ExactFitEnds(hs: map<nat, Header>, aligned: nat, buckets: seq<seq<nat>>, lo: nat, hi: nat)
    requires lo <= hi <= |buckets|
    requires var b := BestFit(hs, aligned, ScanOrder(buckets, lo, hi)); b.Some? && hs[b.value.0].size == aligned
    ensures BestFit(hs, aligned, ScanOrder(buckets, lo, |buckets|)) == BestFit(hs, aligned, ScanOrder(buckets, lo, hi))
  {
    ScanOrderSplit(buckets, lo, hi, |buckets|);
    var all := ScanOrder(buckets, lo, |buckets|);
    assert all[..|ScanOrder(buckets, lo, hi)|] == ScanOrder(buckets, lo, hi);
    ExactFitIsFinal(hs, aligned, all, |ScanOrder(buckets, lo, hi)|);
  }

  /** The entries of one more block of a list. */
  lemma EntriesStep(bucket: seq<nat>, j: nat, i: nat)
    requires j < |bucket|
    ensures Entries(bucket[..j + 1], i) == Entries(bucket[..j], i) + [(bucket[j], i)]
  {
    assert bucket[..j + 1][..j] == bucket[..j];
  }

  /** The entries of a prefix of a list are a prefix of its entries. */
  lemma EntriesPrefix(bucket: seq<nat>, j: nat, i: nat)
    requires j <= |bucket|
    ensures Entries(bucket[..j], i) == Entries(bucket, i)[..j]
  {
  }

  /** Visiting one more entry is one more step of the search. */
  lemma BestFitStep(hs: map<nat, Header>, aligned: nat, cs: seq<(nat, nat)>, c: (nat, nat))
    ensures BestFit(hs, aligned, cs + [c]) == Consider(hs, aligned, BestFit(hs, aligned, cs), c)
  {
    assert (cs + [c])[..|cs|] == cs;
  }

  /** The forward loop of coalesce_blocks (lines 320-342): `b` absorbs adjacent free successors. */
  method MergeForwardLoop(hs0: map<nat, Header>, b: nat, total: nat, blocks0: nat) returns (hs: map<nat, Header>, blocks: nat)
    requires b in hs0 && Closed(hs0) && InArena(hs0, total)
    ensures var f := MergeForward(hs0, b, total, blocks0); hs == f.0 && blocks == f.2
  {
    hs, blocks := hs0, blocks0;
    while hs[b].next.Some? && hs[hs[b].next.value].isFree && ValidHeader(hs[hs[b].next.value])
      invariant Closed(hs) && InArena(hs, total) && b in hs
      invariant var f := MergeForward(hs, b, total, blocks); var f0 := MergeForward(hs0, b, total, blocks0);
        f.0 == f0.0 && f.2 == f0.2
      decreases total - End(hs, b)
    {
      var n := hs[b].next.value;
      if b + HEADER_SIZE + hs[b].size != n {
        break;
      }
      hs := AbsorbNext(hs, b, total);
      blocks := Dec(blocks);
    }
  }

  /** The backward loop of coalesce_blocks (lines 345-368): adjacent free predecessors absorb the block. */
  method MergeBackwardLoop(hs0: map<nat, Header>, b: nat, total: nat, blocks0: nat)
    returns (hs: map<nat, Header>, r: nat, blocks: nat)
    requires b in hs0 && Closed(hs0) && InArena(hs0, total)
    ensures var g := MergeBackward(hs0, b, total, blocks0); hs == g.0 && r == g.1 && blocks == g.3
  {
    hs, r, blocks := hs0, b, blocks0;
    while hs[r].prev.Some? && hs[hs[r].prev.value].isFree && ValidHeader(hs[hs[r].prev.value])
      invariant Closed(hs) && InArena(hs, total) && r in hs
      invariant var g := MergeBackward(hs, r, total, blocks); var g0 := MergeBackward(hs0, b, total, blocks0);
        g.0 == g0.0 && g.1 == g0.1 && g.3 == g0.3
      decreases r
    {
      var p := hs[r].prev.value;
      if p + HEADER_SIZE + hs[p].size != r {
        break;
      }
      hs := AbsorbIntoPrev(hs, r, total);
      blocks := Dec(blocks);
      r := p;
    }
  }

  /**
   * The loop of memory_pool_get_stats (lines 588-596): the sum of the list counts, as a
   * size_t, and the largest size met walking every list from its head.
   */
  method ListStats(hs: map<nat, Header>, lists: seq<seq<nat>>, cs: seq<nat>) returns (freeBlocks: nat, largest: nat)
    requires |lists| == |cs| == MAX_FREE_LISTS
    ensures freeBlocks == SumCounts(cs) % WORD
    ensures largest == MaxSize(hs, ScanOrder(lists, 0, |lists|))
  {
    freeBlocks, largest := 0, 0;
    ghost var seen: seq<(nat, nat)> := [];
    var i := 0;
    while i < |lists|
      invariant 0 <= i <= |lists| && seen == ScanOrder(lists, 0, i)
      invariant freeBlocks == SumCounts(cs[..i]) % WORD
      invariant largest == MaxSize(hs, seen)
    {
      SumStep(cs, i);
      AddMod(SumCounts(cs[..i]), cs[i]);
      freeBlocks := (freeBlocks + cs[i]) % WORD;
      largest := ListLargest(hs, lists[i], i, seen, largest);
      seen := seen + Entries(lists[i], i);
      i := i + 1;
    }
    assert cs[..|cs|] == cs;
  }

  lemma SumStep(cs: seq<nat>, k: nat)
    requires k < |cs|
    ensures SumCounts(cs[..k + 1]) == SumCounts(cs[..k]) + cs[k]
  {
    assert cs[..k + 1][..k] == cs[..k];
  }

  /**
   * The inner loop of memory_pool_get_stats (lines 591-595) over list `i`, after the
   * entries `seen`: the largest size met so far.
   */
  method ListLargest(hs: map<nat, Header>, bucket: seq<nat>, i: nat, ghost seen: seq<(nat, nat)>, largest0: nat)
    returns (largest: nat)
    requires largest0 == MaxSize(hs, seen)
    ensures largest == MaxSize(hs, seen + Entries(bucket, i))
  {
    largest := largest0;
    ghost var cur := seen;
    var j := 0;
    while j < |bucket|
      invariant 0 <= j <= |bucket|
      invariant cur == seen + Entries(bucket[..j], i)
      invariant largest == MaxSize(hs, cur)
    {
      MaxSizeStep(hs, cur, (bucket[j], i));
      EntriesStep(bucket, j, i);
      cur := cur + [(bucket[j], i)];
      var size := if bucket[j] in hs then hs[bucket[j]].size else 0;
      if size > largest {
        largest := size;
      }
      j := j + 1;
    }
    assert bucket[..j] == bucket;
  }

  /** MaxSize over one more entry. */
  lemma MaxSizeStep(hs: map<nat, Header>, cs: seq<(nat, nat)>, c: (nat, nat))
    ensures MaxSize(hs, cs + [c]) == Max(MaxSize(hs, cs), SizeAt(hs, c.0))
  {
    assert (cs + [c])[..|cs|] == cs;
  }

  /**
   * The loop of validate_pool (lines 686-711): the bytes in use along the next links from
   * `first`, or None when a block fails validate_block or the walk passes MAX_CHECKED_BLOCKS.
   */
  method WalkChain(hs: map<nat, Header>, first: Option<nat>) returns (used: Option<nat>)
    ensures used == PoolWalk(hs, first)
  {
    var current := first;
    var totalBlocks: nat, calculatedUsed: nat := 0, 0;
    while current.Some?
      invariant totalBlocks <= MAX_CHECKED_BLOCKS && calculatedUsed < WORD
      invariant WalkUsed(hs, current, totalBlocks, calculatedUsed) == PoolWalk(hs, first)
      decreases MAX_CHECKED_BLOCKS - totalBlocks
    {
      if !ValidateBlock(hs, current) {
        return None;
      }
      var h := hs[current.value];
      var next := if h.isFree then calculatedUsed else (calculatedUsed + h.size) % WORD;
      if totalBlocks + 1 > MAX_CHECKED_BLOCKS {
        return None;
      }
      WalkStep(hs, current, totalBlocks, calculatedUsed);
      current, totalBlocks, calculatedUsed := h.next, totalBlocks + 1, next;
    }
    used := Some(calculatedUsed);
  }

  class Pool {
    var signature: nat
    /** Whether `memory` is a mapping (not NULL). */
    var hasMemory: bool
    var totalSize: nat
    var alignment: nat
    var tally: Tally
    /** Block offsets on each free list, head first. */
    var buckets: seq<seq<nat>>
    /** The `count` field of each free list. */
    var counts: seq<nat>
    var firstBlock: Option<nat>
    var headers: map<nat, Header>
    var name: string

    ghost predicate Valid()
      reads this
    {
      PoolInvariant(signature, totalSize, alignment, tally, headers, buckets, counts, firstBlock)
    }

    /** The all-zero pool that memset leaves behind. */
    ghost predicate Zeroed()
      reads this
    {
      && signature == 0 && !hasMemory && totalSize == 0 && alignment == 0 && tally == Tally(0, 0, 0, 0, 0)
      && buckets == EmptyLists() && counts == EmptyCounts() && firstBlock == None && headers == map[] && name == ""
    }

    /**
     * memory_pool_init (lines 181-237) on a pool object. The page size is a parameter;
     * `mapped` is whether the kernel grants the mapping, which it never does for a
     * zero-length one. When initialization fails the C code returns (lines 182 and 193)
     * before its memset (line 197), leaving the caller's object as it was; a constructor
     * has no earlier state, so here a failed pool is the zero-filled one, whose signature
     * rejects every later operation.
     */
    constructor Init(size: nat, alignment': nat, pageSize: nat, mapped: bool, name': Option<string>)
      requires size < WORD && (alignment' == 0 || IsPowerOfTwo(alignment'))
      requires 64 <= pageSize < WORD && IsPowerOfTwo(pageSize)
      ensures Valid()
      ensures signature == POOL_SIGNATURE <==> size != 0 && AlignSize(size, pageSize) != 0 && mapped
      ensures signature != POOL_SIGNATURE ==> Zeroed()
      ensures signature == POOL_SIGNATURE ==>
        && totalSize == AlignSize(size, pageSize)
        && totalSize % pageSize == 0 && size <= totalSize && hasMemory
        && alignment == (if alignment' > 0 then alignment' else DEFAULT_ALIGNMENT)
        && name == PoolName(name')
        && headers == map[0 := Header(BLOCK_SIGNATURE, totalSize - HEADER_SIZE, true, None, None, BLOCK_SIGNATURE)]
        && firstBlock == Some(0)
        && buckets == EmptyLists()[FreeListIndex(totalSize - HEADER_SIZE) := [0]]
        && counts == EmptyCounts()[FreeListIndex(totalSize - HEADER_SIZE) := 1]
        && tally == Tally(0, 0, 0, 0, 1)
    {
      var total := if size == 0 then 0 else AlignSize(size, pageSize);
      if total == 0 || !mapped {
        EmptyArena();
        signature, hasMemory, totalSize, alignment, tally := 0, false, 0, 0, Tally(0, 0, 0, 0, 0);
        buckets, counts, firstBlock, headers, name := EmptyLists(), EmptyCounts(), None, map[], "";
      } else {
        PageRounded(size, pageSize);
        var blockSize := total - HEADER_SIZE;
        var index := GetFreeListIndex(blockSize);
        var hs := map[0 := Header(BLOCK_SIGNATURE, blockSize, true, None, None, BLOCK_SIGNATURE)];
        var lists := EmptyLists()[index := [0]];
        assert Closed(hs) && InArena(hs, total) by {
          assert forall k :: k in hs ==> k == 0;
        }
        assert Listed(hs, lists);
        var align := if alignment' > 0 then alignment' else DEFAULT_ALIGNMENT;
        assert IsPowerOfTwo(align) by {
          if alignment' == 0 {
            assert Pow2(3) == DEFAULT_ALIGNMENT;
          }
        }
        AlignTwice(0, align);
        signature, hasMemory, totalSize, alignment, tally := POOL_SIGNATURE, true, total, align, Tally(0, 0, 0, 0, 1);
        buckets, counts, firstBlock, headers, name := lists, EmptyCounts()[index := 1], Some(0), hs, PoolName(name');
      }
    }

    /** memory_pool_destroy (lines 725-742): a live pool is zero-filled; munmap is not modelled. */
    method Destroy()
      requires Valid()
      modifies this
      ensures old(signature) != POOL_SIGNATURE ==> unchanged(this)
      ensures old(signature) == POOL_SIGNATURE ==> Zeroed()
      ensures Valid()
    {
      if signature != POOL_SIGNATURE {
        return;
      }
      EmptyArena();
      signature, hasMemory, totalSize, alignment, tally := 0, false, 0, 0, Tally(0, 0, 0, 0, 0);
      buckets, counts, firstBlock, headers, name := EmptyLists(), EmptyCounts(), None, map[], "";
    }

    /**
     * memory_pool_alloc (lines 439-513). A pool whose signature is not intact refuses every
     * request; otherwise the result and the new state are those of Allocate.
     */
    method Alloc(size: nat) returns (ptr: Option<nat>)
      requires Valid() && size < WORD
      modifies this`headers, this`buckets, this`counts, this`tally
      ensures Valid()
      ensures signature != POOL_SIGNATURE ==> ptr.None? && unchanged(this)
      ensures signature == POOL_SIGNATURE ==>
        (headers, buckets, counts, tally, ptr) == Allocate(old(headers), old(buckets), old(counts), old(tally), totalSize, alignment, size)
    {
      if signature != POOL_SIGNATURE {
        return None;
      }
      AllocateKeepsArena(headers, buckets, counts, tally, totalSize, alignment, size);
      ghost var r := Allocate(headers, buckets, counts, tally, totalSize, alignment, size);
      PoolStep(signature, totalSize, alignment, tally, headers, buckets, counts, firstBlock, r.3, r.0, r.1, r.2);
      headers, buckets, counts, tally, ptr := AllocateBlock(headers, buckets, counts, tally, totalSize, alignment, size);
    }

    /**
     * memory_pool_free (lines 523-557) for the payload offset `ptr` (None for NULL). A pool
     * whose signature is not intact ignores the call; otherwise the outcome and the new
     * state are those of Release.
     */
    method Free(ptr: Option<nat>) returns (outcome: FreeOutcome)
      requires Valid()
      modifies this`headers, this`buckets, this`counts, this`tally
      ensures Valid()
      ensures signature != POOL_SIGNATURE ==> outcome == Ignored && unchanged(this)
      ensures signature == POOL_SIGNATURE ==>
        (headers, buckets, counts, tally, outcome) == Release(old(headers), old(buckets), old(counts), old(tally), totalSize, ptr)
    {
      if signature != POOL_SIGNATURE {
        return Ignored;
      }
      var hs, lists, cs, t;
      hs, lists, cs, t, outcome := ReleasePointer(headers, buckets, counts, tally, totalSize, ptr);
      PoolStep(signature, totalSize, alignment, tally, headers, buckets, counts, firstBlock, t, hs, lists, cs);
      headers, buckets, counts, tally := hs, lists, cs, t;
    }

    /**
     * memory_pool_get_stats (lines 567-599): the counters, the fragmentation ratio, the
     * sum of the list counts and the largest block met walking the lists, or None for a
     * pool whose signature is not intact.
     */
    method GetStats() returns (stats: Option<PoolStats>)
      requires Valid()
      ensures signature != POOL_SIGNATURE <==> stats.None?
      ensures stats.Some? ==> stats.value == PoolStats(
        tally.allocations, tally.deallocations, tally.used, tally.peak,
        Fragmentation(tally.blocks, totalSize),
        tally.allocations, tally.deallocations,
        SumCounts(counts) % WORD, MaxSize(headers, ScanOrder(buckets, 0, |buckets|)))
    {
      if signature != POOL_SIGNATURE {
        return None;
      }
      var hs, lists, cs, t, total := headers, buckets, counts, tally, totalSize;
      var ratio := if total > 0 then Fragmentation(t.blocks, total) else 0;
      var freeBlocks, largest := ListStats(hs, lists, cs);
      stats := Some(PoolStats(t.allocations, t.deallocations, t.used, t.peak, ratio,
                              t.allocations, t.deallocations, freeBlocks, largest));
    }

    /**
     * validate_pool (lines 674-717): the pool passes when its signature is intact, it has
     * memory, and the walk from first_block along the next links meets only valid headers,
     * ends within MAX_CHECKED_BLOCKS blocks and counts exactly used_size bytes in use.
     */
    method ValidatePool() returns (ok: bool)
      requires Valid()
      ensures ok == (signature == POOL_SIGNATURE && hasMemory && totalSize != 0
                     && PoolWalk(headers, firstBlock) == Some(tally.used))
    {
      if signature != POOL_SIGNATURE {
        return false;
      }
      if !hasMemory || totalSize == 0 {
        return false;
      }
      var walked := WalkChain(headers, firstBlock);
      ok := walked == Some(tally.used);
    }
  }
}
