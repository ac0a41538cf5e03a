/**
 * The allocator memory_pool.c evidently intends, as a reference against which its
 * free-list defect is measured. In memory_pool.c one next/prev pair serves both as the
 * physical chain that coalesce_blocks follows (lines 324-350) and as the free-list
 * links that remove_from_free_list and add_to_free_list rewrite (lines 382-428), and
 * coalesce_blocks never unlinks the neighbours it absorbs, so lists keep offsets of
 * blocks that no longer exist and can close into a cycle. Here the arena is a sequence
 * of tiles in address order, so physical neighbours are found by position, the 32 free
 * lists are separate, and merging unlinks every block it absorbs before the merged
 * block joins the list of its new size. The search, the split rule, the capacity test,
 * the statistics of used bytes and the exits of memory_pool_free are those of
 * memory_pool.c, reused from module MemoryPool.
 */
module PoolRepair {
  import opened Wrappers
  import opened SizeT
  import opened MemoryPool

  /** One block of the arena: the offset of its header, its payload size, whether it is free. */
  datatype Tile = Tile(at: nat, size: nat, isFree: bool)

  /** The arena's blocks in address order, the 32 free lists, and used_size. */
  datatype Heap = Heap(tiles: seq<Tile>, lists: seq<seq<nat>>, used: nat)

  /** The offset just past a block's payload. */
  function TileEnd(t: Tile): nat {
    t.at + HEADER_SIZE + t.size
  }

  /** `b` starts where `a` ends. */
  predicate Abuts(a: Tile, b: Tile) {
    b.at == TileEnd(a)
  }

  /** `a` and `b` are not both free. */
  predicate Apart(a: Tile, b: Tile) {
    !(a.isFree && b.isFree)
  }

  /** Every block starts where the one before it ends. */
  ghost predicate Chained(ts: seq<Tile>) {
    forall j, k :: 0 <= j && k == j + 1 && k < |ts| ==> Abuts(ts[j], ts[k])
  }

  /** No two neighbouring blocks are both free. */
  ghost predicate Separated(ts: seq<Tile>) {
    forall j, k :: 0 <= j && k == j + 1 && k < |ts| ==> Apart(ts[j], ts[k])
  }

  /** The tiles cover the arena [0, total) with no gap and no overlap. */
  ghost predicate Tiled(ts: seq<Tile>, total: nat) {
    |ts| > 0 && ts[0].at == 0 && Chained(ts) && TileEnd(ts[|ts| - 1]) == total
  }

  /**
   * The list of a block of `size` bytes, found as get_free_list_index finds it
   * (memory_pool.c:147-165): starting from list `i`, whose largest size is `limit`,
   * the limit doubles until it reaches `size` or the last list. ListOfIsFreeListIndex
   * shows it is FreeListIndex.
   */
  function ListFrom(size: nat, i: nat, limit: nat): (r: nat)
    requires i < MAX_FREE_LISTS
    ensures i <= r < MAX_FREE_LISTS
    decreases MAX_FREE_LISTS - i
  {
    if i == MAX_FREE_LISTS - 1 || size <= limit then i else ListFrom(size, i + 1, 2 * limit)
  }

  /** The free list of a block of `size` bytes. */
  function ListOf(size: nat): nat {
    ListFrom(size, 0, 16)
  }

  lemma {:induction false} ListFromLarge(size: nat, i: nat)
    requires 9 <= i < MAX_FREE_LISTS
    ensures ListFrom(size, i, BucketThreshold(i)) == LargeListIndex(size, i)
    decreases MAX_FREE_LISTS - i
  {
    if i < MAX_FREE_LISTS - 1 && size > BucketThreshold(i) {
      assert BucketThreshold(i + 1) == 2 * BucketThreshold(i);
      ListFromLarge(size, i + 1);
    }
  }

  lemma ListFromStep(size: nat, i: nat, limit: nat)
    requires i < MAX_FREE_LISTS - 1
    ensures ListFrom(size, i, limit) == if size <= limit then i else ListFrom(size, i + 1, 2 * limit)
  {
  }

  /** The doubling search picks the list get_free_list_index picks, for every size. */
  lemma ListOfIsFreeListIndex(size: nat)
    ensures ListOf(size) == FreeListIndex(size)
  {
    ListFromStep(size, 0, 16);
    ListFromStep(size, 1, 32);
    ListFromStep(size, 2, 64);
    ListFromStep(size, 3, 128);
    ListFromStep(size, 4, 256);
    ListFromStep(size, 5, 512);
    ListFromStep(size, 6, 1024);
    ListFromStep(size, 7, 2048);
    ListFromStep(size, 8, 4096);
    assert BucketThreshold(9) == 8192;
    ListFromLarge(size, 9);
  }

  /** The offset of `t` if it is a free block of list `i`. */
  function Own(t: Tile, i: nat): multiset<nat> {
    if t.isFree && ListOf(t.size) == i then multiset{t.at} else multiset{}
  }

  /** The offsets of the free blocks whose size belongs to list `i`. */
  function FreeClass(ts: seq<Tile>, i: nat): multiset<nat> {
    if ts == [] then multiset{} else Own(ts[0], i) + FreeClass(ts[1..], i)
  }

  /** The payload bytes of the blocks in use. */
  function UsedBytes(ts: seq<Tile>): nat {
    if ts == [] then 0 else (if ts[0].isFree then 0 else ts[0].size) + UsedBytes(ts[1..])
  }

  /**
   * The state the intended allocator keeps: the tiles cover the arena, no two free blocks
   * are neighbours (coalescing leaves none), free blocks validate, list `i` holds exactly
   * the free blocks of its size class, each once, and used_size is the sum of used payloads.
   */
  ghost predicate Good(h: Heap, total: nat) {
    && total < WORD
    && Tiled(h.tiles, total)
    && Separated(h.tiles)
    && (forall k :: 0 <= k < |h.tiles| && h.tiles[k].isFree ==> h.tiles[k].size > 0)
    && Indexed(h.lists, h.tiles)
    && h.used == UsedBytes(h.tiles)
  }

  /** There are 32 lists and list `i` holds exactly the free blocks of class `i`, each once. */
  ghost predicate Indexed(lists: seq<seq<nat>>, ts: seq<Tile>) {
    |lists| == MAX_FREE_LISTS && forall i :: 0 <= i < MAX_FREE_LISTS ==> multiset(lists[i]) == FreeClass(ts, i)
  }

  /** The lists `lists'` are `lists` with the free blocks of run `mid` traded for those of `mid'`. */
  ghost predicate Traded(lists: seq<seq<nat>>, lists': seq<seq<nat>>, mid: seq<Tile>, mid': seq<Tile>) {
    |lists| == MAX_FREE_LISTS && |lists'| == MAX_FREE_LISTS &&
    forall c :: 0 <= c < MAX_FREE_LISTS ==>
      multiset(lists'[c]) + FreeClass(mid, c) == multiset(lists[c]) + FreeClass(mid', c)
  }

  /** The header a tile stands for, as validate_block and the search read it. */
  function HeaderOf(t: Tile): Header {
    Header(BLOCK_SIGNATURE, t.size, t.isFree, None, None, BLOCK_SIGNATURE)
  }

  /** The headers of the arena, keyed by offset. */
  function View(ts: seq<Tile>): map<nat, Header> {
    if ts == [] then map[] else View(ts[1..])[ts[0].at := HeaderOf(ts[0])]
  }

  /** The position of the first tile at offset `o`, or |ts| if there is none. */
  function Find(ts: seq<Tile>, o: nat): (k: nat)
    ensures k <= |ts|
    ensures k < |ts| ==> ts[k].at == o
    ensures forall j :: 0 <= j < k ==> ts[j].at != o
  {
    if ts == [] then 0 else if ts[0].at == o then 0 else 1 + Find(ts[1..], o)
  }

  /** Removes block `t` from the list of its size (remove_from_free_list with the right index). */
  function Unlist(lists: seq<seq<nat>>, t: Tile): (r: seq<seq<nat>>)
    requires |lists| == MAX_FREE_LISTS
    ensures |r| == MAX_FREE_LISTS
  {
    var c := ListOf(t.size);
    lists[c := RemoveFirst(lists[c], t.at)]
  }

  /** Pushes block `t` on the list of its size (add_to_free_list, lines 412-428). */
  function Push(lists: seq<seq<nat>>, t: Tile): (r: seq<seq<nat>>)
    requires |lists| == MAX_FREE_LISTS
    ensures |r| == MAX_FREE_LISTS
  {
    var c := ListOf(t.size);
    lists[c := [t.at] + lists[c]]
  }

  /** Whether split_block cuts a block of `size` bytes for an `aligned` request (line 272). */
  predicate Cuts(size: nat, aligned: nat) {
    size >= aligned && size - aligned >= HEADER_SIZE + MIN_BLOCK_SIZE
  }

  /** The free block split_block makes of the bytes past the request (lines 277-283). */
  function RestOf(t: Tile, aligned: nat): Tile
    requires Cuts(t.size, aligned)
  {
    Tile(t.at + HEADER_SIZE + aligned, t.size - aligned - HEADER_SIZE, true)
  }

  // ---------------------------------------------------------------------------------
  // The operations
  // ---------------------------------------------------------------------------------

  /** A fresh arena of `total` bytes: one free block after one header, on its list. */
  function Fresh(total: nat): (h: Heap)
    requires HEADER_SIZE < total < WORD
    ensures Good(h, total)
  {
    var t := Tile(0, total - HEADER_SIZE, true);
    var h := Heap([t], Push(EmptyLists(), t), 0);
    assert forall i :: 0 <= i < MAX_FREE_LISTS ==> FreeClass(h.tiles, i) == Own(t, i) by {
      assert h.tiles[1..] == [];
    }
    h
  }

  /**
   * memory_pool_alloc: the same rounding, capacity test and best-fit search over the
   * lists from the request's own class upwards; the heap it leaves and the payload
   * offset it returns (None for NULL).
   */
  function Alloc(h: Heap, total: nat, alignment: nat, size: nat): (r: (Heap, Option<nat>))
    requires Good(h, total) && size < WORD && IsPowerOfTwo(alignment)
  {
    var aligned := Aligned(size, alignment);
    if size == 0 || TooLarge(aligned, total, h.used) then (h, None)
    else
      var cs := Candidates(h.lists, aligned);
      var best := BestFit(View(h.tiles), aligned, cs);
      if best.None? then (h, None)
      else
        BestFitIsBest(View(h.tiles), aligned, cs);
        ScanOrderEntries(h.lists, FreeListIndex(aligned), |h.lists|, best.value);
        Take(h, total, best.value.0, best.value.1, aligned)
  }

  /**
   * Block `o` of list `i` was chosen: it leaves the list, it is cut after `aligned`
   * bytes when the rest can hold a header and MIN_BLOCK_SIZE bytes, the rest joins the
   * list of its size, and the block is marked used and counted.
   */
  function Take(h: Heap, total: nat, o: nat, i: nat, aligned: nat): (r: (Heap, Option<nat>))
    requires Good(h, total) && i < MAX_FREE_LISTS && o in h.lists[i] && Fits(View(h.tiles), o, aligned)
  {
    ViewAt(h.tiles, o);
    var ts := h.tiles;
    var k := Find(ts, o);
    var t := ts[k];
    var lists := h.lists[i := RemoveFirst(h.lists[i], o)];
    if Cuts(t.size, aligned) then
      var rest := RestOf(t, aligned);
      (Heap(ts[..k] + [Tile(t.at, aligned, false), rest] + ts[k + 1..], Push(lists, rest), h.used + aligned),
       Some(o + HEADER_SIZE))
    else
      (Heap(ts[..k] + [t.(isFree := false)] + ts[k + 1..], lists, h.used + t.size), Some(o + HEADER_SIZE))
  }

  /**
   * memory_pool_free: NULL is ignored, a pointer whose header does not validate is
   * refused, a free block is a double free; otherwise the block is released.
   */
  function Free(h: Heap, total: nat, ptr: Option<nat>): (r: (Heap, FreeOutcome))
    requires Good(h, total)
  {
    if ptr.None? then (h, Ignored)
    else
      var b := BlockOf(ptr.value);
      if !ValidateBlock(View(h.tiles), b) then (h, InvalidBlock)
      else
        ViewAt(h.tiles, b.value);
        var k := Find(h.tiles, b.value);
        if h.tiles[k].isFree then (h, DoubleFree)
        else (Merge(h, total, k), Released)
  }

  /**
   * The run of blocks `lo..hi` that used block `k` merges with, and the free block they
   * become (coalesce_blocks, lines 314-371): a free right neighbour is absorbed first,
   * then a free left neighbour absorbs the result.
   */
  function Span(ts: seq<Tile>, k: nat): (r: (nat, nat, Tile))
    requires k < |ts|
    ensures r.0 <= k < r.1 <= |ts|
  {
    var left := k > 0 && ts[k - 1].isFree;
    var right := k + 1 < |ts| && ts[k + 1].isFree;
    var forward := if right then ts[k].size + HEADER_SIZE + ts[k + 1].size else ts[k].size;
    var merged := if left then Tile(ts[k - 1].at, ts[k - 1].size + HEADER_SIZE + forward, true)
                  else Tile(ts[k].at, forward, true);
    (if left then k - 1 else k, if right then k + 2 else k + 1, merged)
  }

  /**
   * Used block `k` becomes free and merges with a free right neighbour and then with a
   * free left neighbour (one each, as no two free blocks are neighbours); each absorbed
   * neighbour leaves its list, and the merged block joins the list of its size.
   */
  function Merge(h: Heap, total: nat, k: nat): Heap
    requires Good(h, total) && k < |h.tiles| && !h.tiles[k].isFree && h.tiles[k].size > 0
  {
    var ts := h.tiles;
    var (lo, hi, merged) := Span(ts, k);
    UsedCovers(ts, k);
    Heap(ts[..lo] + [merged] + ts[hi..], Relist(h.lists, ts, k), h.used - ts[k].size)
  }

  /** The free lists after releasing block `k`: the right then the left absorbed
      neighbour are unlinked and the merged block is pushed. */
  function Relist(lists: seq<seq<nat>>, ts: seq<Tile>, k: nat): seq<seq<nat>>
    requires |lists| == MAX_FREE_LISTS && k < |ts|
  {
    var (lo, hi, merged) := Span(ts, k);
    var l1 := if k + 1 < hi then Unlist(lists, ts[k + 1]) else lists;
    var l2 := if lo < k then Unlist(l1, ts[k - 1]) else l1;
    Push(l2, merged)
  }

  // ---------------------------------------------------------------------------------
  // Facts about tiles
  // ---------------------------------------------------------------------------------

  /** Blocks lie in address order, each ending before the next one starts. */
  lemma {:induction false} TiledOrder(ts: seq<Tile>, j: nat, k: nat)
    requires Chained(ts) && j < k < |ts|
    ensures TileEnd(ts[j]) <= ts[k].at
    decreases k - j
  {
    if j + 1 < k {
      TiledOrder(ts, j, k - 1);
    }
  }

  /** In a chained sequence the tile at an offset is unique, so Find returns it. */
  lemma FindTile(ts: seq<Tile>, j: nat)
    requires Chained(ts) && j < |ts|
    ensures Find(ts, ts[j].at) == j
  {
    var k := Find(ts, ts[j].at);
    if k < j {
      TiledOrder(ts, k, j);
    }
  }

  /** The header map holds exactly the tiles' offsets, each with its first tile's header. */
  lemma {:induction false} ViewAt(ts: seq<Tile>, o: nat)
    ensures o in View(ts) <==> Find(ts, o) < |ts|
    ensures o in View(ts) ==> View(ts)[o] == HeaderOf(ts[Find(ts, o)])
  {
    if ts != [] && ts[0].at != o {
      ViewAt(ts[1..], o);
    }
  }

  lemma {:induction false} FreeClassConcat(a: seq<Tile>, b: seq<Tile>, i: nat)
    ensures FreeClass(a + b, i) == FreeClass(a, i) + FreeClass(b, i)
  {
    if a == [] {
      assert a + b == b;
    } else {
      assert (a + b)[1..] == a[1..] + b;
      FreeClassConcat(a[1..], b, i);
    }
  }

  lemma {:induction false} UsedBytesConcat(a: seq<Tile>, b: seq<Tile>)
    ensures UsedBytes(a + b) == UsedBytes(a) + UsedBytes(b)
  {
    if a == [] {
      assert a + b == b;
    } else {
      assert (a + b)[1..] == a[1..] + b;
      UsedBytesConcat(a[1..], b);
    }
  }

  /** The three parts of a sequence cut around a middle part. */
  lemma Around(ts: seq<Tile>, lo: nat, hi: nat)
    requires lo <= hi <= |ts|
    ensures ts == ts[..lo] + ts[lo..hi] + ts[hi..]
  {
  }

  /** Free classes and used bytes of pre + mid + post. */
  lemma ThreeParts(pre: seq<Tile>, mid: seq<Tile>, post: seq<Tile>, i: nat)
    ensures FreeClass(pre + mid + post, i) == FreeClass(pre, i) + FreeClass(mid, i) + FreeClass(post, i)
    ensures UsedBytes(pre + mid + post) == UsedBytes(pre) + UsedBytes(mid) + UsedBytes(post)
  {
    FreeClassConcat(pre + mid, post, i);
    FreeClassConcat(pre, mid, i);
    UsedBytesConcat(pre + mid, post);
    UsedBytesConcat(pre, mid);
  }

  /** Multiset union cancels. */
  lemma Cancel(x: multiset<nat>, m: multiset<nat>, y: multiset<nat>)
    requires x + m == y + m
    ensures x == y
  {
    forall o
      ensures x[o] == y[o]
    {
      assert (x + m)[o] == (y + m)[o];
    }
  }

  /** A used block's size is part of the used bytes. */
  lemma UsedCovers(ts: seq<Tile>, k: nat)
    requires k < |ts| && !ts[k].isFree
    ensures UsedBytes(ts) >= ts[k].size
  {
    Around(ts, k, k + 1);
    ThreeParts(ts[..k], ts[k..k + 1], ts[k + 1..], 0);
    assert ts[k..k + 1] == [ts[k]];
  }

  /** A free block of class `i` is among the offsets of that class. */
  lemma FreeClassHas(ts: seq<Tile>, k: nat, i: nat)
    requires k < |ts| && ts[k].isFree && ListOf(ts[k].size) == i
    ensures ts[k].at in FreeClass(ts, i)
  {
    Around(ts, k, k + 1);
    ThreeParts(ts[..k], ts[k..k + 1], ts[k + 1..], i);
    assert ts[k..k + 1] == [ts[k]];
  }

  /** Every offset of class `i` is a free block of that class. */
  lemma {:induction false} FreeClassMember(ts: seq<Tile>, i: nat, o: nat) returns (k: nat)
    requires o in FreeClass(ts, i)
    ensures k < |ts| && ts[k].at == o && ts[k].isFree && ListOf(ts[k].size) == i
  {
    if o in Own(ts[0], i) {
      k := 0;
    } else {
      var j := FreeClassMember(ts[1..], i, o);
      k := j + 1;
    }
  }

  /** In a chained sequence no offset is counted twice in a class. */
  lemma {:induction false} FreeClassOnce(ts: seq<Tile>, i: nat, o: nat)
    requires Chained(ts)
    ensures FreeClass(ts, i)[o] <= 1
  {
    if ts != [] {
      var rest := ts[1..];
      assert Chained(rest) by {
        forall j, k | 0 <= j && k == j + 1 && k < |rest|
          ensures Abuts(rest[j], rest[k])
        {
          assert rest[j] == ts[j + 1] && rest[k] == ts[k + 1];
        }
      }
      FreeClassOnce(rest, i, o);
      if o == ts[0].at && o in FreeClass(rest, i) {
        var j := FreeClassMember(rest, i, o);
        TiledOrder(ts, 0, j + 1);
      }
    }
  }

  lemma UnlistClass(lists: seq<seq<nat>>, t: Tile, c: nat)
    requires |lists| == MAX_FREE_LISTS && c < MAX_FREE_LISTS && t.isFree && t.at in lists[ListOf(t.size)]
    ensures multiset(Unlist(lists, t)[c]) + Own(t, c) == multiset(lists[c])
  {
  }

  lemma PushClass(lists: seq<seq<nat>>, t: Tile, c: nat)
    requires |lists| == MAX_FREE_LISTS && c < MAX_FREE_LISTS && t.isFree
    ensures multiset(Push(lists, t)[c]) == multiset(lists[c]) + Own(t, c)
  {
  }

  /** The free classes of a run of one or two tiles. */
  lemma ShortClasses(a: Tile, b: Tile, c: nat)
    ensures FreeClass([a], c) == Own(a, c) && UsedBytes([a]) == (if a.isFree then 0 else a.size)
    ensures FreeClass([a, b], c) == Own(a, c) + Own(b, c)
    ensures UsedBytes([a, b]) == (if a.isFree then 0 else a.size) + (if b.isFree then 0 else b.size)
  {
    assert [a][1..] == [] && [a, b][1..] == [b] && [b][1..] == [];
  }

  /** The block at a listed offset of list `i` is the free block of class `i` found there. */
  lemma ListedTile(h: Heap, total: nat, o: nat, i: nat)
    requires Good(h, total) && i < MAX_FREE_LISTS && o in h.lists[i]
    ensures var k := Find(h.tiles, o);
      k < |h.tiles| && h.tiles[k].isFree && ListOf(h.tiles[k].size) == i
  {
    assert o in multiset(h.lists[i]);
    var k := FreeClassMember(h.tiles, i, o);
    FindTile(h.tiles, k);
  }

  /** The tiles after run `lo..hi` is replaced by `mid'`. */
  lemma SpliceIndex(ts: seq<Tile>, lo: nat, hi: nat, mid': seq<Tile>, j: nat)
    requires lo <= hi <= |ts| && j < |ts[..lo] + mid' + ts[hi..]|
    ensures var ts' := ts[..lo] + mid' + ts[hi..];
      && (j < lo ==> ts'[j] == ts[j])
      && (lo <= j < lo + |mid'| ==> ts'[j] == mid'[j - lo])
      && (lo + |mid'| <= j ==> ts'[j] == ts[j - lo - |mid'| + hi])
  {
  }

  /** Replacing a run by a chained run over the same bytes keeps the tiles chained and covering the arena. */
  lemma TiledAt(ts: seq<Tile>, lo: nat, hi: nat, mid': seq<Tile>, total: nat)
    requires lo < hi <= |ts| && |mid'| > 0 && Tiled(ts, total) && Chained(mid')
    requires mid'[0].at == ts[lo].at && TileEnd(mid'[|mid'| - 1]) == TileEnd(ts[hi - 1])
    ensures Tiled(ts[..lo] + mid' + ts[hi..], total)
  {
    var ts' := ts[..lo] + mid' + ts[hi..];
    forall j, k | 0 <= j && k == j + 1 && k < |ts'|
      ensures Abuts(ts'[j], ts'[k])
    {
      SpliceIndex(ts, lo, hi, mid', j);
      SpliceIndex(ts, lo, hi, mid', k);
      if k == lo {
        assert Abuts(ts[lo - 1], ts[lo]);
      } else if k == lo + |mid'| {
        assert Abuts(ts[hi - 1], ts[hi]);
      } else if k > lo + |mid'| {
        assert Abuts(ts[j - lo - |mid'| + hi], ts[k - lo - |mid'| + hi]);
      }
    }
    SpliceIndex(ts, lo, hi, mid', 0);
    SpliceIndex(ts, lo, hi, mid', |ts'| - 1);
  }

  /** Replacing a run by a run with no free neighbours, also at the seams, keeps free blocks apart. */
  lemma SeparatedAt(ts: seq<Tile>, lo: nat, hi: nat, mid': seq<Tile>)
    requires lo < hi <= |ts| && |mid'| > 0 && Separated(ts) && Separated(mid')
    requires lo > 0 ==> Apart(ts[lo - 1], mid'[0])
    requires hi < |ts| ==> Apart(mid'[|mid'| - 1], ts[hi])
    ensures Separated(ts[..lo] + mid' + ts[hi..])
  {
    var ts' := ts[..lo] + mid' + ts[hi..];
    forall j, k | 0 <= j && k == j + 1 && k < |ts'|
      ensures Apart(ts'[j], ts'[k])
    {
      SpliceIndex(ts, lo, hi, mid', j);
      SpliceIndex(ts, lo, hi, mid', k);
      if k > lo + |mid'| {
        assert Apart(ts[j - lo - |mid'| + hi], ts[k - lo - |mid'| + hi]);
      }
    }
  }

  /** Free blocks keep a non-zero size when the new run's free blocks have one. */
  lemma SizedAt(ts: seq<Tile>, lo: nat, hi: nat, mid': seq<Tile>)
    requires lo <= hi <= |ts|
    requires forall k :: 0 <= k < |ts| && ts[k].isFree ==> ts[k].size > 0
    requires forall k :: 0 <= k < |mid'| && mid'[k].isFree ==> mid'[k].size > 0
    ensures var ts' := ts[..lo] + mid' + ts[hi..];
      forall k :: 0 <= k < |ts'| && ts'[k].isFree ==> ts'[k].size > 0
  {
    var ts' := ts[..lo] + mid' + ts[hi..];
    forall k | 0 <= k < |ts'| && ts'[k].isFree
      ensures ts'[k].size > 0
    {
      SpliceIndex(ts, lo, hi, mid', k);
    }
  }

  /** The free classes and used bytes of a sequence cut in three. */
  lemma Cut3(ts: seq<Tile>, lo: nat, hi: nat, c: nat)
    requires lo <= hi <= |ts|
    ensures FreeClass(ts, c) == FreeClass(ts[..lo], c) + FreeClass(ts[lo..hi], c) + FreeClass(ts[hi..], c)
    ensures UsedBytes(ts) == UsedBytes(ts[..lo]) + UsedBytes(ts[lo..hi]) + UsedBytes(ts[hi..])
  {
    Around(ts, lo, hi);
    ThreeParts(ts[..lo], ts[lo..hi], ts[hi..], c);
  }

  /** Trading the free blocks of a replaced run keeps every list equal to its class. */
  lemma IndexedAt(ts: seq<Tile>, lo: nat, hi: nat, mid': seq<Tile>, lists: seq<seq<nat>>, lists': seq<seq<nat>>)
    requires lo <= hi <= |ts| && Indexed(lists, ts) && Traded(lists, lists', ts[lo..hi], mid')
    ensures Indexed(lists', ts[..lo] + mid' + ts[hi..])
  {
    forall c | 0 <= c < MAX_FREE_LISTS
      ensures multiset(lists'[c]) == FreeClass(ts[..lo] + mid' + ts[hi..], c)
    {
      Cut3(ts, lo, hi, c);
      ThreeParts(ts[..lo], mid', ts[hi..], c);
      Cancel(multiset(lists'[c]), FreeClass(ts[lo..hi], c), FreeClass(ts[..lo], c) + FreeClass(mid', c) + FreeClass(ts[hi..], c));
    }
  }

  /** used_size follows the used bytes when a run is replaced. */
  lemma UsedAt(ts: seq<Tile>, lo: nat, hi: nat, mid': seq<Tile>, used: nat, used': nat)
    requires lo <= hi <= |ts| && used == UsedBytes(ts)
    requires used' + UsedBytes(ts[lo..hi]) == used + UsedBytes(mid')
    ensures used' == UsedBytes(ts[..lo] + mid' + ts[hi..])
  {
    Cut3(ts, lo, hi, 0);
    ThreeParts(ts[..lo], mid', ts[hi..], 0);
  }

  /**
   * Replacing run `lo..hi` of a good heap by another run over the same bytes keeps it good
   * when the new run is chained, creates no free neighbours, its free blocks validate,
   * the lists trade the old run's free blocks for the new run's, and used_size follows
   * the used bytes.
   */
  lemma SpliceKeepsGood(h: Heap, lo: nat, hi: nat, mid': seq<Tile>, lists': seq<seq<nat>>, used': nat, total: nat)
    requires Good(h, total) && lo < hi <= |h.tiles| && |mid'| > 0
    requires Chained(mid') && Separated(mid')
    requires mid'[0].at == h.tiles[lo].at && TileEnd(mid'[|mid'| - 1]) == TileEnd(h.tiles[hi - 1])
    requires lo > 0 ==> Apart(h.tiles[lo - 1], mid'[0])
    requires hi < |h.tiles| ==> Apart(mid'[|mid'| - 1], h.tiles[hi])
    requires forall k :: 0 <= k < |mid'| && mid'[k].isFree ==> mid'[k].size > 0
    requires Traded(h.lists, lists', h.tiles[lo..hi], mid')
    requires used' + UsedBytes(h.tiles[lo..hi]) == h.used + UsedBytes(mid')
    ensures Good(Heap(h.tiles[..lo] + mid' + h.tiles[hi..], lists', used'), total)
  {
    TiledAt(h.tiles, lo, hi, mid', total);
    SeparatedAt(h.tiles, lo, hi, mid');
    SizedAt(h.tiles, lo, hi, mid');
    IndexedAt(h.tiles, lo, hi, mid', h.lists, lists');
    UsedAt(h.tiles, lo, hi, mid', h.used, used');
  }

  // ---------------------------------------------------------------------------------
  // The invariant is kept
  // ---------------------------------------------------------------------------------

  /** Marking a listed free block used takes its offset off its list. */
  lemma TradeWhole(lists: seq<seq<nat>>, t: Tile)
    requires |lists| == MAX_FREE_LISTS && t.isFree && t.at in lists[ListOf(t.size)]
    ensures Traded(lists, Unlist(lists, t), [t], [t.(isFree := false)])
  {
    forall c | 0 <= c < MAX_FREE_LISTS
      ensures multiset(Unlist(lists, t)[c]) + FreeClass([t], c) == multiset(lists[c]) + FreeClass([t.(isFree := false)], c)
    {
      ShortClasses(t, t, c);
      ShortClasses(t.(isFree := false), t, c);
      UnlistClass(lists, t, c);
    }
  }

  /** Splitting a listed free block takes it off its list and pushes the free remainder. */
  lemma TradeSplit(lists: seq<seq<nat>>, t: Tile, used: Tile, rest: Tile)
    requires |lists| == MAX_FREE_LISTS && t.isFree && t.at in lists[ListOf(t.size)]
    requires !used.isFree && rest.isFree
    ensures Traded(lists, Push(Unlist(lists, t), rest), [t], [used, rest])
  {
    forall c | 0 <= c < MAX_FREE_LISTS
      ensures multiset(Push(Unlist(lists, t), rest)[c]) + FreeClass([t], c) == multiset(lists[c]) + FreeClass([used, rest], c)
    {
      ShortClasses(t, t, c);
      ShortClasses(used, rest, c);
      UnlistClass(lists, t, c);
      PushClass(Unlist(lists, t), rest, c);
    }
  }

  /** What Take builds, spelled out around the position of the chosen block. */
  lemma TakeShape(h: Heap, total: nat, o: nat, i: nat, aligned: nat) returns (k: nat, t: Tile)
    requires Good(h, total) && i < MAX_FREE_LISTS && o in h.lists[i] && Fits(View(h.tiles), o, aligned)
    ensures k < |h.tiles| && t == h.tiles[k] && t.at == o && t.isFree && ListOf(t.size) == i
    ensures aligned <= t.size && o in h.lists[ListOf(t.size)]
    ensures var r := Take(h, total, o, i, aligned);
      && r.1 == Some(o + HEADER_SIZE)
      && if Cuts(t.size, aligned) then
           var rest := RestOf(t, aligned);
           r.0 == Heap(h.tiles[..k] + [Tile(t.at, aligned, false), rest] + h.tiles[k + 1..],
                       Push(Unlist(h.lists, t), rest), h.used + aligned)
         else
           r.0 == Heap(h.tiles[..k] + [t.(isFree := false)] + h.tiles[k + 1..], Unlist(h.lists, t), h.used + t.size)
  {
    ViewAt(h.tiles, o);
    ListedTile(h, total, o, i);
    k := Find(h.tiles, o);
    t := h.tiles[k];
    Around(h.tiles, k, k + 1);
    assert h.tiles[k..k + 1] == [t];
  }

  /** The neighbours of a free block are in use. */
  lemma FreeNeighbours(ts: seq<Tile>, k: nat)
    requires Separated(ts) && k < |ts| && ts[k].isFree
    ensures k > 0 ==> !ts[k - 1].isFree
    ensures k + 1 < |ts| ==> !ts[k + 1].isFree
  {
    if k > 0 {
      assert Apart(ts[k - 1], ts[k]);
    }
    if k + 1 < |ts| {
      assert Apart(ts[k], ts[k + 1]);
    }
  }

  /** The two blocks split_block leaves are chained and not both free. */
  lemma CarvedRun(t: Tile, aligned: nat)
    requires Cuts(t.size, aligned)
    ensures var mid' := [Tile(t.at, aligned, false), RestOf(t, aligned)];
      Chained(mid') && Separated(mid') && TileEnd(mid'[1]) == TileEnd(t)
  {
    var mid' := [Tile(t.at, aligned, false), RestOf(t, aligned)];
    assert Abuts(mid'[0], mid'[1]) && Apart(mid'[0], mid'[1]);
  }

  /**
   * Cutting free block `ts[k]` after `aligned` bytes keeps the heap good when the lists
   * trade it for the free remainder.
   */
  lemma CarveKeepsGood(h: Heap, k: nat, lists': seq<seq<nat>>, total: nat, aligned: nat)
    requires Good(h, total) && k < |h.tiles| && h.tiles[k].isFree && Cuts(h.tiles[k].size, aligned)
    requires Traded(h.lists, lists', [h.tiles[k]], [Tile(h.tiles[k].at, aligned, false), RestOf(h.tiles[k], aligned)])
    ensures Good(Heap(h.tiles[..k] + [Tile(h.tiles[k].at, aligned, false), RestOf(h.tiles[k], aligned)] + h.tiles[k + 1..],
                      lists', h.used + aligned), total)
  {
    var t := h.tiles[k];
    CarveSeams(h.tiles, k, aligned);
    SpliceKeepsGood(h, k, k + 1, [Tile(t.at, aligned, false), RestOf(t, aligned)], lists', h.used + aligned, total);
  }

  /** The two blocks a cut leaves fit the seams of the free block they replace. */
  lemma CarveSeams(ts: seq<Tile>, k: nat, aligned: nat)
    requires Separated(ts) && k < |ts| && ts[k].isFree && Cuts(ts[k].size, aligned)
    ensures var t := ts[k]; var mid' := [Tile(t.at, aligned, false), RestOf(t, aligned)];
      && Chained(mid') && Separated(mid')
      && mid'[0].at == ts[k].at && TileEnd(mid'[|mid'| - 1]) == TileEnd(ts[k + 1 - 1])
      && (k > 0 ==> Apart(ts[k - 1], mid'[0]))
      && (k + 1 < |ts| ==> Apart(mid'[|mid'| - 1], ts[k + 1]))
      && (forall j :: 0 <= j < |mid'| && mid'[j].isFree ==> mid'[j].size > 0)
      && UsedBytes(ts[k..k + 1]) + aligned == UsedBytes(mid') && ts[k..k + 1] == [t]
  {
    var t := ts[k];
    var u := Tile(t.at, aligned, false);
    var rest := RestOf(t, aligned);
    assert ts[k..k + 1] == [t];
    FreeNeighbours(ts, k);
    CarvedRun(t, aligned);
    ShortClasses(t, t, 0);
    ShortClasses(u, rest, 0);
  }

  /** Marking free block `ts[k]` used as a whole keeps the heap good when the lists drop it. */
  lemma MarkKeepsGood(h: Heap, k: nat, lists': seq<seq<nat>>, total: nat)
    requires Good(h, total) && k < |h.tiles| && h.tiles[k].isFree
    requires Traded(h.lists, lists', [h.tiles[k]], [h.tiles[k].(isFree := false)])
    ensures Good(Heap(h.tiles[..k] + [h.tiles[k].(isFree := false)] + h.tiles[k + 1..], lists', h.used + h.tiles[k].size), total)
  {
    var t := h.tiles[k];
    MarkSeams(h.tiles, k);
    SpliceKeepsGood(h, k, k + 1, [t.(isFree := false)], lists', h.used + t.size, total);
  }

  /** A free block marked used fits the seams of the block it replaces. */
  lemma MarkSeams(ts: seq<Tile>, k: nat)
    requires Separated(ts) && k < |ts| && ts[k].isFree
    ensures var t := ts[k]; var mid' := [t.(isFree := false)];
      && Chained(mid') && Separated(mid')
      && mid'[0].at == ts[k].at && TileEnd(mid'[|mid'| - 1]) == TileEnd(ts[k + 1 - 1])
      && (k > 0 ==> Apart(ts[k - 1], mid'[0]))
      && (k + 1 < |ts| ==> Apart(mid'[|mid'| - 1], ts[k + 1]))
      && (forall j :: 0 <= j < |mid'| && mid'[j].isFree ==> mid'[j].size > 0)
      && UsedBytes(ts[k..k + 1]) + t.size == UsedBytes(mid') && ts[k..k + 1] == [t]
  {
    var t := ts[k];
    var mid' := [t.(isFree := false)];
    assert ts[k..k + 1] == [t];
    FreeNeighbours(ts, k);
    ShortClasses(t, t, 0);
    ShortClasses(mid'[0], t, 0);
  }

  /** Handing out listed free block `h.tiles[k]` for an `aligned` request leaves a good heap. */
  lemma TakenKeepsGood(h: Heap, total: nat, k: nat, aligned: nat)
    requires Good(h, total) && k < |h.tiles| && h.tiles[k].isFree && h.tiles[k].at in h.lists[ListOf(h.tiles[k].size)]
    ensures var t := h.tiles[k];
      Good(if Cuts(t.size, aligned) then
             Heap(h.tiles[..k] + [Tile(t.at, aligned, false), RestOf(t, aligned)] + h.tiles[k + 1..],
                  Push(Unlist(h.lists, t), RestOf(t, aligned)), h.used + aligned)
           else
             Heap(h.tiles[..k] + [t.(isFree := false)] + h.tiles[k + 1..], Unlist(h.lists, t), h.used + t.size), total)
  {
    var t := h.tiles[k];
    if Cuts(t.size, aligned) {
      TradeSplit(h.lists, t, Tile(t.at, aligned, false), RestOf(t, aligned));
      CarveKeepsGood(h, k, Push(Unlist(h.lists, t), RestOf(t, aligned)), total, aligned);
    } else {
      TradeWhole(h.lists, t);
      MarkKeepsGood(h, k, Unlist(h.lists, t), total);
    }
  }

  /** Handing out a listed block that fits leaves a good heap. */
  lemma TakeKeepsGood(h: Heap, total: nat, o: nat, i: nat, aligned: nat)
    requires Good(h, total) && i < MAX_FREE_LISTS && o in h.lists[i] && Fits(View(h.tiles), o, aligned)
    ensures Good(Take(h, total, o, i, aligned).0, total)
  {
    var k, t := TakeShape(h, total, o, i, aligned);
    TakenKeepsGood(h, total, k, aligned);
  }

  // ---------------------------------------------------------------------------------
  // Releasing keeps the invariant
  // ---------------------------------------------------------------------------------

  /** A free block is listed under its class. */
  lemma FreeListed(h: Heap, total: nat, j: nat)
    requires Good(h, total) && j < |h.tiles| && h.tiles[j].isFree
    ensures h.tiles[j].at in h.lists[ListOf(h.tiles[j].size)]
  {
    FreeClassHas(h.tiles, j, ListOf(h.tiles[j].size));
    assert h.tiles[j].at in multiset(h.lists[ListOf(h.tiles[j].size)]);
  }

  /** The used bytes of the run around block `k` that merging replaces. */
  lemma RunUsed(ts: seq<Tile>, lo: nat, k: nat, hi: nat)
    requires (lo == k || lo + 1 == k) && (hi == k + 1 || hi == k + 2) && hi <= |ts|
    ensures UsedBytes(ts[lo..hi]) ==
      (if lo < k && !ts[lo].isFree then ts[lo].size else 0) + (if ts[k].isFree then 0 else ts[k].size)
      + (if k + 1 < hi && !ts[k + 1].isFree then ts[k + 1].size else 0)
  {
    var a, b, d := ts[lo..k], ts[k..k + 1], ts[k + 1..hi];
    assert ts[lo..hi] == a + b + d;
    UsedBytesConcat(a + b, d);
    UsedBytesConcat(a, b);
    Single(a, 0);
    Single(b, 0);
    Single(d, 0);
    assert b[0] == ts[k];
    assert lo < k ==> a[0] == ts[lo];
    assert k + 1 < hi ==> d[0] == ts[k + 1];
  }

  /** The free class and used bytes of at most one tile. */
  lemma Single(s: seq<Tile>, c: nat)
    requires |s| <= 1
    ensures FreeClass(s, c) == if s == [] then multiset{} else Own(s[0], c)
    ensures UsedBytes(s) == if s == [] || s[0].isFree then 0 else s[0].size
  {
    if s != [] {
      assert s[1..] == [];
    }
  }

  /** The run merging replaces around used block `k` is bounded by used blocks and covers the merged block's bytes. */
  lemma SpanFacts(ts: seq<Tile>, k: nat)
    requires Chained(ts) && Separated(ts) && k < |ts| && !ts[k].isFree && ts[k].size > 0
    ensures var (lo, hi, merged) := Span(ts, k);
      && (lo == k || (lo + 1 == k && ts[lo].isFree)) && (hi == k + 1 || (hi == k + 2 && ts[k + 1].isFree))
      && merged.isFree && merged.size > 0 && merged.at == ts[lo].at && TileEnd(merged) == TileEnd(ts[hi - 1])
      && (lo > 0 ==> !ts[lo - 1].isFree)
      && (hi < |ts| ==> !ts[hi].isFree)
  {
    if k > 0 && ts[k - 1].isFree {
      assert Abuts(ts[k - 1], ts[k]);
      if k >= 2 {
        assert Apart(ts[k - 2], ts[k - 1]);
      }
    }
    if k + 1 < |ts| && ts[k + 1].isFree {
      assert Abuts(ts[k], ts[k + 1]);
      if k + 2 < |ts| {
        assert Apart(ts[k + 1], ts[k + 2]);
      }
    }
  }

  /** Unlisting a listed free block trades it away. */
  lemma TradeOut(lists: seq<seq<nat>>, t: Tile)
    requires |lists| == MAX_FREE_LISTS && t.isFree && t.at in lists[ListOf(t.size)]
    ensures Traded(lists, Unlist(lists, t), [t], [])
  {
    forall c | 0 <= c < MAX_FREE_LISTS
      ensures multiset(Unlist(lists, t)[c]) + FreeClass([t], c) == multiset(lists[c]) + FreeClass([], c)
    {
      ShortClasses(t, t, c);
      UnlistClass(lists, t, c);
    }
  }

  /** Pushing a free block trades it in. */
  lemma TradeIn(lists: seq<seq<nat>>, t: Tile)
    requires |lists| == MAX_FREE_LISTS && t.isFree
    ensures Traded(lists, Push(lists, t), [], [t])
  {
    forall c | 0 <= c < MAX_FREE_LISTS
      ensures multiset(Push(lists, t)[c]) + FreeClass([], c) == multiset(lists[c]) + FreeClass([t], c)
    {
      ShortClasses(t, t, c);
      PushClass(lists, t, c);
    }
  }

  /** A used block is on no list, so the lists need not change for it. */
  lemma TradeUsed(lists: seq<seq<nat>>, u: Tile)
    requires |lists| == MAX_FREE_LISTS && !u.isFree
    ensures Traded(lists, lists, [u], [])
  {
    forall c | 0 <= c < MAX_FREE_LISTS
      ensures multiset(lists[c]) + FreeClass([u], c) == multiset(lists[c]) + FreeClass([], c)
    {
      ShortClasses(u, u, c);
    }
  }

  /** Two balanced exchanges in a row balance as one. */
  lemma Rebalance(a: multiset<nat>, b: multiset<nat>, c: multiset<nat>,
                  f1: multiset<nat>, f1': multiset<nat>, f2: multiset<nat>, f2': multiset<nat>)
    requires b + f1 == a + f1' && c + f2 == b + f2'
    ensures c + (f1 + f2) == a + (f1' + f2') && c + (f2 + f1) == a + (f2' + f1')
  {
    forall o
      ensures (c + (f1 + f2))[o] == (a + (f1' + f2'))[o]
    {
      assert (b + f1)[o] == (a + f1')[o];
      assert (c + f2)[o] == (b + f2')[o];
    }
    assert c + (f1 + f2) == a + (f1' + f2');
    assert f2 + f1 == f1 + f2 && f2' + f1' == f1' + f2';
  }

  /** Two trades in a row are one trade of both runs. */
  lemma TradeChain(a: seq<seq<nat>>, b: seq<seq<nat>>, c: seq<seq<nat>>,
                   m1: seq<Tile>, m1': seq<Tile>, m2: seq<Tile>, m2': seq<Tile>)
    requires Traded(a, b, m1, m1') && Traded(b, c, m2, m2')
    ensures Traded(a, c, m1 + m2, m1' + m2') && Traded(a, c, m2 + m1, m2' + m1')
  {
    forall i | 0 <= i < MAX_FREE_LISTS
      ensures multiset(c[i]) + FreeClass(m1 + m2, i) == multiset(a[i]) + FreeClass(m1' + m2', i)
      ensures multiset(c[i]) + FreeClass(m2 + m1, i) == multiset(a[i]) + FreeClass(m2' + m1', i)
    {
      FreeClassConcat(m1, m2, i);
      FreeClassConcat(m1', m2', i);
      FreeClassConcat(m2, m1, i);
      FreeClassConcat(m2', m1', i);
      Rebalance(multiset(a[i]), multiset(b[i]), multiset(c[i]),
                FreeClass(m1, i), FreeClass(m1', i), FreeClass(m2, i), FreeClass(m2', i));
    }
  }

  /** Unlisting a free block that may be absent from a run of at most one tile. */
  lemma TradeOutAll(lists: seq<seq<nat>>, m: seq<Tile>) returns (r: seq<seq<nat>>)
    requires |lists| == MAX_FREE_LISTS && |m| <= 1
    requires m != [] ==> m[0].isFree && m[0].at in lists[ListOf(m[0].size)]
    ensures r == (if m == [] then lists else Unlist(lists, m[0]))
    ensures Traded(lists, r, m, [])
  {
    if m == [] {
      r := lists;
      assert Traded(lists, r, m, []) by {
        forall c | 0 <= c < MAX_FREE_LISTS
          ensures multiset(r[c]) + FreeClass(m, c) == multiset(lists[c]) + FreeClass([], c)
        {
        }
      }
    } else {
      r := Unlist(lists, m[0]);
      assert m == [m[0]];
      TradeOut(lists, m[0]);
    }
  }

  /** The neighbours a merge absorbs are on their lists, the left one still
      after the right one has been unlinked. */
  lemma NeighboursListed(h: Heap, total: nat, k: nat)
    requires Good(h, total) && k < |h.tiles| && !h.tiles[k].isFree && h.tiles[k].size > 0
    ensures var (lo, hi, _) := Span(h.tiles, k);
      var ts := h.tiles;
      var l1 := if k + 1 < hi then Unlist(h.lists, ts[k + 1]) else h.lists;
      (k + 1 < hi ==> ts[k + 1].at in h.lists[ListOf(ts[k + 1].size)]) &&
      (lo < k ==> ts[k - 1].at in l1[ListOf(ts[k - 1].size)])
  {
    var ts := h.tiles;
    var (lo, hi, merged) := Span(ts, k);
    SpanFacts(ts, k);
    if k + 1 < hi {
      FreeListed(h, total, k + 1);
    }
    if lo < k {
      FreeListed(h, total, k - 1);
      if k + 1 < hi {
        TiledOrder(ts, k - 1, k + 1);
        var c := ListOf(ts[k - 1].size);
        UnlistClass(h.lists, ts[k + 1], c);
        assert ts[k - 1].at in multiset(h.lists[c]);
        assert ts[k - 1].at !in Own(ts[k + 1], c);
      }
    }
  }

  /** Relisting trades the run a merge replaces for the merged block, provided
      the absorbed neighbours are on their lists. */
  lemma RelistTrades(lists: seq<seq<nat>>, ts: seq<Tile>, k: nat)
    requires |lists| == MAX_FREE_LISTS && Chained(ts) && Separated(ts)
    requires k < |ts| && !ts[k].isFree && ts[k].size > 0
    requires var (lo, hi, _) := Span(ts, k);
      var l1 := if k + 1 < hi then Unlist(lists, ts[k + 1]) else lists;
      (k + 1 < hi ==> ts[k + 1].at in lists[ListOf(ts[k + 1].size)]) &&
      (lo < k ==> ts[k - 1].at in l1[ListOf(ts[k - 1].size)])
    ensures var (lo, hi, merged) := Span(ts, k);
      Traded(lists, Relist(lists, ts, k), ts[lo..hi], [merged])
  {
    var (lo, hi, merged) := Span(ts, k);
    SpanFacts(ts, k);
    var ls, rs := ts[lo..k], ts[k + 1..hi];
    assert ts[lo..hi] == ls + [ts[k]] + rs;
    if k + 1 < hi {
      assert rs == [ts[k + 1]];
    }
    if lo < k {
      assert ls == [ts[k - 1]];
    }
    var l1 := TradeOutAll(lists, rs);
    var l2 := TradeOutAll(l1, ls);
    JoinTrade(lists, l1, l2, ls, ts[k], rs, merged);
  }

  /** Merging unlinks the free neighbours it absorbs and lists the merged block. */
  lemma MergeTrades(h: Heap, total: nat, k: nat)
    requires Good(h, total) && k < |h.tiles| && !h.tiles[k].isFree && h.tiles[k].size > 0
    ensures var (lo, hi, merged) := Span(h.tiles, k);
      Traded(h.lists, Merge(h, total, k).lists, h.tiles[lo..hi], [merged])
  {
    NeighboursListed(h, total, k);
    RelistTrades(h.lists, h.tiles, k);
  }

  /** Unlisting the right then the left neighbour, keeping the used block and
      listing the merged block trades the whole run for the merged block. */
  lemma JoinTrade(lists: seq<seq<nat>>, l1: seq<seq<nat>>, l2: seq<seq<nat>>,
                  ls: seq<Tile>, t: Tile, rs: seq<Tile>, merged: Tile)
    requires Traded(lists, l1, rs, []) && Traded(l1, l2, ls, [])
    requires !t.isFree && merged.isFree
    ensures Traded(lists, Push(l2, merged), ls + [t] + rs, [merged])
  {
    var none: seq<Tile> := [];
    TradeUsed(l2, t);
    TradeChain(l1, l2, l2, ls, none, [t], none);
    assert none + none == none;
    TradeChain(lists, l1, l2, rs, none, ls + [t], none);
    TradeIn(l2, merged);
    TradeChain(lists, l2, Push(l2, merged), ls + [t] + rs, none, none, [merged]);
    assert ls + [t] + rs + none == ls + [t] + rs;
    assert none + [merged] == [merged];
  }

  /**
   * Replacing the run around used block `k` by the one free block it merges into keeps
   * the heap good when the lists trade the run's free blocks for it and used_size drops
   * by the released block's size.
   */
  lemma JoinKeepsGood(h: Heap, total: nat, k: nat, lists': seq<seq<nat>>, used': nat)
    requires Good(h, total) && k < |h.tiles| && !h.tiles[k].isFree && h.tiles[k].size > 0
    requires var (lo, hi, merged) := Span(h.tiles, k);
      Traded(h.lists, lists', h.tiles[lo..hi], [merged])
    requires used' + h.tiles[k].size == h.used
    ensures var (lo, hi, merged) := Span(h.tiles, k);
      Good(Heap(h.tiles[..lo] + [merged] + h.tiles[hi..], lists', used'), total)
  {
    var (lo, hi, merged) := Span(h.tiles, k);
    JoinSeams(h.tiles, k);
    SpliceKeepsGood(h, lo, hi, [merged], lists', used', total);
  }

  /** The merged block fits the seams of the run it replaces and holds no used bytes. */
  lemma JoinSeams(ts: seq<Tile>, k: nat)
    requires Chained(ts) && Separated(ts) && k < |ts| && !ts[k].isFree && ts[k].size > 0
    ensures var (lo, hi, merged) := Span(ts, k); var mid' := [merged];
      && Chained(mid') && Separated(mid')
      && mid'[0].at == ts[lo].at && TileEnd(mid'[|mid'| - 1]) == TileEnd(ts[hi - 1])
      && (lo > 0 ==> Apart(ts[lo - 1], mid'[0]))
      && (hi < |ts| ==> Apart(mid'[|mid'| - 1], ts[hi]))
      && (forall j :: 0 <= j < |mid'| && mid'[j].isFree ==> mid'[j].size > 0)
      && UsedBytes(ts[lo..hi]) == ts[k].size + UsedBytes(mid')
  {
    var (lo, hi, merged) := Span(ts, k);
    SpanFacts(ts, k);
    RunUsed(ts, lo, k, hi);
    ShortClasses(merged, merged, 0);
  }

  /** Releasing used block `k` and merging it with its free neighbours leaves a good heap. */
  lemma MergeKeepsGood(h: Heap, total: nat, k: nat)
    requires Good(h, total) && k < |h.tiles| && !h.tiles[k].isFree && h.tiles[k].size > 0
    ensures Good(Merge(h, total, k), total)
  {
    var r := Merge(h, total, k);
    var (lo, hi, merged) := Span(h.tiles, k);
    MergeTrades(h, total, k);
    UsedCovers(h.tiles, k);
    JoinKeepsGood(h, total, k, r.lists, h.used - h.tiles[k].size);
    assert r == Heap(h.tiles[..lo] + [merged] + h.tiles[hi..], r.lists, h.used - h.tiles[k].size);
  }

  // ---------------------------------------------------------------------------------
  // What allocating and releasing promise
  // ---------------------------------------------------------------------------------

  /** memory_pool_alloc keeps the heap good, whatever it returns. */
  lemma AllocKeepsGood(h: Heap, total: nat, alignment: nat, size: nat)
    requires Good(h, total) && size < WORD && IsPowerOfTwo(alignment)
    ensures Good(Alloc(h, total, alignment, size).0, total)
  {
    var aligned := Aligned(size, alignment);
    if size != 0 && !TooLarge(aligned, total, h.used) {
      var cs := Candidates(h.lists, aligned);
      var best := BestFit(View(h.tiles), aligned, cs);
      if best.Some? {
        BestFitIsBest(View(h.tiles), aligned, cs);
        ScanOrderEntries(h.lists, FreeListIndex(aligned), |h.lists|, best.value);
        TakeKeepsGood(h, total, best.value.0, best.value.1, aligned);
      }
    }
  }

  /** Take returns the payload of block `o`, which is afterwards a used block of at least `aligned` bytes. */
  lemma TakenBlock(h: Heap, total: nat, o: nat, i: nat, aligned: nat)
    requires Good(h, total) && i < MAX_FREE_LISTS && o in h.lists[i] && Fits(View(h.tiles), o, aligned)
    ensures var r := Take(h, total, o, i, aligned); var v := View(r.0.tiles);
      r.1 == Some(o + HEADER_SIZE) && o in v && !v[o].isFree && v[o].size >= aligned
  {
    var k, t := TakeShape(h, total, o, i, aligned);
    TakeKeepsGood(h, total, o, i, aligned);
    var ts' := Take(h, total, o, i, aligned).0.tiles;
    assert k < |ts'| && ts'[k].at == o && !ts'[k].isFree && ts'[k].size >= aligned;
    FindTile(ts', k);
    ViewAt(ts', o);
  }

  /**
   * memory_pool_alloc returns NULL exactly for a zero size, a request past the unused
   * bytes, or no fitting block on the visited lists, and then changes nothing.
   */
  lemma AllocRefuses(h: Heap, total: nat, alignment: nat, size: nat)
    requires Good(h, total) && size < WORD && IsPowerOfTwo(alignment)
    ensures var r := Alloc(h, total, alignment, size);
      var aligned := Aligned(size, alignment);
      && (r.1.None? <==> size == 0 || TooLarge(aligned, total, h.used) ||
                         forall c :: c in Candidates(h.lists, aligned) ==> !Fits(View(h.tiles), c.0, aligned))
      && (r.1.None? ==> r.0 == h)
  {
    var aligned := Aligned(size, alignment);
    if size != 0 && !TooLarge(aligned, total, h.used) {
      var cs := Candidates(h.lists, aligned);
      var best := BestFit(View(h.tiles), aligned, cs);
      BestFitIsBest(View(h.tiles), aligned, cs);
      if best.Some? {
        ScanOrderEntries(h.lists, FreeListIndex(aligned), |h.lists|, best.value);
        TakenBlock(h, total, best.value.0, best.value.1, aligned);
      }
    }
  }

  /**
   * A pointer memory_pool_alloc returns is the payload of a fitting free block no larger
   * than any other fitting block on the visited lists, and that block is in use afterwards.
   */
  lemma AllocGrants(h: Heap, total: nat, alignment: nat, size: nat)
    requires Good(h, total) && size < WORD && IsPowerOfTwo(alignment)
    ensures var r := Alloc(h, total, alignment, size);
      var aligned := Aligned(size, alignment);
      var hs := View(h.tiles);
      r.1.Some? ==>
        var o := r.1.value - HEADER_SIZE;
        && r.1.value >= HEADER_SIZE && Fits(hs, o, aligned)
        && (forall c :: c in Candidates(h.lists, aligned) && Fits(hs, c.0, aligned) ==> hs[o].size <= hs[c.0].size)
        && o in View(r.0.tiles) && !View(r.0.tiles)[o].isFree && View(r.0.tiles)[o].size >= aligned
  {
    var aligned := Aligned(size, alignment);
    if size != 0 && !TooLarge(aligned, total, h.used) {
      var cs := Candidates(h.lists, aligned);
      var best := BestFit(View(h.tiles), aligned, cs);
      if best.Some? {
        BestFitIsBest(View(h.tiles), aligned, cs);
        ScanOrderEntries(h.lists, FreeListIndex(aligned), |h.lists|, best.value);
        TakenBlock(h, total, best.value.0, best.value.1, aligned);
      }
    }
  }

  /** memory_pool_free keeps the heap good, whatever pointer it is given. */
  lemma FreeKeepsGood(h: Heap, total: nat, ptr: Option<nat>)
    requires Good(h, total)
    ensures Good(Free(h, total, ptr).0, total)
  {
    if ptr.Some? {
      var b := BlockOf(ptr.value);
      if ValidateBlock(View(h.tiles), b) {
        ViewAt(h.tiles, b.value);
        var k := Find(h.tiles, b.value);
        if !h.tiles[k].isFree {
          MergeKeepsGood(h, total, k);
        }
      }
    }
  }

  /**
   * Every offset on list `i` is the header of a live free block that validates and whose
   * size get_free_list_index puts on list `i`.
   */
  lemma ListedIsLive(h: Heap, total: nat, i: nat, j: nat)
    requires Good(h, total) && i < MAX_FREE_LISTS && j < |h.lists[i]|
    ensures var o := h.lists[i][j]; var hs := View(h.tiles);
      o in hs && ValidHeader(hs[o]) && hs[o].isFree && FreeListIndex(hs[o].size) == i
  {
    var o := h.lists[i][j];
    ListedTile(h, total, o, i);
    ViewAt(h.tiles, o);
    ListOfIsFreeListIndex(h.tiles[Find(h.tiles, o)].size);
  }

  /** No offset is on a list twice. */
  lemma ListedOnce(h: Heap, total: nat, i: nat, j1: nat, j2: nat)
    requires Good(h, total) && i < MAX_FREE_LISTS && j1 < j2 < |h.lists[i]|
    ensures h.lists[i][j1] != h.lists[i][j2]
  {
    var s := h.lists[i];
    if s[j1] == s[j2] {
      var o := s[j1];
      assert s == s[..j2] + s[j2..];
      assert o in s[..j2] && o in s[j2..];
      assert multiset(s) == multiset(s[..j2]) + multiset(s[j2..]);
      FreeClassOnce(h.tiles, i, o);
      assert false;
    }
  }

  /**
   * Two different list entries, on the same list or on two lists, are blocks whose
   * header and payload do not overlap.
   */
  lemma ListedApart(h: Heap, total: nat, i1: nat, j1: nat, i2: nat, j2: nat)
    requires Good(h, total) && i1 < MAX_FREE_LISTS && j1 < |h.lists[i1]| && i2 < MAX_FREE_LISTS && j2 < |h.lists[i2]|
    requires (i1, j1) != (i2, j2)
    ensures var o1, o2 := h.lists[i1][j1], h.lists[i2][j2]; var hs := View(h.tiles);
      o1 in hs && o2 in hs &&
      (o1 + HEADER_SIZE + hs[o1].size <= o2 || o2 + HEADER_SIZE + hs[o2].size <= o1)
  {
    var o1, o2 := h.lists[i1][j1], h.lists[i2][j2];
    ListedTile(h, total, o1, i1);
    ListedTile(h, total, o2, i2);
    ViewAt(h.tiles, o1);
    ViewAt(h.tiles, o2);
    if i1 == i2 {
      if j1 < j2 {
        ListedOnce(h, total, i1, j1, j2);
      } else {
        ListedOnce(h, total, i1, j2, j1);
      }
    }
    var k1, k2 := Find(h.tiles, o1), Find(h.tiles, o2);
    if k1 < k2 {
      TiledOrder(h.tiles, k1, k2);
    } else if k2 < k1 {
      TiledOrder(h.tiles, k2, k1);
    }
  }
}
