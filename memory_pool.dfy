/**
 * The block allocator of apps/intermediate/memory_pool/src/memory_pool.c.
 *
 * A pool owns one arena of `totalSize` bytes. The arena is carved into blocks, each
 * prefixed by a header of HEADER_SIZE bytes; a block is named by the byte offset of its
 * header inside the arena, and its payload starts HEADER_SIZE bytes later. Headers live
 * in `headers`, keyed by offset: like the bytes of the arena, a header that a merge made
 * redundant stays where it was.
 *
 * A header has ONE next/prev pair, used both as the physical chain (split, coalesce,
 * validation) and as the free-list links (add/remove). The model performs exactly the
 * writes the C code performs on that pair. The 32 size-class free lists are modelled as
 * sequences of block offsets (head first), which is what those links are meant to
 * describe; each list's `count` is kept separately and updated where the C code updates
 * it (add_to_free_list and remove_from_free_list).
 *
 * `size_t` arithmetic on sizes and counters wraps modulo WORD = 2^64, as in the C code.
 */
module MemoryPool {
  import opened Wrappers
  import opened SizeT

  /** sizeof(BlockHeader) on an LP64 target. */
  const HEADER_SIZE: nat := 48
  const DEFAULT_ALIGNMENT: nat := 8
  const MIN_BLOCK_SIZE: nat := 16
  const POOL_SIGNATURE: nat := 0xDEADBEEF
  const BLOCK_SIGNATURE: nat := 0xCAFEBABE
  const MAX_FREE_LISTS: nat := 32
  /** validate_pool gives up after this many blocks (a cycle guard). */
  const MAX_CHECKED_BLOCKS: nat := 10000
  /** Size of the pool's name buffer, including its terminating NUL. */
  const NAME_CAPACITY: nat := 64

  // ---------------------------------------------------------------------------------
  // Arithmetic: powers of two and bitwise AND on naturals
  // ---------------------------------------------------------------------------------

  function Pow2(k: nat): (r: nat)
    ensures r >= 1
  {
    if k == 0 then 1 else 2 * Pow2(k - 1)
  }

  ghost predicate IsPowerOfTwo(n: nat) {
    exists k :: k < 64 && n == Pow2(k)
  }

  /** Bitwise AND of two naturals, one bit at a time from the least significant. */
  function BitAnd(x: nat, y: nat): nat
    decreases x
  {
    if x == 0 || y == 0 then 0
    else 2 * BitAnd(x / 2, y / 2) + (if x % 2 == 1 && y % 2 == 1 then 1 else 0)
  }

  function Max(a: nat, b: nat): nat {
    if a >= b then a else b
  }

  lemma {:induction false} Pow2Add(a: nat, b: nat)
    ensures Pow2(a + b) == Pow2(a) * Pow2(b)
  {
    if a > 0 {
      Pow2Add(a - 1, b);
    }
  }

  lemma {:induction false} Pow2Monotone(k: nat, n: nat)
    requires k <= n
    ensures Pow2(k) <= Pow2(n)
  {
    if k < n {
      Pow2Monotone(k, n - 1);
    }
  }

  lemma Pow2Is16()
    ensures Pow2(16) == 0x1_0000
  {
    assert Pow2(4) == 16;
    Pow2Add(4, 4);
    Pow2Add(8, 8);
  }

  lemma Pow2Is64()
    ensures Pow2(64) == WORD
  {
    Pow2Is16();
    assert Pow2(32) == 0x1_0000_0000 by { Pow2Add(16, 16); }
    Pow2Add(32, 32);
  }

  lemma DivModUnique(x: int, d: int, t: int, r: int)
    requires d > 0 && 0 <= r < d && x == d * t + r
    ensures x / d == t && x % d == r
  {
    var k := x / d - t;
    assert d * k == r - x % d;
    assert k == 0;
  }

  lemma ModDouble(x: nat, m: nat)
    requires m > 0
    ensures x % (2 * m) == x % 2 + 2 * ((x / 2) % m)
  {
    var q := x / 2;
    var t := q / m;
    var s := q % m;
    assert q == m * t + s;
    assert x == 2 * q + x % 2;
    assert x == (2 * m) * t + (2 * s + x % 2);
    DivModUnique(x, 2 * m, t, 2 * s + x % 2);
  }

  /** Two multiples of `a` less than `a` apart are equal. */
  lemma MultiplesApart(m1: nat, m2: nat, a: nat)
    requires a > 0 && m1 % a == 0 && m2 % a == 0 && m1 <= m2 < m1 + a
    ensures m1 == m2
  {
    assert m1 == a * (m1 / a);
    DivModUnique(m2, a, m1 / a, m2 - m1);
  }

  lemma {:induction false} BitAndAllOnes(x: nat, n: nat)
    requires x < Pow2(n)
    ensures BitAnd(x, Pow2(n) - 1) == x
  {
    if x != 0 {
      assert n > 0;
      BitAndAllOnes(x / 2, n - 1);
    }
  }

  /** AND with the mask 2^n - 2^k clears the k low bits of an n-bit number. */
  lemma {:induction false} BitAndClearsLow(x: nat, n: nat, k: nat)
    requires k <= n && x < Pow2(n)
    ensures Pow2(k) <= Pow2(n)
    ensures BitAnd(x, Pow2(n) - Pow2(k)) == x - x % Pow2(k)
  {
    Pow2Monotone(k, n);
    if k == 0 {
      BitAndAllOnes(x, n);
      DivModUnique(x, 1, x, 0);
    } else if k == n {
      DivModUnique(x, Pow2(n), 0, x);
    } else if x == 0 {
      DivModUnique(0, Pow2(k), 0, 0);
    } else {
      var half, n', k' := x / 2, n - 1, k - 1;
      BitAndClearsLow(half, n', k');
      ClearsLowStep(x, n, k, half, n', k');
    }
  }

  /** The induction step of BitAndClearsLow, from the fact for the upper n - 1 bits of `x`. */
  lemma ClearsLowStep(x: nat, n: nat, k: nat, half: nat, n': nat, k': nat)
    requires 0 < k < n && 0 < x && half == x / 2 && n' == n - 1 && k' == k - 1
    requires Pow2(k') <= Pow2(n')
    requires BitAnd(half, Pow2(n') - Pow2(k')) == half - half % Pow2(k')
    ensures Pow2(k) <= Pow2(n) && BitAnd(x, Pow2(n) - Pow2(k)) == x - x % Pow2(k)
  {
    var p, q, pk, pn := Pow2(k'), Pow2(n'), Pow2(k), Pow2(n);
    assert pk == 2 * p && pn == 2 * q;
    Pow2Monotone(k, n');
    var z := q - p;
    BitAndEven(x, z);
    ModDouble(x, p);
    ClearLowArith(x, half, x % 2, half % p, BitAnd(x, 2 * z), x % pk);
  }

  lemma ClearLowArith(x: int, half: int, bit: int, lo: int, a: int, m: int)
    requires x == 2 * half + bit && a == 2 * (half - lo) && m == bit + 2 * lo
    ensures a == x - m
  {
  }

  lemma BitAndEven(x: nat, z: nat)
    requires x > 0 && z > 0
    ensures BitAnd(x, 2 * z) == 2 * BitAnd(x / 2, z)
  {
    DivModUnique(2 * z, 2, z, 0);
  }

  // ---------------------------------------------------------------------------------
  // align_size and get_free_list_index
  // ---------------------------------------------------------------------------------

  /** `(size + alignment - 1) & ~(alignment - 1)` evaluated on size_t. */
  function AlignSize(size: nat, alignment: nat): nat
    requires size < WORD && alignment < WORD
  {
    BitAnd((size + alignment + WORD - 1) % WORD, WORD - 1 - (alignment + WORD - 1) % WORD)
  }

  /** Rounding down to a multiple of `a` moves by less than `a`. */
  lemma RoundDown(x: nat, a: nat)
    requires a > 0
    ensures (x - x % a) % a == 0 && x - x % a <= x < x - x % a + a
  {
    DivModUnique(x - x % a, a, x / a, 0);
  }

  lemma Pow2Below64(k: nat)
    requires k < 64
    ensures Pow2(k) < WORD
  {
    Pow2Is64();
    Pow2Monotone(k, 63);
    assert Pow2(64) == 2 * Pow2(63);
  }

  /** `~(a - 1)` on size_t, for a = 2^k, is the mask 2^64 - 2^k. */
  lemma MaskOfPowerOfTwo(k: nat)
    requires k < 64
    ensures Pow2(k) < WORD && WORD - 1 - (Pow2(k) + WORD - 1) % WORD == WORD - Pow2(k)
  {
    Pow2Below64(k);
    DivModUnique(Pow2(k) + WORD - 1, WORD, 1, Pow2(k) - 1);
  }

  lemma ClearLowBits(x: nat, k: nat)
    requires k < 64 && x < WORD
    ensures Pow2(k) < WORD && BitAnd(x, WORD - Pow2(k)) == x - x % Pow2(k)
  {
    Pow2Below64(k);
    Pow2Is64();
    BitAndClearsLow(x, 64, k);
  }

  lemma AlignSizeWithMask(size: nat, a: nat, mask: nat)
    requires size < WORD && a < WORD && mask == WORD - 1 - (a + WORD - 1) % WORD
    ensures AlignSize(size, a) == BitAnd((size + a + WORD - 1) % WORD, mask)
  {
  }

  /** With a power-of-two alignment the mask clears the low bits of the wrapped sum. */
  lemma AlignSizeRoundsDown(size: nat, k: nat)
    requires k < 64 && size < WORD
    ensures Pow2(k) < WORD
    ensures var a := Pow2(k); var x := (size + a + WORD - 1) % WORD;
      AlignSize(size, a) == x - x % a
  {
    var a := Pow2(k);
    MaskOfPowerOfTwo(k);
    var x := (size + a + WORD - 1) % WORD;
    AlignSizeWithMask(size, a, WORD - a);
    assert AlignSize(size, a) == BitAnd(x, WORD - a);
    ClearLowBits(x, k);
  }

  /**
   * For a power-of-two alignment, align_size yields the least multiple of the alignment
   * that is at least `size`, unless `size + alignment - 1` overflows size_t, in which case
   * the sum wraps and the result is 0.
   */
  lemma AlignSizeOfPowerOfTwo(size: nat, k: nat)
    requires k < 64 && size < WORD
    ensures Pow2(k) < WORD
    ensures var a, r := Pow2(k), AlignSize(size, Pow2(k));
      && r < WORD
      && (size + a - 1 < WORD ==>
            r % a == 0 && size <= r < size + a
            && forall m: nat :: size <= m && m % a == 0 ==> r <= m)
      && (size + a - 1 >= WORD ==> r == 0)
  {
    var a := Pow2(k);
    AlignSizeRoundsDown(size, k);
    var x := (size + a + WORD - 1) % WORD;
    var r := x - x % a;
    if size + a - 1 < WORD {
      assert x == size + a - 1 by {
        DivModUnique(size + a + WORD - 1, WORD, 1, size + a - 1);
      }
      RoundDown(x, a);
      forall m: nat | size <= m && m % a == 0
        ensures r <= m
      {
        if m < r {
          MultiplesApart(m, r, a);
        }
      }
    } else {
      assert x == size + a - 1 - WORD by {
        DivModUnique(size + a + WORD - 1, WORD, 2, size + a - 1 - WORD);
      }
      DivModUnique(x, a, 0, x);
    }
  }

  /** A request of SIZE_MAX bytes is aligned to 0 bytes: the overflow of line 136. */
  lemma AlignSizeWrapsToZero()
    ensures AlignSize(WORD - 1, DEFAULT_ALIGNMENT) == 0
  {
    assert Pow2(3) == DEFAULT_ALIGNMENT;
    AlignSizeOfPowerOfTwo(WORD - 1, 3);
  }

  /** Aligning twice is aligning once, for a power-of-two alignment (overflow included). */
  lemma AlignSizeIdempotent(size: nat, k: nat)
    requires k < 64 && size < WORD
    ensures Pow2(k) < WORD && AlignSize(size, Pow2(k)) < WORD
    ensures AlignSize(AlignSize(size, Pow2(k)), Pow2(k)) == AlignSize(size, Pow2(k))
  {
    var a := Pow2(k);
    AlignSizeOfPowerOfTwo(size, k);
    var r := AlignSize(size, a);
    AlignSizeOfPowerOfTwo(r, k);
    var r2 := AlignSize(r, a);
    if r == 0 {
      DivModUnique(r2, a, 0, r2);
    } else {
      assert size + a - 1 < WORD;
      // r is a multiple of a below WORD, itself a multiple of a, so r + a - 1 < WORD.
      Pow2Is64();
      Pow2Add(k, 64 - k);
      assert WORD == a * Pow2(64 - k);
      DivModUnique(WORD, a, Pow2(64 - k), 0);
      if r + a - 1 >= WORD {
        MultiplesApart(r, WORD, a);
      }
      MultiplesApart(r, r2, a);
    }
  }

  /** Bucket index for sizes above 4096: thresholds double from 8192, capped at bucket 31. */
  function LargeListIndex(size: nat, index: nat): (r: nat)
    requires 9 <= index <= MAX_FREE_LISTS - 1
    ensures index <= r <= MAX_FREE_LISTS - 1
    decreases MAX_FREE_LISTS - index
  {
    if index == MAX_FREE_LISTS - 1 || size <= BucketThreshold(index) then index
    else LargeListIndex(size, index + 1)
  }

  /** Largest size held by bucket `index` >= 9. */
  function BucketThreshold(index: nat): nat
    requires index >= 9
  {
    8192 * Pow2(index - 9)
  }

  /** get_free_list_index, as a function of the block size. */
  function FreeListIndex(size: nat): (r: nat)
    ensures r < MAX_FREE_LISTS
  {
    if size <= 16 then 0
    else if size <= 32 then 1
    else if size <= 64 then 2
    else if size <= 128 then 3
    else if size <= 256 then 4
    else if size <= 512 then 5
    else if size <= 1024 then 6
    else if size <= 2048 then 7
    else if size <= 4096 then 8
    else LargeListIndex(size, 9)
  }

  lemma {:induction false} LargeListIndexIsLeast(size: nat, index: nat)
    requires 9 <= index <= MAX_FREE_LISTS - 1
    requires index == 9 || size > BucketThreshold(index - 1)
    ensures var r := LargeListIndex(size, index);
      (r == MAX_FREE_LISTS - 1 || size <= BucketThreshold(r)) && (r == 9 || size > BucketThreshold(r - 1))
    decreases MAX_FREE_LISTS - index
  {
    if !(index == MAX_FREE_LISTS - 1 || size <= BucketThreshold(index)) {
      LargeListIndexIsLeast(size, index + 1);
    }
  }

  /**
   * Sizes above 4096 land in the first bucket from 9 whose threshold 8192 * 2^(i-9) covers
   * them, and in bucket 31 when no threshold does.
   */
  lemma FreeListIndexOfLargeSize(size: nat)
    requires size > 4096
    ensures var r := FreeListIndex(size);
      9 <= r <= MAX_FREE_LISTS - 1
      && (r == MAX_FREE_LISTS - 1 || size <= BucketThreshold(r))
      && (r == 9 || size > BucketThreshold(r - 1))
  {
    LargeListIndexIsLeast(size, 9);
  }

  lemma {:induction false} LargeListIndexMonotone(a: nat, b: nat, index: nat)
    requires a <= b && 9 <= index <= MAX_FREE_LISTS - 1
    ensures LargeListIndex(a, index) <= LargeListIndex(b, index)
    decreases MAX_FREE_LISTS - index
  {
    if !(index == MAX_FREE_LISTS - 1 || a <= BucketThreshold(index)) {
      LargeListIndexMonotone(a, b, index + 1);
    }
  }

  /** A larger block never goes to an earlier bucket. */
  lemma FreeListIndexMonotone(a: nat, b: nat)
    requires a <= b
    ensures FreeListIndex(a) <= FreeListIndex(b)
  {
    if a > 4096 {
      LargeListIndexMonotone(a, b, 9);
    }
  }

  // ---------------------------------------------------------------------------------
  // Block headers
  // ---------------------------------------------------------------------------------

  datatype Header = Header(
    signature: nat,
    size: nat,            // payload bytes, excluding the header
    isFree: bool,
    next: Option<nat>,    // the one link pair: physical chain and free list alike
    prev: Option<nat>,
    magic: nat)

  /** validate_block on a header that exists. */
  predicate ValidHeader(h: Header) {
    h.signature == BLOCK_SIGNATURE && h.magic == BLOCK_SIGNATURE && h.size > 0
  }

  /** Every link stored in a header names a header. */
  ghost predicate Closed(hs: map<nat, Header>) {
    forall k {:trigger hs[k]} :: k in hs ==>
      (hs[k].next.Some? ==> hs[k].next.value in hs) && (hs[k].prev.Some? ==> hs[k].prev.value in hs)
  }

  /** Every header describes a region that ends inside the arena. */
  ghost predicate InArena(hs: map<nat, Header>, total: nat) {
    forall k {:trigger hs[k]} :: k in hs ==> k + HEADER_SIZE + hs[k].size <= total
  }

  /** `after` differs from `before` at most in links and by grown sizes. */
  ghost predicate Reshaped(before: map<nat, Header>, after: map<nat, Header>) {
    && after.Keys == before.Keys
    && forall k {:trigger before[k]} :: k in before ==>
         && after[k].signature == before[k].signature && after[k].magic == before[k].magic
         && after[k].isFree == before[k].isFree && after[k].size >= before[k].size
  }

  function Head(s: seq<nat>): Option<nat> {
    if s == [] then None else Some(s[0])
  }

  /** Drops the first occurrence of `x`, if any. */
  function RemoveFirst(s: seq<nat>, x: nat): (r: seq<nat>)
    ensures x in s ==> multiset(r) == multiset(s) - multiset{x} && |r| == |s| - 1
    ensures x !in s ==> r == s
    ensures forall y :: y in r ==> y in s
  {
    if s == [] then []
    else
      assert s == [s[0]] + s[1..];
      if s[0] == x then s[1..] else [s[0]] + RemoveFirst(s[1..], x)
  }

  /** `after` has the same headers as `before` except, possibly, for their links. */
  ghost predicate Relinked(before: map<nat, Header>, after: map<nat, Header>) {
    && after.Keys == before.Keys
    && forall k {:trigger before[k]} :: k in before ==>
         && after[k].signature == before[k].signature && after[k].magic == before[k].magic
         && after[k].isFree == before[k].isFree && after[k].size == before[k].size
  }

  function SetNext(hs: map<nat, Header>, k: nat, v: Option<nat>): (r: map<nat, Header>)
    requires k in hs && Closed(hs) && (v.Some? ==> v.value in hs)
    ensures Closed(r) && Relinked(hs, r)
    ensures r[k].next == v && r[k].prev == hs[k].prev
    ensures forall j :: j in hs && j != k ==> r[j] == hs[j]
  {
    hs[k := hs[k].(next := v)]
  }

  function SetPrev(hs: map<nat, Header>, k: nat, v: Option<nat>): (r: map<nat, Header>)
    requires k in hs && Closed(hs) && (v.Some? ==> v.value in hs)
    ensures Closed(r) && Relinked(hs, r)
    ensures r[k].prev == v && r[k].next == hs[k].next
    ensures forall j :: j in hs && j != k ==> r[j] == hs[j]
  {
    hs[k := hs[k].(prev := v)]
  }

  /** The link writes of remove_from_free_list (lines 391-401). */
  function Unlink(hs: map<nat, Header>, b: nat): (r: map<nat, Header>)
    requires b in hs && Closed(hs)
    ensures Closed(r) && Relinked(hs, r)
    ensures r[b].next == None && r[b].prev == None
  {
    var h := hs[b];
    var hs1 := if h.next.Some? then SetPrev(hs, h.next.value, h.prev) else hs;
    var hs2 := if h.prev.Some? then SetNext(hs1, h.prev.value, h.next) else hs1;
    SetPrev(SetNext(hs2, b, None), b, None)
  }

  /** The link writes of add_to_free_list (lines 419-424): `b` becomes the list's head. */
  function Pushed(hs: map<nat, Header>, b: nat, head: Option<nat>): (r: map<nat, Header>)
    requires b in hs && Closed(hs) && (head.Some? ==> head.value in hs)
    ensures Closed(r) && Relinked(hs, r)
  {
    var hs1 := SetPrev(SetNext(hs, b, head), b, None);
    if head.Some? then SetPrev(hs1, head.value, Some(b)) else hs1
  }

  /**
   * The writes of split_block (lines 277-293) once it decided to split: a free header for
   * the remainder right after `aligned` payload bytes, the block shrunk to `aligned`, and
   * the chain relinked through the new header.
   */
  function SplitHeaders(hs: map<nat, Header>, b: nat, aligned: nat): (r: map<nat, Header>)
    requires b in hs && Closed(hs) && hs[b].size >= aligned + HEADER_SIZE
    ensures Closed(r) && r.Keys == hs.Keys + {b + HEADER_SIZE + aligned}
    ensures var nb := b + HEADER_SIZE + aligned;
      && r[b].size == aligned && r[b].isFree == hs[b].isFree
      && r[b].signature == hs[b].signature && r[b].magic == hs[b].magic && r[b].next == Some(nb)
      && r[nb].size == hs[b].size - aligned - HEADER_SIZE && r[nb].isFree
      && r[nb].signature == BLOCK_SIGNATURE && r[nb].magic == BLOCK_SIGNATURE
      && forall k {:trigger hs[k]} :: k in hs && k != b && k != nb ==>
           r[k].size == hs[k].size && r[k].isFree == hs[k].isFree
           && r[k].signature == hs[k].signature && r[k].magic == hs[k].magic
  {
    var nb := b + HEADER_SIZE + aligned;
    var h := hs[b];
    var hs1 := Placed(hs, nb, Header(BLOCK_SIGNATURE, h.size - aligned - HEADER_SIZE, true, None, Some(b), BLOCK_SIGNATURE));
    var hs2 := Resized(hs1, b, aligned, h.next);
    var hs3 := if h.next.Some? then SetNext(SetPrev(hs2, h.next.value, Some(nb)), nb, h.next) else hs2;
    assert Relinked(hs2, hs3);
    SetNext(hs3, b, Some(nb))
  }

  /** A header written at `k`, over whatever stood there. */
  function Placed(hs: map<nat, Header>, k: nat, h: Header): (r: map<nat, Header>)
    requires Closed(hs) && (h.next.Some? ==> h.next.value in hs) && (h.prev.Some? ==> h.prev.value in hs)
    ensures Closed(r) && r.Keys == hs.Keys + {k} && r[k] == h
    ensures forall j {:trigger hs[j]} :: j in hs && j != k ==> r[j] == hs[j]
  {
    hs[k := h]
  }

  /** The successor test of coalesce_blocks (lines 320-325). */
  predicate MergesNext(hs: map<nat, Header>, b: nat)
    requires b in hs
  {
    var h := hs[b];
    h.next.Some? && h.next.value in hs && hs[h.next.value].isFree && ValidHeader(hs[h.next.value])
    && b + HEADER_SIZE + h.size == h.next.value
  }

  /** The predecessor test of coalesce_blocks (lines 345-350). */
  predicate MergesPrev(hs: map<nat, Header>, b: nat)
    requires b in hs
  {
    var h := hs[b];
    h.prev.Some? && h.prev.value in hs && hs[h.prev.value].isFree && ValidHeader(hs[h.prev.value])
    && h.prev.value + HEADER_SIZE + hs[h.prev.value].size == b
  }

  /** Header `k` takes a new size and a new successor link. */
  function Resized(hs: map<nat, Header>, k: nat, size: nat, next: Option<nat>): (r: map<nat, Header>)
    requires k in hs && Closed(hs) && (next.Some? ==> next.value in hs)
    ensures Closed(r) && r.Keys == hs.Keys
    ensures r[k] == hs[k].(size := size, next := next)
    ensures forall j {:trigger hs[j]} :: j in hs && j != k ==> r[j] == hs[j]
  {
    hs[k := hs[k].(size := size, next := next)]
  }

  /**
   * The writes shared by both merges of coalesce_blocks: header `k` grows to `size` bytes,
   * takes `next` as its successor, and that successor, if any, points back at `k`.
   */
  function Grown(hs: map<nat, Header>, k: nat, size: nat, next: Option<nat>, total: nat): (r: map<nat, Header>)
    requires k in hs && Closed(hs) && InArena(hs, total) && (next.Some? ==> next.value in hs)
    requires hs[k].size <= size && k + HEADER_SIZE + size <= total
    ensures Closed(r) && InArena(r, total) && Reshaped(hs, r)
    ensures r[k].size == size && SizesKeptExcept(hs, r, k)
  {
    var hs1 := Resized(hs, k, size, next);
    assert Reshaped(hs, hs1) && InArena(hs1, total) && SizesKeptExcept(hs, hs1, k);
    if next.Some? then SetPrev(hs1, next.value, Some(k)) else hs1
  }

  /** One forward merge (lines 327-332): `b` absorbs the block right after it. */
  function AbsorbNext(hs: map<nat, Header>, b: nat, total: nat): (r: map<nat, Header>)
    requires b in hs && Closed(hs) && InArena(hs, total) && MergesNext(hs, b)
    ensures Closed(r) && InArena(r, total) && Reshaped(hs, r)
    ensures r[b].size == hs[b].size + HEADER_SIZE + hs[hs[b].next.value].size
    ensures SizesKeptExcept(hs, r, b)
  {
    var nh := hs[hs[b].next.value];
    Grown(hs, b, hs[b].size + HEADER_SIZE + nh.size, nh.next, total)
  }

  /** One backward merge (lines 352-357): the block right before `b` absorbs it. */
  function AbsorbIntoPrev(hs: map<nat, Header>, b: nat, total: nat): (r: map<nat, Header>)
    requires b in hs && Closed(hs) && InArena(hs, total) && MergesPrev(hs, b)
    ensures Closed(r) && InArena(r, total) && Reshaped(hs, r)
    ensures var p := hs[b].prev.value; r[p].size == hs[p].size + HEADER_SIZE + hs[b].size
    ensures SizesKeptExcept(hs, r, hs[b].prev.value)
  {
    var p := hs[b].prev.value;
    Grown(hs, p, hs[p].size + HEADER_SIZE + hs[b].size, hs[b].next, total)
  }

  // ---------------------------------------------------------------------------------
  // What coalescing conserves
  // ---------------------------------------------------------------------------------

  /** First byte past the block at `k`. */
  function End(hs: map<nat, Header>, k: nat): nat
    requires k in hs
  {
    k + HEADER_SIZE + hs[k].size
  }

  /** `run` lists headers of `hs` that follow each other in memory with no gap. */
  ghost predicate Consecutive(hs: map<nat, Header>, run: seq<nat>) {
    && (forall k :: 0 <= k < |run| ==> run[k] in hs)
    && (forall k {:trigger End(hs, run[k])} :: 0 <= k < |run| - 1 ==> End(hs, run[k]) == run[k + 1])
  }

  /** Every header of `run` is a valid, free block of `hs`. */
  ghost predicate AllFreeAndValid(hs: map<nat, Header>, run: seq<nat>) {
    forall k :: 0 <= k < |run| ==> run[k] in hs && hs[run[k]].isFree && ValidHeader(hs[run[k]])
  }

  lemma {:induction false} ConsecutiveOrdered(hs: map<nat, Header>, run: seq<nat>, i: nat, j: nat)
    requires Consecutive(hs, run) && i < j < |run|
    ensures End(hs, run[i]) <= run[j]
    decreases j - i
  {
    if i + 1 < j {
      ConsecutiveOrdered(hs, run, i + 1, j);
    }
  }

  /** Sizes in `hs1` and `hs` agree on every member of `run`. */
  ghost predicate SameSizesOn(hs: map<nat, Header>, hs1: map<nat, Header>, run: seq<nat>) {
    forall k :: 0 <= k < |run| ==> run[k] in hs && run[k] in hs1 && hs1[run[k]].size == hs[run[k]].size
  }

  lemma {:induction false} ConsecutiveTransfer(hs: map<nat, Header>, hs1: map<nat, Header>, run: seq<nat>)
    requires Consecutive(hs1, run) && SameSizesOn(hs, hs1, run)
    ensures Consecutive(hs, run)
  {
    forall k | 0 <= k < |run| - 1
      ensures End(hs, run[k]) == run[k + 1]
    {
      assert End(hs1, run[k]) == run[k + 1];
    }
  }

  lemma AllFreeTransfer(hs: map<nat, Header>, hs1: map<nat, Header>, run: seq<nat>)
    requires AllFreeAndValid(hs1, run) && SameSizesOn(hs, hs1, run) && Reshaped(hs, hs1)
    ensures AllFreeAndValid(hs, run)
  {
    forall k | 0 <= k < |run|
      ensures run[k] in hs && hs[run[k]].isFree && ValidHeader(hs[run[k]])
    {
      assert hs1[run[k]].isFree && ValidHeader(hs1[run[k]]);
    }
  }

  /** A run that continues where the block `n` ends extends to `b, n, run` when `b` ends at `n`. */
  lemma PrependToRun(hs: map<nat, Header>, b: nat, n: nat, run: seq<nat>)
    requires b in hs && n in hs && End(hs, b) == n && Consecutive(hs, run)
    requires run != [] ==> End(hs, n) == run[0]
    ensures Consecutive(hs, [b, n] + run)
  {
    var chain := [b, n] + run;
    forall k | 0 <= k < |chain| - 1
      ensures End(hs, chain[k]) == chain[k + 1]
    {
      if k >= 2 {
        assert chain[k] == run[k - 2] && chain[k + 1] == run[k - 1];
      }
    }
  }

  /** A run that ends where `p` starts extends to `run, p, b` when `p` ends at `b`. */
  lemma AppendToRun(hs: map<nat, Header>, run: seq<nat>, p: nat, b: nat)
    requires p in hs && b in hs && End(hs, p) == b && Consecutive(hs, run)
    requires run != [] ==> End(hs, run[|run| - 1]) == p
    ensures Consecutive(hs, run + [p, b])
  {
    var chain := run + [p, b];
    forall k | 0 <= k < |chain| - 1
      ensures End(hs, chain[k]) == chain[k + 1]
    {
      if k < |run| - 1 {
        assert chain[k] == run[k] && chain[k + 1] == run[k + 1];
      }
    }
  }

  /** Every header of `hs` other than `b` kept its size in `hs1`. */
  ghost predicate SizesKeptExcept(hs: map<nat, Header>, hs1: map<nat, Header>, b: nat) {
    forall k {:trigger hs[k]} :: k in hs && k != b ==> k in hs1 && hs1[k].size == hs[k].size
  }

  lemma ReshapedTransitive(hs: map<nat, Header>, hs1: map<nat, Header>, hs2: map<nat, Header>)
    requires Reshaped(hs, hs1) && Reshaped(hs1, hs2)
    ensures Reshaped(hs, hs2)
  {
    forall k | k in hs
      ensures hs2[k].signature == hs[k].signature && hs2[k].magic == hs[k].magic
      ensures hs2[k].isFree == hs[k].isFree && hs2[k].size >= hs[k].size
    {
      assert k in hs1 && hs1[k].size >= hs[k].size;
    }
  }

  lemma SizesKeptTransitive(hs: map<nat, Header>, hs1: map<nat, Header>, hs2: map<nat, Header>, b: nat)
    requires SizesKeptExcept(hs, hs1, b) && SizesKeptExcept(hs1, hs2, b)
    ensures SizesKeptExcept(hs, hs2, b)
  {
    forall k | k in hs && k != b
      ensures k in hs2 && hs2[k].size == hs[k].size
    {
      assert k in hs1 && hs1[k].size == hs[k].size;
    }
  }

  /** The induction step of MergeForward, on the headers before and after one merge. */
  lemma ForwardStep(hs: map<nat, Header>, hs1: map<nat, Header>, r0: map<nat, Header>, b: nat, n: nat, rest: seq<nat>)
    requires b in hs && n in hs && b in hs1 && End(hs, b) == n && hs[n].isFree && ValidHeader(hs[n])
    requires Reshaped(hs, hs1) && SizesKeptExcept(hs, hs1, b) && End(hs1, b) == End(hs, n)
    requires Reshaped(hs1, r0) && SizesKeptExcept(hs1, r0, b)
    requires Consecutive(hs1, [b] + rest) && AllFreeAndValid(hs1, rest)
    requires b in r0 && End(r0, b) == End(hs1, ([b] + rest)[|rest|])
    ensures Reshaped(hs, r0) && SizesKeptExcept(hs, r0, b)
    ensures Consecutive(hs, [b] + ([n] + rest)) && AllFreeAndValid(hs, [n] + rest)
    ensures End(r0, b) == End(hs, ([b] + ([n] + rest))[|[n] + rest|])
  {
    ReshapedTransitive(hs, hs1, r0);
    SizesKeptTransitive(hs, hs1, r0, b);
    forall k | 0 <= k < |rest|
      ensures rest[k] in hs && rest[k] != b && hs1[rest[k]].size == hs[rest[k]].size
    {
      ConsecutiveOrdered(hs1, [b] + rest, 0, k + 1);
      assert ([b] + rest)[k + 1] == rest[k];
    }
    assert Consecutive(hs1, rest) by {
      forall k | 0 <= k < |rest| - 1
        ensures End(hs1, rest[k]) == rest[k + 1]
      {
        assert ([b] + rest)[k + 1] == rest[k] && ([b] + rest)[k + 2] == rest[k + 1];
      }
    }
    ConsecutiveTransfer(hs, hs1, rest);
    AllFreeTransfer(hs, hs1, rest);
    if rest != [] {
      assert ([b] + rest)[1] == rest[0];
      assert End(hs1, ([b] + rest)[0]) == rest[0];
    }
    PrependToRun(hs, b, n, rest);
    var run := [n] + rest;
    forall k | 0 <= k < |run|
      ensures run[k] in hs && hs[run[k]].isFree && ValidHeader(hs[run[k]])
    {
      if k > 0 {
        assert run[k] == rest[k - 1];
      }
    }
    if rest != [] {
      assert ([b] + rest)[|rest|] == rest[|rest| - 1] == ([b, n] + rest)[|rest| + 1];
    }
    assert [b] + ([n] + rest) == [b, n] + rest;
  }

  /** The induction step of MergeBackwardCovers, on the headers before and after one merge. */
  lemma BackwardStep(hs: map<nat, Header>, hs1: map<nat, Header>, r0: map<nat, Header>, r1: nat,
                      p: nat, b: nat, rest: seq<nat>)
    requires p in hs && b in hs && p in hs1 && End(hs, p) == b && hs[p].isFree && ValidHeader(hs[p])
    requires Reshaped(hs, hs1) && SizesKeptExcept(hs, hs1, p) && End(hs1, p) == End(hs, b)
    requires Reshaped(hs1, r0)
    requires Consecutive(hs1, rest + [p]) && AllFreeAndValid(hs1, rest)
    requires r1 in r0 && r1 == (rest + [p])[0] && End(r0, r1) == End(hs1, p)
    ensures Reshaped(hs, r0)
    ensures Consecutive(hs, (rest + [p]) + [b]) && AllFreeAndValid(hs, rest + [p])
    ensures r1 == ((rest + [p]) + [b])[0] && End(r0, r1) == End(hs, b)
  {
    ReshapedTransitive(hs, hs1, r0);
    forall k | 0 <= k < |rest|
      ensures rest[k] in hs && rest[k] != p && hs1[rest[k]].size == hs[rest[k]].size
    {
      ConsecutiveOrdered(hs1, rest + [p], k, |rest|);
      assert (rest + [p])[k] == rest[k];
    }
    assert Consecutive(hs1, rest) by {
      forall k | 0 <= k < |rest| - 1
        ensures End(hs1, rest[k]) == rest[k + 1]
      {
        assert (rest + [p])[k] == rest[k] && (rest + [p])[k + 1] == rest[k + 1];
      }
    }
    ConsecutiveTransfer(hs, hs1, rest);
    AllFreeTransfer(hs, hs1, rest);
    if rest != [] {
      assert (rest + [p])[|rest| - 1] == rest[|rest| - 1] && (rest + [p])[|rest|] == p;
      assert End(hs1, rest[|rest| - 1]) == p;
    }
    AppendToRun(hs, rest, p, b);
    var run := rest + [p];
    forall k | 0 <= k < |run|
      ensures run[k] in hs && hs[run[k]].isFree && ValidHeader(hs[run[k]])
    {
      if k < |rest| {
        assert run[k] == rest[k];
      }
    }
    assert (rest + [p]) + [b] == rest + [p, b];
  }

  /**
   * The forward loop of coalesce_blocks (lines 320-342), from `blocks` blocks in the pool:
   * the new headers, the blocks `b` absorbed in address order, and the new block count
   * (MergeForwardRun states what they are).
   */
  function MergeForward(hs: map<nat, Header>, b: nat, total: nat, blocks: nat): (r: (map<nat, Header>, seq<nat>, nat))
    requires b in hs && Closed(hs) && InArena(hs, total)
    ensures Closed(r.0) && InArena(r.0, total) && r.0.Keys == hs.Keys
    decreases total - End(hs, b)
  {
    if MergesNext(hs, b) then
      var n := hs[b].next.value;
      var r := MergeForward(AbsorbNext(hs, b, total), b, total, Dec(blocks));
      (r.0, [n] + r.1, r.2)
    else (hs, [], blocks)
  }

  /**
   * The blocks the forward loop absorbs form a gapless run of free, valid blocks that
   * starts where `b` ended, and `b` now ends where the last of them ended.
   */
  lemma {:induction false} MergeForwardRun(hs: map<nat, Header>, b: nat, total: nat, blocks: nat)
    requires b in hs && Closed(hs) && InArena(hs, total)
    ensures var r := MergeForward(hs, b, total, blocks);
      && Reshaped(hs, r.0) && SizesKeptExcept(hs, r.0, b)
      && Consecutive(hs, [b] + r.1) && AllFreeAndValid(hs, r.1)
      && End(r.0, b) == End(hs, ([b] + r.1)[|r.1|])
    decreases total - End(hs, b)
  {
    if MergesNext(hs, b) {
      var n := hs[b].next.value;
      var hs1 := AbsorbNext(hs, b, total);
      var r := MergeForward(hs1, b, total, Dec(blocks));
      MergeForwardRun(hs1, b, total, Dec(blocks));
      ForwardStep(hs, hs1, r.0, b, n, r.1);
    } else {
      assert [b] + [] == [b];
    }
  }

  /**
   * The backward loop of coalesce_blocks (lines 345-368), from `blocks` blocks in the pool:
   * the new headers, the block the loop ends on, the blocks that absorbed `b` one after the
   * other in address order, and the new block count (MergeBackwardRun states what they are).
   */
  function MergeBackward(hs: map<nat, Header>, b: nat, total: nat, blocks: nat): (r: (map<nat, Header>, nat, seq<nat>, nat))
    requires b in hs && Closed(hs) && InArena(hs, total)
    ensures Closed(r.0) && InArena(r.0, total) && r.0.Keys == hs.Keys && r.1 in hs
    decreases b
  {
    if MergesPrev(hs, b) then
      var p := hs[b].prev.value;
      var r := MergeBackward(AbsorbIntoPrev(hs, b, total), p, total, Dec(blocks));
      (r.0, r.1, r.2 + [p], r.3)
    else (hs, b, [], blocks)
  }

  /**
   * The blocks that absorb `b` form a gapless run of free, valid blocks ending where `b`
   * starts; the block the loop ends on is the first of them (or `b`) and now ends where
   * `b` ended.
   */
  lemma {:induction false} MergeBackwardRun(hs: map<nat, Header>, b: nat, total: nat, blocks: nat)
    requires b in hs && Closed(hs) && InArena(hs, total)
    ensures var r := MergeBackward(hs, b, total, blocks);
      && Reshaped(hs, r.0)
      && Consecutive(hs, r.2 + [b]) && AllFreeAndValid(hs, r.2)
      && r.1 == (r.2 + [b])[0] && End(r.0, r.1) == End(hs, b)
    decreases b
  {
    if MergesPrev(hs, b) {
      var p := hs[b].prev.value;
      var hs1 := AbsorbIntoPrev(hs, b, total);
      var r := MergeBackward(hs1, p, total, Dec(blocks));
      MergeBackwardRun(hs1, p, total, Dec(blocks));
      BackwardStep(hs, hs1, r.0, r.1, p, b, r.2);
    } else {
      assert [] + [b] == [b];
    }
  }

  /** Joins the run found before `b` (in the headers after the forward loop) to the one after it. */
  lemma JoinRuns(hs: map<nat, Header>, hs1: map<nat, Header>, b: nat, back: seq<nat>, forward: seq<nat>)
    requires b in hs && ValidHeader(hs[b]) && hs[b].isFree
    requires Consecutive(hs, [b] + forward) && AllFreeAndValid(hs, forward)
    requires Consecutive(hs1, back + [b]) && AllFreeAndValid(hs1, back)
    requires Reshaped(hs, hs1) && SizesKeptExcept(hs, hs1, b)
    ensures Consecutive(hs, back + [b] + forward) && AllFreeAndValid(hs, back + [b] + forward)
  {
    var run := back + [b] + forward;
    forall k | 0 <= k < |back|
      ensures back[k] in hs && back[k] != b && hs1[back[k]].size == hs[back[k]].size
    {
      ConsecutiveOrdered(hs1, back + [b], k, |back|);
      assert (back + [b])[k] == back[k] && (back + [b])[|back|] == b;
    }
    assert run[|back|] == b;
    forall k | 0 <= k < |run| - 1
      ensures End(hs, run[k]) == run[k + 1]
    {
      if k < |back| {
        assert (back + [b])[k] == run[k] && (back + [b])[k + 1] == run[k + 1];
        assert End(hs1, (back + [b])[k]) == (back + [b])[k + 1];
      } else {
        assert ([b] + forward)[k - |back|] == run[k] && ([b] + forward)[k - |back| + 1] == run[k + 1];
      }
    }
    forall k | 0 <= k < |run|
      ensures run[k] in hs && hs[run[k]].isFree && ValidHeader(hs[run[k]])
    {
      if k < |back| {
        assert run[k] == back[k] && hs1[back[k]].isFree && ValidHeader(hs1[back[k]]);
      } else if k > |back| {
        assert run[k] == forward[k - |back| - 1];
      }
    }
  }

  /**
   * coalesce_blocks (lines 314-371) in a pool of `blocks` blocks: the new headers, the
   * block returned, the run of blocks that block now covers, and the new block count
   * (CoalesceConserves states what they are). An invalid or used block is returned as it is.
   */
  function Coalesce(hs: map<nat, Header>, b: nat, total: nat, blocks: nat): (r: (map<nat, Header>, nat, seq<nat>, nat))
    requires b in hs && Closed(hs) && InArena(hs, total)
    ensures Closed(r.0) && InArena(r.0, total) && r.0.Keys == hs.Keys && r.1 in hs && r.2 != []
    ensures !(ValidHeader(hs[b]) && hs[b].isFree) ==> r == (hs, b, [b], blocks)
  {
    if !(ValidHeader(hs[b]) && hs[b].isFree) then (hs, b, [b], blocks)
    else
      var forward := MergeForward(hs, b, total, blocks);
      var backward := MergeBackward(forward.0, b, total, forward.2);
      (backward.0, backward.1, backward.2 + [b] + forward.1, backward.3)
  }

  /** Taking nothing off a size_t leaves it as it is. */
  lemma SubNothing(x: nat)
    requires x < WORD
    ensures SubW(x, 0) == x
  {
  }

  /** One `num_blocks--` followed by `k` more is `k + 1` of them. */
  lemma DecThenSub(x: nat, k: nat)
    requires x < WORD
    ensures SubW(Dec(x), k) == SubW(x, k + 1)
  {
    if x == 0 {
      assert Dec(x) - k == (x - (k + 1)) + WORD;
    }
  }

  /** Each neighbour the forward loop absorbs takes one off the block count (line 334), which stays a size_t. */
  lemma {:induction false} MergeForwardCount(hs: map<nat, Header>, b: nat, total: nat, blocks: nat)
    requires b in hs && Closed(hs) && InArena(hs, total) && blocks < WORD
    ensures var r := MergeForward(hs, b, total, blocks); r.2 < WORD && r.2 == SubW(blocks, |r.1|)
    decreases total - End(hs, b)
  {
    if MergesNext(hs, b) {
      MergeForwardCount(AbsorbNext(hs, b, total), b, total, Dec(blocks));
      DecThenSub(blocks, |MergeForward(AbsorbNext(hs, b, total), b, total, Dec(blocks)).1|);
    } else {
      SubNothing(blocks);
    }
  }

  /** Each merge of the backward loop takes one off the block count (line 359), which stays a size_t. */
  lemma {:induction false} MergeBackwardCount(hs: map<nat, Header>, b: nat, total: nat, blocks: nat)
    requires b in hs && Closed(hs) && InArena(hs, total) && blocks < WORD
    ensures var r := MergeBackward(hs, b, total, blocks); r.3 < WORD && r.3 == SubW(blocks, |r.2|)
    decreases b
  {
    if MergesPrev(hs, b) {
      var p := hs[b].prev.value;
      MergeBackwardCount(AbsorbIntoPrev(hs, b, total), p, total, Dec(blocks));
      DecThenSub(blocks, |MergeBackward(AbsorbIntoPrev(hs, b, total), p, total, Dec(blocks)).2|);
    } else {
      SubNothing(blocks);
    }
  }

  /** Coalescing a run of blocks into one takes one off the block count per block absorbed. */
  lemma CoalesceCount(hs: map<nat, Header>, b: nat, total: nat, blocks: nat)
    requires b in hs && Closed(hs) && InArena(hs, total) && blocks < WORD
    ensures var r := Coalesce(hs, b, total, blocks); r.3 < WORD && r.3 == SubW(blocks, |r.2| - 1)
  {
    if ValidHeader(hs[b]) && hs[b].isFree {
      MergedCount(hs, b, total, blocks);
    } else {
      UnmergedCount(hs, b, total, blocks);
    }
  }

  /** CoalesceCount for a block that does not merge: the count stays. */
  lemma UnmergedCount(hs: map<nat, Header>, b: nat, total: nat, blocks: nat)
    requires b in hs && Closed(hs) && InArena(hs, total) && blocks < WORD && !(ValidHeader(hs[b]) && hs[b].isFree)
    ensures var r := Coalesce(hs, b, total, blocks); r.3 < WORD && r.3 == SubW(blocks, |r.2| - 1)
  {
    SubNothing(blocks);
  }

  /** CoalesceCount for a block that does merge: the two loops' counts add up. */
  lemma MergedCount(hs: map<nat, Header>, b: nat, total: nat, blocks: nat)
    requires b in hs && Closed(hs) && InArena(hs, total) && blocks < WORD && ValidHeader(hs[b]) && hs[b].isFree
    ensures var r := Coalesce(hs, b, total, blocks); r.3 < WORD && r.3 == SubW(blocks, |r.2| - 1)
  {
    MergeForwardCount(hs, b, total, blocks);
    var forward := MergeForward(hs, b, total, blocks);
    MergeBackwardCount(forward.0, b, total, forward.2);
    var backward := MergeBackward(forward.0, b, total, forward.2);
    var j, k := |forward.1|, |backward.2|;
    assert |backward.2 + [b] + forward.1| - 1 == j + k;
    SubTwice(blocks, j, k);
  }

  /** Two size_t subtractions in a row. */
  lemma SubTwice(x: nat, j: nat, k: nat)
    requires x < WORD
    ensures SubW(SubW(x, j), k) == SubW(x, j + k)
  {
  }

  /**
   * What coalescing a free, valid block conserves: the run is a gapless sequence of free,
   * valid blocks of the old headers containing `b`, the block returned is its first and
   * ends where its last ended, so every merge adds its neighbour's header and payload and
   * no byte is gained or lost. Nothing but links and the size of the block returned
   * changes.
   */
  lemma CoalesceConserves(hs: map<nat, Header>, b: nat, total: nat, blocks: nat)
    requires b in hs && Closed(hs) && InArena(hs, total) && ValidHeader(hs[b]) && hs[b].isFree
    ensures var r := Coalesce(hs, b, total, blocks);
      && Reshaped(hs, r.0)
      && r.2 != [] && r.1 == r.2[0] && b in r.2
      && Consecutive(hs, r.2) && AllFreeAndValid(hs, r.2)
      && End(r.0, r.1) == End(hs, r.2[|r.2| - 1])
      && ValidHeader(r.0[r.1]) && r.0[r.1].isFree
  {
    var forward := MergeForward(hs, b, total, blocks);
    MergeForwardRun(hs, b, total, blocks);
    var backward := MergeBackward(forward.0, b, total, forward.2);
    MergeBackwardRun(forward.0, b, total, forward.2);
    ReshapedTransitive(hs, forward.0, backward.0);
    var run := backward.2 + [b] + forward.1;
    JoinRuns(hs, forward.0, b, backward.2, forward.1);
    assert run[|backward.2|] == b;
    assert (backward.2 + [b])[0] == run[0];
    assert ([b] + forward.1)[|forward.1|] == run[|run| - 1];
  }

  // ---------------------------------------------------------------------------------
  // Best-fit search (lines 458-478)
  // ---------------------------------------------------------------------------------

  /** A block the search accepts: validated, free and large enough. */
  predicate Fits(hs: map<nat, Header>, b: nat, aligned: nat) {
    b in hs && ValidHeader(hs[b]) && hs[b].isFree && hs[b].size >= aligned
  }

  /** The entries of one free list, each paired with the list's index. */
  function Entries(bucket: seq<nat>, index: nat): (r: seq<(nat, nat)>)
    ensures |r| == |bucket|
    ensures forall j :: 0 <= j < |bucket| ==> r[j] == (bucket[j], index)
  {
    if bucket == [] then [] else Entries(bucket[..|bucket| - 1], index) + [(bucket[|bucket| - 1], index)]
  }

  /** The entries of lists `lo` up to (not including) `hi`, in the order the search visits them. */
  function ScanOrder(buckets: seq<seq<nat>>, lo: nat, hi: nat): seq<(nat, nat)>
    requires lo <= hi <= |buckets|
    decreases hi
  {
    if hi == lo then [] else ScanOrder(buckets, lo, hi - 1) + Entries(buckets[hi - 1], hi - 1)
  }

  /** One step of the search: a fitting block replaces the best so far only if strictly smaller. */
  function Consider(hs: map<nat, Header>, aligned: nat, best: Option<(nat, nat)>, c: (nat, nat)): Option<(nat, nat)>
    requires best.Some? ==> best.value.0 in hs
  {
    if Fits(hs, c.0, aligned) && (best.None? || hs[c.0].size < hs[best.value.0].size) then Some(c) else best
  }

  /** The block (and its list) the search has chosen after visiting `cs`. */
  function BestFit(hs: map<nat, Header>, aligned: nat, cs: seq<(nat, nat)>): (r: Option<(nat, nat)>)
    ensures r.Some? ==> Fits(hs, r.value.0, aligned)
  {
    if cs == [] then None else Consider(hs, aligned, BestFit(hs, aligned, cs[..|cs| - 1]), cs[|cs| - 1])
  }

  /**
   * The search finds a block exactly when one of the visited entries fits, and the block
   * found is a fitting entry no larger than any other fitting entry.
   */
  lemma {:induction false} BestFitIsBest(hs: map<nat, Header>, aligned: nat, cs: seq<(nat, nat)>)
    ensures var r := BestFit(hs, aligned, cs);
      && (r.None? <==> forall c :: c in cs ==> !Fits(hs, c.0, aligned))
      && (r.Some? ==> r.value in cs)
      && (r.Some? ==> forall c :: c in cs && Fits(hs, c.0, aligned) ==> hs[r.value.0].size <= hs[c.0].size)
  {
    if cs != [] {
      var init := cs[..|cs| - 1];
      BestFitIsBest(hs, aligned, init);
      assert cs == init + [cs[|cs| - 1]];
    }
  }

  /** Once an exact fit is chosen nothing later replaces it: why the search may stop there. */
  lemma {:induction false} ExactFitIsFinal(hs: map<nat, Header>, aligned: nat, cs: seq<(nat, nat)>, m: nat)
    requires m <= |cs|
    requires var b := BestFit(hs, aligned, cs[..m]); b.Some? && hs[b.value.0].size == aligned
    ensures BestFit(hs, aligned, cs) == BestFit(hs, aligned, cs[..m])
    decreases |cs| - m
  {
    if m < |cs| {
      var init := cs[..|cs| - 1];
      assert init[..m] == cs[..m];
      ExactFitIsFinal(hs, aligned, init, m);
    } else {
      assert cs[..m] == cs;
    }
  }

  /** ScanOrder over consecutive ranges of lists concatenates. */
  lemma {:induction false} ScanOrderSplit(buckets: seq<seq<nat>>, lo: nat, mid: nat, hi: nat)
    requires lo <= mid <= hi <= |buckets|
    ensures ScanOrder(buckets, lo, hi) == ScanOrder(buckets, lo, mid) + ScanOrder(buckets, mid, hi)
    decreases hi
  {
    if hi > mid {
      ScanOrderSplit(buckets, lo, mid, hi - 1);
    }
  }

  /** Every entry the search visits is a listed block of the list it names. */
  lemma {:induction false} ScanOrderEntries(buckets: seq<seq<nat>>, lo: nat, hi: nat, c: (nat, nat))
    requires lo <= hi <= |buckets| && c in ScanOrder(buckets, lo, hi)
    ensures lo <= c.1 < hi && c.0 in buckets[c.1]
    decreases hi
  {
    if hi > lo {
      var bucket := buckets[hi - 1];
      if c !in ScanOrder(buckets, lo, hi - 1) {
        var j :| 0 <= j < |bucket| && Entries(bucket, hi - 1)[j] == c;
      } else {
        ScanOrderEntries(buckets, lo, hi - 1, c);
      }
    }
  }

  // ---------------------------------------------------------------------------------
  // Statistics (lines 567-599) and the pool walk of validate_pool (lines 686-713)
  // ---------------------------------------------------------------------------------

  /** Every block on a free list has a header. */
  ghost predicate Listed(hs: map<nat, Header>, buckets: seq<seq<nat>>) {
    forall i, j {:trigger buckets[i][j]} :: 0 <= i < |buckets| && 0 <= j < |buckets[i]| ==> buckets[i][j] in hs
  }

  lemma ListedScan(hs: map<nat, Header>, buckets: seq<seq<nat>>, lo: nat, hi: nat)
    requires Listed(hs, buckets) && lo <= hi <= |buckets|
    ensures forall c :: c in ScanOrder(buckets, lo, hi) ==> c.0 in hs
  {
    forall c | c in ScanOrder(buckets, lo, hi)
      ensures c.0 in hs
    {
      ScanOrderEntries(buckets, lo, hi, c);
      var j :| 0 <= j < |buckets[c.1]| && buckets[c.1][j] == c.0;
    }
  }

  /** The largest size among the visited entries, 0 when there are none. */
  function MaxSize(hs: map<nat, Header>, cs: seq<(nat, nat)>): nat {
    if cs == [] then 0
    else
      var m := MaxSize(hs, cs[..|cs| - 1]);
      var s := SizeAt(hs, cs[|cs| - 1].0);
      if s > m then s else m
  }

  /** The size recorded at `b`; every listed block has a header, so the 0 is never used. */
  function SizeAt(hs: map<nat, Header>, b: nat): nat {
    if b in hs then hs[b].size else 0
  }

  /** largest_free_block is the size of a listed block and no listed block is larger. */
  lemma {:induction false} MaxSizeIsLargest(hs: map<nat, Header>, cs: seq<(nat, nat)>)
    requires forall c :: c in cs ==> c.0 in hs
    ensures forall c :: c in cs ==> hs[c.0].size <= MaxSize(hs, cs)
    ensures cs == [] ==> MaxSize(hs, cs) == 0
    ensures cs != [] ==> exists c :: c in cs && hs[c.0].size == MaxSize(hs, cs)
    decreases |cs|
  {
    if cs != [] {
      var init, last := cs[..|cs| - 1], cs[|cs| - 1];
      assert forall c :: c in init ==> c in cs;
      MaxSizeIsLargest(hs, init);
      var m := MaxSize(hs, init);
      assert MaxSize(hs, cs) == if hs[last.0].size > m then hs[last.0].size else m;
      forall c | c in cs
        ensures hs[c.0].size <= MaxSize(hs, cs)
      {
        var k :| 0 <= k < |cs| && cs[k] == c;
        if k < |cs| - 1 {
          assert init[k] == c;
        }
      }
      if init == [] || hs[last.0].size > m {
        assert last in cs;
      } else {
        var c :| c in init && hs[c.0].size == m;
        assert c in cs;
      }
    }
  }

  function SumCounts(counts: seq<nat>): nat {
    if counts == [] then 0 else SumCounts(counts[..|counts| - 1]) + counts[|counts| - 1]
  }

  lemma AddMod(x: nat, y: nat)
    ensures (x % WORD + y) % WORD == (x + y) % WORD
  {
    DivModUnique(x + y, WORD, x / WORD + (x % WORD + y) / WORD, (x % WORD + y) % WORD);
  }

  /**
   * The walk of validate_pool from `cur`, `count` blocks and `used` bytes in: the used
   * bytes it calculates, or None when a block fails validate_block or the walk goes past
   * MAX_CHECKED_BLOCKS blocks.
   */
  function WalkUsed(hs: map<nat, Header>, cur: Option<nat>, count: nat, used: nat): Option<nat>
    requires count <= MAX_CHECKED_BLOCKS
    decreases MAX_CHECKED_BLOCKS - count
  {
    if cur.None? then Some(used)
    else if !(cur.value in hs && ValidHeader(hs[cur.value])) then None
    else if count + 1 > MAX_CHECKED_BLOCKS then None
    else
      var h := hs[cur.value];
      WalkUsed(hs, h.next, count + 1, if h.isFree then used else (used + h.size) % WORD)
  }

  /** One step of the walk over a block that passes validation. */
  lemma WalkStep(hs: map<nat, Header>, cur: Option<nat>, count: nat, used: nat)
    requires count + 1 <= MAX_CHECKED_BLOCKS && cur.Some? && ValidateBlock(hs, cur)
    ensures var h := hs[cur.value];
      WalkUsed(hs, cur, count, used) == WalkUsed(hs, h.next, count + 1, if h.isFree then used else (used + h.size) % WORD)
  {
  }

  /** The walk of validate_pool from first_block (lines 686-711). */
  function PoolWalk(hs: map<nat, Header>, first: Option<nat>): Option<nat> {
    WalkUsed(hs, first, 0, 0)
  }

  /** The first `n` blocks reached from `cur` through the next links. */
  function Chain(hs: map<nat, Header>, cur: Option<nat>, n: nat): seq<nat>
    decreases n
  {
    if n == 0 || cur.None? then []
    else if cur.value !in hs then [cur.value]
    else [cur.value] + Chain(hs, hs[cur.value].next, n - 1)
  }

  ghost predicate AllValid(hs: map<nat, Header>, chain: seq<nat>) {
    forall k :: 0 <= k < |chain| ==> chain[k] in hs && ValidHeader(hs[chain[k]])
  }

  /** Payload bytes of the used blocks of `chain`. */
  function UsedSum(hs: map<nat, Header>, chain: seq<nat>): nat
    requires forall k :: 0 <= k < |chain| ==> chain[k] in hs
  {
    if chain == [] then 0
    else (if hs[chain[0]].isFree then 0 else hs[chain[0]].size) + UsedSum(hs, chain[1..])
  }

  /**
   * The walk succeeds exactly when the chain from `cur` ends within the blocks still
   * allowed and every block on it validates; it then yields the used bytes of the chain
   * added to `used`, modulo 2^64.
   */
  lemma {:induction false} WalkUsedFollowsChain(hs: map<nat, Header>, cur: Option<nat>, count: nat, used: nat)
    requires count <= MAX_CHECKED_BLOCKS && used < WORD
    ensures var chain := Chain(hs, cur, MAX_CHECKED_BLOCKS + 1 - count);
      WalkUsed(hs, cur, count, used) ==
        if |chain| <= MAX_CHECKED_BLOCKS - count && AllValid(hs, chain)
        then Some((used + UsedSum(hs, chain)) % WORD) else None
    decreases MAX_CHECKED_BLOCKS - count
  {
    var chain := Chain(hs, cur, MAX_CHECKED_BLOCKS + 1 - count);
    if cur.None? {
      DivModUnique(used, WORD, 0, used);
    } else if !(cur.value in hs && ValidHeader(hs[cur.value])) {
      assert chain[0] == cur.value;
    } else if count + 1 > MAX_CHECKED_BLOCKS {
      assert chain == [cur.value] + Chain(hs, hs[cur.value].next, 0);
    } else {
      var h := hs[cur.value];
      var used' := if h.isFree then used else (used + h.size) % WORD;
      var rest := Chain(hs, h.next, MAX_CHECKED_BLOCKS + 1 - (count + 1));
      WalkUsedFollowsChain(hs, h.next, count + 1, used');
      assert chain == [cur.value] + rest;
      WalkCons(hs, cur.value, rest, count, used, used', WalkUsed(hs, h.next, count + 1, used'));
    }
  }

  /** The walk's outcome over the tail of a chain gives its outcome over the whole chain. */
  lemma WalkCons(hs: map<nat, Header>, c: nat, rest: seq<nat>, count: nat, used: nat, used': nat, w: Option<nat>)
    requires c in hs && ValidHeader(hs[c]) && count + 1 <= MAX_CHECKED_BLOCKS && used < WORD
    requires used' == if hs[c].isFree then used else (used + hs[c].size) % WORD
    requires w == if |rest| <= MAX_CHECKED_BLOCKS - (count + 1) && AllValid(hs, rest)
      then Some((used' + UsedSum(hs, rest)) % WORD) else None
    ensures w == if |[c] + rest| <= MAX_CHECKED_BLOCKS - count && AllValid(hs, [c] + rest)
      then Some((used + UsedSum(hs, [c] + rest)) % WORD) else None
  {
    AllValidCons(hs, c, rest);
    if AllValid(hs, rest) {
      UsedSumCons(hs, c, rest);
      if !hs[c].isFree {
        AddModStep(used, hs[c].size, UsedSum(hs, rest), UsedSum(hs, [c] + rest));
      }
    }
  }

  /** A chain validates when its head does and its tail does. */
  lemma AllValidCons(hs: map<nat, Header>, c: nat, rest: seq<nat>)
    requires c in hs && ValidHeader(hs[c])
    ensures AllValid(hs, [c] + rest) <==> AllValid(hs, rest)
  {
    var chain := [c] + rest;
    if AllValid(hs, rest) {
      forall k | 0 <= k < |chain|
        ensures chain[k] in hs && ValidHeader(hs[chain[k]])
      {
        if k > 0 {
          assert chain[k] == rest[k - 1];
        }
      }
    }
    if AllValid(hs, chain) {
      forall k | 0 <= k < |rest|
        ensures rest[k] in hs && ValidHeader(hs[rest[k]])
      {
        assert rest[k] == chain[k + 1];
      }
    }
  }

  /** The used bytes of a chain: its head's, unless free, and its tail's. */
  lemma UsedSumCons(hs: map<nat, Header>, c: nat, rest: seq<nat>)
    requires c in hs && forall k :: 0 <= k < |rest| ==> rest[k] in hs
    ensures UsedSum(hs, [c] + rest) == (if hs[c].isFree then 0 else hs[c].size) + UsedSum(hs, rest)
  {
    assert ([c] + rest)[1..] == rest;
  }

  /** Adding `size` modulo 2^64 and then `sum` is adding `size + sum`. */
  lemma AddModStep(used: nat, size: nat, sum: nat, total: nat)
    requires total == size + sum
    ensures ((used + size) % WORD + sum) % WORD == (used + total) % WORD
  {
    var x := used + size;
    assert used + total == x + sum;
    AddMod(x, sum);
  }

  // ---------------------------------------------------------------------------------
  // The pool
  // ---------------------------------------------------------------------------------

  /** `x++` on a size_t counter: the largest value wraps to 0. */
  function Inc(x: nat): nat {
    if x + 1 == WORD then 0 else x + 1
  }

  /** `x--` on a size_t counter: 0 wraps to the largest value. */
  function Dec(x: nat): nat {
    if x == 0 then WORD - 1 else x - 1
  }

  /** `x - y` on size_t. */
  function SubW(x: nat, y: nat): nat {
    (x - y) % WORD
  }

  /** The 32 free lists of a zeroed pool. */
  function EmptyLists(): (r: seq<seq<nat>>)
    ensures |r| == MAX_FREE_LISTS && forall i :: 0 <= i < |r| ==> r[i] == []
  {
    Repeat([], MAX_FREE_LISTS)
  }

  function EmptyCounts(): (r: seq<nat>)
    ensures |r| == MAX_FREE_LISTS && forall i :: 0 <= i < |r| ==> r[i] == 0
  {
    Repeat(0, MAX_FREE_LISTS)
  }

  /** `n` copies of `x`. */
  function Repeat<T>(x: T, n: nat): (r: seq<T>)
    ensures |r| == n && forall i :: 0 <= i < n ==> r[i] == x
  {
    if n == 0 then [] else [x] + Repeat(x, n - 1)
  }

  /** strncpy into the 64-byte name buffer keeps at most 63 characters. */
  function PoolName(name: Option<string>): string {
    if name.None? then "unnamed"
    else if |name.value| > NAME_CAPACITY - 1 then name.value[..NAME_CAPACITY - 1]
    else name.value
  }

  /** get_free_list_index (lines 147-168): the table, then the doubling loop. */
  method GetFreeListIndex(size: nat) returns (index: nat)
    ensures index == FreeListIndex(size)
  {
    if size <= 16 { return 0; }
    if size <= 32 { return 1; }
    if size <= 64 { return 2; }
    if size <= 128 { return 3; }
    if size <= 256 { return 4; }
    if size <= 512 { return 5; }
    if size <= 1024 { return 6; }
    if size <= 2048 { return 7; }
    if size <= 4096 { return 8; }
    index := 9;
    var threshold := 8192;
    while index < MAX_FREE_LISTS - 1 && size > threshold
      invariant 9 <= index <= MAX_FREE_LISTS - 1 && threshold == BucketThreshold(index)
      invariant LargeListIndex(size, index) == LargeListIndex(size, 9)
      decreases MAX_FREE_LISTS - index
    {
      threshold := threshold * 2;
      index := index + 1;
    }
  }

  datatype PoolStats = PoolStats(
    totalAllocated: nat,
    totalFreed: nat,
    currentUsage: nat,
    peakUsage: nat,
    fragmentationRatio: nat,
    allocationCount: nat,
    deallocationCount: nat,
    freeBlocks: nat,
    largestFreeBlock: nat)

  /**
   * fragmentation_ratio (lines 582-585): num_blocks * 100, a size_t product, over the
   * number of header-sized units in the arena. An arena of fewer than HEADER_SIZE bytes,
   * which no live pool has, gives 0 here where the C would divide by zero.
   */
  function Fragmentation(blocks: nat, total: nat): nat {
    if total / HEADER_SIZE == 0 then 0 else (blocks * 100) % WORD / (total / HEADER_SIZE)
  }

  /** Which of the exits of memory_pool_free (lines 523-539) was taken. */
  datatype FreeOutcome = Ignored | InvalidBlock | DoubleFree | Released

  /** The header a payload pointer belongs to, if the pointer is not before the arena. */
  function BlockOf(ptr: nat): Option<nat> {
    if ptr < HEADER_SIZE then None else Some(ptr - HEADER_SIZE)
  }

  /** A size rounded up to a whole number of pages, when the rounding does not wrap. */
  lemma PageRounded(size: nat, pageSize: nat)
    requires size < WORD && 64 <= pageSize < WORD && IsPowerOfTwo(pageSize)
    requires AlignSize(size, pageSize) != 0
    ensures var total := AlignSize(size, pageSize);
      total % pageSize == 0 && size <= total && pageSize <= total < WORD
  {
    var k :| k < 64 && pageSize == Pow2(k);
    AlignSizeOfPowerOfTwo(size, k);
    var total := AlignSize(size, pageSize);
    if total < pageSize {
      DivModUnique(total, pageSize, 0, total);
    }
  }

  /** validate_block (lines 247-253) on a pointer that may be NULL or outside the arena. */
  predicate ValidateBlock(hs: map<nat, Header>, b: Option<nat>) {
    b.Some? && b.value in hs && ValidHeader(hs[b.value])
  }

  /** The header at `b` with its is_free flag set to `isFree`. */
  function Marked(hs: map<nat, Header>, b: nat, isFree: bool, total: nat): (r: map<nat, Header>)
    requires b in hs && Closed(hs) && InArena(hs, total)
    ensures Closed(r) && InArena(r, total) && r.Keys == hs.Keys && r[b] == hs[b].(isFree := isFree)
    ensures forall j {:trigger hs[j]} :: j in hs && j != b ==> r[j] == hs[j]
  {
    hs[b := hs[b].(isFree := isFree)]
  }

  /** Splitting keeps both halves inside the region of the block split. */
  lemma SplitStaysInArena(hs: map<nat, Header>, b: nat, aligned: nat, total: nat)
    requires b in hs && Closed(hs) && InArena(hs, total) && hs[b].size >= aligned + HEADER_SIZE
    ensures InArena(SplitHeaders(hs, b, aligned), total)
  {
    var r := SplitHeaders(hs, b, aligned);
    forall k | k in r
      ensures k + HEADER_SIZE + r[k].size <= total
    {
      if k != b && k != b + HEADER_SIZE + aligned {
        assert hs[k].size == r[k].size;
      }
    }
  }

  lemma RelinkedInArena(hs: map<nat, Header>, r: map<nat, Header>, total: nat)
    requires Relinked(hs, r) && InArena(hs, total)
    ensures InArena(r, total)
  {
    forall k | k in r
      ensures k + HEADER_SIZE + r[k].size <= total
    {
      assert hs[k].size == r[k].size;
    }
  }

  /** Aligning an aligned size again changes nothing, for a power-of-two alignment. */
  lemma AlignTwice(size: nat, alignment: nat)
    requires size < WORD && IsPowerOfTwo(alignment)
    ensures alignment < WORD && AlignSize(size, alignment) < WORD
    ensures AlignSize(AlignSize(size, alignment), alignment) == AlignSize(size, alignment)
  {
    var k :| k < 64 && alignment == Pow2(k);
    AlignSizeIdempotent(size, k);
  }

  // ---------------------------------------------------------------------------------
  // The pool state and the free-list operations on it
  // ---------------------------------------------------------------------------------

  /** used_size, peak_usage, num_allocations, num_deallocations and num_blocks of a pool. */
  datatype Tally = Tally(used: nat, peak: nat, allocations: nat, deallocations: nat, blocks: nat)

  /** Every counter of a tally fits in a size_t. */
  predicate TallyFits(t: Tally) {
    t.used < WORD && t.peak < WORD && t.allocations < WORD && t.deallocations < WORD && t.blocks < WORD
  }

  /** The arena-side invariant of a pool: closed links, headers inside the arena, listed blocks exist. */
  ghost predicate Arena(hs: map<nat, Header>, buckets: seq<seq<nat>>, counts: seq<nat>, total: nat) {
    && |buckets| == MAX_FREE_LISTS && |counts| == MAX_FREE_LISTS
    && Closed(hs) && InArena(hs, total) && Listed(hs, buckets)
    && (forall i :: 0 <= i < |counts| ==> counts[i] < WORD)
  }

  /**
   * The invariant of a pool object: its arena, counters that fit a size_t, first_block
   * naming a header, and, for a live pool, room for one header and a power-of-two alignment.
   */
  ghost predicate PoolInvariant(signature: nat, total: nat, alignment: nat, tally: Tally, hs: map<nat, Header>,
                                buckets: seq<seq<nat>>, counts: seq<nat>, first: Option<nat>) {
    && Arena(hs, buckets, counts, total) && TallyFits(tally)
    && total < WORD && alignment < WORD
    && (first.Some? ==> first.value in hs)
    && (signature == POOL_SIGNATURE ==> HEADER_SIZE <= total && IsPowerOfTwo(alignment))
  }

  /** An operation that keeps the arena invariant, keeps every header and keeps the counters in range keeps the pool invariant. */
  lemma PoolStep(signature: nat, total: nat, alignment: nat, tally: Tally, hs: map<nat, Header>,
                 buckets: seq<seq<nat>>, counts: seq<nat>, first: Option<nat>,
                 tally': Tally, hs': map<nat, Header>, buckets': seq<seq<nat>>, counts': seq<nat>)
    requires PoolInvariant(signature, total, alignment, tally, hs, buckets, counts, first)
    requires Arena(hs', buckets', counts', total) && TallyFits(tally') && hs.Keys <= hs'.Keys
    ensures PoolInvariant(signature, total, alignment, tally', hs', buckets', counts', first)
  {
  }

  /** The arena of a zero-filled pool. */
  lemma EmptyArena()
    ensures Arena(map[], EmptyLists(), EmptyCounts(), 0)
  {
  }

  lemma ListedMoreKeys(hs: map<nat, Header>, hs1: map<nat, Header>, buckets: seq<seq<nat>>)
    requires Listed(hs, buckets) && hs.Keys <= hs1.Keys
    ensures Listed(hs1, buckets)
  {
  }

  /** Merging keeps the arena invariant: the same headers exist, closed and inside the arena. */
  lemma KeysKeepArena(hs: map<nat, Header>, hs1: map<nat, Header>, buckets: seq<seq<nat>>, counts: seq<nat>, total: nat)
    requires Arena(hs, buckets, counts, total)
    requires hs1.Keys == hs.Keys && Closed(hs1) && InArena(hs1, total)
    ensures Arena(hs1, buckets, counts, total)
  {
    ListedMoreKeys(hs, hs1, buckets);
  }

  /** remove_from_free_list (lines 382-402): the headers, lists and counts it leaves. */
  function Removed(hs: map<nat, Header>, buckets: seq<seq<nat>>, counts: seq<nat>, b: nat, i: nat)
    : (map<nat, Header>, seq<seq<nat>>, seq<nat>)
    requires b in hs && Closed(hs) && |buckets| == MAX_FREE_LISTS && |counts| == MAX_FREE_LISTS
  {
    if i >= MAX_FREE_LISTS then (hs, buckets, counts)
    else (Unlink(hs, b), buckets[i := RemoveFirst(buckets[i], b)], counts[i := SubW(counts[i], 1)])
  }

  /** Removal keeps the arena invariant and every header's size and flags. */
  lemma RemovalKeepsArena(hs: map<nat, Header>, buckets: seq<seq<nat>>, counts: seq<nat>, total: nat, b: nat, i: nat)
    requires Arena(hs, buckets, counts, total) && b in hs
    ensures var r := Removed(hs, buckets, counts, b, i); Arena(r.0, r.1, r.2, total) && Relinked(hs, r.0)
  {
    if i < MAX_FREE_LISTS {
      var r := Unlink(hs, b);
      RelinkedInArena(hs, r, total);
      var bs := buckets[i := RemoveFirst(buckets[i], b)];
      forall k, j | 0 <= k < |bs| && 0 <= j < |bs[k]|
        ensures bs[k][j] in hs
      {
        if k == i {
          assert bs[k][j] in RemoveFirst(buckets[i], b);
          var j' :| 0 <= j' < |buckets[i]| && buckets[i][j'] == bs[k][j];
        }
      }
      ListedMoreKeys(hs, r, bs);
    } else {
      assert Relinked(hs, hs);
    }
  }

  /** add_to_free_list (lines 412-428): a valid block is pushed on the list of its size. */
  function Added(hs: map<nat, Header>, buckets: seq<seq<nat>>, counts: seq<nat>, b: nat)
    : (map<nat, Header>, seq<seq<nat>>, seq<nat>)
    requires b in hs && Closed(hs) && |buckets| == MAX_FREE_LISTS && |counts| == MAX_FREE_LISTS
    requires Listed(hs, buckets)
  {
    if !ValidHeader(hs[b]) then (hs, buckets, counts)
    else
      var i := FreeListIndex(hs[b].size);
      assert buckets[i] != [] ==> buckets[i][0] in hs;
      (Pushed(hs, b, Head(buckets[i])), buckets[i := [b] + buckets[i]], counts[i := Inc(counts[i])])
  }

  /** Pushing a listed block on one list keeps every listed block a header. */
  lemma ListedAfterPush(hs: map<nat, Header>, buckets: seq<seq<nat>>, b: nat, i: nat)
    requires Listed(hs, buckets) && b in hs && i < |buckets|
    ensures Listed(hs, buckets[i := [b] + buckets[i]])
  {
    var bs := buckets[i := [b] + buckets[i]];
    forall k, j | 0 <= k < |bs| && 0 <= j < |bs[k]|
      ensures bs[k][j] in hs
    {
      if k == i && j > 0 {
        assert bs[k][j] == buckets[i][j - 1];
      }
    }
  }

  /** Adding keeps the arena invariant and every header's size and flags. */
  lemma AdditionKeepsArena(hs: map<nat, Header>, buckets: seq<seq<nat>>, counts: seq<nat>, total: nat, b: nat)
    requires Arena(hs, buckets, counts, total) && b in hs
    ensures var r := Added(hs, buckets, counts, b); Arena(r.0, r.1, r.2, total) && Relinked(hs, r.0)
  {
    if ValidHeader(hs[b]) {
      var i := FreeListIndex(hs[b].size);
      if buckets[i] != [] {
        assert buckets[i][0] in hs;
      }
      var r := Pushed(hs, b, Head(buckets[i]));
      RelinkedInArena(hs, r, total);
      ListedAfterPush(hs, buckets, b, i);
      ListedMoreKeys(hs, r, buckets[i := [b] + buckets[i]]);
    } else {
      assert Relinked(hs, hs);
    }
  }

  /**
   * split_block (lines 265-303) once `aligned` is known, on a block that holds at least
   * `aligned` bytes when valid: the headers and the block split off, if any.
   */
  function Split(hs: map<nat, Header>, b: nat, aligned: nat): (r: (map<nat, Header>, Option<nat>))
    requires b in hs && Closed(hs) && (ValidHeader(hs[b]) ==> aligned <= hs[b].size)
    ensures Closed(r.0) && hs.Keys <= r.0.Keys && (r.1.Some? ==> r.1.value in r.0)
  {
    if !ValidHeader(hs[b]) || hs[b].size - aligned < HEADER_SIZE + MIN_BLOCK_SIZE then (hs, None)
    else (SplitHeaders(hs, b, aligned), Some(b + HEADER_SIZE + aligned))
  }

  /** Splitting keeps the arena invariant and every header that existed. */
  lemma SplitKeepsArena(hs: map<nat, Header>, buckets: seq<seq<nat>>, counts: seq<nat>, total: nat, b: nat, aligned: nat)
    requires Arena(hs, buckets, counts, total) && b in hs && (ValidHeader(hs[b]) ==> aligned <= hs[b].size)
    ensures Arena(Split(hs, b, aligned).0, buckets, counts, total)
  {
    var r := Split(hs, b, aligned);
    if r.1.Some? {
      SplitStaysInArena(hs, b, aligned, total);
      ListedMoreKeys(hs, r.0, buckets);
    }
  }

  /**
   * A block is split exactly when it is valid and its remainder can hold a header and
   * MIN_BLOCK_SIZE bytes. The block then keeps `aligned` bytes, the new free, valid block
   * right after it takes the rest less one header, and no other header changes size.
   */
  lemma SplitConserves(hs: map<nat, Header>, b: nat, aligned: nat)
    requires b in hs && Closed(hs) && (ValidHeader(hs[b]) ==> aligned <= hs[b].size)
    ensures var r := Split(hs, b, aligned);
      && (r.1.Some? <==> ValidHeader(hs[b]) && hs[b].size - aligned >= HEADER_SIZE + MIN_BLOCK_SIZE)
      && (r.1.None? ==> r.0 == hs)
      && (r.1.Some? ==>
            var nb := r.1.value;
            && nb == End(r.0, b) && r.0[b].size == aligned && r.0[b].isFree == hs[b].isFree
            && aligned + HEADER_SIZE + r.0[nb].size == hs[b].size
            && r.0[nb].isFree && ValidHeader(r.0[nb])
            && forall k {:trigger hs[k]} :: k in hs && k != b && k != nb ==> r.0[k].size == hs[k].size)
  {
  }

  // ---------------------------------------------------------------------------------
  // memory_pool_alloc and memory_pool_free
  // ---------------------------------------------------------------------------------

  /** The request as memory_pool_alloc rounds it (line 444). */
  function Aligned(size: nat, alignment: nat): nat
    requires size < WORD && IsPowerOfTwo(alignment)
  {
    AlignTwice(size, alignment);
    AlignSize(size, alignment)
  }

  /** The free-list entries the best-fit search visits for an aligned request. */
  function Candidates(buckets: seq<seq<nat>>, aligned: nat): seq<(nat, nat)>
    requires |buckets| == MAX_FREE_LISTS
  {
    ScanOrder(buckets, FreeListIndex(aligned), |buckets|)
  }

  /** The capacity test of line 448: the aligned request plus a header exceeds the unused bytes. */
  predicate TooLarge(aligned: nat, total: nat, used: nat) {
    (aligned + HEADER_SIZE) % WORD > SubW(total, used)
  }

  /**
   * memory_pool_alloc (lines 439-513) on a pool whose signature is intact: the headers,
   * lists, counts and tally it leaves, and the payload offset it returns (None for NULL).
   */
  function Allocate(hs: map<nat, Header>, buckets: seq<seq<nat>>, counts: seq<nat>, tally: Tally,
                    total: nat, alignment: nat, size: nat)
    : (map<nat, Header>, seq<seq<nat>>, seq<nat>, Tally, Option<nat>)
    requires Arena(hs, buckets, counts, total) && size < WORD && IsPowerOfTwo(alignment)
  {
    var aligned := Aligned(size, alignment);
    if size == 0 || TooLarge(aligned, total, tally.used) then (hs, buckets, counts, tally, None)
    else
      var best := BestFit(hs, aligned, Candidates(buckets, aligned));
      if best.None? then (hs, buckets, counts, tally, None)
      else
        AlignTwice(size, alignment);
        Allocated(hs, buckets, counts, tally, total, best.value.0, best.value.1, AlignSize(aligned, alignment))
  }

  /**
   * Lines 486-512 once block `b` of list `i` was chosen: it leaves its list, split_block
   * cuts it after `aligned` bytes if the rest is large enough for a block of its own, which
   * joins a free list, and the block is marked used and counted.
   */
  function Allocated(hs: map<nat, Header>, buckets: seq<seq<nat>>, counts: seq<nat>, tally: Tally,
                     total: nat, b: nat, i: nat, aligned: nat)
    : (map<nat, Header>, seq<seq<nat>>, seq<nat>, Tally, Option<nat>)
    requires Arena(hs, buckets, counts, total) && b in hs && (ValidHeader(hs[b]) ==> aligned <= hs[b].size)
  {
    RemovalKeepsArena(hs, buckets, counts, total, b, i);
    var removed := Removed(hs, buckets, counts, b, i);
    SplitKeepsArena(removed.0, removed.1, removed.2, total, b, aligned);
    var split := Split(removed.0, b, aligned);
    var added := AddedIfSplit(split.0, removed.1, removed.2, total, split.1);
    Finished(tally, b, added, split.1.Some?)
  }

  /** Lines 495-512: the block is marked used, the statistics count it, its payload is returned. */
  function Finished(tally: Tally, b: nat, added: (map<nat, Header>, seq<seq<nat>>, seq<nat>), didSplit: bool)
    : (map<nat, Header>, seq<seq<nat>>, seq<nat>, Tally, Option<nat>)
    requires b in added.0
  {
    var used: nat := (tally.used + added.0[b].size) % WORD;
    var hs': map<nat, Header> := added.0[b := added.0[b].(isFree := false)];
    var tally': Tally := tally.(used := used, peak := Max(tally.peak, used), allocations := Inc(tally.allocations),
                                blocks := if didSplit then Inc(tally.blocks) else tally.blocks);
    (hs', added.1, added.2, tally', Some(b + HEADER_SIZE))
  }

  /** Line 491: the block split off, if any, is added to the free list of its size. */
  function AddedIfSplit(hs: map<nat, Header>, buckets: seq<seq<nat>>, counts: seq<nat>, total: nat, nb: Option<nat>)
    : (r: (map<nat, Header>, seq<seq<nat>>, seq<nat>))
    requires Arena(hs, buckets, counts, total) && (nb.Some? ==> nb.value in hs)
    ensures Arena(r.0, r.1, r.2, total) && Relinked(hs, r.0)
  {
    if nb.Some? then
      AdditionKeepsArena(hs, buckets, counts, total, nb.value);
      Added(hs, buckets, counts, nb.value)
    else
      assert Relinked(hs, hs);
      (hs, buckets, counts)
  }

  /**
   * memory_pool_free (lines 523-557) on a pool whose signature is intact, for the payload
   * offset `ptr` (None for NULL): the headers, lists, counts and tally it leaves, and
   * which of its exits it took.
   */
  function Release(hs: map<nat, Header>, buckets: seq<seq<nat>>, counts: seq<nat>, tally: Tally,
                   total: nat, ptr: Option<nat>)
    : (r: (map<nat, Header>, seq<seq<nat>>, seq<nat>, Tally, FreeOutcome))
    requires Arena(hs, buckets, counts, total)
    ensures r.4 == Released ==> ptr.Some? && ptr.value >= HEADER_SIZE && ptr.value - HEADER_SIZE in hs
  {
    if ptr.None? then (hs, buckets, counts, tally, Ignored)
    else
      var b := BlockOf(ptr.value);
      if !ValidateBlock(hs, b) then (hs, buckets, counts, tally, InvalidBlock)
      else if hs[b.value].isFree then (hs, buckets, counts, tally, DoubleFree)
      else
        var r := Freed(hs, buckets, counts, tally, total, b.value);
        (r.0, r.1, r.2, r.3, Released)
  }

  /**
   * Lines 541-556 for a valid block `b` in use: the statistics are updated, the block is
   * marked free, coalesced with its free neighbours, and the result joins a free list.
   */
  function Freed(hs: map<nat, Header>, buckets: seq<seq<nat>>, counts: seq<nat>, tally: Tally, total: nat, b: nat)
    : (map<nat, Header>, seq<seq<nat>>, seq<nat>, Tally)
    requires Arena(hs, buckets, counts, total) && b in hs
  {
    var marked := Marked(hs, b, true, total);
    var merged := Coalesce(marked, b, total, tally.blocks);
    ListedMoreKeys(hs, merged.0, buckets);
    var added := Added(merged.0, buckets, counts, merged.1);
    var tally': Tally := tally.(used := SubW(tally.used, hs[b].size), deallocations := Inc(tally.deallocations),
                                blocks := merged.3);
    (added.0, added.1, added.2, tally')
  }

  /**
   * memory_pool_alloc fails, leaving the pool as it was, exactly when the request is 0
   * bytes, its aligned size plus a header exceeds the bytes not in use, or no block on the
   * lists of its size class and above is valid, free and large enough.
   */
  lemma AllocateFails(hs: map<nat, Header>, buckets: seq<seq<nat>>, counts: seq<nat>, tally: Tally,
                      total: nat, alignment: nat, size: nat)
    requires Arena(hs, buckets, counts, total) && size < WORD && IsPowerOfTwo(alignment)
    ensures var r := Allocate(hs, buckets, counts, tally, total, alignment, size);
      var aligned := Aligned(size, alignment);
      && (r.4.None? <==>
            || size == 0 || TooLarge(aligned, total, tally.used)
            || forall c :: c in Candidates(buckets, aligned) ==> !Fits(hs, c.0, aligned))
      && (r.4.None? ==> r.0 == hs && r.1 == buckets && r.2 == counts && r.3 == tally)
  {
    var aligned := Aligned(size, alignment);
    BestFitIsBest(hs, aligned, Candidates(buckets, aligned));
  }

  /**
   * Once block `b` is chosen: it ends up in use, holding `aligned` bytes when split_block
   * cut it (lines 269-274: its remainder holds a header and MIN_BLOCK_SIZE bytes) and its
   * old size when not; the used bytes grow by its size (modulo 2^64), the peak follows
   * them, the allocation count goes up by one, the block count goes up by one exactly when
   * it was cut (line 295), and its payload is returned.
   */
  lemma AllocatedBlock(hs: map<nat, Header>, buckets: seq<seq<nat>>, counts: seq<nat>, tally: Tally,
                       total: nat, b: nat, i: nat, aligned: nat)
    requires Arena(hs, buckets, counts, total) && b in hs && ValidHeader(hs[b]) && aligned <= hs[b].size
    ensures var r := Allocated(hs, buckets, counts, tally, total, b, i, aligned);
      var cut := hs[b].size - aligned >= HEADER_SIZE + MIN_BLOCK_SIZE;
      && b in r.0 && !r.0[b].isFree && r.4 == Some(b + HEADER_SIZE)
      && r.0[b].size == (if cut then aligned else hs[b].size)
      && r.3 == tally.(used := (tally.used + r.0[b].size) % WORD,
                       peak := Max(tally.peak, (tally.used + r.0[b].size) % WORD),
                       allocations := Inc(tally.allocations),
                       blocks := if cut then Inc(tally.blocks) else tally.blocks)
  {
    var removed, split := AllocatedStages(hs, buckets, counts, tally, total, b, i, aligned);
    RemovalKeepsArena(hs, buckets, counts, total, b, i);
    SplitConserves(removed.0, b, aligned);
    var added := AddedIfSplit(split.0, removed.1, removed.2, total, split.1);
    KeptSize(hs[b], removed.0[b], split.0[b], added.0[b], split.1.Some?, aligned);
  }

  /** The size the chosen block ends with: the request's when it was split, its own otherwise. */
  lemma KeptSize(h: Header, removed: Header, split: Header, added: Header, didSplit: bool, aligned: nat)
    requires ValidHeader(h) && aligned <= h.size && removed.size == h.size && added.size == split.size
    requires ValidHeader(removed) && (didSplit <==> h.size - aligned >= HEADER_SIZE + MIN_BLOCK_SIZE)
    requires if didSplit then split.size == aligned else split == removed
    ensures added.size == (if h.size - aligned >= HEADER_SIZE + MIN_BLOCK_SIZE then aligned else h.size)
  {
  }

  lemma AllocatedKeepsArena(hs: map<nat, Header>, buckets: seq<seq<nat>>, counts: seq<nat>, tally: Tally,
                            total: nat, b: nat, i: nat, aligned: nat)
    requires Arena(hs, buckets, counts, total) && TallyFits(tally)
    requires b in hs && (ValidHeader(hs[b]) ==> aligned <= hs[b].size)
    ensures var r := Allocated(hs, buckets, counts, tally, total, b, i, aligned);
      Arena(r.0, r.1, r.2, total) && TallyFits(r.3) && hs.Keys <= r.0.Keys
  {
    AllocatedArena(hs, buckets, counts, tally, total, b, i, aligned);
    var r := Allocated(hs, buckets, counts, tally, total, b, i, aligned);
    assert TallyFits(r.3);
  }

  /** The arena half of AllocatedKeepsArena. */
  lemma AllocatedArena(hs: map<nat, Header>, buckets: seq<seq<nat>>, counts: seq<nat>, tally: Tally,
                       total: nat, b: nat, i: nat, aligned: nat)
    requires Arena(hs, buckets, counts, total)
    requires b in hs && (ValidHeader(hs[b]) ==> aligned <= hs[b].size)
    ensures var r := Allocated(hs, buckets, counts, tally, total, b, i, aligned);
      Arena(r.0, r.1, r.2, total) && hs.Keys <= r.0.Keys
  {
    RemovalKeepsArena(hs, buckets, counts, total, b, i);
    var removed := Removed(hs, buckets, counts, b, i);
    SplitKeepsArena(removed.0, removed.1, removed.2, total, b, aligned);
    var split := Split(removed.0, b, aligned);
    var added := AddedIfSplit(split.0, removed.1, removed.2, total, split.1);
    assert hs.Keys <= added.0.Keys;
    var marked := Marked(added.0, b, false, total);
    ListedMoreKeys(added.0, marked, added.1);
    var r := Allocated(hs, buckets, counts, tally, total, b, i, aligned);
    assert r.0 == marked && r.1 == added.1 && r.2 == added.2;
  }

  /** The intermediate states of Allocated, as the steps of memory_pool_alloc reach them. */
  lemma AllocatedStages(hs: map<nat, Header>, buckets: seq<seq<nat>>, counts: seq<nat>, tally: Tally,
                        total: nat, b: nat, i: nat, aligned: nat)
    returns (removed: (map<nat, Header>, seq<seq<nat>>, seq<nat>), split: (map<nat, Header>, Option<nat>))
    requires Arena(hs, buckets, counts, total) && b in hs && (ValidHeader(hs[b]) ==> aligned <= hs[b].size)
    ensures removed == Removed(hs, buckets, counts, b, i) && Arena(removed.0, removed.1, removed.2, total)
    ensures b in removed.0 && (ValidHeader(removed.0[b]) ==> aligned <= removed.0[b].size)
    ensures split == Split(removed.0, b, aligned) && Arena(split.0, removed.1, removed.2, total) && b in split.0
    ensures split.1.Some? ==> split.1.value in split.0
    ensures var added := AddedIfSplit(split.0, removed.1, removed.2, total, split.1);
      var r := Allocated(hs, buckets, counts, tally, total, b, i, aligned);
      b in added.0 && r == Finished(tally, b, added, split.1.Some?)
  {
    RemovalKeepsArena(hs, buckets, counts, total, b, i);
    removed := Removed(hs, buckets, counts, b, i);
    SplitKeepsArena(removed.0, removed.1, removed.2, total, b, aligned);
    split := Split(removed.0, b, aligned);
    AllocatedResult(hs, buckets, counts, tally, total, b, i, aligned, removed, split);
  }

  /** Allocated in terms of its stages (the last ensures of AllocatedStages). */
  lemma AllocatedResult(hs: map<nat, Header>, buckets: seq<seq<nat>>, counts: seq<nat>, tally: Tally,
                        total: nat, b: nat, i: nat, aligned: nat,
                        removed: (map<nat, Header>, seq<seq<nat>>, seq<nat>), split: (map<nat, Header>, Option<nat>))
    requires Arena(hs, buckets, counts, total) && b in hs && (ValidHeader(hs[b]) ==> aligned <= hs[b].size)
    requires removed == Removed(hs, buckets, counts, b, i) && Arena(removed.0, removed.1, removed.2, total)
    requires split == Split(removed.0, b, aligned) && Arena(split.0, removed.1, removed.2, total) && b in split.0
    requires split.1.Some? ==> split.1.value in split.0
    ensures var added := AddedIfSplit(split.0, removed.1, removed.2, total, split.1);
      var r := Allocated(hs, buckets, counts, tally, total, b, i, aligned);
      b in added.0 && r == Finished(tally, b, added, split.1.Some?)
  {
    var added := AddedIfSplit(split.0, removed.1, removed.2, total, split.1);
    assert b in added.0;
    assert Allocated(hs, buckets, counts, tally, total, b, i, aligned) == Finished(tally, b, added, split.1.Some?);
  }

  /**
   * A successful allocation returns the payload of a visited block that was valid, free
   * and large enough, and no larger than any other such block; AllocatedBlock states
   * what becomes of that block and of the statistics.
   */
  lemma AllocateBestFit(hs: map<nat, Header>, buckets: seq<seq<nat>>, counts: seq<nat>, tally: Tally,
                        total: nat, alignment: nat, size: nat)
    requires Arena(hs, buckets, counts, total) && size < WORD && IsPowerOfTwo(alignment)
    ensures var r := Allocate(hs, buckets, counts, tally, total, alignment, size);
      var aligned := Aligned(size, alignment);
      var cs := Candidates(buckets, aligned);
      r.4.Some? ==>
        exists c :: c in cs && Fits(hs, c.0, aligned) && r.4.value == c.0 + HEADER_SIZE
          && (forall d :: d in cs && Fits(hs, d.0, aligned) ==> hs[c.0].size <= hs[d.0].size)
          && r == Allocated(hs, buckets, counts, tally, total, c.0, c.1, aligned)
  {
    var r := Allocate(hs, buckets, counts, tally, total, alignment, size);
    var aligned := Aligned(size, alignment);
    var cs := Candidates(buckets, aligned);
    if r.4.Some? {
      var best := BestFit(hs, aligned, cs);
      BestFitIsBest(hs, aligned, cs);
      AlignTwice(size, alignment);
      AllocatedBlock(hs, buckets, counts, tally, total, best.value.0, best.value.1, aligned);
      assert best.value in cs;
    }
  }

  /** Allocation keeps the arena invariant and keeps every counter within a size_t. */
  lemma AllocateKeepsArena(hs: map<nat, Header>, buckets: seq<seq<nat>>, counts: seq<nat>, tally: Tally,
                           total: nat, alignment: nat, size: nat)
    requires Arena(hs, buckets, counts, total) && TallyFits(tally) && size < WORD && IsPowerOfTwo(alignment)
    ensures var r := Allocate(hs, buckets, counts, tally, total, alignment, size);
      Arena(r.0, r.1, r.2, total) && TallyFits(r.3) && hs.Keys <= r.0.Keys
  {
    var aligned := Aligned(size, alignment);
    var best := BestFit(hs, aligned, Candidates(buckets, aligned));
    if !(size == 0 || TooLarge(aligned, total, tally.used)) && best.Some? {
      AlignTwice(size, alignment);
      AllocatedKeepsArena(hs, buckets, counts, tally, total, best.value.0, best.value.1, aligned);
    }
  }

  /**
   * memory_pool_free takes one of four exits: a NULL pointer is ignored, a pointer whose
   * header does not validate is refused, a block already free is a double free; on those
   * nothing changes. Only a valid block in use is released.
   */
  lemma ReleaseOutcome(hs: map<nat, Header>, buckets: seq<seq<nat>>, counts: seq<nat>, tally: Tally,
                       total: nat, ptr: Option<nat>)
    requires Arena(hs, buckets, counts, total)
    ensures var r := Release(hs, buckets, counts, tally, total, ptr);
      && (r.4 == Ignored <==> ptr.None?)
      && (r.4 == InvalidBlock <==> ptr.Some? && !ValidateBlock(hs, BlockOf(ptr.value)))
      && (r.4 == DoubleFree <==>
            ptr.Some? && ValidateBlock(hs, BlockOf(ptr.value)) && hs[ptr.value - HEADER_SIZE].isFree)
      && (r.4 != Released ==> r.0 == hs && r.1 == buckets && r.2 == counts && r.3 == tally)
  {
  }

  /**
   * Releasing block `b` returns its bytes: the used bytes drop by its size (modulo 2^64),
   * the deallocation count goes up, and the block count drops by one for each block the
   * freed block was merged with (a size_t count that wraps like num_blocks--).
   */
  lemma FreedCounts(hs: map<nat, Header>, buckets: seq<seq<nat>>, counts: seq<nat>, tally: Tally, total: nat, b: nat)
    requires Arena(hs, buckets, counts, total) && b in hs
    ensures var r := Freed(hs, buckets, counts, tally, total, b);
      && r.3 == tally.(used := SubW(tally.used, hs[b].size), deallocations := Inc(tally.deallocations), blocks := r.3.blocks)
      && (tally.blocks < WORD ==>
            var run := Coalesce(Marked(hs, b, true, total), b, total, tally.blocks).2;
            r.3.blocks == SubW(tally.blocks, |run| - 1))
  {
    if tally.blocks < WORD {
      var marked := Marked(hs, b, true, total);
      CoalesceCount(marked, b, total, tally.blocks);
    }
  }

  /**
   * Coalescing a valid block just marked free merges it with the free, valid blocks that
   * adjoin it into one free, valid block that spans exactly the run of blocks merged.
   */
  lemma MarkedRun(hs: map<nat, Header>, b: nat, total: nat, blocks: nat)
    requires Closed(hs) && InArena(hs, total) && b in hs && ValidHeader(hs[b])
    ensures var m := Coalesce(Marked(hs, b, true, total), b, total, blocks);
      && m.2 != [] && b in m.2 && Consecutive(hs, m.2) && m.1 == m.2[0]
      && (forall k :: 0 <= k < |m.2| && m.2[k] != b ==> hs[m.2[k]].isFree && ValidHeader(hs[m.2[k]]))
      && m.0[m.1].isFree && ValidHeader(m.0[m.1]) && End(m.0, m.1) == End(hs, m.2[|m.2| - 1])
  {
    var marked := Marked(hs, b, true, total);
    CoalesceRun(marked, b, total, blocks);
    RunBeforeMarking(hs, marked, b, Coalesce(marked, b, total, blocks).2);
  }

  /** The run part of CoalesceConserves. */
  lemma CoalesceRun(hs: map<nat, Header>, b: nat, total: nat, blocks: nat)
    requires b in hs && Closed(hs) && InArena(hs, total) && ValidHeader(hs[b]) && hs[b].isFree
    ensures var r := Coalesce(hs, b, total, blocks);
      && r.2 != [] && r.1 == r.2[0] && b in r.2 && r.1 in r.0
      && Consecutive(hs, r.2) && AllFreeAndValid(hs, r.2)
      && End(r.0, r.1) == End(hs, r.2[|r.2| - 1])
      && ValidHeader(r.0[r.1]) && r.0[r.1].isFree
  {
    CoalesceConserves(hs, b, total, blocks);
  }

  /** A run of free blocks once `b` is marked free was, before, a run of free blocks but `b`. */
  lemma RunBeforeMarking(hs: map<nat, Header>, marked: map<nat, Header>, b: nat, run: seq<nat>)
    requires b in hs && marked == hs[b := hs[b].(isFree := true)]
    requires run != [] && Consecutive(marked, run) && AllFreeAndValid(marked, run)
    ensures Consecutive(hs, run) && End(hs, run[|run| - 1]) == End(marked, run[|run| - 1])
    ensures forall k :: 0 <= k < |run| && run[k] != b ==> hs[run[k]].isFree && ValidHeader(hs[run[k]])
  {
    assert SameSizesOn(hs, marked, run);
    ConsecutiveTransfer(hs, marked, run);
    forall k | 0 <= k < |run| && run[k] != b
      ensures hs[run[k]].isFree && ValidHeader(hs[run[k]])
    {
      assert marked[run[k]] == hs[run[k]];
    }
  }

  /**
   * Releasing block `b` leaves the block coalescing returned (whose run MarkedRun
   * describes) free and valid with the size coalescing gave it, at the head of the free
   * list of that size, whose count goes up.
   */
  lemma FreedMerges(hs: map<nat, Header>, buckets: seq<seq<nat>>, counts: seq<nat>, tally: Tally, total: nat, b: nat)
    requires Arena(hs, buckets, counts, total) && b in hs && ValidHeader(hs[b])
    ensures var r := Freed(hs, buckets, counts, tally, total, b);
      var m := Coalesce(Marked(hs, b, true, total), b, total, tally.blocks);
      && m.1 in r.0 && r.0[m.1].isFree && ValidHeader(r.0[m.1]) && r.0[m.1].size == m.0[m.1].size
      && var i := FreeListIndex(m.0[m.1].size);
         r.1 == buckets[i := [m.1] + buckets[i]] && r.2 == counts[i := Inc(counts[i])]
  {
    var m := Coalesce(Marked(hs, b, true, total), b, total, tally.blocks);
    MarkedRun(hs, b, total, tally.blocks);
    ListedMoreKeys(hs, m.0, buckets);
    AddedValid(m.0, buckets, counts, m.1);
  }

  /** A valid, free block added to the free lists stays valid and free and heads its list. */
  lemma AddedValid(hs: map<nat, Header>, buckets: seq<seq<nat>>, counts: seq<nat>, b: nat)
    requires b in hs && Closed(hs) && |buckets| == MAX_FREE_LISTS && |counts| == MAX_FREE_LISTS
    requires Listed(hs, buckets) && ValidHeader(hs[b]) && hs[b].isFree
    ensures var r := Added(hs, buckets, counts, b); var i := FreeListIndex(hs[b].size);
      && b in r.0 && r.0[b].isFree && ValidHeader(r.0[b]) && r.0[b].size == hs[b].size
      && r.1 == buckets[i := [b] + buckets[i]] && r.2 == counts[i := Inc(counts[i])]
  {
  }

  /** Releasing keeps the arena invariant and keeps every counter within a size_t. */
  lemma FreedKeepsArena(hs: map<nat, Header>, buckets: seq<seq<nat>>, counts: seq<nat>, tally: Tally, total: nat, b: nat)
    requires Arena(hs, buckets, counts, total) && TallyFits(tally) && b in hs
    ensures var r := Freed(hs, buckets, counts, tally, total, b);
      Arena(r.0, r.1, r.2, total) && TallyFits(r.3) && hs.Keys <= r.0.Keys
  {
    var marked := Marked(hs, b, true, total);
    var merged := Coalesce(marked, b, total, tally.blocks);
    ListedMoreKeys(hs, merged.0, buckets);
    AdditionKeepsArena(merged.0, buckets, counts, total, merged.1);
    CoalesceCount(marked, b, total, tally.blocks);
  }

  /** The intermediate states of Freed, as the steps of memory_pool_free reach them. */
  lemma FreedStages(hs: map<nat, Header>, buckets: seq<seq<nat>>, counts: seq<nat>, tally: Tally, total: nat, b: nat)
    returns (marked: map<nat, Header>, merged: (map<nat, Header>, nat, seq<nat>, nat))
    requires Arena(hs, buckets, counts, total) && b in hs
    ensures marked == hs[b := hs[b].(isFree := true)] && marked == Marked(hs, b, true, total)
    ensures b in marked && Closed(marked) && InArena(marked, total)
    ensures merged == Coalesce(marked, b, total, tally.blocks) && Listed(merged.0, buckets)
    ensures merged.1 in merged.0 && Closed(merged.0) && |buckets| == MAX_FREE_LISTS && |counts| == MAX_FREE_LISTS
    ensures var added := Added(merged.0, buckets, counts, merged.1);
      Freed(hs, buckets, counts, tally, total, b)
        == (added.0, added.1, added.2,
            tally.(used := SubW(tally.used, hs[b].size), deallocations := Inc(tally.deallocations), blocks := merged.3))
  {
    marked := Marked(hs, b, true, total);
    merged := Coalesce(marked, b, total, tally.blocks);
    ListedMoreKeys(hs, merged.0, buckets);
  }

  /** The exits of memory_pool_alloc that refuse the request change nothing. */
  lemma AllocateRefused(hs: map<nat, Header>, buckets: seq<seq<nat>>, counts: seq<nat>, tally: Tally,
                        total: nat, alignment: nat, size: nat)
    requires Arena(hs, buckets, counts, total) && size < WORD && IsPowerOfTwo(alignment)
    requires var aligned := Aligned(size, alignment);
      size == 0 || TooLarge(aligned, total, tally.used) || BestFit(hs, aligned, Candidates(buckets, aligned)).None?
    ensures Allocate(hs, buckets, counts, tally, total, alignment, size) == (hs, buckets, counts, tally, None)
  {
  }

  /** Past its checks, memory_pool_alloc takes the block the search chose. */
  lemma AllocateChosen(hs: map<nat, Header>, buckets: seq<seq<nat>>, counts: seq<nat>, tally: Tally,
                       total: nat, alignment: nat, size: nat, b: nat, i: nat)
    requires Arena(hs, buckets, counts, total) && size < WORD && IsPowerOfTwo(alignment)
    requires var aligned := Aligned(size, alignment);
      && size != 0 && !TooLarge(aligned, total, tally.used)
      && BestFit(hs, aligned, Candidates(buckets, aligned)) == Some((b, i))
    ensures b in hs && ValidHeader(hs[b]) && Aligned(size, alignment) <= hs[b].size
    ensures alignment < WORD && Aligned(size, alignment) < WORD
    ensures AlignSize(Aligned(size, alignment), alignment) == Aligned(size, alignment)
    ensures Allocate(hs, buckets, counts, tally, total, alignment, size)
         == Allocated(hs, buckets, counts, tally, total, b, i, Aligned(size, alignment))
  {
    AlignTwice(size, alignment);
  }
}
