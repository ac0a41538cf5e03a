# c-learning-demos in Dafny

A model of the core of c-learning-demos, a collection of small C libraries and applications
written to teach systems programming. Each part of the core is a Dafny module, with the
properties its code promises proved.

- **The block allocator of the memory pool** (`MemoryPool`, `PoolAllocator`).
  - An arena is carved into header-prefixed blocks.
  - Free blocks sit on 32 size-class free lists.
  - Allocation is best fit, splitting the chosen block.
  - Freeing coalesces the block with its free neighbours.
  - Signatures check blocks and the pool.
  - Counters track used bytes, peak usage, allocations, deallocations and blocks.
  - Blocks are byte offsets into the arena, and `headers` maps each offset to the header written there.
  - `Pool` is a class whose methods rewrite these in place. Each method is proved equal to a specification function on the old state (`Allocate`, `Release`), and the lemmas of `MemoryPool` say what those functions do.
  - `PoolCycle` and `PoolValidate` replay two concrete runs that expose defects of the C code.
  - `PoolRepair` is the allocator the C code evidently intends: the arena is a sequence of blocks in address order with separate free lists, and a merge unlinks every block it absorbs. It reuses the search, split rule and capacity test of `MemoryPool`, and proves that allocating and freeing keep every listed offset a live, free, valid block and the listed blocks pairwise disjoint.
- **The container library.**
  - `DynamicArrays.DynamicArray`: a growable array over a Dafny `array`.
  - `Stacks.Stack`: a growable stack.
  - `LinkedLists.LinkedList`: a doubly linked list of heap nodes.
  - Each is a class over its buffer or nodes. Contents are a ghost `seq`, tied to the structure by `Valid()`.
- **The sort and search library** (`Algorithms`, `Sorting`, `Merging`).
  - Bubble, selection, insertion, quick and merge sort work in place on an `array` under a comparator that is a total preorder.
  - Each sort is proved to leave the array sorted and a permutation of the input. Merge sort is also proved stable.
  - Linear search, binary search, minimum and maximum, reversal and the sortedness test are included.
- **The string utilities** (`Utils`): `safe_strcat`, the overflow test of `safe_calloc`, `str_to_int` over a model of `strtol` (section 7.22.1.4 of ISO/IEC 9899:2011), `trim_whitespace` and `is_numeric`.
- **The word-frequency table and line statistics of the text analyzer** (`TextAnalyzer`).
- **The password generator.**
  - `PasswordGenerator` covers the character set, generation and its adjustment.
  - `PasswordStrength` covers the integer part of the strength analysis.
- **Support modules.**
  - `Wrappers`: `Option`.
  - `Sequences`: insertion, deletion and reversal of sequences, with their lemmas.
  - `CType`: the C character classes, `strlen`/`strcmp` on NUL-terminated buffers.

C's `size_t` is modelled as `nat` below `WORD` = 2^64, and `unsigned int` as 32 bits. The sums and differences the
code leaves to wrap around are written out modulo the word size. `SIZE_MAX` is `WORD - 1`.
Calls to `rand()` are an oracle parameter `rand: nat -> nat` (the `i`-th call's value). The
lines of a text file are a parameter. The kernel's answer to `mmap` is a boolean parameter.

## Model

| member | source | states |
|---|---|---|
| MemoryPool.AlignSizeOfPowerOfTwo | apps/intermediate/memory_pool/src/memory_pool.c:135-137 | for a power-of-two alignment, align_size is the least multiple of the alignment at least the size, unless `size + alignment - 1` overflows size_t, in which case the result is 0 |
| MemoryPool.AlignSizeWrapsToZero | apps/intermediate/memory_pool/src/memory_pool.c:136 | a request of SIZE_MAX bytes aligns to 0 bytes |
| MemoryPool.AlignSizeIdempotent | apps/intermediate/memory_pool/src/memory_pool.c:135-137 | aligning an aligned size changes nothing (power-of-two alignment, overflow included) |
| MemoryPool.FreeListIndex | apps/intermediate/memory_pool/src/memory_pool.c:147-168 | every size maps to one of the 32 free lists |
| MemoryPool.FreeListIndexOfLargeSize | apps/intermediate/memory_pool/src/memory_pool.c:158-167 | a size above 4096 goes to the first list from 9 whose threshold 8192 * 2^(i-9) covers it, or to list 31 when none does |
| MemoryPool.FreeListIndexMonotone | apps/intermediate/memory_pool/src/memory_pool.c:147-168 | a larger size never goes to an earlier list |
| MemoryPool.GetFreeListIndex | apps/intermediate/memory_pool/src/memory_pool.c:147-168 | the table of sizes up to 4096 and the threshold-doubling loop compute FreeListIndex |
| MemoryPool.PageRounded | apps/intermediate/memory_pool/src/memory_pool.c:185 | the pool size rounded to pages is a page multiple, at least the size asked for, when it does not wrap |
| MemoryPool.Unlink | apps/intermediate/memory_pool/src/memory_pool.c:391-401 | remove_from_free_list's link writes change only links, and leave the block with neither link |
| MemoryPool.Pushed | apps/intermediate/memory_pool/src/memory_pool.c:419-424 | add_to_free_list's link writes change only links |
| MemoryPool.SplitHeaders | apps/intermediate/memory_pool/src/memory_pool.c:277-293 | a split creates exactly one new header, right after the `aligned` payload bytes: free, signed, holding the rest less one header. The split block keeps `aligned` bytes and links to it, and every other header of the map keeps its size and flags, including a stale one the new header's bytes overlap (see Left out) |
| MemoryPool.SplitConserves | apps/intermediate/memory_pool/src/memory_pool.c:265-303 | split_block cuts exactly when the block is valid and its remainder can hold a header and MIN_BLOCK_SIZE bytes; then `aligned + HEADER_SIZE + new size` is the old size; otherwise nothing changes |
| MemoryPool.AbsorbNext | apps/intermediate/memory_pool/src/memory_pool.c:327-332 | one forward merge grows the block by a header and its successor's size, and keeps every other size |
| MemoryPool.AbsorbIntoPrev | apps/intermediate/memory_pool/src/memory_pool.c:352-357 | one backward merge grows the predecessor by a header and the block's size, and keeps every other size |
| MemoryPool.MergeForwardRun | apps/intermediate/memory_pool/src/memory_pool.c:320-342 | the blocks the forward loop absorbs are a gapless run of free, valid blocks that starts where the block ended, and the block now ends where the last of them ended |
| MemoryPool.MergeBackwardRun | apps/intermediate/memory_pool/src/memory_pool.c:345-368 | the blocks that absorb the block are a gapless run of free, valid blocks ending where it starts; the block the loop ends on is the first of them and now ends where the block ended |
| MemoryPool.Coalesce | apps/intermediate/memory_pool/src/memory_pool.c:314-317 | coalescing an invalid or used block changes nothing and returns it |
| MemoryPool.CoalesceConserves | apps/intermediate/memory_pool/src/memory_pool.c:314-371 | the merged run is a gapless sequence of free, valid blocks containing the block. The block returned is its first and ends where its last ended, so every merge adds a header and the neighbour's size and no byte is lost |
| MemoryPool.CoalesceCount | apps/intermediate/memory_pool/src/memory_pool.c:320-368 | the block count drops by one (modulo 2^64) for each block absorbed |
| MemoryPool.BestFitIsBest | apps/intermediate/memory_pool/src/memory_pool.c:458-478 | the search finds a block exactly when a visited entry is valid, free and large enough, and the block found is such an entry no larger than any other |
| MemoryPool.ExactFitIsFinal | apps/intermediate/memory_pool/src/memory_pool.c:468-477 | once an exact fit is chosen no later entry replaces it, which is why the search may stop there |
| MemoryPool.AllocateFails | apps/intermediate/memory_pool/src/memory_pool.c:439-484 | memory_pool_alloc returns NULL and leaves the pool unchanged exactly when the size is 0, the aligned size plus a header exceeds the unused bytes, or no valid, free, large enough block is on the lists from the request's size class up |
| MemoryPool.AllocateBestFit | apps/intermediate/memory_pool/src/memory_pool.c:458-513 | a successful allocation returns the payload of a visited block that was valid, free and large enough, no larger than any other such block |
| MemoryPool.AllocatedBlock | apps/intermediate/memory_pool/src/memory_pool.c:486-512 | the block chosen ends up in use, holding the aligned request when split and its own size otherwise; used bytes grow by that size, the peak follows, allocations grow by one, blocks by one when split |
| MemoryPool.AllocateKeepsArena | apps/intermediate/memory_pool/src/memory_pool.c:439-513 | allocation keeps every header inside the arena, every listed block a header, and every counter a size_t |
| MemoryPool.ReleaseOutcome | apps/intermediate/memory_pool/src/memory_pool.c:523-539 | memory_pool_free ignores NULL, refuses a pointer whose header does not validate and reports a double free, changing nothing in those cases; only a valid block in use is released |
| MemoryPool.FreedCounts | apps/intermediate/memory_pool/src/memory_pool.c:541-553 | releasing a block subtracts its size from the used bytes (modulo 2^64), adds one deallocation, and drops the block count by one per block it merged with |
| MemoryPool.MarkedRun | apps/intermediate/memory_pool/src/memory_pool.c:546-553 | the freed block is merged with the free, valid blocks adjoining it into one free, valid block spanning exactly the run merged |
| MemoryPool.FreedMerges | apps/intermediate/memory_pool/src/memory_pool.c:553-556 | the coalesced block is free and valid, heads the free list of its size, and that list's count grows by one |
| MemoryPool.FreedKeepsArena | apps/intermediate/memory_pool/src/memory_pool.c:523-557 | releasing keeps the arena invariant and every counter a size_t |
| MemoryPool.MaxSizeIsLargest | apps/intermediate/memory_pool/src/memory_pool.c:588-596 | the largest free block reported is the size of a listed block, and no listed block is larger |
| MemoryPool.WalkUsedFollowsChain | apps/intermediate/memory_pool/src/memory_pool.c:686-711 | the walk of validate_pool succeeds exactly when the chain of `next` links ends within MAX_CHECKED_BLOCKS blocks and every block on it validates; it then yields the used bytes on the chain, modulo 2^64 |
| PoolAllocator.RemoveFromFreeList | apps/intermediate/memory_pool/src/memory_pool.c:382-402 | the block leaves its list, the count drops by one, and only links change |
| PoolAllocator.AddToFreeList | apps/intermediate/memory_pool/src/memory_pool.c:412-428 | a valid block heads the list of its size class and that count grows; an invalid one changes nothing |
| PoolAllocator.SplitBlock | apps/intermediate/memory_pool/src/memory_pool.c:265-303 | the split of SplitConserves on the pool's state, with the block count one higher when it cuts |
| PoolAllocator.CoalesceBlocks | apps/intermediate/memory_pool/src/memory_pool.c:314-371 | the two loops leave the state Coalesce describes |
| PoolAllocator.MergeForwardLoop | apps/intermediate/memory_pool/src/memory_pool.c:320-342 | the forward loop leaves the headers and count of MergeForward |
| PoolAllocator.MergeBackwardLoop | apps/intermediate/memory_pool/src/memory_pool.c:345-368 | the backward loop leaves the headers, block and count of MergeBackward |
| PoolAllocator.FindBestBlock | apps/intermediate/memory_pool/src/memory_pool.c:458-478 | the nested loops choose the block BestFit chooses over the lists from the request's size class up, stopping at an exact fit |
| PoolAllocator.ScanList | apps/intermediate/memory_pool/src/memory_pool.c:461-473 | the inner loop over one list continues BestFit entry by entry |
| PoolAllocator.TakeBlock | apps/intermediate/memory_pool/src/memory_pool.c:486-512 | the chosen block leaves its list, is split when worth it with the rest pushed on its list, then is marked used and counted |
| PoolAllocator.AllocateBlock | apps/intermediate/memory_pool/src/memory_pool.c:444-513 | the allocation steps past the signature check yield Allocate's state and pointer |
| PoolAllocator.ReleasePointer | apps/intermediate/memory_pool/src/memory_pool.c:528-556 | the free steps past the signature check yield Release's state and outcome |
| PoolAllocator.ListStats | apps/intermediate/memory_pool/src/memory_pool.c:588-596 | the sum of the list counts as a size_t, and the largest size over every listed block |
| PoolAllocator.ListLargest | apps/intermediate/memory_pool/src/memory_pool.c:591-595 | the largest size met over one list, continuing the running maximum |
| PoolAllocator.WalkChain | apps/intermediate/memory_pool/src/memory_pool.c:686-711 | the loop of validate_pool yields the used bytes along the chain, or nothing when a block fails validation or the walk passes MAX_CHECKED_BLOCKS |
| PoolAllocator.Pool.Init | apps/intermediate/memory_pool/src/memory_pool.c:181-237 | init succeeds exactly for a non-zero size whose page rounding does not wrap and whose mapping is granted. Then the total is a page multiple, and there is one free block of `total - HEADER_SIZE` bytes, first in the chain and alone on the list of its size class. The block count is 1 and every other counter is 0 |
| PoolAllocator.Pool.Alloc | apps/intermediate/memory_pool/src/memory_pool.c:439-513 | a pool whose signature is not intact refuses every request; otherwise result and new state are those of Allocate |
| PoolAllocator.Pool.Free | apps/intermediate/memory_pool/src/memory_pool.c:523-557 | a pool whose signature is not intact ignores the call; otherwise outcome and new state are those of Release |
| PoolAllocator.Pool.GetStats | apps/intermediate/memory_pool/src/memory_pool.c:567-599 | no statistics for a pool whose signature is not intact; otherwise the counters, the fragmentation ratio, the sum of the list counts and the largest listed block |
| PoolAllocator.Pool.ValidatePool | apps/intermediate/memory_pool/src/memory_pool.c:674-717 | the pool passes exactly when its signature is intact, it has memory, and the walk from first_block yields used_size |
| PoolAllocator.Pool.Destroy | apps/intermediate/memory_pool/src/memory_pool.c:725-742 | a live pool is zero-filled, so its signature refuses every later alloc, free and get_stats |
| PoolCycle.FreeListCycle | apps/intermediate/memory_pool/src/memory_pool.c:314-428 | after the run of the Findings row, the `next` links of list 6 run 0, 3144, 0, ...: a walk from its head never reaches NULL |
| PoolCycle.WalkNeverEnds | apps/intermediate/memory_pool/src/memory_pool.c:458-478 | over links in which 0 and 3144 name each other, a walk from either never reaches NULL |
| PoolCycle.AllocatesBlock3144 | apps/intermediate/memory_pool/src/memory_pool.c:458-478 | the model, walking its lists as sequences, answers `alloc(800)` with block 3144 |
| PoolValidate.AsWrittenWalks | apps/intermediate/memory_pool/src/memory_pool.c:686-711 | the walk of validate_pool counts the used bytes correctly while no block was freed, and 0 of the 32 bytes in use after `free(p1)` |
| PoolValidate.ValidateAfterFree | apps/intermediate/memory_pool/src/memory_pool.c:674-717 | on a pool object, validate_pool passes after `alloc(16)` and `alloc(32)` and fails after `free(p1)`, while the pool holds exactly 32 bytes in use, which the corrected walk counts |
| PoolValidate.TiledIgnoresLinks | apps/intermediate/memory_pool/src/memory_pool.c:686-711 | the corrected walk, which steps by block size, counts the same whatever the free-list and chain links say |
| PoolValidate.TiledWalks | apps/intermediate/memory_pool/src/memory_pool.c:686-711 | the corrected walk yields used_size in every state of the run |
| PoolRepair.ListOfIsFreeListIndex | apps/intermediate/memory_pool/src/memory_pool.c:147-165 | the doubling search over list limits puts every size on the list get_free_list_index returns |
| PoolRepair.Fresh | apps/intermediate/memory_pool/src/memory_pool.c:212-233 | the arena initialization makes, one free block spanning the arena after one header and listed under its size, satisfies the free-list invariant |
| PoolRepair.MergeTrades | apps/intermediate/memory_pool/src/memory_pool.c:314-371 | releasing a block takes each free neighbour it absorbs off its list and puts the merged block on the list of its size, so the lists gain the merged block and lose exactly the absorbed ones |
| PoolRepair.MergeKeepsGood | apps/intermediate/memory_pool/src/memory_pool.c:314-371 | releasing a used block and merging it with its free neighbours keeps the arena tiled, no two free blocks adjacent, each list holding exactly the free blocks of its class, and used_size the sum of used payloads |
| PoolRepair.TakeKeepsGood | apps/intermediate/memory_pool/src/memory_pool.c:486-512 | handing out a listed free block, cut when the rest can hold a header and MIN_BLOCK_SIZE bytes and otherwise whole, keeps the free-list invariant |
| PoolRepair.TakenBlock | apps/intermediate/memory_pool/src/memory_pool.c:486-512 | the pointer handed out is the chosen block's payload, and the block is afterwards in use with at least the aligned request |
| PoolRepair.AllocKeepsGood | apps/intermediate/memory_pool/src/memory_pool.c:439-513 | memory_pool_alloc keeps the free-list invariant whatever it returns |
| PoolRepair.AllocRefuses | apps/intermediate/memory_pool/src/memory_pool.c:439-484 | NULL comes back, with the heap unchanged, exactly for size 0, a request past the unused bytes, or no fitting block on the lists from the request's class up |
| PoolRepair.AllocGrants | apps/intermediate/memory_pool/src/memory_pool.c:458-513 | a returned pointer is the payload of a valid, free, large enough block no larger than any other fitting listed block, and that block is in use afterwards |
| PoolRepair.FreeKeepsGood | apps/intermediate/memory_pool/src/memory_pool.c:523-557 | memory_pool_free keeps the free-list invariant for every pointer: NULL, invalid, double free or released |
| PoolRepair.ListedIsLive | apps/intermediate/memory_pool/src/memory_pool.c:412-428 | every offset on list i is the header of a live block that validates, is free, and whose size get_free_list_index maps to i |
| PoolRepair.ListedOnce | apps/intermediate/memory_pool/src/memory_pool.c:382-428 | no offset appears twice on a list |
| PoolRepair.ListedApart | apps/intermediate/memory_pool/src/memory_pool.c:458-478 | any two entries of the free lists are blocks whose headers and payloads do not overlap |
| DynamicArrays.DynamicArray.Create | libs/data_structures/src/dynamic_array.c:47-73 | no array for element size 0; otherwise empty, with capacity 8 when 0 is asked for |
| DynamicArrays.DynamicArray.Grow | libs/data_structures/src/dynamic_array.c:22-41 | the capacity doubles unless the doubled size_t wraps, and the contents stay |
| DynamicArrays.DynamicArray.Push | libs/data_structures/src/dynamic_array.c:90-108 | the contents become the old contents plus the element, growing a full array first; fails only when the capacity cannot double |
| DynamicArrays.DynamicArray.Pop | libs/data_structures/src/dynamic_array.c:114-127 | fails on an empty array; otherwise yields the last element and drops it |
| DynamicArrays.DynamicArray.Get | libs/data_structures/src/dynamic_array.c:133-141 | the element at the index exactly when the index is below the size |
| DynamicArrays.DynamicArray.Set | libs/data_structures/src/dynamic_array.c:147-155 | overwrites exactly that position when the index is below the size, and nothing otherwise |
| DynamicArrays.DynamicArray.Insert | libs/data_structures/src/dynamic_array.c:161-187 | at an index up to the size the contents become `Inserted(contents, index, e)`; past the size it fails unchanged |
| DynamicArrays.ShiftUp | libs/data_structures/src/dynamic_array.c:173-178 | the overlapping move shifts the elements from the index up one slot and leaves the rest |
| DynamicArrays.DynamicArray.Remove | libs/data_structures/src/dynamic_array.c:193-214 | below the size, returns that element and the contents become `Deleted(contents, index)`; otherwise fails unchanged |
| DynamicArrays.DynamicArray.Clear | libs/data_structures/src/dynamic_array.c:244-248 | no elements, same capacity |
| DynamicArrays.DynamicArray.ShrinkToFit | libs/data_structures/src/dynamic_array.c:254-271 | fails on an empty array; otherwise the capacity becomes the size and the contents stay |
| Stacks.Stack.Create | libs/data_structures/src/stack.c:47-73 | no stack for element size 0; otherwise empty, with capacity 16 when 0 is asked for |
| Stacks.Stack.Grow | libs/data_structures/src/stack.c:22-41 | the capacity doubles unless the doubled size_t wraps, and the contents stay |
| Stacks.Stack.Push | libs/data_structures/src/stack.c:90-108 | the element becomes the top, growing a full stack first; fails unchanged only when a full stack cannot double its capacity |
| Stacks.Stack.Pop | libs/data_structures/src/stack.c:114-127 | fails on an empty stack; otherwise yields the top and removes it |
| Stacks.Stack.Peek | libs/data_structures/src/stack.c:133-141 | fails on an empty stack; otherwise yields the top and changes nothing |
| Stacks.Stack.IsFull | libs/data_structures/src/stack.c:171-173 | true exactly when the stack holds as many elements as its capacity |
| Stacks.Stack.Clear | libs/data_structures/src/stack.c:179-183 | no elements, same capacity |
| Stacks.Stack.Dup | libs/data_structures/src/stack.c:189-199 | fails on an empty stack or a full one that cannot double; otherwise pushes a copy of the top (as corrected, see Findings) |
| Stacks.Stack.DupAsWritten | libs/data_structures/src/stack.c:189-199 | on a full stack, the value pushed is whatever the freed buffer yields, not the top |
| Stacks.DupReadsStaleBuffer | libs/data_structures/src/stack.c:189-199 | a full one-element stack [7] duplicated as written can end as [7, 0]; Dup gives [7, 7] |
| Stacks.Stack.Swap | libs/data_structures/src/stack.c:205-227 | fails below two elements; otherwise the top two trade places and the rest stays |
| Stacks.PushPop | libs/data_structures/src/stack.c:90-127 | a pop after a push returns the pushed element and restores the previous contents |
| LinkedLists.LinkedList.Create | libs/data_structures/src/linked_list.c:79-95 | no list for element size 0; otherwise an empty list of that element size |
| LinkedLists.LinkedList.FindNode | libs/data_structures/src/linked_list.c:50-73 | NULL past the end; otherwise the node at that position of the list |
| LinkedLists.LinkedList.PushFront | libs/data_structures/src/linked_list.c:120-141 | the contents become the element followed by the old contents |
| LinkedLists.LinkedList.PushBack | libs/data_structures/src/linked_list.c:147-168 | the contents become the old contents followed by the element |
| LinkedLists.LinkedList.PopFront | libs/data_structures/src/linked_list.c:174-196 | fails on an empty list; otherwise yields the first element and drops it |
| LinkedLists.LinkedList.PopBack | libs/data_structures/src/linked_list.c:202-224 | fails on an empty list; otherwise yields the last element and drops it |
| LinkedLists.LinkedList.Get | libs/data_structures/src/linked_list.c:230-242 | the element at the index exactly when the index is below the size |
| LinkedLists.LinkedList.Set | libs/data_structures/src/linked_list.c:248-260 | overwrites exactly that element when the index is below the size |
| LinkedLists.LinkedList.Insert | libs/data_structures/src/linked_list.c:266-301 | at an index up to the size the contents become `Inserted(contents, index, e)`; past the size it fails unchanged |
| LinkedLists.LinkedList.Remove | libs/data_structures/src/linked_list.c:307-339 | below the size, returns that element and the contents become `Deleted(contents, index)`; otherwise fails unchanged |
| LinkedLists.LinkedList.Find | libs/data_structures/src/linked_list.c:345-363 | the least index whose element compares equal, or SIZE_MAX when none does |
| LinkedLists.LinkedList.Clear | libs/data_structures/src/linked_list.c:385-400 | the list is empty with NULL head and tail |
| LinkedLists.LinkedList.Reverse | libs/data_structures/src/linked_list.c:406-426 | the contents become `Reversed(contents)` and head and tail trade places; one element or none is left alone |
| LinkedLists.PushedFront | libs/data_structures/src/linked_list.c:120-141 | the new node heads a well-linked list whose order is the old order after it |
| LinkedLists.PushedBack | libs/data_structures/src/linked_list.c:147-168 | the new node ends a well-linked list whose order is the old order before it |
| LinkedLists.PoppedFront | libs/data_structures/src/linked_list.c:174-196 | after unlinking the head, its successor heads a well-linked list of the rest |
| LinkedLists.PoppedBack | libs/data_structures/src/linked_list.c:202-224 | after unlinking the tail, its predecessor ends a well-linked list of the rest |
| LinkedLists.SplicedIn | libs/data_structures/src/linked_list.c:283-297 | the spliced node sits between positions `index - 1` and `index` of a well-linked list |
| LinkedLists.SplicedOut | libs/data_structures/src/linked_list.c:320-335 | the node at the index leaves a well-linked list of the others |
| LinkedLists.Rewritten | libs/data_structures/src/linked_list.c:248-260 | list_set changes the element at the index and no link |
| LinkedLists.Turned | libs/data_structures/src/linked_list.c:406-426 | swapping every node's links and head with tail gives a well-linked list in reversed order |
| Sequences.DeleteInserted | libs/data_structures/src/dynamic_array.c:161-214 | removing what was just inserted restores the sequence |
| Sequences.InsertDeleted | libs/data_structures/src/dynamic_array.c:161-214 | re-inserting a removed element at its position restores the sequence |
| Sequences.InsertedAtEnds | libs/data_structures/src/linked_list.c:270-276 | insertion at 0 or at the size is prepending or appending, which list_insert delegates to push_front and push_back |
| Sequences.DeletedAtEnds | libs/data_structures/src/linked_list.c:311-317 | deletion at 0 or at the last index drops the first or the last element |
| Sequences.ReversedTwice | libs/data_structures/src/linked_list.c:406-426 | reversing twice gives the sequence back |
| Sequences.InsertedMultiset | libs/data_structures/src/dynamic_array.c:161-187 | insertion adds exactly the inserted element |
| Sequences.DeletedMultiset | libs/data_structures/src/dynamic_array.c:193-214 | deletion removes exactly the deleted element |
| Algorithms.CompareInt | libs/algorithms/src/algorithms.c:437-441 | -1, 0 or 1 exactly as the first integer is below, equal to or above the second |
| Algorithms.CompareIntIsComparator | libs/algorithms/src/algorithms.c:437-441 | compare_int is a comparator: reflexive, sign-antisymmetric and transitive |
| Algorithms.IsSorted | libs/algorithms/src/algorithms.c:416-431 | true exactly when every adjacent pair compares at most 0 |
| Algorithms.LinearSearch | libs/algorithms/src/algorithms.c:289-303 | the least index whose element compares equal to the target, or SIZE_MAX when none does |
| Algorithms.BinarySearch | libs/algorithms/src/algorithms.c:309-335 | on a sorted non-empty array, an index whose element compares equal to the target, or SIZE_MAX exactly when none does |
| Algorithms.FirstProbe | libs/algorithms/src/algorithms.c:315-320 | on a non-empty array the first probe is inside it |
| Algorithms.EmptyProbeOutOfBounds | libs/algorithms/src/algorithms.c:316-320 | on an empty array the first probe is index SIZE_MAX / 2 |
| Algorithms.CheckedBinarySearch | libs/algorithms/src/algorithms.c:309-335 | on any sorted array, the empty one included, an index whose element compares equal, or SIZE_MAX when none does |
| Algorithms.FindMax | libs/algorithms/src/algorithms.c:341-357 | SIZE_MAX for an empty array, else the first index of a greatest element |
| Algorithms.FindMin | libs/algorithms/src/algorithms.c:363-379 | SIZE_MAX for an empty array, else the first index of a least element |
| Algorithms.Swap | libs/algorithms/src/algorithms.c:17-30 | the two elements trade places and nothing else changes |
| Algorithms.SwapPermutes | libs/algorithms/src/algorithms.c:17-30 | a swap keeps the multiset of elements |
| Algorithms.ReverseArray | libs/algorithms/src/algorithms.c:385-394 | element `i` moves to `size - 1 - i` |
| Sorting.BubblePass | libs/algorithms/src/algorithms.c:50-60 | after a pass the greatest element of the unsorted front is last in it and the rest is a permutation; a pass without a swap found the front in order |
| Sorting.BubbleSort | libs/algorithms/src/algorithms.c:44-66 | the array ends sorted and a permutation of the input |
| Sorting.BubbleUpPermutes | libs/algorithms/src/algorithms.c:51-58 | the comparisons of a pass keep the multiset |
| Sorting.BubbleUpMax | libs/algorithms/src/algorithms.c:51-58 | after `j` comparisons a greatest element of the first `j + 1` sits at `j` |
| Sorting.BubbleUpUnswapped | libs/algorithms/src/algorithms.c:51-60 | comparisons that swapped nothing left the sequence as it was and found its front in order |
| Sorting.MinFrom | libs/algorithms/src/algorithms.c:79-88 | the index of the first least element of the rest of the array |
| Sorting.Selected | libs/algorithms/src/algorithms.c:76-96 | putting a least element of the rest at `i` grows the sorted front by one |
| Sorting.SelectionSort | libs/algorithms/src/algorithms.c:71-97 | the array ends sorted and a permutation of the input |
| Sorting.InsertKey | libs/algorithms/src/algorithms.c:111-126 | `a[i]` moves down to just after the last element at most it, the elements between shifting up |
| Sorting.InsertedSorted | libs/algorithms/src/algorithms.c:111-126 | that move keeps the front sorted |
| Sorting.InsertionSort | libs/algorithms/src/algorithms.c:103-133 | the array ends sorted and a permutation of the input |
| Sorting.PartitionPermutes | libs/algorithms/src/algorithms.c:138-161 | partition keeps the elements |
| Sorting.PartitionKeeps | libs/algorithms/src/algorithms.c:138-161 | partition leaves everything outside the range alone |
| Sorting.PartitionSplits | libs/algorithms/src/algorithms.c:138-161 | the pivot lands at the returned index, with nothing above it before it and nothing at most it after it |
| Sorting.Partition | libs/algorithms/src/algorithms.c:138-161 | the loop leaves the array `Partitioned` describes |
| Sorting.QuickSortedPermutes | libs/algorithms/src/algorithms.c:166-178 | quick sort of a range keeps the elements |
| Sorting.QuickSortedKeeps | libs/algorithms/src/algorithms.c:166-178 | quick sort of a range leaves everything outside it alone |
| Sorting.QuickSortedSorts | libs/algorithms/src/algorithms.c:166-178 | quick sort of a range leaves it sorted |
| Sorting.QuickSortRange | libs/algorithms/src/algorithms.c:166-178 | the recursion on the array leaves what `QuickSorted` describes |
| Sorting.QuickSort | libs/algorithms/src/algorithms.c:183-190 | the array ends sorted and a permutation of the input; arrays of at most one element are left alone |
| Merging.MergePermutes | libs/algorithms/src/algorithms.c:218-250 | the merge holds exactly the elements of both runs |
| Merging.MergeSorts | libs/algorithms/src/algorithms.c:218-250 | merging two sorted runs gives a sorted run |
| Merging.MergeStable | libs/algorithms/src/algorithms.c:225 | among elements that compare equal, those of the left run come first and each run keeps its order |
| Merging.MergedPermutes | libs/algorithms/src/algorithms.c:196-254 | merging two adjacent runs in place keeps the elements |
| Merging.MergedKeeps | libs/algorithms/src/algorithms.c:196-254 | merging leaves everything outside the two runs alone |
| Merging.MergedSorts | libs/algorithms/src/algorithms.c:196-254 | merging two adjacent sorted runs leaves their union sorted |
| Merging.MergeHeads | libs/algorithms/src/algorithms.c:218-233 | the first loop writes the merge's prefix until one run is used up |
| Merging.CopyRest | libs/algorithms/src/algorithms.c:236-250 | a tail loop writes what remains of its run, which is what comes next in the merge |
| Merging.MergeRuns | libs/algorithms/src/algorithms.c:196-254 | merge leaves the array `Merged` describes |
| Merging.MergeSortedPermutes | libs/algorithms/src/algorithms.c:260-271 | merge sort of a range keeps the elements |
| Merging.MergeSortedKeeps | libs/algorithms/src/algorithms.c:260-271 | merge sort of a range leaves everything outside it alone |
| Merging.MergeSortedSorts | libs/algorithms/src/algorithms.c:260-271 | merge sort leaves the range sorted |
| Merging.MergeSortedStable | libs/algorithms/src/algorithms.c:260-271 | merge sort keeps elements that compare equal in their input order |
| Merging.MergeSortRange | libs/algorithms/src/algorithms.c:260-271 | the recursion on the array leaves what `MergeSorted` describes |
| Merging.MergeSort | libs/algorithms/src/algorithms.c:277-283 | the array ends sorted, a permutation of the input, and stably so; arrays of at most one element are left alone |
| Utils.SafeStrcat | libs/utils/src/utils.c:40-55 | appends the source exactly when both strings and a terminator fit, and otherwise leaves the buffer unchanged |
| Utils.CallocRejectsOverflow | libs/utils/src/utils.c:61-65 | the test rejects a request exactly when `count * size` exceeds SIZE_MAX |
| Utils.Strtol | libs/utils/src/utils.c:132 | strtol in base 10: skips leading whitespace, reads an optional sign and the longest run of digits, consumes nothing without digits, and clamps to the `long` range |
| Utils.StrToInt | libs/utils/src/utils.c:125-145 | succeeds exactly when the whole string is one number within `int`, and yields it |
| Utils.StrToIntOfFormat | libs/utils/src/utils.c:125-145 | every `int` printed by `%d`, after any whitespace, converts back to itself |
| Utils.StrToIntOutOfRange | libs/utils/src/utils.c:135-137 | a number outside `int` is rejected |
| Utils.StrToIntTrailing | libs/utils/src/utils.c:139-141 | a trailing character after the number is rejected |
| Utils.StrToIntNoDigits | libs/utils/src/utils.c:139-141 | a string without digits is rejected |
| Utils.IsNumeric | libs/utils/src/utils.c:179-200 | true exactly for a non-empty run of digits after at most one leading `-` |
| Utils.FormatIsNumeric | libs/utils/src/utils.c:179-200 | every number `%d` prints is numeric |
| Utils.NumericConverts | libs/utils/src/utils.c:125-200 | a numeric string converts exactly when its value is an `int`, and to that value |
| Utils.TrimmedIsMiddle | libs/utils/src/utils.c:151-173 | the trimmed string is the middle part whose outer parts are all whitespace and whose own ends are not |
| Utils.TrimmedEmpty | libs/utils/src/utils.c:161-163 | a string trims to nothing exactly when it is all whitespace |
| Utils.TrimIdempotent | libs/utils/src/utils.c:151-173 | trimming twice is trimming once |
| Utils.SkipLeadingSpace | libs/utils/src/utils.c:157-159 | the offset of the first character that is not whitespace |
| Utils.LastNonSpace | libs/utils/src/utils.c:166-169 | the offset of the last character that is not whitespace |
| Utils.TrimWhitespace | libs/utils/src/utils.c:151-173 | the buffer from the returned offset holds the trimmed string |
| TextAnalyzer.HashString | apps/beginner/text_analyzer/src/text_analyzer.c:131-142 | the djb2 fold in 32-bit arithmetic, reduced below 1024 |
| TextAnalyzer.HashIgnoresCase | apps/beginner/text_analyzer/src/text_analyzer.c:138 | a string hashes like its lower-case form |
| TextAnalyzer.SameBucketUpToCase | apps/beginner/text_analyzer/src/text_analyzer.c:131-142 | words that agree up to case land in the same bucket |
| TextAnalyzer.WordFrequencyTable.constructor | apps/beginner/text_analyzer/src/text_analyzer.c:116-121 | every chain empty and no entries |
| TextAnalyzer.WordFrequencyTable.AddWord | apps/beginner/text_analyzer/src/text_analyzer.c:152-185 | an empty word changes nothing. Otherwise its lower-cased key gets one more count: in place when present, with the entry count unchanged, or as a new head entry of frequency 1 that adds one entry |
| TextAnalyzer.WordFrequencyTable.AddKey | apps/beginner/text_analyzer/src/text_analyzer.c:164-184 | one more count for the key, by raising its entry or by a new head entry in its bucket |
| TextAnalyzer.WordFrequencyTable.Frequency | apps/beginner/text_analyzer/src/text_analyzer.c:164-174 | the frequency found by walking the word's bucket is the number of times its key was counted |
| TextAnalyzer.FindEntry | apps/beginner/text_analyzer/src/text_analyzer.c:168-174 | the index of the word's entry in its chain, or the chain's length when it has none |
| TextAnalyzer.LowerPrefix | apps/beginner/text_analyzer/src/text_analyzer.c:156-162 | the first 255 characters lower-cased: the key |
| TextAnalyzer.TallyAllKeys | apps/beginner/text_analyzer/src/text_analyzer.c:152-185 | the counted keys are the old ones and the keys of the words added, so total_entries is the number of distinct keys |
| TextAnalyzer.ExtractWord | apps/beginner/text_analyzer/src/text_analyzer.c:230-246 | skips non-letters, copies at most `size - 1` letters and a NUL, returns the position after them; an empty buffer returns the position and writes nothing |
| TextAnalyzer.CopyLetters | apps/beginner/text_analyzer/src/text_analyzer.c:240-243 | the letters from the start go to the buffer, as many as fit with the NUL |
| TextAnalyzer.LongestOf | apps/beginner/text_analyzer/src/text_analyzer.c:328-331 | the longest-word record is at least as long as the old record and every word, and is one of them |
| TextAnalyzer.ShortestOf | apps/beginner/text_analyzer/src/text_analyzer.c:332-335 | the shortest-word record is at most the old record and every word, and is one of them |
| TextAnalyzer.TextStats.constructor | apps/beginner/text_analyzer/src/text_analyzer.c:100-107 | every counter 0, the shortest length INT_MAX and both words empty |
| TextAnalyzer.IsEmptyLine | apps/beginner/text_analyzer/src/text_analyzer.c:268-274 | true exactly when every character of the line is whitespace |
| TextAnalyzer.CountCharacters | apps/beginner/text_analyzer/src/text_analyzer.c:282-316 | each character counts in the first of alpha, digit, space and punct it belongs to. Sentence ends are the `.`, `!` and `?`, and words are the maximal runs of letters |
| TextAnalyzer.RecordWords | apps/beginner/text_analyzer/src/text_analyzer.c:319-337 | every extracted word is counted in the table and offered to both records; nothing else changes |
| TextAnalyzer.AnalyzeLine | apps/beginner/text_analyzer/src/text_analyzer.c:258-343 | a blank line only counts a paragraph. Any other line adds its length, letter runs, sentence ends and character classes to the counters, and its words to the table and the records |
| TextAnalyzer.AnalyzeText | apps/beginner/text_analyzer/src/text_analyzer.c:355-377 | every line is analyzed in turn, total_lines is their number, and unique_words is the number of distinct keys counted |
| TextAnalyzer.CompareWordFrequency | apps/beginner/text_analyzer/src/text_analyzer.c:413-422 | negative when the first entry sorts first: higher frequency first, then strcmp order of the words |
| TextAnalyzer.CompareAntisymmetric | apps/beginner/text_analyzer/src/text_analyzer.c:413-422 | swapping the operands negates the comparison |
| TextAnalyzer.CompareZero | apps/beginner/text_analyzer/src/text_analyzer.c:413-422 | entries compare equal exactly when they are the same entry |
| TextAnalyzer.CompareTransitive | apps/beginner/text_analyzer/src/text_analyzer.c:413-422 | the order is transitive, so qsort with it is well defined |
| PasswordGenerator.CharsetMembers | apps/beginner/password_generator/src/password_generator.c:172-220 | a character is in the set exactly when an enabled set holds it and it is not excluded as similar |
| PasswordGenerator.CharsetFits | apps/beginner/password_generator/src/password_generator.c:244 | the set never outgrows the 512-byte buffer |
| PasswordGenerator.CharsetNonEmpty | apps/beginner/password_generator/src/password_generator.c:245-249 | with any set enabled the set is not empty, similar characters excluded or not |
| PasswordGenerator.DefaultCharset | apps/beginner/password_generator/src/password_generator.c:106-116 | the default options give the 62 letters and digits |
| PasswordGenerator.AppendSet | apps/beginner/password_generator/src/password_generator.c:178-200 | appends an enabled set, failing exactly when the buffer cannot take it |
| PasswordGenerator.AppendSets | apps/beginner/password_generator/src/password_generator.c:175-200 | the enabled sets in order lower, upper, digits, special, failing exactly when they do not fit |
| PasswordGenerator.DropSimilar | apps/beginner/password_generator/src/password_generator.c:203-218 | the buffer's string without the characters of `il1Lo0O`, in order |
| PasswordGenerator.BuildCharset | apps/beginner/password_generator/src/password_generator.c:172-221 | the length of the set left in the buffer, or 0 for an empty buffer or sets that do not fit |
| PasswordGenerator.AsWrittenDropsLowercase | apps/beginner/password_generator/src/password_generator.c:280-295 | the adjustment as written can overwrite the only lowercase letter with a digit |
| PasswordGenerator.AsWrittenInsertsSimilar | apps/beginner/password_generator/src/password_generator.c:289-290 | the adjustment as written can place `0` although similar characters are excluded |
| PasswordGenerator.AdjustInCharset | apps/beginner/password_generator/src/password_generator.c:280-295 | the corrected adjustment keeps the password inside the character set |
| PasswordGenerator.AdjustedCovers | apps/beginner/password_generator/src/password_generator.c:264-295 | after the corrected adjustment every enabled set is met |
| PasswordGenerator.GeneratedInCharset | apps/beginner/password_generator/src/password_generator.c:257-262 | a generated password has exactly `length` characters, all from the character set |
| PasswordGenerator.GeneratedCoversSets | apps/beginner/password_generator/src/password_generator.c:264-295 | a generated password holds a character of every enabled set |
| PasswordGenerator.CheckSets | apps/beginner/password_generator/src/password_generator.c:265-277 | whether some enabled set is missing from the password |
| PasswordGenerator.DrawPassword | apps/beginner/password_generator/src/password_generator.c:258-262 | `length` characters of the set picked with `rand()`, then the terminator |
| PasswordGenerator.AdjustPassword | apps/beginner/password_generator/src/password_generator.c:280-295 | the buffer holds the corrected adjustment of the draw |
| PasswordGenerator.GeneratePassword | apps/beginner/password_generator/src/password_generator.c:233-298 | fails with the buffer unchanged exactly for an empty buffer, no set enabled, or a buffer below `length + 1`; otherwise writes the generated password and its terminator |
| PasswordStrength.StrengthOf | apps/beginner/password_generator/src/password_generator.c:374-398 | the level earned by a score, with lower bounds 80, 60, 40, 20 and 10 |
| PasswordStrength.StrengthMonotone | apps/beginner/password_generator/src/password_generator.c:374-398 | a higher score never earns a lower level |
| PasswordStrength.UniqueAtMost | apps/beginner/password_generator/src/password_generator.c:331-338 | a password has no more distinct characters than characters |
| PasswordStrength.AsWrittenNeverVeryStrong | apps/beginner/password_generator/src/password_generator.c:352-379 | as written no password scores above 70, so none is Very Strong |
| PasswordStrength.VeryStrongReachable | apps/beginner/password_generator/src/password_generator.c:352-379 | with the bonus as intended, 16 or more characters of every class and at least 80% distinct are Very Strong |
| PasswordStrength.VeryStrongNeedsSixteen | apps/beginner/password_generator/src/password_generator.c:352-379 | only a password of 16 or more characters is Very Strong |
| PasswordStrength.FindClasses | apps/beginner/password_generator/src/password_generator.c:323-328 | one flag per class, set exactly when a character of it occurs |
| PasswordStrength.CountUnique | apps/beginner/password_generator/src/password_generator.c:331-338 | the number of distinct characters |
| PasswordStrength.AnalyzePasswordStrength | apps/beginner/password_generator/src/password_generator.c:308-399 | the empty password is Very Weak with every field zero; otherwise the classes, distinct characters, score and level with the length bonus as intended |
| PasswordStrength.Tally | apps/beginner/password_generator/src/password_generator.c:351-371 | the score added term by term is `Score` |

## Left out

- MemoryPool.ScanOrder, MemoryPool.Candidates, PoolAllocator.FindBestBlock, PoolAllocator.ScanList, PoolAllocator.ListStats, PoolAllocator.ListLargest: each free list is a sequence of block offsets, head first, and these walk that sequence. The C code instead walks `block->next` from the list head (memory_pool.c:461 and :591). The pool's `next` field is also the physical chain, so the two differ on reachable states: PoolCycle.FreeListCycle shows a run where the C walk never ends while the model's list is finite. The model keeps the sequence, so on such states `Allocate` and `GetStats` answer where the C code loops forever. It does not model the overwrites a merge makes to free-list links.
- MemoryPool.Coalesce: a neighbour merged into the freed block stays on its free list, as in the C code (memory_pool.c:327-334 never unlinks it). The model keeps its offset on the list, now naming a stale header inside a larger block. The free-list invariant is proved of PoolRepair instead, which unlinks absorbed neighbours.
- PoolRepair: a reference for the intended free lists, not a second implementation of the pool object. It has no signatures, counts, statistics tally or peak, and it merges at most one neighbour on each side, which is all coalesce_blocks can meet once no two free blocks are adjacent.
- MemoryPool.TooLarge: the capacity test (memory_pool.c:448) compares the request plus one header with `total_size - used_size`. That ignores the headers of blocks in use, so it overestimates free space. It never refuses a request the search could satisfy, because a free block of at least `aligned` bytes fits beside the used bytes and headers. The model keeps the test as written (MemoryPool.AllocateFails). It is an imprecise early exit, not a wrong answer, so it is not in Findings.
- PoolAllocator.Pool.Init: a failed initialization (memory_pool.c:182 and :193) returns before the memset of :197, leaving the caller's struct as it was. A constructor has no earlier state, so the model's failed pool is the zero-filled one. Its signature refuses every later call, as an untouched, never-initialized struct's garbage signature would.
- PoolAllocator.Pool.Init requires an alignment of 0 or a power of two, and a power-of-two page size of at least 64. memory_pool_init accepts any value, and align_size computes nonsense for others. The only caller (memory_pool.c:1041) passes an alignment checked to be a power of two at :1014-1015, and page sizes are powers of two.
- MemoryPool.SplitHeaders: headers are a map from offset to header, not bytes, so writing the new header at `nb` (memory_pool.c:277-283) changes no other entry. In C the 48 bytes from `nb` overwrite any header that starts less than 48 bytes away, and the as-written coalesce leaves such stale headers on the free lists (Findings row 3). After the row's `free(p3)`, for instance, `alloc(1392)` splits block 1696 and writes its new header at 3136, over the signature of stale block 3144, so validate_block(3144) fails in C while the model keeps 3144 valid, free and listed. The clause "every other header keeps its size and flags" holds of the map only. PoolRepair, which leaves no stale header on a list, has no such overlap.
- MemoryPool headers of blocks in use: `headers` keeps the header of every block ever created, including those merged away. Client writes into payloads are not modelled. test_memory_pool (memory_pool.c:750-825) writes patterns only within the bytes it asked for, which never cover a header, but a client overrunning its block would corrupt headers in C and not in the model.
- The test_memory_pool run (memory_pool.c:750-825) is not replayed step by step. PoolCycle and PoolValidate replay the two shorter runs that expose the defects in Findings.
- mmap, munmap and getpagesize: the page size and whether the mapping succeeds are parameters of Pool.Init; Pool.Destroy does not model unmapping.
- Allocation failures: malloc, realloc and calloc always succeed in DynamicArrays, Stacks, LinkedLists, TextAnalyzer and PasswordGenerator (the `safe_strdup` of password_generator.c:204).
- NULL arguments: every function's `!ptr` guard is dropped; a Dafny reference is never null.
- DynamicArrays.DynamicArray.Grow and Stacks.Stack.Grow model the overflow test of the doubled capacity only. The byte count `new_capacity * element_size` handed to realloc (dynamic_array.c:33, stack.c:33) can also overflow size_t. Elements are a generic `T` here, not bytes, so there is no element size to multiply.
- Byte copying through `void*` and `element_size` is modelled as assignment of a generic `T`.
- Logging and printing: log_message and every display, dump and report function are left out; they produce output only.
- Algorithms.BinarySearch requires a non-empty array. For size 0 the C code reads out of bounds (see Findings); CheckedBinarySearch is the total version.
- shuffle_array (algorithms.c:400-410) draws from rand() and is left out. compare_double and compare_string (algorithms.c:447-461) compare floats and C strings through `void*`; the sorts take any comparator instead.
- swap_elements' silent failure when its temporary malloc fails (algorithms.c:21-23) is not modelled.
- Utils.StrToInt: errno is modelled as strtol's range clamping. safe_realloc, secure_free and log_message (utils.c:75-119) are memory and output helpers with no model.
- TextAnalyzer: the file is a sequence of lines, each already read by fgets; fopen failure is not modelled. Lines longer than the fgets buffer are not split.
- TextAnalyzer: word frequencies, `total_entries` and the statistics counters are unbounded integers; their `int` and `long` overflow in text_analyzer.c is not modelled.
- TextAnalyzer: avg_word_length, avg_sentence_length and avg_paragraph_length (text_analyzer.c:378-388) are floating point and left out. So are generate_frequency_report (which sorts with compare_word_frequency), display_text_statistics and cleanup_word_frequency_table.
- TextAnalyzer, PasswordStrength, PasswordGenerator: characters are C `char`s below 256; locale-dependent classification is the "C" locale.
- PasswordGenerator.GeneratePassword requires a length in 4..128. init_password_options sets 12 and get_password_length (password_generator.c:472-496) accepts only that range, so no option the program builds is outside it. Within the range, the `length >= 4` guard of line 280 always holds.
- PasswordGenerator: `exclude_ambiguous` is an option with no effect in the C code, and has none in the model.
- PasswordGenerator.GeneratedCoversSets and the generator use the corrected adjustment (see Findings); the adjustment as written is AdjustAsWritten.
- PasswordStrength.UniqueBonus compares `5 * unique` with `4 * length` and `3 * length`, where the C code compares with the doubles `length * 0.8` and `length * 0.6` (password_generator.c:366-367). For every length an `int` can hold, the double product is within far less than 1/5 of the exact value, and is exact when the exact value is an integer, so the comparisons agree.
- PasswordStrength: the entropy (`log2`, password_generator.c:340-349) is floating point and left out, as are the description and recommendation strings and display_password_analysis.
- PasswordGenerator: save_password_to_file, the menus and the interactive loop are I/O.
- apps/intermediate/json_parser/src/json_parser.c is not part of this model: a separate application sharing no code with the libraries above. Its number values go through strtod (floating point) and its containers through realloc.
- apps/advanced/compiler/src/compiler.c is not part of this model: a separate application whose lexer and recursive-descent parser build heap ASTs.
- apps/advanced/web_server/src/web_server.c is not part of this model: a separate application whose request handling is interleaved with sockets and threads.
- apps/intermediate/file_manager/src/file_manager.c is not part of this model: a separate application whose logic sits between stat, readdir and chdir calls.
- apps/advanced/database_engine/src/database_engine.c is not part of this model: a separate application whose pages go through read, write, lseek and fsync, with time-stamped buffer slots.
- apps/advanced/thread_pool/src/thread_pool.c (concurrency), apps/intermediate/network_client/src/network_client.c (sockets and sscanf) and apps/beginner/hello_world/src/hello_world.c (printing only) are not part of this model.
- Every `main`, command-line parsing and interactive loop is left out.

## Findings

| source | as written | input that shows it | evidently intended | confidence | as-written member | corrected member |
|---|---|---|---|---|---|---|
| libs/algorithms/src/algorithms.c:316 | `right = size - 1` wraps to SIZE_MAX when `size` is 0, so the first probe reads index SIZE_MAX / 2 | `binary_search(a, 0, ...)` | an empty array finds nothing and returns SIZE_MAX | not executed | Algorithms.EmptyProbeOutOfBounds | Algorithms.CheckedBinarySearch |
| libs/data_structures/src/stack.c:195-198 | stack_dup passes stack_push a pointer into the buffer; on a full stack stack_grow reallocates the buffer (stack.c:96-100) before the copy of line 104 reads through the stale pointer | a full stack of capacity 1 holding 7, then `stack_dup` | the top element is pushed again: [7, 7] | not executed | Stacks.DupReadsStaleBuffer | Stacks.Stack.Dup |
| apps/intermediate/memory_pool/src/memory_pool.c:314-428 | one `next`/`prev` pair serves both as the physical chain and as the free-list links, and coalesce_blocks never unlinks the neighbours it merges. A later remove and add then link a free list into a cycle, and the walks of lines 461 and 591 never end | a 4096-byte pool on 4096-byte pages, alignment 8: `p1=alloc(600); p2=alloc(1000); free(p1); p3=alloc(1400); free(p3); p4=alloc(600); free(p4); alloc(800)` | a merge unlinks the neighbours it absorbs, so every listed offset is a live, free, valid block and the listed blocks are pairwise disjoint after any allocation or release; the search then picks a best fit and stops | not executed | PoolCycle.FreeListCycle | PoolRepair.ListedApart |
| apps/intermediate/memory_pool/src/memory_pool.c:412-428 | add_to_free_list sets the freed block's `next` to the list head, cutting the chain validate_pool walks, so the walk misses the blocks after it and validation fails on a consistent pool | a 4096-byte pool on 4096-byte pages, alignment 8: `p1=alloc(16); p2=alloc(32); free(p1); validate_pool()` | validation passes on a pool whose used bytes equal used_size | not executed | PoolValidate.ValidateAfterFree | PoolValidate.TiledWalks |
| apps/beginner/password_generator/src/password_generator.c:280-295 | each missing set's character is written at the next position from 0, over whatever was there, which can remove the only character of a set that was present | default options (lower, upper, digits), a draw `aBCDEFGHIJKL` whose only lowercase letter is first and which has no digit | after the adjustment every enabled set is present | not executed | PasswordGenerator.AsWrittenDropsLowercase | PasswordGenerator.GeneratedCoversSets |
| apps/beginner/password_generator/src/password_generator.c:289-290 | the adjustment draws from the full set even when similar characters are excluded | exclude_similar on, digits on, a draw with no digit, `rand()` yielding 0 | the password stays inside the character set | not executed | PasswordGenerator.AsWrittenInsertsSimilar | PasswordGenerator.GeneratedInCharset |
| apps/beginner/password_generator/src/password_generator.c:370-371 | the `length >= 12` test comes first, so the `length >= 16` bonus of 20 is never awarded and no score reaches 80 | any password of 16 or more characters | 20 points from 16 characters, making Very Strong reachable | not executed | PasswordStrength.AsWrittenNeverVeryStrong | PasswordStrength.VeryStrongReachable |
