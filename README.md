# A verified model of a first-fit, page-backed allocator

This project models `allocator.c`, a small `malloc`/`free`/`calloc`/`realloc`
replacement. The allocator asks the operating system for whole pages (an
*arena*) with `mmap`. It keeps every arena on a global doubly linked list in
creation order. Each arena starts with a 32-byte header followed by its
blocks. Each block is a 32-byte header followed by its payload, and the blocks
of an arena sit on a doubly linked list in address order.

`m_malloc` rounds the request up to a multiple of 8 and adds the header. It
then takes the first gap that fits. The search runs arena by arena in list
order and, within an arena, block by block. A gap is the space after a block:
up to the next block, or up to the end of the arena after the last block.
Blocks are never split or grown. When no gap fits, a new arena big enough for
the block is mapped and appended to the list. `m_free` unlinks the block, and
it unmaps the arena when that was the arena's last block.

The model has six modules:

- `Sizes` (`sizes.dfy`): the size arithmetic on `size_t`, modelled as integers
  in `[0, 2^64)` with the wrap-around written out. The bitwise OR of
  `round_size` is defined on naturals.
- `Heap` (`heap.dfy`): the state as values.
  - Arena list: a sequence of arenas in list order.
  - Each arena: its base address, its page count, and its blocks in list
    (address) order.
  - Each block: its address, its size, and the base of its arena (the
    `arena` back-pointer).
  - Also in this module: the validity invariant, a first-fit reference
    definition, and the outcome predicates of placement (`Placed`), `m_malloc`
    (`Allocated`), `m_free` (`Freed`) and a copy-first `m_realloc` (`Moved`).
- `HeapFacts` (`heap_facts.dfy`): lemmas about those outcomes.
  - Each outcome keeps the invariant.
  - An allocation adds exactly one block, and a free removes exactly one.
  - Live blocks never overlap.
  - A freed pointer is no longer live.
- `Allocator` (`allocator.dfy`): the C routines as imperative code.
  - `look_for_region` is a loop.
  - The global list is the field of a class, whose methods patch it.
  - Each method is proved against the outcome predicates.
- `Scenarios` (`scenarios.dfy`): worked runs on concrete heaps.
- `Wrappers` (`wrappers.dfy`): the `Option` type used for NULL results.

The sequences stand in for the `previous`/`next` links. Splicing a node in or
out of a list is a sequence insertion or removal. The walk to the tail of the
arena list in `new_arena` is an append.

An arena's first block starts right after the arena header when the arena is
created, but not after that block is freed while others remain.
When the first block is freed while others remain, `m_free` makes the next
block the head (allocator.c:240-242). `look_for_region` never searches before
the head, so that space stays unused until the arena empties. The model
follows the code: the invariant only asks that every block lies after the
arena header. `Scenarios.HeadGapNotReused` shows a request that would fit
there exactly being sent to a new arena.

## Model

The definitions that model the C functions are `Sizes.RoundSize` (allocator.c:35-39), `Sizes.PagesForBlock` (allocator.c:44-54), `Sizes.CalculateBlockSize` (allocator.c:56-65), `Heap.Placed` (allocator.c:166-210), `Heap.Release` and `Heap.Freed` (allocator.c:226-247) and `Heap.Allocated` (allocator.c:249-266). They carry no contracts of their own; the rows below list the members whose contracts state what those definitions, and the methods proved against them, promise.

| member | source | states |
|---|---|---|
| Sizes.RoundSizeRoundsUp | allocator.c:32-39 | for a power-of-two alignment and 1 <= num <= SIZE_MAX - alignment + 1, round_size is the least multiple of the alignment at or above num |
| Sizes.RoundSizeOverflow | allocator.c:35-39 | round_size is 0 exactly when num is 0 or rounding up would pass SIZE_MAX |
| Sizes.BitOrLowMask | allocator.c:38 | OR-ing with the mask 2^k - 1 replaces the k low bits of x by ones and keeps the higher bits |
| Sizes.RoundSizeValue | allocator.c:35-39 | when nothing overflows, round_size clears the low bits of num - 1 below the alignment and adds one alignment |
| Sizes.PagesForBlockSpec | allocator.c:41-54 | the page count is 0 exactly when the block plus the arena header overflows or rounds past SIZE_MAX; otherwise it is the least number of pages holding both |
| Sizes.CalculateBlockSizeFits | allocator.c:56-65 | up to MAX_REQUEST, the block size is the header plus the request rounded up to a multiple of 8 |
| Sizes.AlignedBlockSize | allocator.c:56-65 | a request that is already a positive multiple of 8 (up to MAX_REQUEST) gets a block of exactly the request plus the 32-byte header |
| Sizes.CalculateBlockSizeWraps | allocator.c:56-65 | as written, any request above MAX_REQUEST wraps to a block size of at most 32: 32 for SIZE_MAX and 24 for SIZE_MAX - 7 |
| Sizes.CheckedBlockSize | allocator.c:56-65 | corrected block size: NULL exactly above MAX_REQUEST; otherwise calculate_block_size, at least header + request, below header + request + 8, a multiple of 8 |
| Sizes.BlockDataPtr | allocator.c:67-71 | the payload address maps back to its block under m_free's subtraction of the header (allocator.c:229) and keeps the block's 8-byte alignment |
| Sizes.MulOverflowCheck | allocator.c:297-300 | nmemb > SIZE_MAX / size exactly when nmemb * size exceeds SIZE_MAX |
| Heap.FirstFitFrom | allocator.c:142-164 | reference first fit: the first gap at or after block k that holds the request; NULL exactly when no such gap holds it |
| Heap.FirstFitArenaFrom | allocator.c:172-200 | the first arena in list order with a fitting gap, with that gap; NULL exactly when no arena has one |
| Heap.LocateFrom | allocator.c:229-230 | finds the arena and list position of the block header at an address; NULL only when no live block has it |
| Heap.LiveBlock | allocator.c:229 | the block found for a live pointer is the one whose payload it is |
| HeapFacts.LiveBlocksDisjoint | allocator.c:142-210 | in a valid heap, any two live blocks occupy disjoint address ranges, in one arena or in two |
| HeapFacts.AddressesUnique | allocator.c:229-230 | in a valid heap, a header address names at most one live block |
| HeapFacts.InsertKeepsArenaValid | allocator.c:176-196 | splicing a block into a fitting gap after its predecessor keeps the arena in address order and within its pages |
| HeapFacts.InsertKeepsHeapValid | allocator.c:176-196 | placing a block in an existing arena keeps the whole heap valid |
| HeapFacts.AppendKeepsHeapValid | allocator.c:202-209 | appending a freshly mapped arena whose sole block follows the header keeps the heap valid |
| HeapFacts.PlacedKeepsHeapValid | allocator.c:166-210 | every outcome of put_block_in_arena keeps the heap valid |
| HeapFacts.UnlinkKeepsArenaValid | allocator.c:232-242 | unlinking a block from an arena with more than one block keeps the arena valid |
| HeapFacts.ReleaseKeepsHeapValid | allocator.c:226-247 | every outcome of m_free keeps the heap valid, including unlinking an emptied arena |
| HeapFacts.PredecessorOfGap | allocator.c:183-184 | the predecessor walk of put_block_in_arena stops exactly at the block whose gap look_for_region found |
| HeapFacts.InsertAddsOneBlock | allocator.c:176-196 | splicing adds exactly the new block to the live blocks |
| HeapFacts.AppendAddsOneBlock | allocator.c:202-209 | a new arena adds exactly its first block, which is 8-byte aligned |
| HeapFacts.PlacedAddsOneBlock | allocator.c:166-210 | a placement that returns NULL changes nothing; a successful one adds exactly one block, of the requested size, at the returned 8-aligned address |
| HeapFacts.ReleaseRemovesOneBlock | allocator.c:226-247 | m_free removes exactly the freed block from the live blocks |
| HeapFacts.FreedIsNotLive | allocator.c:226-247 | after m_free(ptr), ptr is no longer the payload of a live block |
| HeapFacts.AllocatedAddsOneBlock | allocator.c:249-266 | a NULL from m_malloc changes nothing; a pointer is 8-aligned, comes from a request in 1..MAX_REQUEST, and is the payload of the one new block, which holds at least the requested bytes (and less than 8 more) |
| HeapFacts.AllocatedKeepsLive | allocator.c:249-266 | m_malloc moves no live block: a live payload stays live with the same header |
| HeapFacts.FreeSoleBlockUnmaps | allocator.c:239-245 | freeing an arena's only block removes that arena, and no remaining arena holds any byte of the freed block |
| Allocator.LookForRegion | allocator.c:142-164 | the loop returns the start of the reference first-fit gap, and NULL exactly when no gap fits |
| Allocator.Allocator.constructor | allocator.c:30 | the allocator starts with no arenas, which is a valid heap |
| Allocator.Allocator.Mmap | allocator.c:105-112 | mmap either fails or returns a page-aligned, non-NULL range that overlaps no arena |
| Allocator.Allocator.NewArena | allocator.c:95-125 | on success an arena with no blocks is appended at the tail over a fresh range; on failure nothing changes |
| Allocator.Allocator.RemoveArena | allocator.c:73-93 | the arena leaves the list, and the others keep their order |
| Allocator.Allocator.AllocateArenaForBlock | allocator.c:127-140 | NULL when the page count is 0 (nothing mapped); otherwise new_arena with that page count |
| Allocator.Allocator.PutBlockInArena | allocator.c:166-210 | the outcome is the first fit over arenas in list order, spliced after its predecessor, or else a new arena holding the block right after its header; the heap stays valid |
| Allocator.Allocator.NewBlock | allocator.c:212-224 | places a block of the given size as put_block_in_arena does |
| Allocator.Allocator.Free | allocator.c:226-247 | the heap after m_free is Freed: the block is unlinked and the order kept, with the arena removed when it becomes empty; the heap stays valid |
| Allocator.Allocator.Malloc | allocator.c:249-266 | size 0 gives NULL and no change; otherwise the outcome is a placement of a block of calculate_block_size(size) bytes; the heap stays valid |
| Allocator.Allocator.Calloc | allocator.c:291-307 | NULL and no change when nmemb * size overflows; otherwise exactly m_malloc(nmemb * size) |
| Allocator.Allocator.Realloc | allocator.c:268-289 | NULL pointer: as m_malloc(size); size 0: m_free and NULL; otherwise m_free followed by m_malloc |
| Allocator.Allocator.ReallocCopyFirst | allocator.c:268-289 | as m_realloc for a NULL pointer and for size 0; otherwise the block is moved with the copy before the release |
| Allocator.Allocator.MoveBlock | allocator.c:283-286 | the new block is allocated while the old block is still live and unchanged; only then is the old block freed; when allocation fails the old block is kept |
| Scenarios.ThreeAllocations | allocator.c:249-266 | m_malloc(16), m_malloc(32), m_malloc(64) on an empty heap return B+64, B+112, B+176 in one one-page arena at B |
| Scenarios.FreeMiddle | allocator.c:226-247 | freeing B+112 from that arena unlinks the middle block and keeps the arena |
| Scenarios.ReuseFreedGap | allocator.c:142-164 | m_malloc(24) then lands in the freed gap at B+112, between the first and the last block |
| Scenarios.LargeRequestArena | allocator.c:44-54 | m_malloc(5000) on an empty heap maps a two-page arena whose sole block follows the header |
| Scenarios.LeftoverReuse | allocator.c:142-164 | the space left in that arena takes m_malloc(3000) but not m_malloc(4000), which gets a new arena |
| Scenarios.WrappedBlockOverlapsNext | allocator.c:142-177 | as written, m_malloc(SIZE_MAX - 38) gets block size 0; in the arena of ThreeAllocations, whose blocks sit back to back, first fit takes the empty gap after the first block, so the new header lands on the next block's header and the arena invariant breaks |
| Scenarios.HeadGapNotReused | allocator.c:239-242 | after freeing the head block of a full arena, m_malloc(16) does not use the freed space before the new head |

## Left out

- Memory contents are not modelled: the header copies (`memcpy`, allocator.c:113, 177, 206), the zeroing in `m_calloc` (allocator.c:304) and the copy in `m_realloc` (allocator.c:286). Only the block and arena lists are modelled.
- `mmap` and `munmap` are operating-system calls. `mmap` is a nondeterministic choice: either failure, or any non-NULL, page-aligned range that overlaps no arena. `munmap` is the arena's removal from the list.
- Addresses are unbounded naturals, so the pointer sums in `look_for_region` (allocator.c:153, 160) cannot wrap.
- Allocator.Allocator.Malloc: returns NULL for requests above MAX_REQUEST (SIZE_MAX - 39). The code as written computes a wrapped block size for them (see Findings).
- Allocator.Allocator.Calloc: requires size > 0. The code divides by size (allocator.c:298), which is undefined for 0.
- Allocator.Allocator.Free: requires ptr to be the payload of a live block. A double free or a foreign pointer is undefined behaviour in the code and is not modelled.
- Allocator.Allocator.Realloc: models the list updates only. The over-long copy of `old_size` bytes into a smaller new block is not modelled, because bytes are not. The read from freed memory is captured only by HeapFacts.FreeSoleBlockUnmaps. The code never checks `new_ptr` (allocator.c:285-286): when m_malloc fails it copies to NULL, which is undefined behaviour; the model instead returns NULL with the old block already freed. Allocator.Allocator.MoveBlock is the corrected order, which keeps the old block when allocation fails.
- Allocator.Allocator.PutBlockInArena: requires blockSize >= 32 and a multiple of 8. The code as written also receives 0, 8, 16 or 24, the wrapped calculate_block_size of requests in [SIZE_MAX - 38, SIZE_MAX - 7], At allocator.c:177 the 32-byte header lands in a smaller gap, over the next block's header or past the arena; at allocator.c:206 it fits in the fresh one-page arena, but the block's recorded size is below its own header, so the next placement there writes over it. That is not modelled, because memory contents are not; Scenarios.WrappedBlockOverlapsNext exhibits one such overlap, and the corrected Allocator.Allocator.Malloc never passes these sizes.
- Allocator.Allocator.NewBlock: the same requires as PutBlockInArena, for the same reason: new_block (allocator.c:212-224) passes on the wrapped sizes 0, 8, 16 and 24 as written, and the resulting header overlap is not modelled.
- Allocator.Allocator.NewArena: the walk to the tail of the arena list (allocator.c:118-122) is an append to the sequence.
- Concurrency is not modelled: the global list has no locking, and the model is sequential.
- `allocator.h` and `tests/merge_sort.c` are not part of this model.

## Findings

| source | as written | input that shows it | evidently intended | confidence | as-written member | corrected member |
|---|---|---|---|---|---|---|
| allocator.c:56-65 | the block size is round_size(size, 8) + 32 in size_t and wraps around for large requests | m_malloc(SIZE_MAX): block size 32, a block with no room for any payload. m_malloc(SIZE_MAX - 7): block size 24, smaller than the block header. Both are placed and a pointer is returned | requests above SIZE_MAX - 39 return NULL | high; not executed | Sizes.CalculateBlockSizeWraps | Sizes.CheckedBlockSize |
| allocator.c:283-286 | m_realloc frees the old block before copying old_size bytes out of it | m_realloc(p, 16) where p is the only block of its arena: m_free unmaps the arena before the copy reads from p | allocate the new block, copy, then free the old block | high; not executed | HeapFacts.FreeSoleBlockUnmaps | Allocator.Allocator.MoveBlock |
