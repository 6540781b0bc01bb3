/**
 * The allocator itself (allocator.c:73-307): the global arena list as the
 * field of a class, and the C routines that walk and patch it as methods
 * proved against the value-level outcomes of module Heap.
 */
module Allocator {
  import opened Wrappers
  import opened Sizes
  import opened Heap
  import opened HeapFacts

  /**
   * look_for_region: walk the blocks in list order and return the start of
   * the first gap, between two blocks or after the last one, that holds
   * `needed` bytes.
   */
  method LookForRegion(a: Arena, needed: nat) returns (region: Option<nat>)
    requires |a.blocks| > 0
    ensures region.None? <==> FirstFit(a, needed).None?
    ensures region.Some? ==> region.value == GapStart(a, FirstFit(a, needed).value)
  {
    var j := 0;
    while j + 1 < |a.blocks|
      invariant j < |a.blocks|
      invariant forall m :: 0 <= m < j ==> !Fits(a, m, needed)
    {
      var r := a.blocks[j].addr + a.blocks[j].size;
      if r + needed <= a.blocks[j + 1].addr {
        FirstFitAt(a, needed, j);
        return Some(r);
      }
      j := j + 1;
    }
    var r := a.blocks[j].addr + a.blocks[j].size;
    if r + needed <= a.base + a.numPages * PAGE_SIZE {
      FirstFitAt(a, needed, j);
      return Some(r);
    }
    assert !Fits(a, j, needed);
    return None;
  }

  /** An address at or above the end of every arena. */
  function Top(arenas: seq<Arena>): (t: nat)
    ensures forall i :: 0 <= i < |arenas| ==> End(arenas[i]) <= t
  {
    if arenas == [] then 0
    else
      var rest := Top(arenas[1..]);
      assert forall i :: 1 <= i < |arenas| ==> arenas[i] == arenas[1..][i - 1];
      if End(arenas[0]) <= rest then rest else End(arenas[0])
  }

  /** The allocator's global state: `first_arena` and everything reachable from it. */
  class Allocator {
    /** The arenas from `first_arena` along `next`, in creation order. */
    var arenas: seq<Arena>

    ghost predicate Valid()
      reads this
    {
      ValidHeap(arenas)
    }

    /** The initial state: `first_arena` is NULL. */
    constructor ()
      ensures Valid() && arenas == []
    {
      arenas := [];
    }

    /**
     * mmap of numPages anonymous pages: either MAP_FAILED or a page-aligned
     * range that no arena uses. Which of the two, and where, is up to the
     * operating system.
     */
    method Mmap(numPages: nat) returns (base: Option<nat>)
      ensures base.Some? ==> FreshRange(arenas, base.value, numPages)
    {
      if * {
        base := None;
      } else {
        var top := Top(arenas);
        NextMultiple(top, PAGE_SIZE);
        var above := top - top % PAGE_SIZE + PAGE_SIZE;
        assert FreshRange(arenas, above, numPages);
        var b: nat :| FreshRange(arenas, b, numPages);
        base := Some(b);
      }
    }

    /**
     * new_arena: map the pages and link an arena with no blocks at the tail
     * of the list (as the head when the list is empty); NULL and no change
     * when mmap fails.
     */
    method NewArena(numPages: nat) returns (arena: Option<nat>)
      modifies this
      ensures arena.None? ==> arenas == old(arenas)
      ensures arena.Some? ==> FreshRange(old(arenas), arena.value, numPages)
      ensures arena.Some? ==> arenas == old(arenas) + [Arena(arena.value, numPages, [])]
    {
      arena := Mmap(numPages);
      if arena.None? {
        return;
      }
      arenas := arenas + [Arena(arena.value, numPages, [])];
    }

    /**
     * remove_arena: unlink arena i (patching `first_arena` when it is the
     * head) and unmap it; the other arenas keep their order.
     */
    method RemoveArena(i: nat)
      requires i < |arenas|
      modifies this
      ensures arenas == old(arenas[..i] + arenas[i + 1..])
      ensures |arenas| == |old(arenas)| - 1
      ensures forall m :: 0 <= m < |arenas| ==> arenas[m] == old(arenas[if m < i then m else m + 1])
    {
      arenas := arenas[..i] + arenas[i + 1..];
    }

    /**
     * allocate_arena_for_block: a new arena sized for one block of
     * blockSize bytes; NULL when the page count overflows or mmap fails.
     */
    method AllocateArenaForBlock(blockSize: Size) returns (arena: Option<nat>)
      modifies this
      ensures PagesForBlock(blockSize) == 0 ==> arena.None?
      ensures arena.None? ==> arenas == old(arenas)
      ensures arena.Some? ==> FreshRange(old(arenas), arena.value, PagesForBlock(blockSize))
      ensures arena.Some? ==> arenas == old(arenas) + [Arena(arena.value, PagesForBlock(blockSize), [])]
    {
      var numPages := PagesForBlock(blockSize);
      if numPages == 0 {
        return None;
      }
      arena := NewArena(numPages);
    }

    /**
     * put_block_in_arena: try the arenas in list order, each by
     * look_for_region; splice the block after its address predecessor in the
     * first arena with room; otherwise put it first in a new arena.
     */
    method PutBlockInArena(blockSize: Size) returns (block: Option<nat>)
      requires Valid()
      requires blockSize >= BLOCK_HEADER && blockSize % DWORD == 0
      modifies this
      ensures Valid()
      ensures Placed(old(arenas), blockSize, block, arenas)
    {
      var i := 0;
      while i < |arenas|
        invariant i <= |arenas|
        invariant arenas == old(arenas)
        invariant forall m :: 0 <= m < i ==> FirstFit(arenas[m], blockSize).None?
      {
        var a := arenas[i];
        var region := LookForRegion(a, blockSize);
        if region.Some? {
          ghost var k := FirstFit(a, blockSize).value;
          // Walk to the block the new one follows in address order.
          var j := 0;
          while j + 1 < |a.blocks| && a.blocks[j + 1].addr < region.value
            invariant j <= k
          {
            j := j + 1;
          }
          PredecessorOfGap(a, j, k);
          FirstFitArenaAt(arenas, blockSize, i);
          arenas := arenas[i := InsertBlock(a, j, blockSize)];
          InsertKeepsHeapValid(old(arenas), i, j, blockSize);
          return region;
        }
        i := i + 1;
      }
      assert FirstFitArena(arenas, blockSize).None?;
      var base := AllocateArenaForBlock(blockSize);
      if base.None? {
        return None;
      }
      var b := base.value + ARENA_HEADER;
      var numPages := arenas[|arenas| - 1].numPages;
      // The new arena's first_block: the block header right after the arena header.
      arenas := arenas[|arenas| - 1 := Arena(base.value, numPages, [Block(b, blockSize, base.value)])];
      assert arenas == old(arenas) + [SoleArena(base.value, numPages, blockSize)];
      PagesForBlockSpec(blockSize);
      AppendKeepsHeapValid(old(arenas), base.value, numPages, blockSize);
      block := Some(b);
    }

    /** new_block: a block header of blockSize bytes placed by put_block_in_arena. */
    method NewBlock(blockSize: Size) returns (block: Option<nat>)
      requires Valid()
      requires blockSize >= BLOCK_HEADER && blockSize % DWORD == 0
      modifies this
      ensures Valid()
      ensures Placed(old(arenas), blockSize, block, arenas)
    {
      block := PutBlockInArena(blockSize);
    }

    /**
     * m_free: unlink the block from its arena's list (patching
     * `first_block` when it is the head); when it was the arena's only
     * block, remove the arena.
     */
    method Free(ptr: nat)
      requires Valid() && IsLive(arenas, ptr)
      modifies this
      ensures Valid()
      ensures arenas == Freed(old(arenas), ptr)
    {
      var loc := Locate(arenas, PayloadBlock(ptr)).value;
      var i, j := loc.0, loc.1;
      var a := arenas[i];
      if j > 0 {
        // block->previous->next = block->next, and back.
        arenas := arenas[i := a.(blocks := a.blocks[..j] + a.blocks[j + 1..])];
      } else if |a.blocks| > 1 {
        // arena->first_block = block->next
        assert a.blocks[1..] == a.blocks[..j] + a.blocks[j + 1..];
        arenas := arenas[i := a.(blocks := a.blocks[1..])];
      } else {
        RemoveArena(i);
      }
      ReleaseKeepsHeapValid(old(arenas), i, j);
    }

    /**
     * m_malloc: NULL for size 0; otherwise the payload of a block of
     * calculate_block_size(size) bytes, or NULL when no block can be
     * placed. Sizes whose block size would wrap around get NULL here.
     */
    method Malloc(size: Size) returns (ptr: Option<nat>)
      requires Valid()
      modifies this
      ensures Valid()
      ensures Allocated(old(arenas), size, ptr, arenas)
    {
      if size == 0 {
        return None;
      }
      var blockSize := CheckedBlockSize(size);
      if blockSize.None? {
        return None;
      }
      var block := NewBlock(blockSize.value);
      if block.None? {
        return None;
      }
      ptr := Some(BlockDataPtr(block.value));
    }

    /**
     * m_calloc: NULL when nmemb * size would overflow; otherwise m_malloc of
     * the product (whose bytes are then zeroed).
     */
    method Calloc(nmemb: Size, size: Size) returns (ptr: Option<nat>)
      requires Valid() && size > 0
      modifies this
      ensures Valid()
      ensures nmemb * size > SIZE_MAX ==> ptr.None? && arenas == old(arenas)
      ensures nmemb * size <= SIZE_MAX ==> Allocated(old(arenas), nmemb * size, ptr, arenas)
    {
      MulOverflowCheck(nmemb, size);
      if nmemb > SIZE_MAX / size {
        return None;
      }
      ptr := Malloc(nmemb * size);
    }

    /**
     * m_realloc, as far as the block lists go: NULL behaves as m_malloc,
     * size 0 as m_free returning NULL, anything else as m_free followed by
     * m_malloc.
     */
    method Realloc(ptr: Option<nat>, size: Size) returns (newPtr: Option<nat>)
      requires Valid()
      requires ptr.Some? ==> IsLive(arenas, ptr.value)
      modifies this
      ensures Valid()
      ensures ptr.None? ==> Allocated(old(arenas), size, newPtr, arenas)
      ensures ptr.Some? && size == 0 ==> newPtr.None? && arenas == Freed(old(arenas), ptr.value)
      ensures ptr.Some? && size > 0 ==> Allocated(Freed(old(arenas), ptr.value), size, newPtr, arenas)
    {
      if ptr.None? {
        newPtr := Malloc(size);
        return;
      }
      if size == 0 {
        Free(ptr.value);
        return None;
      }
      Free(ptr.value);
      newPtr := Malloc(size);
    }
  
    /**
     * m_realloc with the copy moved before the release: NULL and size 0 as
     * in m_realloc; otherwise the block is moved by MoveBlock.
     */
    method ReallocCopyFirst(ptr: Option<nat>, size: Size) returns (newPtr: Option<nat>)
      requires Valid()
      requires ptr.Some? ==> IsLive(arenas, ptr.value)
      modifies this
      ensures Valid()
      ensures ptr.None? ==> Allocated(old(arenas), size, newPtr, arenas)
      ensures ptr.Some? && size == 0 ==> newPtr.None? && arenas == Freed(old(arenas), ptr.value)
      ensures ptr.Some? && size > 0 ==> Moved(old(arenas), ptr.value, size, newPtr, arenas)
    {
      if ptr.None? {
        newPtr := Malloc(size);
        return;
      }
      if size == 0 {
        Free(ptr.value);
        return None;
      }
      newPtr := MoveBlock(ptr.value, size);
    }

    /**
     * The new block is allocated while the old one is still live and
     * unchanged, the min(old size, size) payload bytes are copied, and only
     * then is the old block freed. When no new block can be had, the old one
     * is kept.
     */
    method MoveBlock(ptr: nat, size: Size) returns (newPtr: Option<nat>)
      requires Valid() && IsLive(arenas, ptr)
      modifies this
      ensures Valid()
      ensures Moved(old(arenas), ptr, size, newPtr, arenas)
    {
      ghost var before := arenas;
      newPtr := Malloc(size);
      ghost var mid := arenas;
      if newPtr.None? {
        NullAllocationChangesNothing(before, size, mid);
        return;
      }
      AllocatedKeepsLive(before, size, newPtr, mid, ptr);
      // The copy of min(old size, size) payload bytes reads a live block here.
      Free(ptr);
      assert Allocated(before, size, newPtr, mid) && IsLive(mid, ptr) &&
        LiveBlock(mid, ptr) == LiveBlock(before, ptr) && arenas == Freed(mid, ptr);
    }
  }
}
