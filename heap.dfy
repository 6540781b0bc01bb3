/**
 * The allocator's state as values (allocator.c:11-30).
 *
 * The intrusive lists of the C code are sequences here: the arena list
 * reached from `first_arena` through `next` is a `seq<Arena>` in list order,
 * and the block list of an arena reached from `first_block` through `next` is
 * a `seq<Block>` in list order, which is address order. A block keeps its
 * `arena` back-reference as the base address of its owner. Addresses are
 * natural numbers.
 */
module Heap {
  import opened Wrappers
  import opened Sizes

  /** A block header: its address, its extent (header + rounded payload), its arena's base. */
  datatype Block = Block(addr: nat, size: nat, arena: nat)

  /** An arena: its base address, its page count and its blocks in list order. */
  datatype Arena = Arena(base: nat, numPages: nat, blocks: seq<Block>)

  /** One past the last byte of the arena's mapping. */
  function End(a: Arena): nat
  {
    a.base + a.numPages * PAGE_SIZE
  }

  /** Address of the payload of a block: what m_malloc hands out. */
  function Payload(b: Block): nat
  {
    BlockDataPtr(b.addr)
  }

  // ---------------------------------------------------------------- validity

  /** A block lies after the arena header and inside the mapping, with a whole header and double-word alignment. */
  ghost predicate WellPlaced(a: Arena, b: Block)
  {
    && b.arena == a.base
    && b.size >= BLOCK_HEADER && b.size % DWORD == 0 && b.addr % DWORD == 0
    && a.base + ARENA_HEADER <= b.addr
    && b.addr + b.size <= End(a)
  }

  /** Consecutive blocks are strictly address-ordered and do not overlap. */
  ghost predicate Ordered(blocks: seq<Block>)
  {
    forall k :: 0 <= k < |blocks| - 1 ==> blocks[k].addr + blocks[k].size <= blocks[k + 1].addr
  }

  /**
   * The arena invariant: page-aligned, never empty, every block after the
   * arena header and inside the mapping, blocks in address order. (The first
   * block starts right after the header when the arena is created, but not
   * after that block is freed while others remain.)
   */
  ghost predicate ValidArena(a: Arena)
  {
    && a.base > 0 && a.base % PAGE_SIZE == 0
    && |a.blocks| > 0
    && (forall k :: 0 <= k < |a.blocks| ==> WellPlaced(a, a.blocks[k]))
    && Ordered(a.blocks)
  }

  /** The range [base, base + numPages * PAGE_SIZE) shares no byte with arena a. */
  predicate Apart(a: Arena, base: nat, numPages: nat)
  {
    End(a) <= base || base + numPages * PAGE_SIZE <= a.base
  }

  /** What a successful mmap guarantees: a page-aligned range no arena uses. */
  predicate FreshRange(arenas: seq<Arena>, base: nat, numPages: nat)
  {
    && base > 0 && base % PAGE_SIZE == 0
    && forall i :: 0 <= i < |arenas| ==> Apart(arenas[i], base, numPages)
  }

  /** The whole allocator invariant: every arena valid, no two arenas overlap. */
  ghost predicate ValidHeap(arenas: seq<Arena>)
  {
    && (forall i :: 0 <= i < |arenas| ==> ValidArena(arenas[i]))
    && (forall i, j :: 0 <= i < j < |arenas| ==> Apart(arenas[i], arenas[j].base, arenas[j].numPages))
  }

  // ---------------------------------------------------------------- first fit

  /** The gap after block k starts where that block ends. */
  function GapStart(a: Arena, k: nat): nat
    requires k < |a.blocks|
  {
    a.blocks[k].addr + a.blocks[k].size
  }

  /** The gap after block k ends at the next block, or at the arena's end after the last block. */
  function GapLimit(a: Arena, k: nat): nat
    requires k < |a.blocks|
  {
    if k + 1 < |a.blocks| then a.blocks[k + 1].addr else End(a)
  }

  predicate Fits(a: Arena, k: nat, needed: nat)
    requires k < |a.blocks|
  {
    GapStart(a, k) + needed <= GapLimit(a, k)
  }

  /** The first gap at or after block k, in address order, that holds `needed` bytes. */
  function FirstFitFrom(a: Arena, needed: nat, k: nat): (r: Option<nat>)
    requires k <= |a.blocks|
    decreases |a.blocks| - k
    ensures r.Some? ==> k <= r.value < |a.blocks| && Fits(a, r.value, needed)
    ensures r.Some? ==> forall j :: k <= j < r.value ==> !Fits(a, j, needed)
    ensures r.None? <==> forall j :: k <= j < |a.blocks| ==> !Fits(a, j, needed)
  {
    if k == |a.blocks| then None
    else if Fits(a, k, needed) then Some(k)
    else FirstFitFrom(a, needed, k + 1)
  }

  function FirstFit(a: Arena, needed: nat): Option<nat>
  {
    FirstFitFrom(a, needed, 0)
  }

  /** The first arena at or after index i, in list order, with a fitting gap, and that gap. */
  function FirstFitArenaFrom(arenas: seq<Arena>, needed: nat, i: nat): (r: Option<(nat, nat)>)
    requires i <= |arenas|
    decreases |arenas| - i
    ensures r.Some? ==> i <= r.value.0 < |arenas| && FirstFit(arenas[r.value.0], needed) == Some(r.value.1)
    ensures r.Some? ==> forall j :: i <= j < r.value.0 ==> FirstFit(arenas[j], needed).None?
    ensures r.None? <==> forall j :: i <= j < |arenas| ==> FirstFit(arenas[j], needed).None?
  {
    if i == |arenas| then None
    else match FirstFit(arenas[i], needed)
      case Some(k) => Some((i, k))
      case None => FirstFitArenaFrom(arenas, needed, i + 1)
  }

  function FirstFitArena(arenas: seq<Arena>, needed: nat): Option<(nat, nat)>
  {
    FirstFitArenaFrom(arenas, needed, 0)
  }

  // ---------------------------------------------------------------- updates

  /** The block put_block_in_arena writes into the gap after block k. */
  function GapBlock(a: Arena, k: nat, size: nat): Block
    requires k < |a.blocks|
  {
    Block(GapStart(a, k), size, a.base)
  }

  /** Splice a new block into the gap after block k (previous/next patched on both sides). */
  function InsertBlock(a: Arena, k: nat, size: nat): Arena
    requires k < |a.blocks|
  {
    a.(blocks := a.blocks[..k + 1] + [GapBlock(a, k, size)] + a.blocks[k + 1..])
  }

  /** A freshly mapped arena whose only block sits right after the arena header. */
  function SoleArena(base: nat, numPages: nat, size: nat): Arena
  {
    Arena(base, numPages, [Block(base + ARENA_HEADER, size, base)])
  }

  /**
   * m_free on block j of arena i: the block leaves its list; when it was the
   * arena's only block the arena leaves the arena list.
   */
  function Release(arenas: seq<Arena>, i: nat, j: nat): seq<Arena>
    requires i < |arenas| && j < |arenas[i].blocks|
  {
    var a := arenas[i];
    if |a.blocks| == 1 then arenas[..i] + arenas[i + 1..]
    else arenas[i := a.(blocks := a.blocks[..j] + a.blocks[j + 1..])]
  }

  /** Block j of arena i lives at address addr. */
  ghost predicate At(arenas: seq<Arena>, i: nat, j: nat, addr: nat)
  {
    i < |arenas| && j < |arenas[i].blocks| && arenas[i].blocks[j].addr == addr
  }

  function BlockIndexFrom(blocks: seq<Block>, addr: nat, j: nat): (r: Option<nat>)
    requires j <= |blocks|
    decreases |blocks| - j
    ensures r.Some? ==> j <= r.value < |blocks| && blocks[r.value].addr == addr
    ensures r.None? <==> forall m :: j <= m < |blocks| ==> blocks[m].addr != addr
  {
    if j == |blocks| then None
    else if blocks[j].addr == addr then Some(j)
    else BlockIndexFrom(blocks, addr, j + 1)
  }

  /** Where the header at addr is: arena index and position in its block list. */
  function LocateFrom(arenas: seq<Arena>, addr: nat, i: nat): (r: Option<(nat, nat)>)
    requires i <= |arenas|
    decreases |arenas| - i
    ensures r.Some? ==> i <= r.value.0 && At(arenas, r.value.0, r.value.1, addr)
    ensures r.None? ==> forall i', j :: i <= i' ==> !At(arenas, i', j, addr)
  {
    if i == |arenas| then None
    else match BlockIndexFrom(arenas[i].blocks, addr, 0)
      case Some(j) => Some((i, j))
      case None => LocateFrom(arenas, addr, i + 1)
  }

  function Locate(arenas: seq<Arena>, addr: nat): Option<(nat, nat)>
  {
    LocateFrom(arenas, addr, 0)
  }

  /** ptr is the payload of a live block. */
  ghost predicate IsLive(arenas: seq<Arena>, ptr: nat)
  {
    ptr >= BLOCK_HEADER && Locate(arenas, ptr - BLOCK_HEADER).Some?
  }

  /** The header of the live block whose payload is ptr. */
  function LiveBlock(arenas: seq<Arena>, ptr: nat): (b: Block)
    requires ptr >= BLOCK_HEADER && Locate(arenas, ptr - BLOCK_HEADER).Some?
    ensures Payload(b) == ptr
  {
    var loc := Locate(arenas, ptr - BLOCK_HEADER).value;
    arenas[loc.0].blocks[loc.1]
  }

  /** The state after m_free(ptr). */
  function Freed(arenas: seq<Arena>, ptr: nat): seq<Arena>
    requires ptr >= BLOCK_HEADER && Locate(arenas, ptr - BLOCK_HEADER).Some?
  {
    var loc := Locate(arenas, ptr - BLOCK_HEADER).value;
    Release(arenas, loc.0, loc.1)
  }

  // ---------------------------------------------------------------- outcomes

  /**
   * put_block_in_arena: the block goes into the first fitting gap of the first
   * arena that has one; otherwise into a new arena appended at the tail, sized
   * by get_number_of_pages_for_block; when the page count is 0 or mmap fails,
   * NULL and nothing changes. `p` is the block's address.
   */
  ghost predicate Placed(before: seq<Arena>, size: Size, p: Option<nat>, after: seq<Arena>)
  {
    match FirstFitArena(before, size)
    case Some((i, k)) =>
      p == Some(GapStart(before[i], k)) && after == before[i := InsertBlock(before[i], k, size)]
    case None =>
      if p.None? then after == before
      else
        && PagesForBlock(size) > 0
        && p.value >= ARENA_HEADER
        && FreshRange(before, p.value - ARENA_HEADER, PagesForBlock(size))
        && after == before + [SoleArena(p.value - ARENA_HEADER, PagesForBlock(size), size)]
  }

  /**
   * m_malloc(size): NULL for size 0 and, in this model, for sizes whose block
   * size would wrap around; otherwise the payload of a block placed as above.
   */
  ghost predicate Allocated(before: seq<Arena>, size: Size, r: Option<nat>, after: seq<Arena>)
  {
    if size == 0 || size > MAX_REQUEST then r.None? && after == before
    else if r.None? then Placed(before, CalculateBlockSize(size), None, after)
    else r.value >= BLOCK_HEADER && Placed(before, CalculateBlockSize(size), Some(r.value - BLOCK_HEADER), after)
  }

  /**
   * A block moved with its copy before its release: NULL keeps the old block;
   * otherwise there is a state `mid` that m_malloc(size) produced, in which
   * the old block is still live and unchanged (the copy reads it there), and
   * the result frees the old block from `mid`.
   */
  ghost predicate Moved(before: seq<Arena>, ptr: nat, size: Size, r: Option<nat>, after: seq<Arena>)
    requires ptr >= BLOCK_HEADER && Locate(before, ptr - BLOCK_HEADER).Some?
  {
    if r.None? then after == before
    else exists mid ::
      && Allocated(before, size, r, mid)
      && IsLive(mid, ptr) && LiveBlock(mid, ptr) == LiveBlock(before, ptr)
      && after == Freed(mid, ptr)
  }

  /** Every live block, arena by arena in list order, each arena's blocks in address order. */
  function AllBlocks(arenas: seq<Arena>): seq<Block>
  {
    if |arenas| == 0 then [] else arenas[0].blocks + AllBlocks(arenas[1..])
  }
}
