/**
 * Worked runs of the public API on concrete heaps (allocator.c:226-266),
 * stated on the outcomes `Allocated` and `Freed` that m_malloc and m_free
 * are proved to produce. B is the page-aligned address the operating system
 * hands out for a new arena.
 */
module Scenarios {
  import opened Wrappers
  import opened Sizes
  import opened Heap
  import opened HeapFacts

  /** calculate_block_size for the request sizes used below. */
  lemma SmallBlockSizes()
    ensures CalculateBlockSize(16) == 48 && CalculateBlockSize(24) == 56
    ensures CalculateBlockSize(32) == 64 && CalculateBlockSize(64) == 96
  {
    AlignedBlockSize(16);
    AlignedBlockSize(24);
    AlignedBlockSize(32);
    AlignedBlockSize(64);
  }

  /** calculate_block_size and the page count for the larger requests below. */
  lemma LargeBlockSizes()
    ensures CalculateBlockSize(3000) == 3032 && CalculateBlockSize(4000) == 4032
    ensures CalculateBlockSize(5000) == 5032 && PagesForBlock(5032) == 2
  {
    AlignedBlockSize(3000);
    AlignedBlockSize(4000);
    AlignedBlockSize(5000);
    assert Pow2(12) == PAGE_SIZE;
    RoundSizeRoundsUp(5064, PAGE_SIZE, 12);
  }

  /** A block of at most a page less the arena header needs one page. */
  lemma OnePage(blockSize: Size)
    requires 0 < blockSize <= PAGE_SIZE - ARENA_HEADER
    ensures PagesForBlock(blockSize) == 1
  {
    PagesForBlockSpec(blockSize);
  }

  // The arena after m_malloc(16), m_malloc(32), m_malloc(64) on an empty heap.
  function Filled(b: nat): Arena
  {
    Arena(b, 1, [Block(b + 32, 48, b), Block(b + 80, 64, b), Block(b + 144, 96, b)])
  }

  /**
   * m_malloc(16), m_malloc(32), m_malloc(64) from an empty heap: one arena,
   * the three blocks back to back after its header.
   */
  lemma ThreeAllocations(b: nat, s1: seq<Arena>, r2: Option<nat>, s2: seq<Arena>, r3: Option<nat>, s3: seq<Arena>)
    requires Allocated([], 16, Some(b + 64), s1)
    requires Allocated(s1, 32, r2, s2)
    requires Allocated(s2, 64, r3, s3)
    ensures r2 == Some(b + 112) && r3 == Some(b + 176)
    ensures s3 == [Filled(b)]
  {
    FirstAllocation(b, s1);
    SecondAllocation(b, r2, s2);
    ThirdAllocation(b, r3, s3);
  }

  /** The first request maps a one-page arena holding its 48-byte block. */
  lemma FirstAllocation(b: nat, s1: seq<Arena>)
    requires Allocated([], 16, Some(b + 64), s1)
    ensures s1 == [Arena(b, 1, [Block(b + 32, 48, b)])]
  {
    SmallBlockSizes();
    OnePage(48);
  }

  /** The second request goes into the gap after the first block. */
  lemma SecondAllocation(b: nat, r2: Option<nat>, s2: seq<Arena>)
    requires Allocated([Arena(b, 1, [Block(b + 32, 48, b)])], 32, r2, s2)
    ensures r2 == Some(b + 112)
    ensures s2 == [Arena(b, 1, [Block(b + 32, 48, b), Block(b + 80, 64, b)])]
  {
    SmallBlockSizes();
    var a1 := Arena(b, 1, [Block(b + 32, 48, b)]);
    FirstFitAt(a1, 64, 0);
    FirstFitArenaAt([a1], 64, 0);
    assert InsertBlock(a1, 0, 64) == Arena(b, 1, [Block(b + 32, 48, b), Block(b + 80, 64, b)]);
  }

  /** The third request goes after the second block: nothing fits between the first two. */
  lemma ThirdAllocation(b: nat, r3: Option<nat>, s3: seq<Arena>)
    requires Allocated([Arena(b, 1, [Block(b + 32, 48, b), Block(b + 80, 64, b)])], 64, r3, s3)
    ensures r3 == Some(b + 176)
    ensures s3 == [Filled(b)]
  {
    SmallBlockSizes();
    var a2 := Arena(b, 1, [Block(b + 32, 48, b), Block(b + 80, 64, b)]);
    assert !Fits(a2, 0, 96);
    FirstFitAt(a2, 96, 1);
    FirstFitArenaAt([a2], 96, 0);
    assert InsertBlock(a2, 1, 96) == Filled(b);
  }

  /**
   * The wrapped block size of m_malloc(SIZE_MAX - 38) as written is 0. In the
   * arena above, whose blocks sit back to back, look_for_region takes the
   * empty gap after the first block, so the new header would land on the
   * second block's header: the splice breaks the arena invariant.
   */
  lemma WrappedBlockOverlapsNext(b: nat)
    ensures CalculateBlockSize(SIZE_MAX - 38) == 0
    ensures FirstFit(Filled(b), 0) == Some(0)
    ensures GapBlock(Filled(b), 0, 0).addr == Filled(b).blocks[1].addr
    ensures !ValidArena(InsertBlock(Filled(b), 0, 0))
  {
    CalculateBlockSizeWraps(SIZE_MAX - 38);
    FirstFitAt(Filled(b), 0, 0);
    assert InsertBlock(Filled(b), 0, 0).blocks[1] == Block(b + 80, 0, b);
  }

  /** m_free of the middle block unlinks it and keeps the arena. */
  lemma FreeMiddle(b: nat)
    ensures IsLive([Filled(b)], b + 112)
    ensures Freed([Filled(b)], b + 112) == Release([Filled(b)], 0, 1)
    ensures Release([Filled(b)], 0, 1) == [Filled(b).(blocks := [Block(b + 32, 48, b), Block(b + 144, 96, b)])]
  {
    var s := [Filled(b)];
    assert At(s, 0, 1, b + 80);
    assert Locate(s, b + 80) == Some((0, 1));
    var bs := Filled(b).blocks;
    assert bs[..1] + bs[2..] == [Block(b + 32, 48, b), Block(b + 144, 96, b)];
  }

  /**
   * m_malloc(24) after the middle block is freed: first fit lands in the
   * freed gap, between the first and the last block.
   */
  lemma ReuseFreedGap(b: nat, r: Option<nat>, after: seq<Arena>)
    requires Allocated(Release([Filled(b)], 0, 1), 24, r, after)
    ensures r == Some(b + 112)
    ensures b + 64 < r.value < b + 176
  {
    FreeMiddle(b);
    SmallBlockSizes();
    var a := Filled(b).(blocks := [Block(b + 32, 48, b), Block(b + 144, 96, b)]);
    FirstFitAt(a, 56, 0);
    FirstFitArenaAt([a], 56, 0);
  }

  /** m_malloc(5000) on an empty heap maps two pages: a 5032-byte block plus the arena header. */
  lemma LargeRequestArena(p: nat, s1: seq<Arena>)
    requires Allocated([], 5000, Some(p), s1)
    ensures p >= 64 && s1 == [SoleArena(p - 64, 2, 5032)]
  {
    LargeBlockSizes();
  }

  /**
   * The 3128 bytes left after that block take a 3000-byte request but not a
   * 4000-byte one, which needs a new arena: blocks are never split or grown.
   */
  lemma LeftoverReuse(p: nat, r: Option<nat>, s2: seq<Arena>, q: Option<nat>, s3: seq<Arena>)
    requires p >= 64
    requires Allocated([SoleArena(p - 64, 2, 5032)], 3000, r, s2)
    requires Allocated([SoleArena(p - 64, 2, 5032)], 4000, q, s3)
    ensures r == Some(p + 5032)
    ensures q.Some? ==> |s3| == 2 && s3[0] == SoleArena(p - 64, 2, 5032) && !(p - 64 <= q.value < p - 64 + 2 * PAGE_SIZE)
  {
    var a := SoleArena(p - 64, 2, 5032);
    LargeBlockSizes();
    FirstFitAt(a, 3032, 0);
    FirstFitArenaAt([a], 3032, 0);
    assert !Fits(a, 0, 4032);
    assert FirstFitArena([a], 4032).None?;
  }

  /**
   * The gap m_free leaves before an arena's first block is never searched:
   * with the first block freed from a full one-page arena, m_malloc(16) does
   * not use the 48 bytes after the arena header, although its 48-byte block
   * would fit there exactly.
   */
  lemma HeadGapNotReused(b: nat, r: Option<nat>, after: seq<Arena>)
    requires b > 0 && b % PAGE_SIZE == 0
    requires Allocated(Freed([Arena(b, 1, [Block(b + 32, 48, b), Block(b + 80, 4016, b)])], b + 64), 16, r, after)
    ensures r.Some? ==> !(b <= r.value < b + PAGE_SIZE)
    ensures r.Some? ==> |after| == 2 && after[0] == Arena(b, 1, [Block(b + 80, 4016, b)])
  {
    var s := [Arena(b, 1, [Block(b + 32, 48, b), Block(b + 80, 4016, b)])];
    assert At(s, 0, 0, b + 32);
    assert Locate(s, b + 32) == Some((0, 0));
    var a := Arena(b, 1, [Block(b + 80, 4016, b)]);
    assert s[0].blocks[..0] + s[0].blocks[1..] == a.blocks;
    assert Freed(s, b + 64) == [a];
    SmallBlockSizes();
    OnePage(48);
    assert !Fits(a, 0, 48);
    assert FirstFitArena([a], 48).None?;
  }
}
