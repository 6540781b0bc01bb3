/**
 * What placement and release do to the allocator invariant and to the set of
 * live blocks (allocator.c:142-247).
 */
module HeapFacts {
  import opened Wrappers
  import opened Sizes
  import opened Heap

  // ---------------------------------------------------------------- order

  /** Address order is transitive: an earlier block ends before any later one starts. */
  lemma {:induction false} OrderedBefore(blocks: seq<Block>, j1: nat, j2: nat)
    requires Ordered(blocks)
    requires forall k :: 0 <= k < |blocks| ==> blocks[k].size >= BLOCK_HEADER
    requires j1 < j2 < |blocks|
    ensures blocks[j1].addr + blocks[j1].size <= blocks[j2].addr
  {
    if j1 + 1 < j2 {
      OrderedBefore(blocks, j1, j2 - 1);
      assert blocks[j2 - 1].addr + blocks[j2 - 1].size <= blocks[j2].addr;
    }
  }

  /**
   * Live blocks never overlap: two different blocks of a valid heap occupy
   * disjoint address ranges, within one arena and across arenas.
   */
  lemma LiveBlocksDisjoint(arenas: seq<Arena>, i1: nat, j1: nat, i2: nat, j2: nat)
    requires ValidHeap(arenas)
    requires i1 < |arenas| && j1 < |arenas[i1].blocks|
    requires i2 < |arenas| && j2 < |arenas[i2].blocks|
    requires (i1, j1) != (i2, j2)
    ensures var b1, b2 := arenas[i1].blocks[j1], arenas[i2].blocks[j2];
      b1.addr + b1.size <= b2.addr || b2.addr + b2.size <= b1.addr
  {
    var a1, a2 := arenas[i1], arenas[i2];
    assert WellPlaced(a1, a1.blocks[j1]) && WellPlaced(a2, a2.blocks[j2]);
    if i1 == i2 {
      assert forall k :: 0 <= k < |a1.blocks| ==> WellPlaced(a1, a1.blocks[k]);
      if j1 < j2 {
        OrderedBefore(a1.blocks, j1, j2);
      } else {
        OrderedBefore(a1.blocks, j2, j1);
      }
    } else if i1 < i2 {
      assert Apart(a1, a2.base, a2.numPages);
    } else {
      assert Apart(a2, a1.base, a1.numPages);
    }
  }

  /** In a valid heap a header address names at most one live block. */
  lemma AddressesUnique(arenas: seq<Arena>, i1: nat, j1: nat, i2: nat, j2: nat, addr: nat)
    requires ValidHeap(arenas)
    requires At(arenas, i1, j1, addr) && At(arenas, i2, j2, addr)
    ensures i1 == i2 && j1 == j2
  {
    if (i1, j1) != (i2, j2) {
      LiveBlocksDisjoint(arenas, i1, j1, i2, j2);
    }
  }

  // ---------------------------------------------------------------- insertion

  /** A page-aligned address is double-word aligned, and so is the first block of an arena. */
  lemma PageAligned(base: nat)
    requires base % PAGE_SIZE == 0
    ensures base % DWORD == 0 && (base + ARENA_HEADER) % DWORD == 0
  {
    DivMod(base, DWORD, base / PAGE_SIZE * 512, 0);
  }

  /** The sum of two double-word multiples is one. */
  lemma SumAligned(x: nat, y: nat)
    requires x % DWORD == 0 && y % DWORD == 0
    ensures (x + y) % DWORD == 0
  {
    DivMod(x + y, DWORD, x / DWORD + y / DWORD, 0);
  }

  /** Where each block of the spliced list comes from. */
  lemma InsertIndices(a: Arena, k: nat, size: nat)
    requires k < |a.blocks|
    ensures var b := InsertBlock(a, k, size).blocks;
      && |b| == |a.blocks| + 1
      && (forall m :: 0 <= m <= k ==> b[m] == a.blocks[m])
      && b[k + 1] == GapBlock(a, k, size)
      && (forall m :: k + 1 < m < |b| ==> b[m] == a.blocks[m - 1])
  {
  }

  /** Splicing a block into a gap that holds it keeps the arena valid. */
  lemma InsertKeepsArenaValid(a: Arena, k: nat, size: nat)
    requires ValidArena(a) && k < |a.blocks| && Fits(a, k, size)
    requires size >= BLOCK_HEADER && size % DWORD == 0
    ensures ValidArena(InsertBlock(a, k, size))
  {
    var a' := InsertBlock(a, k, size);
    var b := a'.blocks;
    InsertIndices(a, k, size);
    InsertedWellPlaced(a, k, size);
    forall m | 0 <= m < |b|
      ensures WellPlaced(a', b[m])
    {
      var m' := if m <= k then m else m - 1;
      if m != k + 1 {
        assert b[m] == a.blocks[m'] && WellPlaced(a, a.blocks[m']);
      }
    }
    forall m | 0 <= m < |b| - 1
      ensures b[m].addr + b[m].size <= b[m + 1].addr
    {
      if m < k {
        assert b[m] == a.blocks[m] && b[m + 1] == a.blocks[m + 1];
      } else if m > k + 1 {
        assert b[m] == a.blocks[m - 1] && b[m + 1] == a.blocks[m];
      }
    }
  }

  /** The new block lies inside the gap, hence inside the arena, and keeps double-word alignment. */
  lemma InsertedWellPlaced(a: Arena, k: nat, size: nat)
    requires ValidArena(a) && k < |a.blocks| && Fits(a, k, size)
    requires size >= BLOCK_HEADER && size % DWORD == 0
    ensures WellPlaced(a, GapBlock(a, k, size))
    ensures k + 1 < |a.blocks| ==> GapBlock(a, k, size).addr + size <= a.blocks[k + 1].addr
  {
    GapStartAligned(a, k);
    if k + 1 < |a.blocks| {
      assert WellPlaced(a, a.blocks[k + 1]);
    }
  }

  /** The other arenas and the arena order are untouched, so the heap stays valid. */
  lemma InsertKeepsHeapValid(arenas: seq<Arena>, i: nat, k: nat, size: nat)
    requires ValidHeap(arenas) && i < |arenas| && k < |arenas[i].blocks| && Fits(arenas[i], k, size)
    requires size >= BLOCK_HEADER && size % DWORD == 0
    ensures ValidHeap(arenas[i := InsertBlock(arenas[i], k, size)])
  {
    InsertKeepsArenaValid(arenas[i], k, size);
    var after := arenas[i := InsertBlock(arenas[i], k, size)];
    assert forall m :: 0 <= m < |after| ==>
      after[m].base == arenas[m].base && after[m].numPages == arenas[m].numPages;
  }

  /** Appending a fresh arena whose pages hold the block and the arena header keeps the heap valid. */
  lemma AppendKeepsHeapValid(arenas: seq<Arena>, base: nat, numPages: nat, size: nat)
    requires ValidHeap(arenas) && FreshRange(arenas, base, numPages)
    requires size >= BLOCK_HEADER && size % DWORD == 0
    requires ARENA_HEADER + size <= numPages * PAGE_SIZE
    ensures ValidHeap(arenas + [SoleArena(base, numPages, size)])
  {
    var a := SoleArena(base, numPages, size);
    PageAligned(base);
    assert WellPlaced(a, a.blocks[0]);
    assert ValidArena(a);
    var after := arenas + [a];
    forall i, j | 0 <= i < j < |after|
      ensures Apart(after[i], after[j].base, after[j].numPages)
    {
      if j == |arenas| {
        assert Apart(arenas[i], base, numPages);
      } else {
        assert after[i] == arenas[i] && after[j] == arenas[j];
      }
    }
  }

  /** Whatever put_block_in_arena does, the heap stays valid. */
  lemma PlacedKeepsHeapValid(before: seq<Arena>, size: Size, p: Option<nat>, after: seq<Arena>)
    requires ValidHeap(before) && Placed(before, size, p, after)
    requires size >= BLOCK_HEADER && size % DWORD == 0
    ensures ValidHeap(after)
  {
    match FirstFitArena(before, size)
    case Some((i, k)) =>
      InsertKeepsHeapValid(before, i, k, size);
    case None =>
      if p.Some? {
        PagesForBlockSpec(size);
        AppendKeepsHeapValid(before, p.value - ARENA_HEADER, PagesForBlock(size), size);
      }
  }

  // ---------------------------------------------------------------- release

  /** Taking one block out of an arena that keeps others leaves it valid. */
  lemma UnlinkKeepsArenaValid(a: Arena, j: nat)
    requires ValidArena(a) && j < |a.blocks| && |a.blocks| > 1
    ensures ValidArena(a.(blocks := a.blocks[..j] + a.blocks[j + 1..]))
  {
    var a' := a.(blocks := a.blocks[..j] + a.blocks[j + 1..]);
    var b := a'.blocks;
    assert forall m :: 0 <= m < j ==> b[m] == a.blocks[m];
    assert forall m :: j <= m < |b| ==> b[m] == a.blocks[m + 1];
    forall m | 0 <= m < |b|
      ensures WellPlaced(a', b[m])
    {
      var m' := if m < j then m else m + 1;
      assert b[m] == a.blocks[m'] && WellPlaced(a, a.blocks[m']);
    }
    forall m | 0 <= m < |b| - 1
      ensures b[m].addr + b[m].size <= b[m + 1].addr
    {
      if m + 1 < j {
        assert b[m] == a.blocks[m] && b[m + 1] == a.blocks[m + 1];
      } else if m + 1 == j {
        assert WellPlaced(a, a.blocks[j]);
        assert b[m] == a.blocks[m] && b[m + 1] == a.blocks[m + 2];
        assert a.blocks[m].addr + a.blocks[m].size <= a.blocks[m + 1].addr;
        assert a.blocks[m + 1].addr + a.blocks[m + 1].size <= a.blocks[m + 2].addr;
      } else {
        assert b[m] == a.blocks[m + 1] && b[m + 1] == a.blocks[m + 2];
      }
    }
  }

  /** m_free keeps the heap valid; in particular no empty arena survives. */
  lemma ReleaseKeepsHeapValid(arenas: seq<Arena>, i: nat, j: nat)
    requires ValidHeap(arenas) && i < |arenas| && j < |arenas[i].blocks|
    ensures ValidHeap(Release(arenas, i, j))
  {
    var after := Release(arenas, i, j);
    if |arenas[i].blocks| == 1 {
      assert forall m :: 0 <= m < |after| ==> after[m] == arenas[if m < i then m else m + 1];
      forall m1, m2 | 0 <= m1 < m2 < |after|
        ensures Apart(after[m1], after[m2].base, after[m2].numPages)
      {
        var n1, n2 := if m1 < i then m1 else m1 + 1, if m2 < i then m2 else m2 + 1;
        assert after[m1] == arenas[n1] && after[m2] == arenas[n2];
      }
    } else {
      UnlinkKeepsArenaValid(arenas[i], j);
      assert forall m :: 0 <= m < |after| ==>
        after[m].base == arenas[m].base && after[m].numPages == arenas[m].numPages;
    }
  }

  // ---------------------------------------------------------------- contents

  lemma {:induction false} AllBlocksAppend(s: seq<Arena>, t: seq<Arena>)
    ensures AllBlocks(s + t) == AllBlocks(s) + AllBlocks(t)
  {
    if s == [] {
      assert s + t == t;
    } else {
      assert (s + t)[1..] == s[1..] + t;
      AllBlocksAppend(s[1..], t);
    }
  }

  lemma {:induction false} AllBlocksSplit(s: seq<Arena>, i: nat)
    requires i < |s|
    ensures AllBlocks(s) == AllBlocks(s[..i]) + s[i].blocks + AllBlocks(s[i + 1..])
  {
    if i == 0 {
      assert s[..0] == [];
    } else {
      var t := s[1..];
      AllBlocksSplit(t, i - 1);
      assert t[..i - 1] == s[..i][1..] && t[i - 1] == s[i] && t[i..] == s[i + 1..];
      assert AllBlocks(s[..i]) == s[0].blocks + AllBlocks(t[..i - 1]);
    }
  }

  /** Replacing arena i changes the live blocks only in that arena's stretch. */
  lemma AllBlocksUpdate(s: seq<Arena>, i: nat, a: Arena)
    requires i < |s|
    ensures AllBlocks(s) == AllBlocks(s[..i]) + s[i].blocks + AllBlocks(s[i + 1..])
    ensures AllBlocks(s[i := a]) == AllBlocks(s[..i]) + a.blocks + AllBlocks(s[i + 1..])
  {
    var s' := s[i := a];
    AllBlocksSplit(s, i);
    AllBlocksSplit(s', i);
    assert s'[..i] == s[..i] && s'[i + 1..] == s[i + 1..];
  }

  /** Gaps start on a double-word boundary. */
  lemma GapStartAligned(a: Arena, k: nat)
    requires ValidArena(a) && k < |a.blocks|
    ensures GapStart(a, k) % DWORD == 0 && GapStart(a, k) >= a.base + ARENA_HEADER
  {
    var b := a.blocks[k];
    assert WellPlaced(a, b);
    SumAligned(b.addr, b.size);
  }

  /** Splicing into arena i adds exactly the spliced block to the live blocks. */
  lemma InsertAddsOneBlock(arenas: seq<Arena>, i: nat, k: nat, size: nat)
    requires i < |arenas| && k < |arenas[i].blocks|
    ensures multiset(AllBlocks(arenas[i := InsertBlock(arenas[i], k, size)]))
         == multiset(AllBlocks(arenas)) + multiset{GapBlock(arenas[i], k, size)}
  {
    var a := arenas[i];
    var nb := GapBlock(a, k, size);
    AllBlocksUpdate(arenas, i, InsertBlock(a, k, size));
    var front, back := AllBlocks(arenas[..i]), AllBlocks(arenas[i + 1..]);
    var head, tail := a.blocks[..k + 1], a.blocks[k + 1..];
    assert a.blocks == head + tail;
    assert InsertBlock(a, k, size).blocks == head + [nb] + tail;
    assert multiset(AllBlocks(arenas)) == multiset(front) + multiset(head) + multiset(tail) + multiset(back);
  }

  /** Appending a fresh arena adds exactly its sole block, double-word aligned, to the live blocks. */
  lemma AppendAddsOneBlock(arenas: seq<Arena>, base: nat, numPages: nat, size: nat)
    requires base % PAGE_SIZE == 0
    ensures (base + ARENA_HEADER) % DWORD == 0
    ensures multiset(AllBlocks(arenas + [SoleArena(base, numPages, size)]))
         == multiset(AllBlocks(arenas)) + multiset{Block(base + ARENA_HEADER, size, base)}
  {
    PageAligned(base);
    var a := SoleArena(base, numPages, size);
    AllBlocksAppend(arenas, [a]);
    assert AllBlocks([a]) == a.blocks + AllBlocks([]);
  }

  /**
   * A successful placement adds exactly one live block, of the requested size
   * at the returned address and double-word aligned; a failed one changes
   * nothing.
   */
  lemma PlacedAddsOneBlock(before: seq<Arena>, size: Size, p: Option<nat>, after: seq<Arena>)
    requires ValidHeap(before) && Placed(before, size, p, after)
    ensures p.None? ==> after == before
    ensures p.Some? ==> p.value % DWORD == 0
    ensures p.Some? ==>
      exists b: Block :: b.addr == p.value && b.size == size &&
        multiset(AllBlocks(after)) == multiset(AllBlocks(before)) + multiset{b}
  {
    match FirstFitArena(before, size)
    case Some((i, k)) =>
      GapStartAligned(before[i], k);
      InsertAddsOneBlock(before, i, k, size);
      assert GapBlock(before[i], k, size).addr == p.value;
    case None =>
      if p.Some? {
        var base := p.value - ARENA_HEADER;
        AppendAddsOneBlock(before, base, PagesForBlock(size), size);
        assert Block(base + ARENA_HEADER, size, base).addr == p.value;
      }
  }

  /** m_free takes exactly the freed block out of the live blocks. */
  lemma ReleaseRemovesOneBlock(arenas: seq<Arena>, i: nat, j: nat)
    requires i < |arenas| && j < |arenas[i].blocks|
    ensures multiset(AllBlocks(Release(arenas, i, j))) == multiset(AllBlocks(arenas)) - multiset{arenas[i].blocks[j]}
  {
    var a := arenas[i];
    AllBlocksSplit(arenas, i);
    assert a.blocks == a.blocks[..j] + [a.blocks[j]] + a.blocks[j + 1..];
    if |a.blocks| == 1 {
      AllBlocksAppend(arenas[..i], arenas[i + 1..]);
      assert (arenas[..i] + arenas[i + 1..]) == Release(arenas, i, j);
    } else {
      AllBlocksUpdate(arenas, i, a.(blocks := a.blocks[..j] + a.blocks[j + 1..]));
    }
  }

  /** After m_free(ptr) the pointer no longer names a live block, so freeing it again is misuse. */
  lemma FreedIsNotLive(arenas: seq<Arena>, ptr: nat)
    requires ValidHeap(arenas) && IsLive(arenas, ptr)
    ensures !IsLive(Freed(arenas, ptr), ptr)
  {
    var after, addr := Freed(arenas, ptr), ptr - BLOCK_HEADER;
    forall i': nat, j': nat
      ensures !At(after, i', j', addr)
    {
      FreedHeaderGone(arenas, ptr, i', j');
    }
  }

  /** No block of the heap after m_free(ptr) has the freed block's header address. */
  lemma FreedHeaderGone(arenas: seq<Arena>, ptr: nat, i': nat, j': nat)
    requires ValidHeap(arenas) && IsLive(arenas, ptr)
    ensures !At(Freed(arenas, ptr), i', j', ptr - BLOCK_HEADER)
  {
    var (i, j) := Locate(arenas, ptr - BLOCK_HEADER).value;
    var after := Freed(arenas, ptr);
    var a := arenas[i];
    if i' < |after| && j' < |after[i'].blocks| {
      var n, m;
      if |a.blocks| == 1 {
        n, m := if i' < i then i' else i' + 1, j';
        assert after[i'] == arenas[n];
      } else if i' != i {
        n, m := i', j';
        assert after[i'] == arenas[i'];
      } else {
        n, m := i, if j' < j then j' else j' + 1;
        assert after[i].blocks[j'] == a.blocks[m];
      }
      assert after[i'].blocks[j'] == arenas[n].blocks[m];
      assert WellPlaced(arenas[n], arenas[n].blocks[m]) && WellPlaced(a, a.blocks[j]);
      LiveBlocksDisjoint(arenas, i, j, n, m);
    }
  }

  /** A fitting gap with none fitting before it is the first fit. */
  lemma FirstFitAt(a: Arena, needed: nat, k: nat)
    requires k < |a.blocks| && Fits(a, k, needed)
    requires forall m :: 0 <= m < k ==> !Fits(a, m, needed)
    ensures FirstFit(a, needed) == Some(k)
  {
  }

  /** An arena with a fit, after arenas without one, is where first fit lands. */
  lemma FirstFitArenaAt(arenas: seq<Arena>, needed: nat, i: nat)
    requires i < |arenas| && FirstFit(arenas[i], needed).Some?
    requires forall m :: 0 <= m < i ==> FirstFit(arenas[m], needed).None?
    ensures FirstFitArena(arenas, needed) == Some((i, FirstFit(arenas[i], needed).value))
  {
  }

  /**
   * The predecessor walk of put_block_in_arena stops at the block whose gap
   * was found: a later block starts at or after that gap.
   */
  lemma PredecessorOfGap(a: Arena, j: nat, k: nat)
    requires ValidArena(a) && j <= k < |a.blocks|
    requires j + 1 >= |a.blocks| || a.blocks[j + 1].addr >= GapStart(a, k)
    ensures j == k
  {
    assert WellPlaced(a, a.blocks[k]);
    if j + 1 < k {
      OrderedBefore(a.blocks, j + 1, k);
    }
  }

  /**
   * What m_malloc's outcome means for the live blocks: on success exactly one
   * block joins them, whose payload is double-word aligned and holds at least
   * the requested bytes; on NULL nothing changes.
   */
  lemma AllocatedAddsOneBlock(before: seq<Arena>, size: Size, r: Option<nat>, after: seq<Arena>)
    requires ValidHeap(before) && Allocated(before, size, r, after)
    ensures r.None? ==> after == before
    ensures r.Some? ==> 0 < size <= MAX_REQUEST && r.value % DWORD == 0
    ensures r.Some? ==>
      exists b: Block :: Payload(b) == r.value && BLOCK_HEADER + size <= b.size < BLOCK_HEADER + size + DWORD &&
        multiset(AllBlocks(after)) == multiset(AllBlocks(before)) + multiset{b}
  {
    if 0 < size <= MAX_REQUEST {
      var bs := CheckedBlockSize(size).value;
      var p := if r.Some? then Some(r.value - BLOCK_HEADER) else None;
      PlacedAddsOneBlock(before, bs, p, after);
      if r.Some? {
        var b: Block :| b.addr == p.value && b.size == bs &&
          multiset(AllBlocks(after)) == multiset(AllBlocks(before)) + multiset{b};
        assert Payload(b) == r.value;
      }
    }
  }

  /** A placement moves no existing block: block j of arena i is still in arena i. */
  lemma PlacedKeepsBlock(before: seq<Arena>, size: Size, p: Option<nat>, after: seq<Arena>, i: nat, j: nat) returns (j': nat)
    requires Placed(before, size, p, after)
    requires i < |before| && j < |before[i].blocks|
    ensures i < |after| && j' < |after[i].blocks| && after[i].blocks[j'] == before[i].blocks[j]
  {
    j' := j;
    match FirstFitArena(before, size)
    case Some((i1, k)) =>
      if i1 == i && j > k {
        j' := j + 1;
      }
    case None =>
  }

  /** In a valid heap, lookup of a payload's header finds the one block at that address. */
  lemma LocateAt(arenas: seq<Arena>, i: nat, j: nat, ptr: nat)
    requires ValidHeap(arenas) && ptr >= BLOCK_HEADER && At(arenas, i, j, ptr - BLOCK_HEADER)
    ensures Locate(arenas, ptr - BLOCK_HEADER) == Some((i, j))
  {
    var (i2, j2) := Locate(arenas, ptr - BLOCK_HEADER).value;
    AddressesUnique(arenas, i, j, i2, j2, ptr - BLOCK_HEADER);
  }

  /** After a placement, a payload that was live is live with the same header. */
  lemma PlacedKeepsLive(before: seq<Arena>, size: Size, p: Option<nat>, after: seq<Arena>, ptr: nat)
    requires ValidHeap(before) && Placed(before, size, p, after)
    requires size >= BLOCK_HEADER && size % DWORD == 0
    requires IsLive(before, ptr)
    ensures IsLive(after, ptr) && LiveBlock(after, ptr) == LiveBlock(before, ptr)
  {
    var loc := Locate(before, ptr - BLOCK_HEADER).value;
    PlacedKeepsHeader(before, size, p, after, ptr, loc.0, loc.1);
  }

  /**
   * After a placement, lookup of a header that was live finds the same
   * header. (Stated on the payload pointer, as IsLive and LiveBlock are.)
   */
  lemma PlacedKeepsHeader(before: seq<Arena>, size: Size, p: Option<nat>, after: seq<Arena>, ptr: nat, i: nat, j: nat)
    requires ValidHeap(before) && Placed(before, size, p, after)
    requires size >= BLOCK_HEADER && size % DWORD == 0
    requires ptr >= BLOCK_HEADER && At(before, i, j, ptr - BLOCK_HEADER)
    ensures Locate(after, ptr - BLOCK_HEADER).Some?
    ensures after[Locate(after, ptr - BLOCK_HEADER).value.0].blocks[Locate(after, ptr - BLOCK_HEADER).value.1] == before[i].blocks[j]
  {
    var j' := PlacedKeepsBlock(before, size, p, after, i, j);
    PlacedKeepsHeapValid(before, size, p, after);
    LocateAt(after, i, j', ptr);
  }

  /**
   * m_malloc leaves every live block where it was: a payload live before is
   * live after, with the same header.
   */
  lemma AllocatedKeepsLive(before: seq<Arena>, size: Size, r: Option<nat>, after: seq<Arena>, ptr: nat)
    requires ValidHeap(before) && Allocated(before, size, r, after) && IsLive(before, ptr)
    ensures IsLive(after, ptr) && LiveBlock(after, ptr) == LiveBlock(before, ptr)
  {
    if 0 < size <= MAX_REQUEST {
      var bs := CalculateBlockSize(size);
      CalculateBlockSizeFits(size);
      var p := if r.Some? then Some(r.value - BLOCK_HEADER) else None;
      assert Placed(before, bs, p, after);
      PlacedKeepsLive(before, bs, p, after, ptr);
    }
  }

  /**
   * When m_free takes the last block of an arena, the arena is unmapped: no
   * remaining arena holds any byte of the freed block.
   */
  lemma FreeSoleBlockUnmaps(arenas: seq<Arena>, ptr: nat)
    requires ValidHeap(arenas) && IsLive(arenas, ptr)
    requires |arenas[Locate(arenas, ptr - BLOCK_HEADER).value.0].blocks| == 1
    ensures |Freed(arenas, ptr)| == |arenas| - 1
    ensures var after, b := Freed(arenas, ptr), LiveBlock(arenas, ptr);
      forall m :: 0 <= m < |after| ==> End(after[m]) <= b.addr || b.addr + b.size <= after[m].base
  {
    var (i, j) := Locate(arenas, ptr - BLOCK_HEADER).value;
    var after, b := Freed(arenas, ptr), LiveBlock(arenas, ptr);
    assert WellPlaced(arenas[i], b);
    forall m | 0 <= m < |after|
      ensures End(after[m]) <= b.addr || b.addr + b.size <= after[m].base
    {
      var n := if m < i then m else m + 1;
      assert after[m] == arenas[n];
      if n < i {
        assert Apart(arenas[n], arenas[i].base, arenas[i].numPages);
      } else {
        assert Apart(arenas[i], arenas[n].base, arenas[n].numPages);
      }
    }
  }

  /** A NULL from m_malloc leaves the heap as it was. */
  lemma NullAllocationChangesNothing(before: seq<Arena>, size: Size, after: seq<Arena>)
    requires Allocated(before, size, None, after)
    ensures after == before
  {
  }
}
