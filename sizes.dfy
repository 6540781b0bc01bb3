/**
 * Size arithmetic of the allocator (allocator.c:28-71).
 *
 * `size_t` is 64 bits wide: every value of type `Size` lies in [0, 2^64) and
 * the subtractions and additions the C code performs on it are written out
 * modulo 2^64 with `Wrap`. The bitwise `|` of `round_size` is `BitOr`, defined
 * bit by bit on naturals.
 */
module Sizes {
  import opened Wrappers

  const WORD: int := 0x1_0000_0000_0000_0000
  const SIZE_MAX: int := WORD - 1

  type Size = x: int | 0 <= x < WORD

  const PAGE_SIZE: Size := 4096
  const DWORD: Size := 8
  /** sizeof(arena_t): four packed 8-byte fields. */
  const ARENA_HEADER: Size := 32
  /** sizeof(block_t): four packed 8-byte fields. */
  const BLOCK_HEADER: Size := 32

  /** Reduction modulo 2^64, the effect of storing an integer in a size_t. */
  function Wrap(x: int): Size
  {
    x % WORD
  }

  function Pow2(k: nat): (p: nat)
    ensures p >= 1
  {
    if k == 0 then 1 else 2 * Pow2(k - 1)
  }

  /** Bitwise or of two naturals, least significant bit first. */
  function BitOr(x: nat, y: nat): nat
    decreases x + y
  {
    if x == 0 then y
    else if y == 0 then x
    else 2 * BitOr(x / 2, y / 2) + (if x % 2 == 1 || y % 2 == 1 then 1 else 0)
  }

  /** round_size: `((num - 1) | (alignment - 1)) + 1` in size_t arithmetic. */
  function RoundSize(num: Size, alignment: Size): Size
  {
    Wrap(BitOr(Wrap(num - 1), Wrap(alignment - 1)) + 1)
  }

  /** get_number_of_pages_for_block: 0 reports an overflow. */
  function PagesForBlock(blockSize: Size): Size
  {
    if blockSize > SIZE_MAX - ARENA_HEADER then 0
    else RoundSize(blockSize + ARENA_HEADER, PAGE_SIZE) / PAGE_SIZE
  }

  /** calculate_block_size as written: nothing guards the final addition. */
  function CalculateBlockSize(size: Size): Size
  {
    Wrap(RoundSize(size, DWORD) + BLOCK_HEADER)
  }

  /** Largest request whose rounded size plus header still fits in a size_t. */
  const MAX_REQUEST: Size := SIZE_MAX - (BLOCK_HEADER + DWORD - 1)

  /**
   * calculate_block_size with the missing overflow check: None where the
   * code as written wraps around.
   */
  function CheckedBlockSize(size: Size): (r: Option<Size>)
    ensures r.None? <==> size > MAX_REQUEST
    ensures r.Some? ==> r.value == CalculateBlockSize(size)
    ensures r.Some? ==> r.value >= BLOCK_HEADER + size && r.value % DWORD == 0
    ensures r.Some? ==> r.value < BLOCK_HEADER + size + DWORD
  {
    if size > MAX_REQUEST then None
    else
      CalculateBlockSizeFits(size);
      Some(CalculateBlockSize(size))
  }

  /** get_block_data_ptr: the payload follows the block header. */
  function BlockDataPtr(block: nat): (p: nat)
    ensures PayloadBlock(p) == block
    ensures p % DWORD == block % DWORD
  {
    block + BLOCK_HEADER
  }

  /** The header address m_free and m_realloc compute from a payload pointer. */
  function PayloadBlock(ptr: nat): int
  {
    ptr - BLOCK_HEADER
  }

  // ---------------------------------------------------------------- lemmas

  lemma DivMod(x: int, d: int, m: int, t: int)
    requires d > 0 && 0 <= t < d && x == d * m + t
    ensures x / d == m && x % d == t
  {
    var q, r := x / d, x % d;
    assert d * q + r == d * m + t;
    assert d * (q - m) == t - r;
    if q != m {
      MulAwayFromZero(d, q - m);
    }
  }

  lemma MulAwayFromZero(d: int, e: int)
    requires d > 0 && e != 0
    ensures d * e >= d || d * e <= -d
  {
  }

  lemma ModOfDouble(x: nat, p: nat)
    requires p > 0
    ensures x % (2 * p) == 2 * ((x / 2) % p) + x % 2
  {
    var q := x / 2;
    assert q == p * (q / p) + q % p;
    assert x == 2 * p * (q / p) + (2 * (q % p) + x % 2);
    DivMod(x, 2 * p, q / p, 2 * (q % p) + x % 2);
  }

  /** The k low bits of x, taken one at a time. */
  function LowBits(x: nat, k: nat): nat
  {
    if k == 0 then 0 else 2 * LowBits(x / 2, k - 1) + x % 2
  }

  /** The mask of the k low bits, 2^k - 1. */
  function Mask(k: nat): nat
  {
    if k == 0 then 0 else 2 * Mask(k - 1) + 1
  }

  lemma {:induction false} MaskPow2(k: nat)
    ensures Mask(k) == Pow2(k) - 1
  {
    if k > 0 {
      MaskPow2(k - 1);
    }
  }

  /** Or-ing with the mask of the k low bits sets those bits and keeps the rest. */
  lemma {:induction false} BitOrLowMask(x: nat, k: nat)
    ensures BitOr(x, Mask(k)) == x - LowBits(x, k) + Mask(k)
  {
    if k == 0 {
      assert BitOr(x, 0) == x;
    } else {
      Halve(x);
      BitOrLowMask(x / 2, k - 1);
      BitOrOddStep(x, Mask(k), Mask(k - 1));
      assert LowBits(x, k) == 2 * LowBits(x / 2, k - 1) + x % 2;
    }
  }

  lemma Halve(x: nat)
    ensures x == 2 * (x / 2) + x % 2 && x % 2 <= 1
  {
  }

  /** One step of BitOr when the second operand is odd: the low bit is set. */
  lemma BitOrOddStep(x: nat, y: nat, z: nat)
    requires y == 2 * z + 1
    ensures BitOr(x, y) == 2 * BitOr(x / 2, z) + 1
  {
    DivMod(y, 2, z, 1);
    if x == 0 {
      assert BitOr(0, z) == z;
    }
  }

  /** The k low bits of x are x modulo 2^k. */
  lemma {:induction false} LowBitsMod(x: nat, k: nat)
    ensures LowBits(x, k) == x % Pow2(k)
  {
    if k > 0 {
      var p := Pow2(k - 1);
      assert Pow2(k) == 2 * p;
      LowBitsMod(x / 2, k - 1);
      ModOfDouble(x, p);
    }
  }

  lemma BitOrMask(x: nat, a: nat, k: nat)
    requires a == Pow2(k)
    ensures BitOr(x, a - 1) == x - x % a + a - 1
  {
    MaskPow2(k);
    BitOrLowMask(x, k);
    LowBitsMod(x, k);
  }

  /**
   * For a power-of-two alignment and a request that does not overflow,
   * round_size yields the least multiple of the alignment that is at least
   * `num`: a multiple, not below `num`, and less than one alignment above it.
   */
  lemma RoundSizeRoundsUp(num: Size, alignment: Size, k: nat)
    requires alignment == Pow2(k)
    requires 1 <= num <= SIZE_MAX - alignment + 1
    ensures RoundSize(num, alignment) % alignment == 0
    ensures num <= RoundSize(num, alignment) < num + alignment
    ensures RoundSize(num, alignment) == (num + alignment - 1) / alignment * alignment
  {
    RoundSizeValue(num, alignment, k);
    PredLowBitsMod(num, k);
    RoundUpOf(num, alignment, RoundSize(num, alignment));
  }

  /** r, num - 1 with its remainder cleared plus one alignment, is the next multiple at or above num. */
  lemma RoundUpOf(num: int, a: int, r: int)
    requires num >= 1 && a > 0 && r == num - 1 - (num - 1) % a + a
    ensures r % a == 0 && num <= r < num + a && r == (num + a - 1) / a * a
  {
    var q, t := (num - 1) / a, (num - 1) % a;
    assert num - 1 == a * q + t;
    assert r == a * (q + 1);
    DivMod(r, a, q + 1, 0);
    DivMod(num + a - 1, a, q + 1, t);
  }

  /** round_size clears the low bits of num - 1 and adds one alignment. */
  lemma RoundSizeValue(num: Size, alignment: Size, k: nat)
    requires alignment == Pow2(k)
    requires 1 <= num <= SIZE_MAX - alignment + 1
    ensures RoundSize(num, alignment) == num - 1 - LowBits(num - 1, k) + alignment
  {
    PredWrap(num);
    PredWrap(alignment);
    MaskPow2(k);
    PredLowMask(num, k);
    NoFinalWrap(num, alignment);
  }

  lemma PredWrap(n: int)
    requires 1 <= n <= WORD
    ensures Wrap(n - 1) == n - 1
  {
  }

  /** When the or-ed value plus one fits, round_size's final addition does not wrap. */
  lemma NoFinalWrap(num: Size, alignment: Size)
    requires BitOr(Wrap(num - 1), Wrap(alignment - 1)) + 1 <= SIZE_MAX
    ensures RoundSize(num, alignment) == BitOr(Wrap(num - 1), Wrap(alignment - 1)) + 1
  {
    var v := BitOr(Wrap(num - 1), Wrap(alignment - 1)) + 1;
    assert RoundSize(num, alignment) == Wrap(v);
    WrapId(v);
  }

  lemma PredLowMask(num: nat, k: nat)
    requires num >= 1
    ensures BitOr(num - 1, Mask(k)) == num - 1 - LowBits(num - 1, k) + Mask(k)
    ensures LowBits(num - 1, k) <= Mask(k)
  {
    BitOrLowMask(num - 1, k);
    LowBitsBound(num - 1, k);
  }

  lemma PredLowBitsMod(num: nat, k: nat)
    requires num >= 1
    ensures LowBits(num - 1, k) == (num - 1) % Pow2(k)
  {
    LowBitsMod(num - 1, k);
  }

  /** The k low bits never exceed the mask. */
  lemma {:induction false} LowBitsBound(x: nat, k: nat)
    ensures LowBits(x, k) <= Mask(k)
  {
    if k > 0 {
      Halve(x);
      LowBitsBound(x / 2, k - 1);
    }
  }

  lemma WrapId(v: int)
    requires 0 <= v < WORD
    ensures Wrap(v) == v
  {
  }

  /** Clearing the low part of x and adding one alignment gives the next multiple above x. */
  lemma NextMultiple(x: nat, a: nat)
    requires a > 0
    ensures (x - x % a + a) % a == 0
    ensures x < x - x % a + a <= x + a
  {
    var q, t := x / a, x % a;
    assert x == a * q + t;
    DivMod(x - t + a, a, q + 1, 0);
  }

  /**
   * round_size wraps to 0 exactly for num == 0 and for requests whose rounded
   * value would not fit in a size_t.
   */
  lemma RoundSizeOverflow(num: Size, alignment: Size, k: nat)
    requires alignment == Pow2(k) && WORD % alignment == 0
    ensures RoundSize(num, alignment) == 0 <==> num == 0 || num > SIZE_MAX - alignment + 1
  {
    if 1 <= num <= SIZE_MAX - alignment + 1 {
      RoundSizeRoundsUp(num, alignment, k);
    } else {
      RoundSizeWraps(num, alignment, k);
    }
  }

  lemma RoundSizeWraps(num: Size, alignment: Size, k: nat)
    requires alignment == Pow2(k) && WORD % alignment == 0
    requires num == 0 || num > SIZE_MAX - alignment + 1
    ensures RoundSize(num, alignment) == 0
  {
    var a := alignment;
    var x := Wrap(num - 1);
    HighRange(num, a);
    TopOr(x, a, k);
    WrapId(a - 1);
    assert RoundSize(num, a) == Wrap(WORD);
  }

  /** Or-ing the mask into one of the top a values of a size_t gives SIZE_MAX. */
  lemma TopOr(x: nat, a: nat, k: nat)
    requires a == Pow2(k) && WORD % a == 0 && WORD - a <= x < WORD
    ensures BitOr(x, a - 1) == SIZE_MAX
  {
    BitOrMask(x, a, k);
    TopMod(x, a);
  }

  /** Past the last multiple of a, num - 1 (wrapped) lies in the top a values of a size_t. */
  lemma HighRange(num: Size, a: Size)
    requires a > 0
    requires num == 0 || num > SIZE_MAX - a + 1
    ensures WORD - a <= Wrap(num - 1) < WORD
  {
    if num > 0 {
      WrapId(num - 1);
    }
  }

  /** The top a values of a size_t follow the last multiple of a below 2^64. */
  lemma TopMod(x: int, a: int)
    requires a > 0 && WORD % a == 0 && WORD - a <= x < WORD
    ensures x % a == x - (WORD - a)
  {
    var n := WORD / a;
    DivMod(WORD, a, n, 0);
    assert x == a * (n - 1) + (x - (WORD - a));
    DivMod(x, a, n - 1, x - (WORD - a));
  }

  /**
   * Page count: 0 exactly when the arena for the block would not be
   * representable; otherwise the smallest number of pages holding the block
   * and the arena header.
   */
  lemma PagesForBlockSpec(blockSize: Size)
    ensures PagesForBlock(blockSize) == 0 <==> blockSize + ARENA_HEADER > SIZE_MAX - PAGE_SIZE + 1
    ensures PagesForBlock(blockSize) > 0 ==>
              (PagesForBlock(blockSize) - 1) * PAGE_SIZE < blockSize + ARENA_HEADER <= PagesForBlock(blockSize) * PAGE_SIZE
  {
    assert Pow2(12) == PAGE_SIZE;
    if blockSize <= SIZE_MAX - ARENA_HEADER {
      var total := blockSize + ARENA_HEADER;
      var r := RoundSize(total, PAGE_SIZE);
      assert PagesForBlock(blockSize) == r / PAGE_SIZE;
      if total <= SIZE_MAX - PAGE_SIZE + 1 {
        RoundSizeRoundsUp(total, PAGE_SIZE, 12);
        DivMod(r, PAGE_SIZE, r / PAGE_SIZE, 0);
      } else {
        RoundSizeWraps(total, PAGE_SIZE, 12);
      }
    }
  }

  /** Below MAX_REQUEST the block holds the header and the request rounded up to a double word. */
  lemma CalculateBlockSizeFits(size: Size)
    requires size <= MAX_REQUEST
    ensures CalculateBlockSize(size) >= BLOCK_HEADER + size
    ensures CalculateBlockSize(size) < BLOCK_HEADER + size + DWORD
    ensures CalculateBlockSize(size) % DWORD == 0
  {
    RoundToDword(size);
    NoBlockWrap(size);
    AddHeaderAligned(RoundSize(size, DWORD));
  }

  lemma AddHeaderAligned(r: int)
    requires r % DWORD == 0
    ensures (r + BLOCK_HEADER) % DWORD == 0
  {
    DivMod(r + BLOCK_HEADER, DWORD, r / DWORD + 4, 0);
  }

  /** A request that is already a double-word multiple gets exactly one header more. */
  lemma AlignedBlockSize(size: Size)
    requires 0 < size <= MAX_REQUEST && size % DWORD == 0
    ensures CalculateBlockSize(size) == size + BLOCK_HEADER
  {
    RoundToDword(size);
    SameMultiple(size, RoundSize(size, DWORD));
    NoBlockWrap(size);
  }

  /** Two double-word multiples less than a double word apart are equal. */
  lemma SameMultiple(x: int, y: int)
    requires x % DWORD == 0 && y % DWORD == 0 && x <= y < x + DWORD
    ensures x == y
  {
    DivMod(y, DWORD, x / DWORD, y - x);
  }

  /** When the rounded size plus the header fits, calculate_block_size does not wrap. */
  lemma NoBlockWrap(size: Size)
    requires RoundSize(size, DWORD) + BLOCK_HEADER <= SIZE_MAX
    ensures CalculateBlockSize(size) == RoundSize(size, DWORD) + BLOCK_HEADER
  {
    var v := RoundSize(size, DWORD) + BLOCK_HEADER;
    assert CalculateBlockSize(size) == Wrap(v);
    WrapId(v);
  }

  /** round_size(size, DWORD) for every size that does not round past SIZE_MAX (0 rounds to 0). */
  lemma RoundToDword(size: Size)
    requires size <= SIZE_MAX - DWORD + 1
    ensures RoundSize(size, DWORD) % DWORD == 0
    ensures size <= RoundSize(size, DWORD) < size + DWORD
  {
    assert Pow2(3) == DWORD;
    if size == 0 {
      RoundSizeWraps(size, DWORD, 3);
    } else {
      RoundSizeRoundsUp(size, DWORD, 3);
    }
  }

  /**
   * Above MAX_REQUEST the addition in calculate_block_size wraps: the block
   * gets no payload room at all, and for some sizes is smaller than its own
   * header.
   */
  lemma CalculateBlockSizeWraps(size: Size)
    requires size > MAX_REQUEST
    ensures CalculateBlockSize(size) <= BLOCK_HEADER
    ensures size == SIZE_MAX ==> CalculateBlockSize(size) == BLOCK_HEADER
    ensures size == SIZE_MAX - 7 ==> CalculateBlockSize(size) == 24
    ensures size == SIZE_MAX - 38 ==> CalculateBlockSize(size) == 0
  {
    var r := RoundSize(size, DWORD);
    if size <= SIZE_MAX - DWORD + 1 {
      RoundToDword(size);
      assert r == WORD - 32 || r == WORD - 24 || r == WORD - 16 || r == WORD - 8;
      WrapOnce(r + BLOCK_HEADER);
    } else {
      assert Pow2(3) == DWORD;
      RoundSizeWraps(size, DWORD, 3);
      WrapId(r + BLOCK_HEADER);
    }
  }

  lemma WrapOnce(v: int)
    requires WORD <= v < 2 * WORD
    ensures Wrap(v) == v - WORD
  {
    DivMod(v, WORD, 1, v - WORD);
  }

  /** m_calloc's overflow test: nmemb > SIZE_MAX / size exactly when nmemb * size exceeds SIZE_MAX. */
  lemma MulOverflowCheck(nmemb: Size, size: Size)
    requires size > 0
    ensures nmemb > SIZE_MAX / size <==> nmemb * size > SIZE_MAX
  {
    var q, t := SIZE_MAX / size, SIZE_MAX % size;
    assert SIZE_MAX == q * size + t && t < size;
    if nmemb > q {
      MulMonotone(q + 1, nmemb, size);
      assert (q + 1) * size == q * size + size;
    } else {
      MulMonotone(nmemb, q, size);
    }
  }

  lemma MulMonotone(x: nat, y: nat, c: nat)
    requires x <= y
    ensures x * c <= y * c
  {
    assert y * c == x * c + (y - x) * c;
  }
}
