/**
 * nearest_left_page_boundary and nearest_right_page_boundary: rounding a
 * byte offset down or up to a multiple of PAGE_SIZE with a bit mask.
 */
module Pages {
  import opened Kernel
  import opened Bits

  const PAGE_SHIFT: nat := 12
  /** PAGE_SIZE of a kernel built with 4 KiB pages. */
  const PAGE_SIZE: nat := 4096

  /** For a non-negative x, x & (PAGE_SIZE - 1) is x % PAGE_SIZE. */
  lemma PageMaskIsMod(x: nat)
    ensures BitAnd(x, PAGE_SIZE - 1) == x % PAGE_SIZE
  {
    assert Pow2(PAGE_SHIFT) == PAGE_SIZE;
    BitAndLowMask(x, PAGE_SHIFT);
  }

  /** Adding a multiple of m does not change the remainder modulo m. */
  lemma ModAddMultiple(x: int, m: int, t: int)
    requires m > 0
    ensures (x + m * t) % m == x % m
  {
    DivModUnique(x + m * t, m, x / m + t, x % m);
  }

  /** Rounding down by subtracting the remainder gives a multiple of PAGE_SIZE. */
  lemma AlignDown(x: int)
    ensures (x - x % PAGE_SIZE) % PAGE_SIZE == 0
  {
    DivModUnique(x - x % PAGE_SIZE, PAGE_SIZE, x / PAGE_SIZE, 0);
  }

  /**
   * The C computation of nearest_left_page_boundary on a widened offset is
   * the offset rounded down, also for a negative offset.
   */
  lemma LeftBoundaryValue(offset: loff)
    ensures var u := ToULong(offset);
      ToLoff(u - u % PAGE_SIZE) == offset - offset % PAGE_SIZE
  {
    var u := ToULong(offset);
    var d := offset - offset % PAGE_SIZE;
    if offset < 0 {
      assert u == offset + U64 by {
        DivModUnique(offset, U64, -1, offset + U64);
      }
      assert u % PAGE_SIZE == offset % PAGE_SIZE by {
        ModAddMultiple(offset, PAGE_SIZE, 0x10_0000_0000_0000);
      }
      assert -I64_LIMIT <= d by {
        AlignDown(offset);
        AlignedBelowNextPage(-I64_LIMIT, d);
      }
      assert u - u % PAGE_SIZE == d + U64;
    }
  }

  /**
   * offset - (offset & (PAGE_SIZE - 1)), computed as C does: offset is
   * widened to unsigned long for the mask and the subtraction, and the
   * difference converted back to loff_t.
   */
  function NearestLeftPageBoundary(offset: loff): (r: loff)
    ensures r % PAGE_SIZE == 0
    ensures r <= offset < r + PAGE_SIZE
  {
    var u := ToULong(offset);
    var rem := BitAnd(u, PAGE_SIZE - 1);
    PageMaskIsMod(u);
    LeftBoundaryValue(offset);
    AlignDown(offset);
    ToLoff(u - rem)
  }

  /** The mask in nearest_right_page_boundary sees offset % PAGE_SIZE, even when offset + PAGE_SIZE wraps. */
  lemma RightRemainder(offset: size)
    ensures ToULong(offset + PAGE_SIZE) % PAGE_SIZE == offset % PAGE_SIZE
  {
    if offset + PAGE_SIZE < U64 {
      ModAddMultiple(offset, PAGE_SIZE, 1);
    } else {
      assert ToULong(offset + PAGE_SIZE) == offset + PAGE_SIZE - U64 by {
        DivModUnique(offset + PAGE_SIZE, U64, 1, offset + PAGE_SIZE - U64);
      }
      ModAddMultiple(offset, PAGE_SIZE, 1 - 0x10_0000_0000_0000);
    }
  }

  /**
   * For an unaligned offset, offset + PAGE_SIZE - rem in size_t is the next
   * multiple of PAGE_SIZE, or 0 when that multiple is 2^64.
   */
  lemma RightBoundaryValue(offset: size)
    requires offset % PAGE_SIZE != 0
    ensures var up := offset - offset % PAGE_SIZE + PAGE_SIZE;
      && up % PAGE_SIZE == 0 && offset < up <= U64
      && ToULong(up) == (if up == U64 then 0 else up)
  {
    var up := offset - offset % PAGE_SIZE + PAGE_SIZE;
    AlignDown(offset);
    ModAddMultiple(offset - offset % PAGE_SIZE, PAGE_SIZE, 1);
    assert up <= U64 by {
      AlignedBelowNextPage(up - PAGE_SIZE, U64 - PAGE_SIZE);
    }
    if up == U64 {
      DivModUnique(up, U64, 1, 0);
    }
  }

  /**
   * rem = (offset + PAGE_SIZE) & (PAGE_SIZE - 1), then offset itself when rem
   * is 0 and offset + PAGE_SIZE - rem otherwise, all in size_t arithmetic, so
   * that an unaligned offset in the last page of the address range wraps to 0.
   */
  function NearestRightPageBoundary(offset: size): (r: size)
    ensures r % PAGE_SIZE == 0
    ensures offset % PAGE_SIZE == 0 ==> r == offset
    ensures offset <= U64 - PAGE_SIZE ==> offset <= r < offset + PAGE_SIZE
    ensures offset > U64 - PAGE_SIZE && offset % PAGE_SIZE != 0 ==> r == 0
  {
    var rem := BitAnd(ToULong(offset + PAGE_SIZE), PAGE_SIZE - 1);
    PageMaskIsMod(ToULong(offset + PAGE_SIZE));
    RightRemainder(offset);
    if rem == 0 then offset
    else
      RightBoundaryValue(offset);
      ToULong(offset + PAGE_SIZE - rem)
  }

  lemma AlignedBelowNextPage(a: int, b: int)
    requires a % PAGE_SIZE == 0 && b % PAGE_SIZE == 0 && a < b + PAGE_SIZE
    ensures a <= b
  {}

  /** nearest_left_page_boundary(x) is the largest multiple of PAGE_SIZE not above x. */
  lemma LeftBoundaryIsLargest(offset: loff, m: int)
    requires m % PAGE_SIZE == 0 && m <= offset
    ensures m <= NearestLeftPageBoundary(offset)
  {
    AlignedBelowNextPage(m, NearestLeftPageBoundary(offset));
  }

  /** Without wrap-around, nearest_right_page_boundary(x) is the smallest multiple of PAGE_SIZE not below x. */
  lemma RightBoundaryIsSmallest(offset: size, m: int)
    requires offset <= U64 - PAGE_SIZE
    requires m % PAGE_SIZE == 0 && offset <= m
    ensures NearestRightPageBoundary(offset) <= m
  {
    AlignedBelowNextPage(NearestRightPageBoundary(offset), m);
  }
}
