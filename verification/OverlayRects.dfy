/** The rectangles of verify_video_layer and verify_osd_layer, common/libs/hwcomposer/hwcomposer.cpp. */
module OverlayRects {

  // ---- C arithmetic ----

  const TWO32: nat := 0x1_0000_0000

  /** Stored in a `uint32_t`. */
  function U32(x: int): (u: int)
    ensures 0 <= u < TWO32
  {
    x % TWO32
  }

  /** A `uint32_t` passed as an `int`. */
  function I32(u: int): int {
    if u < 0x8000_0000 then u else u - TWO32
  }

  function Min(x: int, y: int): int {
    if x < y then x else y
  }

  function Max(x: int, y: int): int {
    if x > y then x else y
  }

  /** `(u + mask) & ~mask` on a `uint32_t`, for a mask of 0 or 3. */
  function AlignU32(u: int, mask: nat): int {
    U32(u + mask) / (mask + 1) * (mask + 1)
  }

  // ---- The same on integers ----

  /** The next multiple of `mask + 1`. */
  function Up(x: int, mask: nat): (y: int)
    requires mask == 0 || mask == 3
    ensures x <= y <= x + mask && y % (mask + 1) == 0
  {
    (x + mask) / (mask + 1) * (mask + 1)
  }

  const LIMIT: int := 0x1000_0000

  /** Coordinates for which nothing overflows. */
  predicate Small(x: int) {
    -LIMIT < x < LIMIT
  }

  /** One axis of a clamped rectangle: where it starts and its extent, which may be negative. */
  datatype Span = Span(start: int, extent: int)

  /** The source: the crop clamped to the image, start and extent rounded up where they fit. */
  function SourceSpan(lo: int, hi: int, size: int, mask: nat): Span
    requires mask == 0 || mask == 3
  {
    var x := Min(Up(Max(lo, 0), mask), size);
    Span(x, Min(Up(Min(hi - x, size - x), mask), size - x))
  }

  /** The destination: the frame clamped to the screen, the start rounded up where asked, the extent always. */
  function TargetSpan(lo: int, hi: int, size: int, alignStart: bool): Span {
    var x := Min(if alignStart then Up(Max(lo, 0), 3) else Max(lo, 0), size);
    Span(x, Min(Up(Min(hi - x, size - x), 3), size - Up(x, 3)))
  }

  // ---- Where the spans lie ----

  predicate Multiple(x: int, mask: nat) {
    x % (mask + 1) == 0
  }

  /** `y` is the least multiple of `mask + 1` that is not below `x`, or `limit` if that is less. */
  ghost predicate Rounded(y: int, x: int, mask: nat, limit: int) {
    && y <= limit
    && (y < limit ==> x <= y && Multiple(y, mask))
    && forall z :: Multiple(z, mask) && x <= z ==> y <= z
  }

  lemma UpIsLeast(x: int, mask: nat, limit: int)
    requires mask == 0 || mask == 3
    ensures Rounded(Min(Up(x, mask), limit), x, mask, limit)
  {
    hide Up, Multiple;
    UpBounds(x, mask);
    forall z | Multiple(z, mask) && x <= z ensures Up(x, mask) <= z {
      if mask == 3 {
        LeastFourth(x, z);
      } else {
        UpZero(x, mask);
      }
    }
  }

  lemma UpBounds(x: int, mask: nat)
    requires mask == 0 || mask == 3
    ensures x <= Up(x, mask) && Multiple(Up(x, mask), mask)
  {
    hide Up;
  }

  lemma LeastFourth(x: int, z: int)
    requires Multiple(z, 3) && x <= z
    ensures Up(x, 3) <= z
  {
    var q := z / 4;
    assert z == 4 * q && x + 3 < 4 * (q + 1);
    assert (x + 3) / 4 <= q;
  }

  /**
    The source starts at the crop, or at the image's edge if the crop starts before it, rounded up; it
    reaches to the end of the crop or of the image, its extent rounded up. Neither leaves the image.
  */
  lemma SourceLies(lo: int, hi: int, size: int, mask: nat)
    requires mask == 0 || mask == 3
    requires size >= 0
    ensures var s := SourceSpan(lo, hi, size, mask);
            && Rounded(s.start, if lo > 0 then lo else 0, mask, size)
            && Rounded(s.extent, (if hi < size then hi else size) - s.start, mask, size - s.start)
  {
    hide Up, Rounded;
    var s := SourceSpan(lo, hi, size, mask);
    UpIsLeast(Max(lo, 0), mask, size);
    UpIsLeast(Min(hi - s.start, size - s.start), mask, size - s.start);
  }

  /** Without rounding it is the part of the crop that lies in the image. */
  lemma SourceIsIntersection(lo: int, hi: int, size: int, mask: nat)
    requires mask == 0 && lo < hi && lo < size && 0 < hi && 0 < size
    ensures var first, end := if lo > 0 then lo else 0, if hi < size then hi else size;
            SourceSpan(lo, hi, size, mask) == Span(first, end - first)
  {
    hide Up;
    var x := Max(lo, 0);
    UpZero(x, mask);
    UpZero(Min(hi - x, size - x), mask);
  }

  /** With rounding an aligned crop is kept, and otherwise each end moves by three at most. */
  lemma SourceMovesLittle(lo: int, hi: int, size: int, mask: nat)
    requires mask == 0 || mask == 3
    requires 0 <= lo <= hi <= size
    ensures var s := SourceSpan(lo, hi, size, mask);
            && lo <= s.start <= lo + 3 && hi <= s.start + s.extent <= hi + 3
            && (lo % 4 == 0 && hi % 4 == 0 ==> s == Span(lo, hi - lo))
  {
    hide Up;
    var s := SourceSpan(lo, hi, size, mask);
    if lo % 4 == 0 {
      UpOfMultiple(lo, mask);
      if hi % 4 == 0 {
        MultiplesApart(lo, hi);
        UpOfMultiple(hi - lo, mask);
      }
    }
  }

  lemma UpOfMultiple(x: int, mask: nat)
    requires (mask == 0 || mask == 3) && x % 4 == 0
    ensures Up(x, mask) == x
  {
  }

  lemma MultiplesApart(x: int, y: int)
    requires x % 4 == 0 && y % 4 == 0
    ensures (y - x) % 4 == 0
  {
  }

  /**
    The destination starts at the frame or at the screen's edge, rounded up to a multiple of four where
    asked, and its extent is rounded up too, but not beyond the screen less the rounding of its start.
  */
  lemma TargetLies(lo: int, hi: int, size: int, alignStart: bool)
    requires size >= 0
    ensures var s := TargetSpan(lo, hi, size, alignStart);
            && Rounded(s.start, if lo > 0 then lo else 0, if alignStart then 3 else 0, size)
            && Rounded(s.extent, (if hi < size then hi else size) - s.start, 3, size - (s.start + (-s.start) % 4))
  {
    hide Up, Rounded;
    var s := TargetSpan(lo, hi, size, alignStart);
    UpIsLeast(Max(lo, 0), if alignStart then 3 else 0, size);
    UpZero(Max(lo, 0), 0);
    UpIs(s.start);
    UpIsLeast(Min(hi - s.start, size - s.start), 3, size - Up(s.start, 3));
  }

  lemma UpZero(x: int, mask: nat)
    requires mask == 0
    ensures Up(x, mask) == x
  {
  }

  lemma UpIs(x: int)
    ensures Up(x, 3) == x + (-x) % 4
  {
  }

  /** An aligned frame on the screen is kept. */
  lemma TargetKeeps(lo: int, hi: int, size: int, alignStart: bool)
    requires 0 <= lo <= hi <= size && lo % 4 == 0 && hi % 4 == 0
    ensures TargetSpan(lo, hi, size, alignStart) == Span(lo, hi - lo)
  {
    hide Up;
    UpOfMultiple(lo, 3);
    MultiplesApart(lo, hi);
    UpOfMultiple(hi - lo, 3);
  }

  lemma Signed(x: int)
    requires -2 * LIMIT <= x <= 2 * LIMIT
    ensures I32(U32(x)) == x
  {
  }

  /** Rounding up survives the wrap of negative values. */
  lemma AlignSigned(x: int, mask: nat)
    requires mask == 0 || mask == 3
    requires -2 * LIMIT <= x <= 2 * LIMIT
    ensures I32(AlignU32(U32(x), mask)) == Up(x, mask)
    ensures AlignU32(U32(x), mask) == U32(Up(x, mask))
  {
    if mask == 3 {
      AlignFour(x);
    }
  }

  lemma AlignFour(x: int)
    requires -2 * LIMIT <= x <= 2 * LIMIT
    ensures I32(U32(U32(x) + 3) / 4 * 4) == (x + 3) / 4 * 4
    ensures U32(U32(x) + 3) / 4 * 4 == U32((x + 3) / 4 * 4)
  {
    WrapThree(x);
    if x + 3 < 0 {
      FourthsOfWrapped(x + 3);
    }
  }

  lemma WrapThree(x: int)
    requires -2 * LIMIT <= x <= 2 * LIMIT
    ensures U32(U32(x) + 3) == if x + 3 >= 0 then x + 3 else x + 3 + TWO32
  {
  }

  lemma FourthsOfWrapped(y: int)
    ensures (y + TWO32) / 4 == y / 4 + TWO32 / 4
  {
  }

  /** Difference of an `int` and a `uint32_t`, passed as an `int`. */
  lemma Difference(x: int, u: int)
    requires Small(x) && 0 <= u < LIMIT
    ensures I32(U32(x - u)) == x - u
  {
    Signed(x - u);
  }

  /** One axis of the source rectangle as the code computes it, through both kinds of integer. */
  method SourceAxis(lo: int, hi: int, size: int, mask: nat) returns (x: int, w: int)
    requires mask == 0 || mask == 3
    requires Small(lo) && Small(hi) && 0 <= size < LIMIT
    ensures var s := SourceSpan(lo, hi, size, mask);
            x == s.start && w == U32(s.extent) && I32(w) == s.extent && 0 <= x <= size
            && -LIMIT - LIMIT <= s.extent <= size - x
  {
    hide AlignU32, Up, U32, I32;
    x := U32(Max(lo, 0));
    AlignSigned(Max(lo, 0), mask);
    x := AlignU32(x, mask);
    Signed(Up(Max(lo, 0), mask));
    Signed(size);
    x := U32(Min(I32(x), I32(U32(size))));
    ghost var start := Min(Up(Max(lo, 0), mask), size);
    SmallWord(start);
    Difference(hi, x);
    Difference(size, x);
    w := U32(Min(I32(U32(hi - x)), I32(U32(size - x))));
    AlignSigned(Min(hi - x, size - x), mask);
    w := AlignU32(w, mask);
    w := U32(Min(I32(w), I32(U32(size - x))));
    Signed(Min(Up(Min(hi - x, size - x), mask), size - x));
  }

  lemma SmallWord(x: int)
    requires 0 <= x < LIMIT
    ensures U32(x) == x && I32(x) == x
  {
  }

  /** One axis of the destination rectangle as the code computes it. */
  method TargetAxis(lo: int, hi: int, size: int, alignStart: bool) returns (x: int, w: int)
    requires Small(lo) && Small(hi) && 0 <= size < LIMIT
    ensures var s := TargetSpan(lo, hi, size, alignStart);
            x == s.start && w == U32(s.extent) && I32(w) == s.extent && 0 <= x <= size
            && -LIMIT - LIMIT <= s.extent <= size - x
  {
    hide AlignU32, Up, U32, I32;
    x := U32(Max(lo, 0));
    if alignStart {
      AlignSigned(Max(lo, 0), 3);
      x := AlignU32(x, 3);
      Signed(Up(Max(lo, 0), 3));
    } else {
      Signed(Max(lo, 0));
    }
    x := U32(Min(I32(x), size));
    SmallWord(Min(if alignStart then Up(Max(lo, 0), 3) else Max(lo, 0), size));
    Difference(hi, x);
    Difference(size, x);
    w := U32(Min(I32(U32(hi - x)), I32(U32(size - x))));
    AlignSigned(Min(hi - x, size - x), 3);
    w := AlignU32(w, 3);
    AlignSigned(x, 3);
    SmallUp(x);
    Signed(size - Up(x, 3));
    w := U32(Min(I32(w), I32(U32(size - AlignU32(x, 3)))));
    Signed(Min(Up(Min(hi - x, size - x), 3), size - Up(x, 3)));
  }

  lemma SmallUp(x: int)
    requires 0 <= x < LIMIT
    ensures U32(x) == x && U32(Up(x, 3)) == Up(x, 3)
  {
  }

  /** One axis clamped without rounding, as verify_osd_layer computes it. */
  method ClampAxis(lo: int, hi: int, size: int) returns (x: int, w: int)
    requires Small(lo) && Small(hi) && 0 < size < LIMIT
    ensures (x == 0 && w == size) <==> lo <= 0 && hi >= size
    ensures w == size ==> x == 0
  {
    hide U32, I32;
    Signed(Max(lo, 0));
    x := U32(Max(lo, 0));
    x := U32(Min(I32(x), size));
    SmallWord(Min(Max(lo, 0), size));
    Difference(hi, x);
    Difference(size, x);
    w := U32(Min(I32(U32(hi - x)), I32(U32(size - x))));
    Signed(Min(hi - x, size - x));
    SmallWord(size);
  }
}
