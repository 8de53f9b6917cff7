/**
 * Screen geometry of the SCART/VGA framebuffer and the coordinate arithmetic
 * of drawPixel: clamping a coordinate pair and locating the byte and the
 * half of the byte that hold the pixel.
 *
 * The arithmetic is kept pure here; framebuffer.dfy performs the store.
 */
module Geometry {

  /** Active width and height in pixels. */
  const RES_X: int := 320
  const RES_Y: int := 304

  /** Largest in-range coordinates (drawPixel's max_x and max_y). */
  const MAX_X: int := RES_X - 1
  const MAX_Y: int := RES_Y - 1

  /** Two pixels are packed into every byte, so a row takes RES_X / 2 bytes. */
  const ROW_BYTES: int := RES_X / 2

  /** Length of the framebuffer, and the transfer count of the scanout DMA channel. */
  const TXCOUNT: int := ROW_BYTES * RES_Y

  /** A coordinate pair that names a pixel on the screen. */
  predicate OnScreen(x: int, y: int)
  {
    0 <= x < RES_X && 0 <= y < RES_Y
  }

  /** drawPixel's clamp of x: first against max_x, then against 0. */
  function ClampX(x: int): (cx: int)
    ensures 0 <= cx <= MAX_X
    ensures 0 <= x <= MAX_X ==> cx == x
    ensures x < 0 ==> cx == 0
    ensures MAX_X < x ==> cx == MAX_X
  {
    var x1 := if x > MAX_X then MAX_X else x;
    if x1 < 0 then 0 else x1
  }

  /**
   * drawPixel's clamp of y: first against 0, then against RES_Y. The upper
   * bound is RES_Y itself, one row past the last one (max_y is never used),
   * so the range of the clamp is 0..RES_Y and not 0..MAX_Y.
   */
  function ClampY(y: int): (cy: int)
    ensures 0 <= cy <= RES_Y
    ensures 0 <= y <= RES_Y ==> cy == y
    ensures y < 0 ==> cy == 0
    ensures RES_Y < y ==> cy == RES_Y
    ensures cy == RES_Y <==> RES_Y <= y
  {
    var y1 := if y < 0 then 0 else y;
    if y1 > RES_Y then RES_Y else y1
  }

  /** The linear pixel number RES_X * y + x of the clamped pair. */
  function PixelNumber(x: int, y: int): (p: int)
    ensures 0 <= p
  {
    RES_X * ClampY(y) + ClampX(x)
  }

  /** Offset of the byte that holds the pixel: pixel >> 1. */
  function ByteIndex(x: int, y: int): (i: int)
    ensures 0 <= i
  {
    PixelNumber(x, y) / 2
  }

  /** Whether the pixel is the odd one of its byte: pixel & 1. */
  function IsOddPixel(x: int, y: int): (odd: bool)
    ensures odd <==> ClampX(x) % 2 == 1
  {
    PixelNumber(x, y) % 2 == 1
  }

  /** The pixel number splits back into the clamped row and column. */
  lemma PixelNumberSplits(x: int, y: int)
    ensures PixelNumber(x, y) / RES_X == ClampY(y)
    ensures PixelNumber(x, y) % RES_X == ClampX(x)
  {
  }

  /**
   * Because RES_X is even, the byte is ROW_BYTES * y + x / 2 and the half of
   * the byte is the parity of the clamped x.
   */
  lemma ByteIndexSplits(x: int, y: int)
    ensures ByteIndex(x, y) == ROW_BYTES * ClampY(y) + ClampX(x) / 2
    ensures IsOddPixel(x, y) <==> ClampX(x) % 2 == 1
  {
    var cx, cy := ClampX(x), ClampY(y);
    assert PixelNumber(x, y) == 2 * (ROW_BYTES * cy + cx / 2) + cx % 2;
  }

  /**
   * The store of drawPixel is inside the framebuffer exactly when the input
   * row is on the screen; for every y >= RES_Y the offset is
   * TXCOUNT + ClampX(x) / 2, past the end of the array.
   */
  lemma ByteIndexInBoundsIff(x: int, y: int)
    ensures ByteIndex(x, y) < TXCOUNT <==> y < RES_Y
    ensures RES_Y <= y ==> ByteIndex(x, y) == TXCOUNT + ClampX(x) / 2
  {
    ByteIndexSplits(x, y);
  }

  /** The clamp law: every input behaves as its clamped pair, and the clamp is idempotent. */
  lemma ClampLaw(x: int, y: int)
    ensures ClampX(ClampX(x)) == ClampX(x) && ClampY(ClampY(y)) == ClampY(y)
    ensures ByteIndex(x, y) == ByteIndex(ClampX(x), ClampY(y))
    ensures IsOddPixel(x, y) == IsOddPixel(ClampX(x), ClampY(y))
    ensures x < 0 ==> ByteIndex(x, y) == ByteIndex(0, y) && IsOddPixel(x, y) == IsOddPixel(0, y)
    ensures MAX_X < x ==> ByteIndex(x, y) == ByteIndex(MAX_X, y) && IsOddPixel(x, y) == IsOddPixel(MAX_X, y)
    ensures y < 0 ==> ByteIndex(x, y) == ByteIndex(x, 0) && IsOddPixel(x, y) == IsOddPixel(x, 0)
  {
  }

  /** A pixel of the screen is recovered from its byte offset and its half of the byte. */
  lemma FieldLocatesPixel(x: int, y: int)
    requires OnScreen(x, y)
    ensures y == ByteIndex(x, y) / ROW_BYTES
    ensures x == 2 * (ByteIndex(x, y) % ROW_BYTES) + (if IsOddPixel(x, y) then 1 else 0)
  {
    ByteIndexSplits(x, y);
    RowDivMod(y, x / 2);
  }

  /** Two different pixels of the screen never share a byte half. */
  lemma DistinctPixelsDistinctFields(x1: int, y1: int, x2: int, y2: int)
    requires OnScreen(x1, y1) && OnScreen(x2, y2)
    requires x1 != x2 || y1 != y2
    ensures ByteIndex(x1, y1) != ByteIndex(x2, y2) || IsOddPixel(x1, y1) != IsOddPixel(x2, y2)
  {
    FieldLocatesPixel(x1, y1);
    FieldLocatesPixel(x2, y2);
  }

  /**
   * Every half of every byte of the framebuffer belongs to a pixel of the
   * screen: together with DistinctPixelsDistinctFields, the layout is a
   * one-to-one map of the screen onto the byte halves of the buffer.
   */
  lemma EveryFieldHasAPixel(i: int, odd: bool) returns (x: int, y: int)
    requires 0 <= i < TXCOUNT
    ensures OnScreen(x, y)
    ensures ByteIndex(x, y) == i && IsOddPixel(x, y) == odd
  {
    y := i / ROW_BYTES;
    x := 2 * (i % ROW_BYTES) + (if odd then 1 else 0);
    assert ClampX(x) == x && ClampY(y) == y;
    ByteIndexSplits(x, y);
  }

  /** Dividing a byte offset by the row length gives its row and its byte within the row. */
  lemma RowDivMod(q: int, r: int)
    requires 0 <= r < ROW_BYTES
    ensures (ROW_BYTES * q + r) / ROW_BYTES == q
    ensures (ROW_BYTES * q + r) % ROW_BYTES == r
  {
  }
}
