/**
 * The packed-pixel framebuffer and its one mutator, drawPixel.
 *
 * Every byte holds two pixels: the even pixel in bits 0..2 and the odd pixel
 * in bits 3..5 (the shift is 3, so the halves are not nibbles; bits 6 and 7
 * are reached only by an out-of-range colour). A pixel is written by OR-ing
 * its colour into its field, never by assignment.
 *
 * The buffer is an array of bytes; `bv8` is the C `unsigned char`, and the
 * colour argument is the target's plain `char`, which is unsigned on this
 * compiler, so it is a `bv8` too. `color << 3` is computed in `int` by C and
 * truncated on the store; OR is bitwise, so this is the same as shifting in
 * 8 bits.
 */
module Framebuffer {
  import opened Geometry

  /** The eight colours: bit 0 red, bit 1 green, bit 2 blue. */
  const BLACK: bv8 := 0
  const RED: bv8 := 1
  const GREEN: bv8 := 2
  const YELLOW: bv8 := 3
  const BLUE: bv8 := 4
  const MAGENTA: bv8 := 5
  const CYAN: bv8 := 6
  const WHITE: bv8 := 7

  /** The 3-bit field of byte `b` that holds the even (`odd == false`) or the odd pixel. */
  function Field(b: bv8, odd: bool): (f: bv8)
    ensures f < 8
  {
    if odd then (b >> 3) & 7 else b & 7
  }

  /** The byte after `|=` of a colour into the even or the odd pixel's position. */
  function OrInto(b: bv8, color: bv8, odd: bool): (r: bv8)
    ensures r & b == b
    ensures odd ==> r & (color << 3) == color << 3
    ensures !odd ==> r & color == color
  {
    if odd then b | (color << 3) else b | color
  }

  /**
   * For a 3-bit colour, writing a pixel ORs the colour into its own field
   * and leaves the field of the other pixel of the byte as it was.
   */
  lemma OrIntoFields(b: bv8, color: bv8, odd: bool)
    requires color < 8
    ensures Field(OrInto(b, color, odd), odd) == Field(b, odd) | color
    ensures Field(OrInto(b, color, odd), !odd) == Field(b, !odd)
  {
  }

  /** Round trip: a 3-bit colour written into a cleared field reads back unchanged. */
  lemma ClearedFieldRoundTrip(b: bv8, color: bv8, odd: bool)
    requires color < 8 && Field(b, odd) == BLACK
    ensures Field(OrInto(b, color, odd), odd) == color
  {
    OrIntoFields(b, color, odd);
  }

  /** Writing the same colour twice is the same as writing it once. */
  lemma OrIntoIdempotent(b: bv8, color: bv8, odd: bool)
    ensures OrInto(OrInto(b, color, odd), color, odd) == OrInto(b, color, odd)
  {
  }

  /** Two writes into one byte give the same byte in either order. */
  lemma OrIntoCommutes(b: bv8, c1: bv8, odd1: bool, c2: bv8, odd2: bool)
    ensures OrInto(OrInto(b, c1, odd1), c2, odd2) == OrInto(OrInto(b, c2, odd2), c1, odd1)
  {
  }

  /** OR accumulation: RED then GREEN on a black pixel gives YELLOW, not GREEN. */
  lemma RedThenGreenIsYellow(b: bv8, odd: bool)
    requires Field(b, odd) == BLACK
    ensures Field(OrInto(OrInto(b, RED, odd), GREEN, odd), odd) == YELLOW
  {
    OrIntoFields(b, RED, odd);
    OrIntoFields(OrInto(b, RED, odd), GREEN, odd);
  }

  /**
   * The colour is not masked: bits 3..5 of a colour written to an even pixel
   * are OR-ed into the odd pixel's field of the same byte.
   */
  lemma WideColourSpills(b: bv8, color: bv8)
    ensures Field(OrInto(b, color, false), true) == Field(b, true) | ((color >> 3) & 7)
  {
  }

  /**
   * With 3-bit colours bits 6 and 7 of a byte stay clear, and a byte whose
   * top bits are clear is exactly its even field with its odd field above it.
   */
  lemma LowBytes(b: bv8, color: bv8, odd: bool)
    requires b < 64 && color < 8
    ensures OrInto(b, color, odd) < 64
    ensures b == Field(b, false) | (Field(b, true) << 3)
  {
  }

  /** A framebuffer as a value: one byte per pair of pixels. */
  predicate IsFrame(s: seq<bv8>)
  {
    |s| == TXCOUNT
  }

  /** The all-black frame the buffer starts as. */
  function BlackFrame(): (s: seq<bv8>)
    ensures IsFrame(s)
    ensures forall i :: 0 <= i < |s| ==> s[i] == BLACK
  {
    seq(TXCOUNT, i => BLACK)
  }

  /** The colour the frame `s` shows at (x, y), after drawPixel's clamp. */
  function ColourAt(s: seq<bv8>, x: int, y: int): (c: bv8)
    requires IsFrame(s) && y < RES_Y
    ensures c < 8
  {
    ByteIndexInBoundsIff(x, y);
    Field(s[ByteIndex(x, y)], IsOddPixel(x, y))
  }

  /** drawPixel(x, y, color) on a frame whose target byte lies inside it. */
  function Plot(s: seq<bv8>, x: int, y: int, color: bv8): (t: seq<bv8>)
    requires IsFrame(s) && y < RES_Y
    ensures IsFrame(t)
    ensures forall i :: 0 <= i < |s| && i != ByteIndex(x, y) ==> t[i] == s[i]
    ensures ByteIndex(x, y) < |s| && t[ByteIndex(x, y)] == OrInto(s[ByteIndex(x, y)], color, IsOddPixel(x, y))
  {
    ByteIndexInBoundsIff(x, y);
    s[ByteIndex(x, y) := OrInto(s[ByteIndex(x, y)], color, IsOddPixel(x, y))]
  }

  /** No bit of the frame is ever cleared by a write. */
  lemma PlotKeepsBits(s: seq<bv8>, x: int, y: int, color: bv8)
    requires IsFrame(s) && y < RES_Y
    ensures forall i :: 0 <= i < |s| ==> Plot(s, x, y, color)[i] & s[i] == s[i]
  {
  }

  /**
   * Writing a 3-bit colour at (x, y) ORs it into the clamped pixel's colour
   * and leaves the colour of every other pixel of the screen unchanged.
   */
  lemma PlotColours(s: seq<bv8>, x: int, y: int, color: bv8, px: int, py: int)
    requires IsFrame(s) && y < RES_Y && color < 8 && OnScreen(px, py)
    ensures ColourAt(Plot(s, x, y, color), px, py)
         == if px == ClampX(x) && py == ClampY(y) then ColourAt(s, px, py) | color else ColourAt(s, px, py)
  {
    var t := Plot(s, x, y, color);
    var cx, cy := ClampX(x), ClampY(y);
    ClampLaw(x, y);
    ByteIndexInBoundsIff(px, py);
    OrIntoFields(s[ByteIndex(x, y)], color, IsOddPixel(x, y));
    if px != cx || py != cy {
      DistinctPixelsDistinctFields(px, py, cx, cy);
    }
  }

  /**
   * Reading back what was written: on a pixel that was black, the frame
   * shows the 3-bit colour just drawn, in the half of the byte the pixel's
   * parity selects (the low three bits for an even x, the next three for an odd x).
   */
  lemma PlotRoundTrip(s: seq<bv8>, x: int, y: int, color: bv8)
    requires IsFrame(s) && OnScreen(x, y) && color < 8 && ColourAt(s, x, y) == BLACK
    ensures ColourAt(Plot(s, x, y, color), x, y) == color
    ensures x % 2 == 0 ==> Plot(s, x, y, color)[ByteIndex(x, y)] & 7 == color
    ensures x % 2 == 1 ==> (Plot(s, x, y, color)[ByteIndex(x, y)] >> 3) & 7 == color
  {
    PlotColours(s, x, y, color, x, y);
    ByteIndexSplits(x, y);
  }

  /**
   * A byte whose bits 6 and 7 are clear packs the colours of its two pixels:
   * the even pixel's in bits 0..2 and the odd pixel's in bits 3..5.
   */
  lemma PackedByte(s: seq<bv8>, x: int, y: int)
    requires IsFrame(s) && OnScreen(x, y) && x % 2 == 0
    requires ByteIndex(x, y) < |s| && s[ByteIndex(x, y)] < 64
    ensures ByteIndex(x + 1, y) == ByteIndex(x, y)
    ensures s[ByteIndex(x, y)] == ColourAt(s, x, y) | (ColourAt(s, x + 1, y) << 3)
  {
    ByteIndexSplits(x, y);
    ByteIndexSplits(x + 1, y);
    LowBytes(s[ByteIndex(x, y)], BLACK, false);
  }

  /** The clamp law on frames: out-of-range coordinates draw the edge pixel. */
  lemma PlotClampLaw(s: seq<bv8>, x: int, y: int, color: bv8)
    requires IsFrame(s) && y < RES_Y
    ensures Plot(s, x, y, color) == Plot(s, ClampX(x), ClampY(y), color)
    ensures x < 0 ==> Plot(s, x, y, color) == Plot(s, 0, y, color)
    ensures MAX_X < x ==> Plot(s, x, y, color) == Plot(s, MAX_X, y, color)
    ensures y < 0 ==> Plot(s, x, y, color) == Plot(s, x, 0, color)
  {
    ClampLaw(x, y);
  }

  /** Drawing the same pixel in the same colour twice is the same as drawing it once. */
  lemma PlotIdempotent(s: seq<bv8>, x: int, y: int, color: bv8)
    requires IsFrame(s) && y < RES_Y
    ensures Plot(Plot(s, x, y, color), x, y, color) == Plot(s, x, y, color)
  {
    var t := Plot(s, x, y, color);
    OrIntoIdempotent(s[ByteIndex(x, y)], color, IsOddPixel(x, y));
    assert Plot(t, x, y, color) == t;
  }

  /** The order of two writes does not matter. */
  lemma PlotCommutes(s: seq<bv8>, x1: int, y1: int, c1: bv8, x2: int, y2: int, c2: bv8)
    requires IsFrame(s) && y1 < RES_Y && y2 < RES_Y
    ensures Plot(Plot(s, x1, y1, c1), x2, y2, c2) == Plot(Plot(s, x2, y2, c2), x1, y1, c1)
  {
    var i1, i2 := ByteIndex(x1, y1), ByteIndex(x2, y2);
    var o1, o2 := IsOddPixel(x1, y1), IsOddPixel(x2, y2);
    if i1 == i2 {
      OrIntoCommutes(s[i1], c1, o1, c2, o2);
    }
    var a, b := Plot(Plot(s, x1, y1, c1), x2, y2, c2), Plot(Plot(s, x2, y2, c2), x1, y1, c1);
    assert forall i :: 0 <= i < TXCOUNT ==> a[i] == b[i];
  }

  /** The arguments of one drawPixel call. */
  datatype Draw = Draw(x: int, y: int, color: bv8)

  /** Every draw of the list targets a byte inside the frame and uses a 3-bit colour. */
  predicate ValidDraws(draws: seq<Draw>)
  {
    forall i :: 0 <= i < |draws| ==> draws[i].y < RES_Y && draws[i].color < 8
  }

  /** The frame after the draws of the list, in order. */
  function PlotAll(s: seq<bv8>, draws: seq<Draw>): (t: seq<bv8>)
    requires IsFrame(s) && ValidDraws(draws)
    ensures IsFrame(t)
    decreases |draws|
  {
    if draws == [] then s
    else PlotAll(Plot(s, draws[0].x, draws[0].y, draws[0].color), draws[1..])
  }

  /** The OR of the colours of the draws of the list whose clamped pixel is (px, py). */
  function ColoursDrawnAt(draws: seq<Draw>, px: int, py: int): (c: bv8)
    requires ValidDraws(draws)
    ensures c < 8
    decreases |draws|
  {
    if draws == [] then BLACK
    else
      var d := draws[0];
      (if ClampX(d.x) == px && ClampY(d.y) == py then d.color else BLACK) | ColoursDrawnAt(draws[1..], px, py)
  }

  /**
   * OR accumulation over any sequence of writes: each pixel ends as its old
   * colour OR the colours of all the draws that target it, whatever their
   * order and however often they repeat.
   */
  lemma {:induction false} PlotAllColours(s: seq<bv8>, draws: seq<Draw>, px: int, py: int)
    requires IsFrame(s) && ValidDraws(draws) && OnScreen(px, py)
    ensures ColourAt(PlotAll(s, draws), px, py) == ColourAt(s, px, py) | ColoursDrawnAt(draws, px, py)
    decreases |draws|
  {
    if draws != [] {
      var d := draws[0];
      var s' := Plot(s, d.x, d.y, d.color);
      PlotColours(s, d.x, d.y, d.color, px, py);
      PlotAllColours(s', draws[1..], px, py);
    }
  }

  /** A fresh framebuffer: `static unsigned char s_framebuffer[TXCOUNT]`, zero-initialised. */
  method NewFramebuffer() returns (fb: array<bv8>)
    ensures fresh(fb)
    ensures fb[..] == BlackFrame()
  {
    fb := new bv8[TXCOUNT](i => BLACK);
  }

  /**
   * drawPixel(x, y, color). The coordinates are clamped as the C code clamps
   * them, and the colour is OR-ed into the pixel's field of its byte.
   *
   * For y >= RES_Y the C code stores past the end of the array; the model
   * cannot, so it reports that case with `written == false` and leaves the
   * buffer as it was.
   */
  method DrawPixel(fb: array<bv8>, x: int, y: int, color: bv8) returns (written: bool)
    requires fb.Length == TXCOUNT
    modifies fb
    ensures written <==> y < RES_Y
    ensures written ==> fb[..] == Plot(old(fb[..]), x, y, color)
    ensures !written ==> fb[..] == old(fb[..])
  {
    var cx, cy := x, y;
    if cx > MAX_X {
      cx := MAX_X;
    }
    if cx < 0 {
      cx := 0;
    }
    if cy < 0 {
      cy := 0;
    }
    if cy > RES_Y {
      cy := RES_Y;
    }

    var pixel := RES_X * cy + cx;
    ByteIndexInBoundsIff(x, y);
    if pixel / 2 >= fb.Length {
      return false;
    }
    if pixel % 2 == 1 {
      fb[pixel / 2] := fb[pixel / 2] | (color << 3);
    } else {
      fb[pixel / 2] := fb[pixel / 2] | color;
    }
    written := true;
  }
}
