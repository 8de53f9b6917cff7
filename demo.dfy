/**
 * The demonstration pattern that main draws once the scanout is running: a
 * nested loop over every pixel that keeps a colour index and two counters.
 * The x-counter advances the colour every 40 striped pixels and is never
 * reset between rows; the y-counter advances it every 60 rows; rows below
 * row 290 are painted RED.
 */
module Demo {
  import opened Geometry
  import opened Framebuffer

  /** `static const char colors[8]`. */
  const COLORS: seq<bv8> := [BLACK, RED, GREEN, YELLOW, BLUE, MAGENTA, CYAN, WHITE]

  /** Width of a colour stripe in pixels, and height of a colour band in rows. */
  const STRIPE: int := 40
  const BAND: int := 60

  /** The last row of the striped part; every row after it is RED. */
  const LAST_STRIPED_ROW: int := 290

  /**
   * The colour the pattern gives the pixel (x, y), in closed form: vertical
   * stripes 40 pixels wide whose colours shift by one every 60 rows.
   */
  function DemoColour(x: int, y: int): (c: bv8)
    requires OnScreen(x, y)
    ensures c < 8
  {
    if y > LAST_STRIPED_ROW then RED else ((y / BAND + x / STRIPE) % 8) as bv8
  }

  /** One call of drawPixel made by the pattern: its arguments and whether the store was in bounds. */
  datatype Call = Call(x: int, y: int, color: bv8, written: bool)

  /**
   * A counter that the loop zeroes whenever it stands at `period` and then
   * increments (so it counts 1, 2, ..., period, 1, 2, ...) has, after `n`
   * increments from 0, the value `counter` and has been zeroed `wraps` times.
   */
  predicate CounterAfter(n: int, wraps: int, counter: int, period: int)
  {
    && n == period * wraps + counter
    && 0 <= wraps && 0 <= counter <= period
    && (counter == 0 <==> n == 0)
  }

  /** One turn of the loop: zero the counter if it stands at `period`, then increment it. */
  lemma CounterStep(n: int, wraps: int, counter: int, period: int)
    requires 0 < period && CounterAfter(n, wraps, counter, period)
    ensures CounterAfter(n + 1, if counter == period then wraps + 1 else wraps,
                         (if counter == period then 0 else counter) + 1, period)
  {
  }

  /** The number of wraps after n > 0 increments is (n - 1) / period. */
  lemma WrapsAreQuotient(n: int, wraps: int, counter: int, period: int)
    requires 0 < period && 0 < n && CounterAfter(n, wraps, counter, period)
    ensures wraps == (n - 1) / period
  {
    DivOfSum(wraps, counter - 1, period);
  }

  lemma DivOfSum(q: int, r: int, d: int)
    requires 0 < d && 0 <= r < d
    ensures (d * q + r) / d == q && (d * q + r) % d == r
  {
    var n := d * q + r;
    var q', r' := n / d, n % d;
    assert d * (q - q') == r' - r;
    if q - q' >= 1 {
      MulAtLeast(d, q - q');
    } else if q - q' <= -1 {
      MulAtLeast(d, q' - q);
    }
  }

  lemma MulAtLeast(d: int, k: int)
    requires 0 < d && 1 <= k
    ensures d * k >= d
  {
  }

  /** `colors[i] == i`: the table lists the colours in the order of their values. */
  lemma ColorsTable(i: int)
    requires 0 <= i < 8
    ensures COLORS[i] == i as bv8
  {
  }

  /**
   * How many striped pixels the pattern has drawn when it reaches (x, y): the
   * x-counter only moves in rows up to LAST_STRIPED_ROW.
   */
  function StripedBefore(x: int, y: int): (n: nat)
    requires 0 <= x <= RES_X && 0 <= y <= RES_Y
    ensures n <= RES_X * (LAST_STRIPED_ROW + 1)
  {
    if y <= LAST_STRIPED_ROW then RES_X * y + x else RES_X * (LAST_STRIPED_ROW + 1)
  }

  /** The x-counter is not reset per row: the end of row y is the start of row y + 1. */
  lemma StripedRowsJoin(y: int)
    requires 0 <= y < RES_Y
    ensures StripedBefore(RES_X, y) == StripedBefore(0, y + 1)
  {
  }

  /** Whether (px, py) comes before (x, y) in the row-major order of the loop. */
  predicate DrawnBefore(px: int, py: int, x: int, y: int)
  {
    py < y || (py == y && px < x)
  }

  /** The k-th call in row-major order, as the pattern makes it. */
  function ExpectedCall(k: int): (c: Call)
    requires 0 <= k < RES_X * RES_Y
    ensures OnScreen(c.x, c.y) && c.written
    ensures RES_X * c.y + c.x == k
  {
    Call(k % RES_X, k / RES_X, DemoColour(k % RES_X, k / RES_X), true)
  }

  /**
   * The row-major order visits each pixel of the screen exactly once: the
   * k-th call is at (x, y) if and only if k == RES_X * y + x.
   */
  lemma ScanVisitsEachPixelOnce(x: int, y: int, k: int)
    requires OnScreen(x, y) && 0 <= k < RES_X * RES_Y
    ensures (ExpectedCall(k).x == x && ExpectedCall(k).y == y) <==> k == RES_X * y + x
  {
    DivOfSum(y, x, RES_X);
  }

  /**
   * When the pattern draws the striped pixel (x, y), the y-counter has been
   * incremented y + 1 times and the x-counter once per striped pixel up to and
   * including this one; the colour index they have advanced selects the
   * closed-form colour of the pixel.
   */
  lemma StripeColour(x: int, y: int, yWraps: int, ycounter: int, xWraps: int, xcounter: int)
    requires OnScreen(x, y) && y <= LAST_STRIPED_ROW
    requires CounterAfter(y + 1, yWraps, ycounter, BAND)
    requires CounterAfter(StripedBefore(x, y) + 1, xWraps, xcounter, STRIPE)
    ensures COLORS[(yWraps + xWraps) % 8] == DemoColour(x, y)
  {
    WrapsAreQuotient(y + 1, yWraps, ycounter, BAND);
    WrapsAreQuotient(StripedBefore(x, y) + 1, xWraps, xcounter, STRIPE);
    DivOfSum(8 * y + x / STRIPE, x % STRIPE, STRIPE);
    assert RES_X * y + x == STRIPE * (8 * y + x / STRIPE) + x % STRIPE;
    var a := y / BAND + x / STRIPE;
    DivOfSum(y + a / 8, a % 8, 8);
    assert 8 * (y + a / 8) + a % 8 == a + 8 * y;
    ColorsTable((yWraps + xWraps) % 8);
  }

  /**
   * The frame `s` is `start` with the pattern colour OR-ed into every pixel
   * before (x, y) in row-major order, and into no other pixel.
   */
  ghost predicate PaintedUpTo(start: seq<bv8>, s: seq<bv8>, x: int, y: int)
    requires IsFrame(start) && IsFrame(s)
  {
    forall px, py :: OnScreen(px, py) ==>
      ColourAt(s, px, py)
      == if DrawnBefore(px, py, x, y) then ColourAt(start, px, py) | DemoColour(px, py) else ColourAt(start, px, py)
  }

  /** Every byte of `s` whose bits 6 and 7 were clear in `start` still has them clear. */
  ghost predicate TopBitsKept(start: seq<bv8>, s: seq<bv8>)
    requires IsFrame(start) && IsFrame(s)
  {
    forall i :: 0 <= i < TXCOUNT && start[i] < 64 ==> s[i] < 64
  }

  /** `calls` are the first |calls| calls of row-major order. */
  ghost predicate CallsInScanOrder(calls: seq<Call>)
  {
    |calls| <= RES_X * RES_Y && forall k :: 0 <= k < |calls| ==> calls[k] == ExpectedCall(k)
  }

  /** Finishing row y is the same frontier as starting row y + 1. */
  lemma RowDone(start: seq<bv8>, s: seq<bv8>, y: int)
    requires IsFrame(start) && IsFrame(s) && 0 <= y < RES_Y
    requires PaintedUpTo(start, s, RES_X, y)
    ensures PaintedUpTo(start, s, 0, y + 1)
  {
    forall px, py | OnScreen(px, py)
      ensures DrawnBefore(px, py, RES_X, y) == DrawnBefore(px, py, 0, y + 1)
    {
    }
  }

  /** Advancing the colour index modulo 8 advances the wraps it counts. */
  lemma NextIndex(n: int)
    requires 0 <= n
    ensures (n % 8 + 1) % 8 == (n + 1) % 8
  {
  }

  /** The call the pattern makes at (x, y) extends the row-major order by one. */
  lemma CallsExtend(calls: seq<Call>, x: int, y: int)
    requires OnScreen(x, y) && |calls| == RES_X * y + x && CallsInScanOrder(calls)
    ensures CallsInScanOrder(calls + [Call(x, y, DemoColour(x, y), true)])
  {
    DivOfSum(y, x, RES_X);
    var c := calls + [Call(x, y, DemoColour(x, y), true)];
    forall k | 0 <= k < |c|
      ensures c[k] == ExpectedCall(k)
    {
      if k < |calls| {
        assert c[k] == calls[k];
      }
    }
  }

  /** Drawing (x, y) in its pattern colour moves the pattern's frontier one pixel on. */
  lemma DrawStep(start: seq<bv8>, before: seq<bv8>, after: seq<bv8>, x: int, y: int, color: bv8)
    requires IsFrame(start) && IsFrame(before) && OnScreen(x, y)
    requires color == DemoColour(x, y) && after == Plot(before, x, y, color)
    requires PaintedUpTo(start, before, x, y) && TopBitsKept(start, before)
    ensures IsFrame(after)
    ensures PaintedUpTo(start, after, x + 1, y) && TopBitsKept(start, after)
  {
    forall px, py | OnScreen(px, py)
      ensures ColourAt(after, px, py)
              == if DrawnBefore(px, py, x + 1, y) then ColourAt(start, px, py) | DemoColour(px, py)
                 else ColourAt(start, px, py)
    {
      PlotColours(before, x, y, color, px, py);
    }
    forall i | 0 <= i < TXCOUNT && start[i] < 64
      ensures after[i] < 64
    {
      if i == ByteIndex(x, y) {
        LowBytes(before[i], color, IsOddPixel(x, y));
      }
    }
  }

  /**
   * The example block of main. Every pixel of the screen is passed to
   * drawPixel exactly once, in row-major order and in its pattern colour, so
   * no call takes the out-of-bounds path; every pixel's colour gains exactly
   * its pattern colour by OR, which from the zero-initialised buffer leaves
   * each pixel showing that colour.
   *
   * `calls` records the calls made, for the specification only.
   */
  method FillDemo(fb: array<bv8>) returns (ghost calls: seq<Call>)
    requires fb.Length == TXCOUNT
    modifies fb
    ensures |calls| == RES_X * RES_Y
    ensures forall k :: 0 <= k < |calls| ==> calls[k] == ExpectedCall(k)
    ensures forall px, py :: OnScreen(px, py) ==>
              ColourAt(fb[..], px, py) == ColourAt(old(fb[..]), px, py) | DemoColour(px, py)
    ensures old(fb[..]) == BlackFrame() ==>
              forall px, py :: OnScreen(px, py) ==> ColourAt(fb[..], px, py) == DemoColour(px, py)
    ensures forall i :: 0 <= i < TXCOUNT && old(fb[i]) < 64 ==> fb[i] < 64
  {
    ghost var start := fb[..];
    var index := 0;
    var xcounter := 0;
    var ycounter := 0;
    ghost var xWraps, yWraps := 0, 0;
    calls := [];

    var y := 0;
    while y < RES_Y
      invariant 0 <= y <= RES_Y
      invariant CounterAfter(y, yWraps, ycounter, BAND)
      invariant CounterAfter(StripedBefore(0, y), xWraps, xcounter, STRIPE)
      invariant index == (yWraps + xWraps) % 8
      invariant |calls| == RES_X * y
      invariant CallsInScanOrder(calls)
      invariant PaintedUpTo(start, fb[..], 0, y)
      invariant TopBitsKept(start, fb[..])
    {
      NextIndex(yWraps + xWraps);
      if ycounter == BAND {
        ycounter := 0;
        index := (index + 1) % 8;
        yWraps := yWraps + 1;
      }
      ycounter := ycounter + 1;
      index, xcounter, xWraps, calls := DrawDemoRow(fb, y, index, xcounter, start, yWraps, ycounter, xWraps, calls);
      y := y + 1;
    }
    assert forall px, py :: OnScreen(px, py) ==> DrawnBefore(px, py, 0, RES_Y);
  }

  /**
   * The inner loop of the example, over the pixels of row y: rows after
   * LAST_STRIPED_ROW are drawn RED; in the others the x-counter advances the
   * colour index every STRIPE pixels, and is carried on from row to row.
   */
  method DrawDemoRow(fb: array<bv8>, y: int, index: int, xcounter: int,
                     ghost start: seq<bv8>, ghost yWraps: int, ghost ycounter: int,
                     ghost xWraps: int, ghost calls: seq<Call>)
    returns (index': int, xcounter': int, ghost xWraps': int, ghost calls': seq<Call>)
    requires fb.Length == TXCOUNT && IsFrame(start) && 0 <= y < RES_Y
    requires CounterAfter(y + 1, yWraps, ycounter, BAND)
    requires CounterAfter(StripedBefore(0, y), xWraps, xcounter, STRIPE)
    requires index == (yWraps + xWraps) % 8
    requires |calls| == RES_X * y && CallsInScanOrder(calls)
    requires PaintedUpTo(start, fb[..], 0, y) && TopBitsKept(start, fb[..])
    modifies fb
    ensures CounterAfter(StripedBefore(0, y + 1), xWraps', xcounter', STRIPE)
    ensures index' == (yWraps + xWraps') % 8
    ensures |calls'| == RES_X * (y + 1) && CallsInScanOrder(calls')
    ensures PaintedUpTo(start, fb[..], 0, y + 1) && TopBitsKept(start, fb[..])
  {
    index', xcounter', xWraps', calls' := index, xcounter, xWraps, calls;
    var x := 0;
    while x < RES_X
      invariant 0 <= x <= RES_X
      invariant CounterAfter(StripedBefore(x, y), xWraps', xcounter', STRIPE)
      invariant index' == (yWraps + xWraps') % 8
      invariant |calls'| == RES_X * y + x
      invariant CallsInScanOrder(calls')
      invariant PaintedUpTo(start, fb[..], x, y)
      invariant TopBitsKept(start, fb[..])
    {
      ghost var before := fb[..];
      var color: bv8;
      if y > LAST_STRIPED_ROW {
        color := RED;
      } else {
        NextIndex(yWraps + xWraps');
        if xcounter' == STRIPE {
          xcounter' := 0;
          index' := (index' + 1) % 8;
          xWraps' := xWraps' + 1;
        }
        xcounter' := xcounter' + 1;
        StripeColour(x, y, yWraps, ycounter, xWraps', xcounter');
        color := COLORS[index'];
      }
      assert color == DemoColour(x, y);
      var written := DrawPixel(fb, x, y, color);
      DrawStep(start, before, fb[..], x, y, color);
      CallsExtend(calls', x, y);
      calls' := calls' + [Call(x, y, color, written)];
      x := x + 1;
    }
    RowDone(start, fb[..], y);
  }

  /**
   * The example run on the zero-initialised buffer: the first byte packs two
   * BLACK pixels, the byte at the start of the second stripe two RED pixels,
   * and the last byte, in the bottom rows, two RED pixels.
   */
  method DemoScenario() returns (first: bv8, secondStripe: bv8, last: bv8)
    ensures first == BLACK | (BLACK << 3)
    ensures secondStripe == RED | (RED << 3)
    ensures last == RED | (RED << 3)
  {
    var fb := NewFramebuffer();
    ghost var calls := FillDemo(fb);
    first, secondStripe, last := fb[0], fb[STRIPE / 2], fb[TXCOUNT - 1];
    PackedByte(fb[..], 0, 0);
    PackedByte(fb[..], STRIPE, 0);
    PackedByte(fb[..], MAX_X - 1, MAX_Y);
  }
}
