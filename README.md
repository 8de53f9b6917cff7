# Packed-pixel framebuffer of the RP2040 SCART/VGA driver

The driver streams a framebuffer of packed pixels to the screen by DMA. To change the picture, the program changes bytes of that buffer, and it does so only through `drawPixel`. This project models three things in Dafny:

- the buffer: `TXCOUNT = (RES_X >> 1) * RES_Y = 160 * 304` bytes, all zero (black) at start;
- `drawPixel`, its only mutator: clamp the coordinates, compute the pixel number `RES_X * y + x`, and OR a 3-bit colour into byte `pixel >> 1`;
- the demonstration loop in `main` that paints the test pattern through `drawPixel`.

Three files, one module each:

- `geometry.dfy` (`Geometry`): the constants, and the clamp and index arithmetic as pure functions, with lemmas about the layout.
- `framebuffer.dfy` (`Framebuffer`): the 3-bit fields of a byte, and the `|=` store. `Plot` is the whole-frame update as a value. `DrawPixel` is the in-place update of an `array<bv8>`, proved equal to `Plot`.
- `demo.dfy` (`Demo`): the nested fill loop, proved against a closed-form description of the pattern.

Colours are `bv8`, the target's plain `char`, which is unsigned on this compiler. `drawPixel` does not mask the colour. So `DrawPixel` takes any byte, and the lemmas that need a 3-bit colour require `color < 8`. This matches the caller obligation in the header comment.

## Notes on the code

The model follows the code as written.

- **Field positions.** The odd pixel is shifted by 3 before the store (scart_rgb.c:94), so its field is bits 3..5, not the upper nibble. The even pixel's field is bits 0..2 (scart_rgb.c:98), and bits 6 and 7 stay clear while colours are 3-bit.
- **Upper `y` clamp.** `max_y = RES_Y - 1` is declared (scart_rgb.c:75) but never used. `x` is clamped to `max_x`, but `y` is clamped to `RES_Y` (scart_rgb.c:83-84). So every `y >= RES_Y` gives byte offset `TXCOUNT + ClampX(x) / 2`, where `ClampX(x)` is the clamped `x`; that offset is past the end of `s_framebuffer`. `Geometry.ByteIndexInBoundsIff` proves that the offset is in bounds exactly when `y < RES_Y`.
  - The model keeps this clamp as written.
  - `DrawPixel` reports the out-of-bounds case with `written == false`.
  - `Demo.FillDemo` proves that the example never reaches that case.

## Model

| member | source | states |
|---|---|---|
| `Geometry.ClampX` | scart_rgb.c:74-80 | the clamped x lies in 0..max_x; an in-range x is kept; any x < 0 becomes 0; any x > 319 becomes 319 |
| `Geometry.ClampY` | scart_rgb.c:81-84 | the clamped y lies in 0..RES_Y (not max_y); an in-range y is kept; any y < 0 becomes 0; the result is RES_Y exactly when y >= RES_Y |
| `Geometry.PixelNumber` | scart_rgb.c:87 | the pixel number of the clamped pair is never negative |
| `Geometry.ByteIndex` | scart_rgb.c:87-98 | the byte offset `pixel >> 1` is never negative |
| `Geometry.PixelNumberSplits` | scart_rgb.c:87 | the pixel number divides back into the clamped row and column |
| `Geometry.IsOddPixel` | scart_rgb.c:89-92 | the `pixel & 1` test that picks the half of the byte is the parity of the clamped x, because RES_X is even |
| `Geometry.ByteIndexSplits` | scart_rgb.c:39-43 | the byte is `ROW_BYTES * y + x / 2`; because RES_X is even, the pixel's parity is the parity of the clamped x |
| `Geometry.ByteIndexInBoundsIff` | scart_rgb.c:83-98 | the target byte is below TXCOUNT exactly when the input y < RES_Y; for every y >= RES_Y it is TXCOUNT + (clamped x) / 2, past the array |
| `Geometry.ClampLaw` | scart_rgb.c:76-84 | every input targets the same byte and half as its clamped pair: x < 0 as x = 0, x > 319 as x = 319, y < 0 as y = 0; the clamps are idempotent |
| `Geometry.FieldLocatesPixel` | scart_rgb.c:87-98 | an on-screen pixel is recovered from its byte offset and its parity |
| `Geometry.DistinctPixelsDistinctFields` | scart_rgb.c:87-98 | two different on-screen pixels never share a byte half |
| `Geometry.EveryFieldHasAPixel` | scart_rgb.c:43-48 | every half of every byte of the buffer belongs to some on-screen pixel, so the layout maps the screen one-to-one onto the buffer |
| `Geometry.RowDivMod` | scart_rgb.c:43 | a byte offset divides into its row and its byte within the row |
| `Framebuffer.Field` | scart_rgb.c:89-99 | a pixel's field of a byte is a 3-bit value |
| `Framebuffer.OrInto` | scart_rgb.c:92-99 | the OR-assignment store clears no bit of the old byte and sets every bit of the (shifted) colour |
| `Framebuffer.OrIntoFields` | scart_rgb.c:92-99 | for a 3-bit colour, the pixel's field becomes old field OR colour; the other pixel's field of the byte is unchanged |
| `Framebuffer.ClearedFieldRoundTrip` | scart_rgb.c:92-99 | a 3-bit colour written into a cleared field reads back as that colour |
| `Framebuffer.OrIntoIdempotent` | scart_rgb.c:94-98 | storing the same colour twice gives the same byte as storing it once |
| `Framebuffer.OrIntoCommutes` | scart_rgb.c:94-98 | two stores into one byte give the same byte in either order |
| `Framebuffer.RedThenGreenIsYellow` | scart_rgb.c:59-98 | on a black pixel, RED (1) and then GREEN (2) give YELLOW (3), not GREEN |
| `Framebuffer.WideColourSpills` | scart_rgb.c:24-27 | the colour is not masked: bits 3..5 of a colour written to an even pixel are OR-ed into the odd pixel's field |
| `Framebuffer.LowBytes` | scart_rgb.c:92-99 | with 3-bit colours, bits 6 and 7 of a byte stay clear; such a byte is its even field with its odd field shifted by 3 |
| `Framebuffer.BlackFrame` | scart_rgb.c:45-48 | the initial frame has TXCOUNT bytes, all BLACK |
| `Framebuffer.ColourAt` | scart_rgb.c:89-99 | the colour seen at a pixel is a 3-bit value |
| `Framebuffer.Plot` | scart_rgb.c:72-100 | drawing gives a frame of the same length; the target byte becomes old byte OR colour, in the position the parity selects; every other byte is unchanged |
| `Framebuffer.PlotKeepsBits` | scart_rgb.c:94-98 | no bit of any byte of the frame is ever cleared by a draw |
| `Framebuffer.PlotColours` | scart_rgb.c:72-100 | for a 3-bit colour, the clamped pixel's colour becomes old colour OR colour; every other on-screen pixel keeps its colour |
| `Framebuffer.PlotRoundTrip` | scart_rgb.c:89-99 | on a black pixel, the colour just drawn reads back, as `byte & 7` for even x and as `(byte >> 3) & 7` for odd x |
| `Framebuffer.PackedByte` | scart_rgb.c:89-99 | a byte with bits 6 and 7 clear is the colour of its even pixel OR the colour of its odd pixel shifted by 3 |
| `Framebuffer.PlotClampLaw` | scart_rgb.c:76-84 | drawing at out-of-range coordinates gives the same frame as drawing at the clamped edge pixel |
| `Framebuffer.PlotIdempotent` | scart_rgb.c:94-98 | drawing a pixel twice in one colour gives the same frame as drawing it once |
| `Framebuffer.PlotCommutes` | scart_rgb.c:94-98 | two draws give the same frame in either order |
| `Framebuffer.PlotAll` | scart_rgb.c:72-100 | a sequence of in-bounds drawPixel calls, applied in order, yields a frame of TXCOUNT bytes |
| `Framebuffer.ColoursDrawnAt` | scart_rgb.c:92-99 | the OR of the 3-bit colours drawn at one pixel is a 3-bit value |
| `Framebuffer.PlotAllColours` | scart_rgb.c:92-99 | OR accumulation over any sequence of writes: each pixel ends as its old colour OR every colour drawn at it, so neither order nor repetition matters, and a second colour never replaces the first |
| `Framebuffer.NewFramebuffer` | scart_rgb.c:45-48 | the new buffer is fresh, has TXCOUNT bytes (the transfer count of the scanout channel) and is all black |
| `Framebuffer.DrawPixel` | scart_rgb.c:72-100 | the in-place store: it is in bounds exactly when y < RES_Y; then the new buffer is `Plot` of the old one; otherwise the buffer is unchanged |
| `Demo.DemoColour` | scart_rgb.c:206-244 | the pattern's colour of every on-screen pixel is a 3-bit value; the definition (RED for rows after 290, otherwise `(y / 60 + x / 40) % 8`) is the reference that `FillDemo` is proved against |
| `Demo.WrapsAreQuotient` | scart_rgb.c:220-239 | a counter that is zeroed when it reaches its period, after n > 0 increments, has been zeroed (n - 1) / period times |
| `Demo.CounterAfter` | scart_rgb.c:220-239 | after n increments from 0 of a counter zeroed whenever it stands at its period, n == period * wraps + counter, 0 <= counter <= period, and the counter is 0 only before the first increment |
| `Demo.CounterStep` | scart_rgb.c:220-239 | one "zero at the period, then increment" step takes the counter relation for n increments to the one for n + 1, adding a wrap exactly when the counter stood at the period |
| `Demo.StripedBefore` | scart_rgb.c:226-239 | the number of x-counter increments before pixel (x, y) never exceeds 320 * 291, the pixels of the striped rows 0..290, because the counter only moves in those rows |
| `Demo.StripedRowsJoin` | scart_rgb.c:212-239 | the x-counter is not reset per row: its count at the end of row y equals its count at the start of row y + 1 |
| `Demo.ExpectedCall` | scart_rgb.c:217-243 | the k-th drawPixel call is at an on-screen pixel with `RES_X * y + x == k`, and its store is in bounds |
| `Demo.ScanVisitsEachPixelOnce` | scart_rgb.c:217-227 | the k-th call is at (x, y) exactly when k == RES_X * y + x, so each pixel is drawn once |
| `Demo.StripeColour` | scart_rgb.c:217-240 | for a striped pixel, the colour index that the two counters advanced selects `colors[index] == DemoColour(x, y)` |
| `Demo.CallsExtend` | scart_rgb.c:226-243 | the next call keeps the calls made so far in row-major order |
| `Demo.DrawStep` | scart_rgb.c:226-240 | drawing (x, y) in its pattern colour moves the painted frontier on by one pixel and keeps bits 6 and 7 clear |
| `Demo.RowDone` | scart_rgb.c:217-243 | finishing row y is the same state as starting row y + 1 |
| `Demo.ColorsTable` | scart_rgb.c:208 | `colors[i] == i` for each of the eight entries |
| `Demo.FillDemo` | scart_rgb.c:206-244 | the example calls drawPixel 320 * 304 times, once per on-screen pixel, in row-major order and in its pattern colour, never out of bounds; every pixel's colour gains its pattern colour by OR; so from the black buffer each pixel shows exactly its pattern colour, and bits 6 and 7 stay clear |
| `Demo.DrawDemoRow` | scart_rgb.c:226-242 | the inner loop over one row keeps the counter, index, call-order and painted-frontier relations and finishes the row |
| `Demo.DemoScenario` | scart_rgb.c:206-244 | on the zero-initialised buffer, byte 0 is BLACK OR (BLACK << 3), the byte at the start of the second stripe is RED OR (RED << 3), and the last byte (bottom rows) is RED OR (RED << 3) |

## Left out

- DrawPixel: the store that the C code makes past the end of `s_framebuffer` for `y >= RES_Y` is not performed. Its effect on memory is undefined in C. The model reports it with `written == false` and leaves the buffer unchanged.
- Demo.DrawDemoRow: the inner `for` loop of the example is a separate method rather than a loop nested inside `FillDemo`, to keep each proof small. Behaviour and order are unchanged.
- The example's `uint` counters and the `int` arithmetic of `drawPixel` are unbounded integers in the model. No wrap-around can happen:
  - `index < 8`, `xcounter <= 40`, `ycounter <= 60`;
  - the pixel number is at most `320 * 304 + 319`, because the clamp comes before the multiplication.
- PIO program loading, the csync and rgb state machines, and their initial countdown values `RES_Y - 1` and `(RES_X >> 1) - 2` (scart_rgb.c:124-136, 185-192). These are hardware timing engines whose programs are not part of this model.
- DMA channel claiming and configuration, and the start of channel 1 (scart_rgb.c:143-177, 198). These are peripheral register semantics. The one fact kept is that channel 0's transfer count `TXCOUNT` equals the buffer length (`NewFramebuffer`).
- A three-descriptor border ring: this driver has none. Channel 0 streams the whole buffer, and channel 1 only rewrites channel 0's read address.
- Clock setup, `stdio_init_all`, the GPIO pin numbers and the final `while (true)` loop (scart_rgb.c:53-56, 106-109, 246-248): bring-up and non-termination.
- Concurrent scanout against writes (tearing). This is concurrency between the CPU and the DMA engine; the model is sequential.
- The "153.6 kBytes" figure in the header comment (scart_rgb.c:16) is stale. The buffer is `TXCOUNT` bytes.
