# micro3d integer rasterizer in Dafny

micro3d is a small software renderer. This project models its integer
rasterizer, which comes in two variants.

- **micro3d.h, `device_t`.** A frame buffer of `width * height` packed
  `unsigned int` colours. Pixel (x, y) lives at index `x + y * width`.
  - `pixel` is a bounds-checked write.
  - `line` is a Bresenham line. Its error term starts at
    `(dx > dy ? dx : -dy) >> 1`. Each iteration saves `err2 = err` and steps
    along x when `err2 > -dx` and along y when `err2 < dy`.
- **micro3d/win-main.cpp, the 32-bit DIB section.** The globals
  `g_windowWidth`, `g_windowHeight` and `g_pixels` describe the window's pixel
  memory. Each pixel takes four bytes: blue, green, red, then an unused 0.
  - `DrawPixel` is a bounds-checked write of those four bytes.
  - `ClearScreen` fills the whole memory with one colour.
  - `DrawLine` is a second Bresenham variant. Its error term starts at
    `dx - dy`. It steps along x when `2 * err > -dy` and along y when
    `2 * err < dx`. At every visited point it draws a 3x3 block of `DrawPixel`
    calls, so the line comes out three pixels wide.

Frame buffers are immutable values, and every operation returns the new
buffer:

- `Micro3d.Device` holds a width, a height and a `seq` of colours.
- `Dib.Surface` holds the window size and a `seq` of bytes.

The two Bresenham loops are written as methods that follow the C code
statement by statement. Each has a pure reference definition of the points it
visits:

- `Bresenham.Trace` and `Bresenham.LinePoints` for micro3d.h;
- `Win32Bresenham.Trace` and `Win32Bresenham.LinePoints` for win-main.cpp.

The `DrawLine` loop is proved to terminate on every input. The `line` loop is
proved to terminate on every input except a one-step diagonal, on which it
provably never ends (see "## Findings"; in C++ such a loop is undefined
behaviour, and in practice it hangs). Where they terminate, both loops are
proved to start at (x1, y1) and end at (x2, y2), to take unit steps toward the
endpoint, and to stay inside the bounding box. For `line`, a horizontal line
is proved to be one pixel per column, and a 45-degree line to be one pixel per
diagonal step. The drawing methods are proved to change
exactly the pixels on, or for `DrawLine` next to, those points.

Modules:

- `Plane`: points, row-major layout, the 32-bit range;
- `Micro3d`: `device_t`, `pixel`;
- `Bresenham`: the `line` loop as a step function, and the initial-error finding;
- `Micro3dLine`: the `line` method, and its corrected variant;
- `Win32Color`: the `COLORREF` channel macros;
- `Dib`: `DrawPixel`, `ClearScreen`;
- `Win32Bresenham`: the `DrawLine` step function;
- `Win32Line`: the `DrawLine` method.

The Win32 macros `GetRValue`, `GetGValue`, `GetBValue` and `RGB` come from
the Windows headers, which are not part of this model. They are modelled on
the documented `COLORREF` layout `0x00BBGGRR`, and that layout is an
assumption:

- `GetRValue(c) = c & 0xFF`;
- `GetGValue(c) = (c >> 8) & 0xFF`;
- `GetBValue(c) = (c >> 16) & 0xFF`.

`line` computes its initial error as `(dx > dy ? dx : -dy) >> 1`. On a signed
`int` the shift rounds toward minus infinity, so a steep line with odd `dy`
starts one lower than a truncating halving would. The model keeps the shift:
`Micro3dLine.Line` and `Bresenham.LinePoints` describe what the code plots, on
every input except the one-step diagonal, where it never stops (undefined
behaviour in C++; in practice a hang). The classic
Bresenham formulation halves with truncation, which starts (0,0)-(1,1) at
`err` 0 and plots (0,0), (1,1). `Micro3dLine.LineCorrected` and
`Bresenham.LinePointsCorrected` model that variant, which ends on every input.
The two plot the same points on x-major lines and on lines with even `dy`
(`Bresenham.CorrectedAgrees`). They can differ elsewhere: for (0,0)-(1,3),
compare `Bresenham.AsWrittenSteepOdd` with `Bresenham.CorrectedSteepOdd`.

## Model

| member | source | states |
|---|---|---|
| `Micro3d.Pixel` | micro3d.h:25-29 | Off the device, the device is unchanged. On the device, only cell `x + y * width` changes, and it becomes `clr`. In pixel terms, (x, y) reads `clr` and every other pixel keeps its colour. |
| `Micro3d.IndexInjective` | micro3d.h:27 | Two in-range pixels with the same index `x + y * width` are the same pixel, so a write at one pixel never touches another. |
| `Micro3d.PixelwiseEqual` | micro3d.h:19-27 | Two valid devices of the same size that agree on every in-range pixel are equal. The pixel view of the buffer loses nothing. |
| `Micro3d.Paint` | micro3d.h:39 | Plotting a point sequence through `pixel` gives `clr` to exactly the on-device pixels in the sequence. Every other pixel keeps its colour. |
| `Micro3d.PaintFrame` | micro3d.h:39 | A buffer cell that no on-device plotted point maps to is unchanged. |
| `Bresenham.Setup` | micro3d.h:32-35 | `dx` and `dy` are the absolute differences. `sx` and `sy` are ±1, and +1 exactly when the coordinate grows. Moving `dx` units from x1 in direction `sx` reaches x2, and likewise for y. |
| `Bresenham.InitialErrorAsWritten` | micro3d.h:36 | The initial error as the shift computes it: the floor of half of `dx` (x-major line) or of `-dy` (otherwise). |
| `Bresenham.InitialError` | micro3d.h:36 | The corrected initial error: half of `dx` or `-dy`, rounded toward zero. |
| `Bresenham.InitialErrorsDiffer` | micro3d.h:36 | The shift and the truncating division disagree exactly on lines with `dx <= dy` and odd `dy`. |
| `Bresenham.InitialErrorIsGood` | micro3d.h:36 | The truncating initial error lies in the range from which the loop lands on the endpoint. |
| `Bresenham.InitialErrorAsWrittenIsGood` | micro3d.h:36 | The shifted initial error lies in that range if and only if the line is not a one-step diagonal (`|Δx| == |Δy| == 1`). |
| `Bresenham.Step` | micro3d.h:41-49 | One pass of the loop body after the exit test, as a function of the loop state. It has no contract of its own; `Bresenham.StepPreserves` states what it does. |
| `Bresenham.StepPreserves` | micro3d.h:41-49 | One iteration keeps the loop invariant and moves x by 0 or `sx` and y by 0 or `sy`, and never stands still. It never passes the endpoint, always steps along the major axis, and strictly decreases the distance left. |
| `Bresenham.Trace` | micro3d.h:38-50 | The points plotted from a loop state. The loop terminates, and the sequence starts at the current point and ends at (x2, y2). |
| `Bresenham.TraceUnfold` | micro3d.h:38-50 | One iteration of the loop: plot the current point, then either stop at the endpoint or continue from the stepped state with the rest of the trace. |
| `Bresenham.TraceSteps` | micro3d.h:41-49 | Consecutive plotted points differ by one unit step in the directions `sx`, `sy`. |
| `Bresenham.TraceBetween` | micro3d.h:41-49 | Every plotted point lies in the box spanned by the current point and the endpoint. |
| `Bresenham.TraceLength` | micro3d.h:38-50 | The loop plots one point per remaining unit of the major axis, plus the current point. |
| `Bresenham.TraceHorizontal` | micro3d.h:41-49 | When `dy == 0`, the k-th plotted point is k units along x on the same row. |
| `Bresenham.TraceDiagonal` | micro3d.h:41-49 | When `dx == dy`, the k-th plotted point is k units along both axes. |
| `Bresenham.LineFrom` | micro3d.h:38-50 | For any initial error in the good range, the loop plots a sequence that starts at (x1, y1) and ends at (x2, y2), with exactly one point when the endpoints coincide. |
| `Bresenham.LinePoints` | micro3d.h:31-51 | The points `line` plots with the code's shifted initial error, on every input except the one-step diagonal. They start at (x1, y1) and end at (x2, y2), with exactly one point when the endpoints coincide. |
| `Bresenham.LinePointsCorrected` | micro3d.h:31-51 | The points of the corrected `line`, with the truncating initial error, on every input. They start at (x1, y1) and end at (x2, y2), with exactly one point when the endpoints coincide. |
| `Bresenham.LineFromSteps` | micro3d.h:41-49 | From any good initial error, consecutive points differ by 0 or `sx` in x and by 0 or `sy` in y, and are 8-adjacent. |
| `Bresenham.LineFromInBox` | micro3d.h:41-49 | From any good initial error, every point lies in the box spanned by the endpoints. |
| `Bresenham.LineFromLength` | micro3d.h:38-50 | From any good initial error, the loop plots `max(|Δx|, |Δy|) + 1` points. |
| `Bresenham.LineFromDiagonal` | micro3d.h:38-50 | From any good initial error, a 45-degree line plots exactly the diagonal, in order. |
| `Bresenham.LineSteps` | micro3d.h:41-49 | With the code's shift, consecutive points of a line differ by 0 or `sx` in x and by 0 or `sy` in y, and are 8-adjacent. |
| `Bresenham.LineInBox` | micro3d.h:42-49 | With the code's shift, x never leaves the closed interval between x1 and x2, and y never leaves the one between y1 and y2. |
| `Bresenham.LineLength` | micro3d.h:38-50 | With the code's shift, a line plots `max(|x2 - x1|, |y2 - y1|) + 1` points. |
| `Bresenham.LineHorizontal` | micro3d.h:38-50 | With the code's shift, a horizontal line plots every pixel from x1 to x2 on its row, in order, and nothing else. |
| `Bresenham.LineDiagonal` | micro3d.h:38-50 | With the code's shift, every 45-degree line with `|Δx| == |Δy| != 1` plots exactly the diagonal from (x1, y1) to (x2, y2), in order. |
| `Bresenham.CorrectedLine` | micro3d.h:31-51 | The corrected `line` ends on every input, the one-step diagonal included. Its points are 8-adjacent, stay in the endpoints' box, number `max(|Δx|, |Δy|) + 1`, and form the diagonal for a 45-degree line. |
| `Bresenham.CorrectedAgrees` | micro3d.h:36-50 | On x-major lines and lines with even `|Δy|`, the code's line and the corrected line plot the same points. |
| `Bresenham.AsWrittenSteepOdd` | micro3d.h:36-50 | With the code's shift, (0,0)-(1,3) plots (0,0), (0,1), (0,2), (1,3). |
| `Bresenham.CorrectedSteepOdd` | micro3d.h:36-50 | With truncation, (0,0)-(1,3) plots (0,0), (0,1), (1,2), (1,3). |
| `Bresenham.Iterate` | micro3d.h:38-50 | The loop state after n passes of the loop body, with the exit test left out. It has no contract of its own; the two lemmas below use it. |
| `Bresenham.AsWrittenUnitDiagonalOrbit` | micro3d.h:36-50 | With the shift as written, a line with `|Δx| == |Δy| == 1` is 0 units along x and 1 along y after the first iteration. After n iterations it is n - 1 along x and n along y. |
| `Bresenham.AsWrittenUnitDiagonalNeverEnds` | micro3d.h:36-50 | With the shift as written, a line with `|Δx| == |Δy| == 1` never reaches its endpoint, so the loop does not terminate. |
| `Micro3dLine.Line` | micro3d.h:31-51 | `line` as written, on every input except the one-step diagonal, where it never returns. Every on-device pixel on `LinePoints(x1, y1, x2, y2)` gets `clr`, and every other pixel keeps its colour. |
| `Micro3dLine.LineCorrected` | micro3d.h:31-51 | `line` with the truncating initial error, on every input. Every on-device pixel on `LinePointsCorrected(x1, y1, x2, y2)` gets `clr`, and every other pixel keeps its colour. |
| `Micro3dLine.Truncated` | micro3d.h:36 | The corrected halving: C's `/ 2` of `dx` or `-dy` rounds toward zero, which gives `Bresenham.InitialError`. |
| `Micro3dLine.Constants` | micro3d.h:32-36 | The set-up before the loop computes the loop constants of `Bresenham.Setup`, with the initial error `Bresenham.InitialErrorAsWritten`. |
| `Micro3dLine.Plot` | micro3d.h:38-50 | The `while (1)` loop plots, through `pixel`, exactly the trace of its starting state, in order. |
| `Micro3dLine.Advance` | micro3d.h:41-49 | The two error tests of the loop body. Its ensures only say that it computes `Bresenham.Step`; `Bresenham.StepPreserves` gives that its meaning. |
| `Win32Color.GetRValue` | micro3d/win-main.cpp:145 | The red channel: the low byte of the `COLORREF`. No contract of its own; see `ChannelsOfRGB`. |
| `Win32Color.GetGValue` | micro3d/win-main.cpp:144 | The green channel: the second byte. No contract of its own; see `ChannelsOfRGB`. |
| `Win32Color.GetBValue` | micro3d/win-main.cpp:143 | The blue channel: the third byte. No contract of its own; see `ChannelsOfRGB`. |
| `Win32Color.RGB` | micro3d/win-main.cpp:112 | The Win32 header macro that callers use to build the `COLORREF` the core unpacks, as in `ClearScreen(RGB(240, 240, 240))`. It packs three channels as `0x00BBGGRR`, so the result has no high byte. |
| `Win32Color.Bgra` | micro3d/win-main.cpp:143-146 | The four bytes written for one pixel, in memory order: blue, green, red, 0. |
| `Win32Color.ChannelsOfRGB` | micro3d/win-main.cpp:143-145 | `GetRValue`, `GetGValue` and `GetBValue` read back the channels that `RGB` packed. |
| `Win32Color.RGBOfChannels` | micro3d/win-main.cpp:189-191 | A colour with no high byte is the `RGB` of its three channels. |
| `Win32Color.HighByteIgnored` | micro3d/win-main.cpp:189-191 | The channel macros ignore the high byte of a `COLORREF`. |
| `Dib.OffsetsApart` | micro3d/win-main.cpp:139-140 | The four bytes of two distinct on-window pixels do not overlap. |
| `Dib.PixelwiseEqual` | micro3d/win-main.cpp:139-146 | Two valid surfaces of the same size whose pixels agree are equal. |
| `Dib.DrawPixel` | micro3d/win-main.cpp:133-147 | Off the window, nothing is written. On the window, bytes `4 * (y * width + x)` to `+ 3` become blue, green, red and 0. The bytes before and after them are unchanged. |
| `Dib.DrawnPixel` | micro3d/win-main.cpp:133-147 | In pixel terms, an on-window (x, y) gets `color` and every other pixel keeps its four bytes. |
| `Dib.DrawPixels` | micro3d/win-main.cpp:165 | `DrawPixel` applied to a point sequence in order. Its contract only keeps the surface valid; `Dib.DrawnPixels` states its effect. |
| `Dib.DrawnPixels` | micro3d/win-main.cpp:165 | Drawing a point sequence through `DrawPixel` gives `color` to exactly the on-window pixels in the sequence. Every other pixel keeps its bytes. |
| `Dib.DrawPixelsAppend` | micro3d/win-main.cpp:158-183 | Drawing one point sequence and then another is the same as drawing their concatenation. |
| `Dib.Repeat` | micro3d/win-main.cpp:197-205 | The bytes the clear loop lays down: four per pixel. |
| `Dib.RepeatAt` | micro3d/win-main.cpp:197-205 | Byte k of the repeated pattern is byte `k % 4` of one pixel's blue, green, red, 0. |
| `Dib.PatternPixels` | micro3d/win-main.cpp:197-205 | If every byte k holds byte `k % 4` of the pattern, then every pixel shows `color`. |
| `Dib.FilledIsDrawnAll` | micro3d/win-main.cpp:133-147 | A surface whose every pixel shows `color` is what `DrawPixel` at every pixel of the window produces. |
| `Dib.ClearScreen` | micro3d/win-main.cpp:187-206 | Afterwards, for every i below `width * height`, bytes `4i` to `4i + 3` hold blue, green, red and 0 of `color`. Every pixel shows `color` whatever it held, and the result equals drawing every pixel with `DrawPixel`. |
| `Win32Bresenham.Setup` | micro3d/win-main.cpp:152-156 | `dx` and `dy` are the absolute differences and `sx`, `sy` are ±1 toward the endpoint. `err` starts at `dx - dy`. |
| `Win32Bresenham.Step` | micro3d/win-main.cpp:172-182 | One pass of the loop body after the exit test. It has no contract of its own; `Win32Bresenham.StepPreserves` states what it does. |
| `Win32Bresenham.StepPreserves` | micro3d/win-main.cpp:172-182 | One iteration keeps the invariant and moves x by 0 or `sx` and y by 0 or `sy`, never standing still. It never passes the endpoint, steps along the major axis every time, and decreases the distance left. |
| `Win32Bresenham.Trace` | micro3d/win-main.cpp:158-183 | The stamp centres visited from a loop state. The loop terminates, and the sequence starts at the current point and ends at (x2, y2). |
| `Win32Bresenham.TraceUnfold` | micro3d/win-main.cpp:158-183 | One iteration of the loop: stamp the current point, then either stop at the endpoint or continue from the stepped state. |
| `Win32Bresenham.TraceSteps` | micro3d/win-main.cpp:172-182 | Consecutive centres differ by one unit step in the directions `sx`, `sy`. |
| `Win32Bresenham.TraceBetween` | micro3d/win-main.cpp:172-182 | Every centre lies in the box spanned by the current point and the endpoint. |
| `Win32Bresenham.TraceLength` | micro3d/win-main.cpp:158-183 | One centre per remaining unit of the major axis, plus the current point. |
| `Win32Bresenham.LinePoints` | micro3d/win-main.cpp:150-184 | The centres start at (x1, y1) and end at (x2, y2). There is exactly one centre, so one stamp, when the endpoints coincide. |
| `Win32Bresenham.LineSteps` | micro3d/win-main.cpp:172-182 | Consecutive centres differ by 0 or `sx` in x and by 0 or `sy` in y, and are 8-adjacent. |
| `Win32Bresenham.LineInBox` | micro3d/win-main.cpp:172-182 | Centres stay between x1 and x2, and between y1 and y2. |
| `Win32Bresenham.LineLength` | micro3d/win-main.cpp:158-183 | There are `max(|x2 - x1|, |y2 - y1|) + 1` centres. |
| `Win32Line.BlockAt` | micro3d/win-main.cpp:161-167 | Iteration (i, j) of the two nested `for` loops draws pixel (x1 + i, y1 + j). |
| `Win32Line.BlockCovers` | micro3d/win-main.cpp:161-167 | The 3x3 stamp covers exactly the pixels within one unit of its centre on both axes. |
| `Win32Line.Thicken` | micro3d/win-main.cpp:158-170 | A pixel is drawn by some stamp along a sequence of centres exactly when it is within one unit of some centre on both axes. |
| `Win32Line.StampedIsDrawn` | micro3d/win-main.cpp:161-167 | Drawing the first k pixels of the stamp one `DrawPixel` at a time gives the same surface as drawing the first k entries of the block. |
| `Win32Line.Stamp` | micro3d/win-main.cpp:161-167 | The nested loops apply `DrawPixel` to the nine pixels of the block, x offset outer and y offset inner. |
| `Win32Line.Sweep` | micro3d/win-main.cpp:158-183 | The `while (true)` loop stamps exactly the blocks around the trace of its starting state, in order. |
| `Win32Line.Constants` | micro3d/win-main.cpp:152-156 | The set-up before the loop computes the loop constants of `Win32Bresenham.Setup`: absolute differences, directions toward the endpoint and `err = dx - dy`. |
| `Win32Line.ThickDrawn` | micro3d/win-main.cpp:158-183 | Stamping along a sequence of centres gives `color` to exactly the on-window pixels within one unit of a centre on both axes. Every other pixel keeps its bytes. |
| `Win32Line.DrawLine` | micro3d/win-main.cpp:150-184 | Every on-window pixel within one unit, on both axes, of a point of `LinePoints(x1, y1, x2, y2)` gets `color`. Every other pixel keeps its bytes. |
| `Win32Line.Advance` | micro3d/win-main.cpp:172-182 | The two tests on `e2`. Its ensures only say that it computes `Win32Bresenham.Step`; `Win32Bresenham.StepPreserves` gives that its meaning. |
| `Win32Line.WideCoversThin` | micro3d/win-main.cpp:158-170 | Every centre of the line, the two endpoints included, is itself drawn. |
| `Win32Line.WideInBox` | micro3d/win-main.cpp:158-183 | Every drawn pixel lies, on each axis, between the endpoints or within one unit of one of them. |

## Left out

- `edge_function`, `triangle_bbox`, `triangle` and `render3d` (micro3d.h:54-133) work in floating point, with `fminf`, `fmaxf` and float-to-int casts. Floating point is outside this model.
- `lookAt` (micro3d.h:116-118) has an empty body, so there is no behaviour to model.
- micro3d.c does not compile, because `color_t` is declared as a variable rather than a type (micro3d.c:18-26). Its `pixel` (micro3d.c:34-38) has the same bounds check as micro3d.h but indexes a `[WIDTH][HEIGHT]` array column-major (micro3d.c:31, 36). Its `line`, `triangle` and `lookAt` are empty (micro3d.c:40-50). The model ignores it.
- `WinMain`, `WindowProc` and `Render` in win-main.cpp are window and message-loop plumbing, DIB allocation, timing, `sin`/`cos` animation and text output. None of this is modelled. Their effect on the model is the window size and pixel memory, which become the fields of `Dib.Surface`.
- micro3d/winmain.cpp draws through GDI calls (`SetPixel`, `BitBlt`, text). Its inline Bresenham loop is the same algorithm as `DrawLine`, so `Win32Bresenham` covers it.
- The C code changes its buffers in place through pointers. The model passes buffers as immutable values and returns the new buffer. That is the same observable effect for a single-threaded caller.
- 32-bit `int` overflow is not modelled; the integers are unbounded. `Micro3dLine.Line` asks for `Plane.LineFits`: the endpoints and `|Δx| + |Δy|` fit in an `int`. `Win32Line.DrawLine` asks for `Plane.ThickLineFits`: the endpoints' one-pixel neighbours and twice `|Δx| + |Δy|` fit as well. `Device.Valid` and `Surface.Valid` do not bound `width * height`. Nothing proves that the intermediate error values stay inside the 32-bit range.
- `Micro3dLine.Line` has no result on a one-step diagonal (`|Δx| == |Δy| == 1`), because the code's loop never ends there. A method in the model must terminate, so `Line` requires `!UnitDiagonal`. The non-termination itself is stated by `Bresenham.AsWrittenUnitDiagonalNeverEnds`. See "## Findings".

## Findings

| source | as written | input that shows it | evidently intended | confidence | as-written member | corrected member |
|---|---|---|---|---|---|---|
| micro3d.h:36 | `err = (dx > dy ? dx : -dy) >> 1`. For a y-major line the shift rounds `-dy` toward minus infinity, so for `dx == dy == 1` the error starts at -1 == `-dx`. The first iteration then steps only along y, and every later iteration steps diagonally, one column behind. The loop never meets (x2, y2); in C++ a loop without side effects that never ends is undefined behaviour, and in practice it hangs. | `line(device, 0, 0, 1, 1, clr)` visits (0,0), (0,1), (1,2), (2,3), … and never exits. | A truncating halving `/ 2`, as in the classic Bresenham formulation. It starts the error at 0 and plots (0,0), (1,1). `Micro3dLine.LineCorrected` draws with it. | not executed | `Bresenham.AsWrittenUnitDiagonalNeverEnds` | `Bresenham.CorrectedLine` |
