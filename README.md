# image2svg: a verified model of the hatching converter

`image2svg.py` turns a grayscale image into a laser-engraving drawing. It reduces every
pixel to one of six shades. It then scans the rows for horizontal strokes and the
columns for vertical strokes. A stroke is drawn for each run of equal pixels whose shade
the hatching rule accepts on that line. Every stroke becomes one SVG `<line>` and one
G-code burn. The burn is preceded by a rapid move exactly when the stroke's (along,
across) pair differs from the cursor `(last_c, last_d)`. Within the rows pass, that is
exactly when the tool is not already at the stroke's start
(`Emitter.HorizontalPassFromTool`). At the switch to the columns pass it is not, as
described below.
Scan lines alternate direction: the line is flipped whenever an odd number of earlier
lines drew something, which gives a serpentine tool path.

The model, module by module:

- `Shades`: the quantizer applied with `Image.eval` (thresholds 0, 50, 100, 158, 212,
  240; the top band becomes 255).
- `Hatching`: the rules `needLineX` and `needLineY` and the table of shades they hatch by
  line period.
- `Gcode`: the clamp of `MOVE_TO`/`BURN_TO`, the stroke colour bucket `(val // 42) * 42`,
  the power or speed level index, and the move and burn instructions.
- `Runs`: the run detector of `generateVectors` as a pure function `Evaluated` from a
  line to the segments it tests, in order.
- `Raster`: quantizing the whole image and `np.swapaxes`.
- `Emitter`: what a conversion emits, as functions of the image. `Stroke` is `svgPrint`,
  `EmitLine` is one scan line, `PassFrom`/`Pass` is `generateVectors` and `Drive` is the
  two passes of `main`. The lemmas about the whole output live here.
- `Plotting`: the converter as the program runs it. Class `Plotter` holds the global
  cursor `last_a..last_d` and the two output streams as fields. Its methods `SvgPrint`,
  `GenerateVectors` (with the per-line loop in `ScanLine`) and `Convert` update them in
  place with the source's loops. Each is proved to leave exactly the state `Emitter`
  describes.
- `Scenarios`: three small images worked through both passes.

Coordinates are pixel integers in the cursor and the SVG records. The G-code records
carry millimetres, `pixel * 25.4 / 200` as exact reals, after the clamp.
`Gcode.PixelsUnclamped` shows the clamp never changes a pixel coordinate and the scale
is injective. So comparing the cursor in pixels is the same as the source's comparison
in millimetres.

Behaviours of the code that are easy to misread, which the model keeps:

- The header comment of `image2svg.py` (lines 13-15) says vectors go left to right, then
  right to left every other line. The code flips a line only after a line on which
  something was drawn (lines 166-167 and 180-181), so blank lines do not alternate the
  direction. `Emitter.InvertParity` proves the real rule: line k is scanned flipped
  exactly when an odd number of earlier lines had a drawn pixel.
- The last segment of a line is `[firstEndpoint, len - 1]`, not `[firstEndpoint, len]`.
  Its length can be zero, and the segment lengths of a line add up to `len - 1`
  (`Runs.EvaluatedCovered`). After mirroring, the last stroke stops one pixel short of
  the edge where the scan ends: at `len - 1` on a plain line and at 1 on a flipped one,
  although the edge pixel has the run's shade (`Emitter.FinalStrokeShort`).
- A line with no pixels is not skipped: the source reads `row[index]` with `index`
  unbound and fails. The model requires every line to be non-empty.
- At the switch from the rows pass to the columns pass, the cursor comparison is made on
  axis-local pairs (along, across). The cursor still holds (x, y) of the last horizontal
  stroke, and the first vertical stroke compares its (y, x) with it. This goes wrong in
  two ways, and `Emitter.AxisSwitch` states both exactly:
  - A vertical stroke whose pair equals the cursor gets no move. Unless `last_c == last_d`,
    the tool is not at its start, so the burn starts from where the tool is, not from the
    stroke's start (`Scenarios.CursorCarriesAcrossPasses`, where the burn is diagonal).
  - A vertical stroke whose swapped pair equals the cursor gets a move, unless
    `last_c == last_d`. That move goes to where the tool already is
    (`Scenarios.RedundantMoveAtSwitch`).

  Within the rows pass neither can happen: `Emitter.HorizontalPassFromTool` proves that
  every burn of the rows pass runs from the start to the end of its own SVG line.

## Model

| member | source | states |
|---|---|---|
| Shades.Quantize | image2svg.py:204-208 | the result is one of 0, 50, 100, 158, 212, 255; it is 255 exactly for pixels from 240 up; below that it is the brightest level not above the pixel |
| Shades.QuantizeMonotone | image2svg.py:204-208 | a brighter pixel never quantizes to a darker shade |
| Shades.QuantizeIdempotent | image2svg.py:204-208 | quantizing twice equals quantizing once; the six shades are exactly the fixed points |
| Hatching.NeedLineX | image2svg.py:103-111 | the body is the three branches of needLineX in order; its contract says it draws only on even lines and never a shade above 212; HatchTable, OddLinesBlank and HorizontalDownwardClosed state the rest |
| Hatching.NeedLineY | image2svg.py:113-123 | the body is the four branches of needLineY in order; its contract says it draws only on lines = 0 mod 4 and only shades above 0 and at most 158; HatchTable, WhiteAndBlack and VerticalImpliesHorizontal state the rest |
| Hatching.HatchTable | image2svg.py:103-123 | on quantized shades, needLineX draws {0,50,100,158,212} on lines = 0 mod 8, {0,50,100} on lines = 4 mod 8, {0} on lines = 2 mod 4 and nothing else; needLineY draws {50,158} on lines = 0 mod 8, {50} on lines = 4 mod 8 and nothing else |
| Hatching.OddLinesBlank | image2svg.py:103-123 | neither rule draws anything on an odd line |
| Hatching.WhiteAndBlack | image2svg.py:103-123 | neither rule draws 255, and needLineY never draws 0 |
| Hatching.VerticalImpliesHorizontal | image2svg.py:103-123 | whatever needLineY draws on a line, needLineX draws on the line of the same index |
| Hatching.HorizontalDownwardClosed | image2svg.py:103-111 | if needLineX draws a shade on a line it draws every darker shade there |
| Gcode.Clamp | image2svg.py:84-99 | a coordinate below 0.001 is written as 0, every other coordinate is written unchanged, so a written coordinate is 0 or at least 0.001 |
| Gcode.MoveTo | image2svg.py:84-89 | a rapid move whose coordinates below 0.001 are written as 0 and whose other coordinates are written unchanged |
| Gcode.BurnTo | image2svg.py:91-99 | a burn at the given level whose coordinates below 0.001 are written as 0 and whose other coordinates are written unchanged |
| Gcode.PixelsUnclamped | image2svg.py:84-99 | the clamp never alters a pixel position in millimetres, and distinct pixels stay distinct after scaling |
| Gcode.StrokeColor | image2svg.py:126-127 | the colour is a multiple of 42, at most the shade and less than 42 below it |
| Gcode.StrokeColorIdempotent | image2svg.py:126-127 | bucketing a colour again changes nothing, and bucketing keeps the order of shades |
| Gcode.Level | image2svg.py:137-140 | the power level (255 - c) // 42 and the speed level c // 42 are both in 0..6 |
| Gcode.LevelOrder | image2svg.py:126-140 | as the shade gets lighter the power level never grows and the speed level never shrinks |
| Runs.Scan | image2svg.py:170-177 | the segments evaluated from a position start at the pending endpoint and end with the segment closed at len - 1 with the last pixel's shade |
| Runs.Evaluated | image2svg.py:164-177 | the segments one scan line is tested with: the first starts at 0 and the last ends at len - 1 with the last pixel's shade; EvaluatedAreRuns and RunsDetermineEvaluated characterise the whole list |
| Runs.EvaluatedAreRuns | image2svg.py:164-177 | the first segment starts at 0, each later one starts where the previous one ends, each segment closed by a change is a non-empty run of its shade followed by a different pixel, and the last is [s, len - 1] with every pixel from s on equal to the last |
| Runs.RunsDetermineEvaluated | image2svg.py:164-177 | any list of segments with those properties is the evaluated list, so they characterise it |
| Runs.ConstantLineOnce | image2svg.py:170-177 | a line of one shade is evaluated once, as [0, len - 1] |
| Runs.EvaluatedCount | image2svg.py:170-177 | a line is evaluated once more than the number of positions whose pixel differs from the previous one |
| Runs.EvaluatedCovered | image2svg.py:170-177 | the segment lengths of a line add up to len - 1 |
| Runs.DrawnIffInk | image2svg.py:170-181 | some segment of a line is drawn if and only if some pixel of the line has a shade the rule draws on that line |
| Runs.Reverse | image2svg.py:166-167 | the flipped line has the same length and pixel i is pixel len - 1 - i of the original |
| Runs.ReverseInk | image2svg.py:166-167 | flipping a line does not change whether it has a drawn pixel |
| Raster.QuantizeGrid | image2svg.py:204-208 | the quantized image has the same shape and each pixel is the quantized pixel |
| Raster.Transpose | image2svg.py:236 | line j of the swapped image is column j of the image |
| Raster.TransposeTwice | image2svg.py:236 | swapping the axes twice gives the image back |
| Emitter.Stroke | image2svg.py:125-156 | one stroke appends exactly one SVG line, whose endpoints are the start and stop mirrored as axisDimension - i on inverted lines and whose colour is the bucketed shade; then one or two instructions: a burn to the mirrored stop at the level of that colour, preceded by a move to the mirrored start exactly when the start and the line index differ from (last_c, last_d), with the y pass swapping each pair; the cursor (last_a, last_b, last_c, last_d) becomes the mirrored start, the line index, the mirrored stop and the line index |
| Emitter.EmitLine | image2svg.py:170-177 | the strokes of one line only append to both streams, and the SVG stream grows exactly when some segment passes the draw rule |
| Emitter.InvertAt | image2svg.py:160-181 | no contract of its own; the flag is false before line 0 and toggles after each line on which some segment is drawn; InvertToggles and InvertParity state its properties, PassUsesInvertAt ties it to the pass |
| Emitter.PassFrom | image2svg.py:159-181 | no contract of its own; the loop of generateVectors from line k with the flag reached there: flip the line when the flag is set, emit its strokes, toggle the flag when something was drawn; PassFromExtends, PassFromTool and InvertParity state its properties |
| Emitter.Pass | image2svg.py:159-181 | no contract of its own; generateVectors: PassFrom from line 0 with the flag false |
| Emitter.HorizontalPass | image2svg.py:232-233 | no contract of its own; the first pass of main: the quantized rows with needLineX and the image width; HorizontalPassFromTool states its properties |
| Emitter.VerticalPass | image2svg.py:235-237 | no contract of its own; the second pass of main: the columns of the quantized image with needLineY and the image height |
| Emitter.Drive | image2svg.py:232-237 | no contract of its own; the two passes in order, the second starting from the state the first leaves; DriveBalanced, DriveOrder and AllWhiteDrawsNothing state its properties |
| Emitter.EmitLineCount | image2svg.py:170-177 | a scan line adds exactly one SVG line per segment that passes the draw rule |
| Emitter.PassUsesInvertAt | image2svg.py:160-181 | a pass starts with the flag false and scans every line k with the flag InvertAt(k) |
| Emitter.InvertToggles | image2svg.py:163-181 | the flag toggles after a line exactly when the line has a pixel the rule draws, so a line with nothing drawn leaves it unchanged |
| Emitter.InvertParity | image2svg.py:160-181 | line k is scanned flipped exactly when an odd number of earlier lines had a drawn pixel |
| Emitter.StrokeCoversRun | image2svg.py:125-177 | on a line scanned in either direction, the mirrored stroke of a closed segment spans exactly pixels of the unflipped line that have the segment's shade, and its length is the segment's length |
| Emitter.FinalStrokeShort | image2svg.py:125-178 | on a line scanned in either direction, the stroke of the last segment spans pixels of the unflipped line with the segment's shade, and its length is the segment's length; it ends at len - 1 on a plain line and starts at 1 on a flipped one, although pixel len - 1 (plain) or pixel 0 (flipped) has the same shade |
| Emitter.PassFromExtends | image2svg.py:159-181 | a pass only appends to the SVG and G-code streams |
| Emitter.DriveBalanced | image2svg.py:125-156 | a whole conversion emits exactly one burn per SVG line, and every move is immediately followed by a burn |
| Emitter.DriveOrder | image2svg.py:232-237 | the SVG output is the earlier output, then the horizontal strokes of the rows pass, then the vertical strokes of the columns pass |
| Emitter.StrokeFromTool | image2svg.py:141-152 | when the cursor names the tool position, the burn of a stroke starts at the stroke's start point, and afterwards the cursor names the tool position again |
| Emitter.HorizontalPassFromTool | image2svg.py:141-156 | in the rows pass from the origin there is one burn per SVG line, and burn number i runs from the start point of SVG line i (the tool is there just before it) to its end point |
| Emitter.StrokeTraced | image2svg.py:141-156 | when the cursor names the tool position and every earlier burn runs along its own SVG line, the new burn also runs from its SVG line's start to its end |
| Emitter.AxisSwitch | image2svg.py:141-152 | for a vertical stroke made while the cursor still names the tool in the rows' orientation: no move is emitted and the tool is off the stroke's start exactly when the stroke's (along, across) pair equals the cursor and last_c != last_d; a move is emitted to where the tool already is exactly when the swapped pair equals the cursor and last_c != last_d |
| Emitter.AllWhiteDrawsNothing | image2svg.py:159-181 | an image whose pixels are all 240 or brighter emits nothing |
| Plotting.Plotter.constructor | image2svg.py:78-81 | the converter starts with empty output and the cursor at (0, 0) |
| Plotting.Plotter.SvgPrint | image2svg.py:125-156 | the new state of the streams and cursor is the old state after Stroke |
| Plotting.Plotter.ScanLine | image2svg.py:163-178 | the loop over one line appends exactly EmitLine of its evaluated segments, and reports whether something was drawn |
| Plotting.Plotter.GenerateVectors | image2svg.py:159-181 | the new state is the old state after Pass over the image |
| Plotting.Plotter.Convert | image2svg.py:204-237 | the new state is the old state after the quantized rows pass with needLineX, then the columns pass of the swapped image with needLineY |
| Scenarios.BlackThenWhite | image2svg.py:125-177 | the row [0, 0, 255] is evaluated as [0, 2] black and the zero-length [2, 2] white; the conversion writes one SVG line and a single burn at full power with no move, since the stroke starts at the origin |
| Scenarios.CursorCarriesAcrossPasses | image2svg.py:141-152 | on the image [[255, 50], [50, 255]] the first vertical stroke gets no move because its axis-local start equals the cursor left by the rows pass, so the program burns from (0.127, 0) to (0, 0.127) |
| Scenarios.RedundantMoveAtSwitch | image2svg.py:141-152 | on the image [[0, 0, 0, 0, 50], [255, 255, 255, 255, 255]] the rows pass leaves the tool at (0.508, 0); the one vertical stroke's pair (0, 4) differs from the cursor (4, 0), so a move is emitted, to (0.508, 0), where the tool already is |

## Left out

- Loading the image with PIL, the grayscale conversion, `FLIP_TOP_BOTTOM`, the DPI lookup and the antialiasing resize: library calls and float resampling. `Plotting.Plotter.Convert` starts from the resized pixel grid.
- Creating and writing the two files, the SVG header, footer and group element, and the G-code header and footer: fixed text and I/O. The output is a sequence of records, not text.
- The `%.3f` formatting of G-code numbers and the products with `POWER_STEP`, `SPEED_STEP` and `FEED_SPEED`: a burn carries its level index 0..6 instead of the scaled float value.
- `PIXEL_SIZE` is the exact ratio 25.4 / 200. The program's float `1 / (200.0 / 25.4)` and float products may differ in the last bits. Float rounding is not modelled.
- The SVG colour style string: an SVG line carries the colour value itself.
- Command-line parsing and exception handling: plumbing.
- Plotting.Plotter.GenerateVectors: the per-line loop body is a separate method, `ScanLine`. `np.flipud` is the pure function `Runs.Reverse`, not a copy made by a loop.
