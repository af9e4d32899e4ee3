/** The converter as the program runs it: the output streams and the cursor
    last_a..last_d are state that svgPrint updates in place, generateVectors scans the
    image line by line, and main runs the two passes. Each method is proved to leave
    exactly the state the functions of Emitter describe. */
module Plotting {
  import opened Shades
  import opened Hatching
  import opened Gcode
  import opened Runs
  import opened Raster
  import opened Emitter

  class Plotter {
    /** S_OR_F: whether burns modulate power or speed. */
    const mode: Mode
    /** The <line> elements written to the SVG file so far. */
    var svg: seq<SvgLine>
    /** The G-code moves and burns written so far. */
    var gcode: seq<Instr>
    /** The cursor: start (a, b) and end (c, d) of the last stroke, in pixels. */
    var lastA: int
    var lastB: int
    var lastC: int
    var lastD: int

    /** The state of the converter as a value. */
    function State(): Trace
      reads this
    {
      Trace(svg, gcode, lastA, lastB, lastC, lastD)
    }

    /** Nothing written yet, cursor at the origin. */
    constructor (mode: Mode)
      ensures this.mode == mode && State() == ORIGIN
    {
      this.mode := mode;
      svg, gcode := [], [];
      lastA, lastB, lastC, lastD := 0, 0, 0, 0;
    }

    /** svgPrint: writes the stroke from `start` to `stop` on line `rowNum`. */
    method SvgPrint(start: int, stop: int, rowNum: nat, invert: bool, axes: Axes, axisDim: int, val: Gray)
      modifies this
      ensures State() == Stroke(old(State()), mode, start, stop, rowNum, invert, axes, axisDim, val)
    {
      var color := StrokeColor(val);
      var a := Mirror(start, invert, axisDim);
      var c := Mirror(stop, invert, axisDim);
      svg := svg + [Record(axes, a, c, rowNum, color)];
      var level := Level(mode, color);
      var b, d := rowNum, rowNum;
      var travel: seq<Instr> := [];
      match axes {
        case AlongX =>
          if a != lastC || b != lastD {
            travel := [MoveTo(Physical(a), Physical(b))];
          }
          gcode := gcode + travel + [BurnTo(Physical(c), Physical(d), level)];
        case AlongY =>
          if a != lastC || b != lastD {
            travel := [MoveTo(Physical(b), Physical(a))];
          }
          gcode := gcode + travel + [BurnTo(Physical(d), Physical(c), level)];
      }
      lastA, lastB, lastC, lastD := a, b, c, d;
    }

    /** generateVectors: the serpentine scan of every line of `img`. */
    method GenerateVectors(img: seq<seq<Gray>>, needLine: (int, nat) -> bool, axes: Axes, axisDim: int)
      requires NonEmptyRows(img)
      modifies this
      ensures State() == Pass(old(State()), mode, img, needLine, axes, axisDim)
    {
      ghost var goal := Pass(State(), mode, img, needLine, axes, axisDim);
      var invert := false;
      for rowIndex := 0 to |img|
        invariant PassFrom(State(), mode, img, needLine, axes, axisDim, rowIndex, invert) == goal
      {
        var row := img[rowIndex];
        if invert {
          row := Reverse(row);
        }
        assert row == Oriented(img[rowIndex], invert);
        PassStep(State(), mode, img, needLine, axes, axisDim, rowIndex, invert);
        var rowDrawn := ScanLine(row, rowIndex, invert, needLine, axes, axisDim);
        if rowDrawn {
          invert := !invert;
        }
      }
    }

    /** The body of generateVectors for one line (already flipped when `invert` is set):
        every segment the scan closes is tested with the draw rule and printed when it
        passes; reports whether anything was printed. */
    method ScanLine(row: seq<Gray>, rowIndex: nat, invert: bool, needLine: (int, nat) -> bool,
                    axes: Axes, axisDim: int) returns (rowDrawn: bool)
      requires |row| > 0
      modifies this
      ensures State() == EmitLine(old(State()), mode, needLine, rowIndex, invert, axes, axisDim, Evaluated(row))
      ensures rowDrawn == AnyDrawn(Evaluated(row), needLine, rowIndex)
    {
      rowDrawn := false;
      var firstEndpoint := 0;
      for index := 1 to |row|
        invariant 0 <= firstEndpoint < index
        invariant EmitLine(State(), mode, needLine, rowIndex, invert, axes, axisDim, Scan(row, firstEndpoint, index))
                  == EmitLine(old(State()), mode, needLine, rowIndex, invert, axes, axisDim, Evaluated(row))
        invariant (rowDrawn || AnyDrawn(Scan(row, firstEndpoint, index), needLine, rowIndex))
                  == AnyDrawn(Evaluated(row), needLine, rowIndex)
      {
        ScanStep(State(), mode, needLine, rowIndex, invert, axes, axisDim, row, firstEndpoint, index);
        if row[index] != row[index - 1] {
          if needLine(row[index - 1], rowIndex) {
            SvgPrint(firstEndpoint, index, rowIndex, invert, axes, axisDim, row[index - 1]);
            rowDrawn := true;
          }
          firstEndpoint := index;
        }
      }
      var index := |row| - 1;
      ScanLast(State(), mode, needLine, rowIndex, invert, axes, axisDim, row, firstEndpoint);
      if needLine(row[index], rowIndex) {
        SvgPrint(firstEndpoint, index, rowIndex, invert, axes, axisDim, row[index]);
        rowDrawn := true;
      }
    }

    /** The two passes of main over an image already loaded and resized: quantize, scan
        the rows for horizontal strokes, then the columns for vertical ones. */
    method Convert(grid: seq<seq<Gray>>)
      requires IsImage(grid)
      modifies this
      ensures State() == Drive(old(State()), mode, grid)
    {
      var width, height := |grid[0]|, |grid|;
      var image := QuantizeGrid(grid);
      GenerateVectors(image, NeedLineX, AlongX, width);
      image := Transpose(image, width);
      GenerateVectors(image, NeedLineY, AlongY, height);
    }
  }
}
