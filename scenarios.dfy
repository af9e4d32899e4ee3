/** Three small images run through both passes, showing the behaviours that are easy to
    miss when reading the scan: the zero-length closing segment, the elided move at the
    origin, and the cursor comparison that carries over from the rows pass into the
    columns pass in axis-local coordinates, which can drop a needed move or emit a
    redundant one. */
module Scenarios {
  import opened Shades
  import opened Hatching
  import opened Gcode
  import opened Runs
  import opened Raster
  import opened Emitter

  /** One black run followed by white: the run ends at the change, the white pixel is
      tested as the zero-length segment [2, 2] and not drawn, and the burn needs no move
      because the stroke starts at the origin where the cursor already is. */
  lemma BlackThenWhite()
    ensures Evaluated([0, 0, 255]) == [Seg(0, 2, 0), Seg(2, 2, 255)]
    ensures var u := Drive(ORIGIN, Power, [[0, 0, 255]]);
            u.svg == [SvgLine(0, 0, 2, 0, 0)] && u.gcode == [Burn(Physical(2), 0.0, 6)]
  {
    BlackThenWhiteRows();
    BlackThenWhiteColumns(HorizontalPass(ORIGIN, Power, [[0, 0, 255]]));
  }

  /** The columns pass of BlackThenWhite draws nothing: column 0 is black, which is only
      ever drawn horizontally, column 1 is odd and column 2 is white. */
  lemma BlackThenWhiteColumns(t: Trace)
    ensures VerticalPass(t, Power, [[0, 0, 255]]) == t
  {
    var grid: seq<seq<Gray>> := [[0, 0, 255]];
    var cols := Transpose(QuantizeGrid(grid), 3);
    assert QuantizeGrid(grid)[0] == grid[0];
    forall j, p | 0 <= j < |cols| && 0 <= p < |cols[j]|
      ensures !NeedLineY(cols[j][p], j)
    {
      assert cols[j][p] == grid[0][j];
    }
    PassFromBlank(t, Power, cols, NeedLineY, AlongY, 1, 0, false);
  }

  /** The rows pass of BlackThenWhite: one stroke, burnt from the origin. */
  lemma BlackThenWhiteRows()
    ensures Evaluated([0, 0, 255]) == [Seg(0, 2, 0), Seg(2, 2, 255)]
    ensures HorizontalPass(ORIGIN, Power, [[0, 0, 255]])
            == Trace([SvgLine(0, 0, 2, 0, 0)], [Burn(Physical(2), 0.0, 6)], 0, 0, 2, 0)
  {
    var row: seq<Gray> := [0, 0, 255];
    BlackThenWhiteRuns();
    var segs := Evaluated(row);
    var grid: seq<seq<Gray>> := [row];
    var image := QuantizeGrid(grid);
    assert image[0] == row;
    assert image == grid;
    BlackStroke();
    var stroke := Stroke(ORIGIN, Power, 0, 2, 0, false, AlongX, 3, 0);
    assert segs[1..] == [Seg(2, 2, 255)];
    assert EmitLine(ORIGIN, Power, NeedLineX, 0, false, AlongX, 3, segs) == stroke;
    PassStep(ORIGIN, Power, grid, NeedLineX, AlongX, 3, 0, false);
  }

  /** The segments of the line [0, 0, 255]. */
  lemma BlackThenWhiteRuns()
    ensures Evaluated([0, 0, 255]) == [Seg(0, 2, 0), Seg(2, 2, 255)]
  {
    var row: seq<Gray> := [0, 0, 255];
    assert Scan(row, 0, 1) == Scan(row, 0, 2);
    assert Scan(row, 0, 2) == [Seg(0, 2, 0)] + Scan(row, 2, 3);
  }

  /** A black stroke from the origin: no move, a burn at full power. */
  lemma BlackStroke()
    ensures Stroke(ORIGIN, Power, 0, 2, 0, false, AlongX, 3, 0)
            == Trace([SvgLine(0, 0, 2, 0, 0)], [Burn(Physical(2), 0.0, 6)], 0, 0, 2, 0)
  {
    assert Level(Power, StrokeColor(0)) == 6;
  }

  /** A 2 x 2 image with one mid-gray pixel on the first row and one on the first column. */
  const CROSS: seq<seq<Gray>> := [[255, 50], [50, 255]]

  /** The rows pass over CROSS: the tool moves to pixel 1 of row 0 and burns the
      zero-length segment there; row 1 is odd and is not drawn. */
  const CROSS_ROWS: Trace :=
    Trace([SvgLine(1, 0, 1, 0, 42)], [Move(Physical(1), 0.0), Burn(Physical(1), 0.0, 5)], 1, 0, 1, 0)

  /** The cursor comparison at the start of the columns pass is made in axis-local
      coordinates: the first vertical stroke starts at (x, y) = (0, 1) while the tool is
      at (1, 0), but its along/across pair (1, 0) equals the cursor left by the rows pass,
      so no move is emitted and the burn runs diagonally from (1, 0) to (0, 1). */
  lemma CursorCarriesAcrossPasses()
    ensures Drive(ORIGIN, Power, CROSS).svg == [SvgLine(1, 0, 1, 0, 42), SvgLine(0, 1, 0, 1, 42)]
    ensures Drive(ORIGIN, Power, CROSS).gcode
            == [Move(Physical(1), 0.0), Burn(Physical(1), 0.0, 5), Burn(0.0, Physical(1), 5)]
  {
    CrossRows();
    CrossColumns();
  }

  /** The segments of the lines of CROSS, in either direction. */
  lemma CrossRuns()
    ensures Evaluated([255, 50]) == [Seg(0, 1, 255), Seg(1, 1, 50)]
    ensures Reverse([50, 255]) == [255, 50]
    ensures QuantizeGrid(CROSS) == CROSS && Transpose(CROSS, 2) == CROSS
  {
    var row: seq<Gray> := [255, 50];
    assert Scan(row, 0, 1) == [Seg(0, 1, 255)] + Scan(row, 1, 2);
    var q := QuantizeGrid(CROSS);
    assert q[0] == CROSS[0] && q[1] == CROSS[1];
    var t := Transpose(CROSS, 2);
    assert t[0] == CROSS[0] && t[1] == CROSS[1];
  }

  /** An odd line of a pass emits nothing and leaves the flag as it is. */
  lemma OddLineSilent(t: Trace, img: seq<seq<Gray>>, need: (int, nat) -> bool, axes: Axes, axisDim: int,
                      invert: bool)
    requires |img| == 2 && NonEmptyRows(img)
    requires need == NeedLineX || need == NeedLineY
    ensures PassFrom(t, Power, img, need, axes, axisDim, 1, invert) == t
  {
    var segs := Evaluated(Oriented(img[1], invert));
    forall v | true
      ensures !need(v, 1)
    {
      OddLinesBlank(v, 1);
    }
    DrawnIffInk(Oriented(img[1], invert), need, 1);
    EmitLineBlank(t, Power, need, 1, invert, axes, axisDim, segs);
    PassStep(t, Power, img, need, axes, axisDim, 1, invert);
  }

  lemma CrossRows()
    ensures HorizontalPass(ORIGIN, Power, CROSS) == CROSS_ROWS
  {
    CrossRuns();
    var segs := Evaluated([255, 50]);
    var stroke := Stroke(ORIGIN, Power, 1, 1, 0, false, AlongX, 2, 50);
    assert Level(Power, StrokeColor(50)) == 5;
    assert stroke == CROSS_ROWS;
    assert segs[1..] == [Seg(1, 1, 50)] && segs[1..][1..] == [];
    assert EmitLine(ORIGIN, Power, NeedLineX, 0, false, AlongX, 2, segs) == stroke;
    PassStep(ORIGIN, Power, CROSS, NeedLineX, AlongX, 2, 0, false);
    OddLineSilent(stroke, CROSS, NeedLineX, AlongX, 2, true);
  }

  lemma CrossColumns()
    ensures VerticalPass(CROSS_ROWS, Power, CROSS)
            == Trace(CROSS_ROWS.svg + [SvgLine(0, 1, 0, 1, 42)], CROSS_ROWS.gcode + [Burn(0.0, Physical(1), 5)], 1, 0, 1, 0)
  {
    CrossRuns();
    var segs := Evaluated([255, 50]);
    var stroke := Stroke(CROSS_ROWS, Power, 1, 1, 0, false, AlongY, 2, 50);
    assert Level(Power, StrokeColor(50)) == 5;
    assert stroke == Trace(CROSS_ROWS.svg + [SvgLine(0, 1, 0, 1, 42)], CROSS_ROWS.gcode + [Burn(0.0, Physical(1), 5)], 1, 0, 1, 0);
    assert segs[1..] == [Seg(1, 1, 50)] && segs[1..][1..] == [];
    assert EmitLine(CROSS_ROWS, Power, NeedLineY, 0, false, AlongY, 2, segs) == stroke;
    PassStep(CROSS_ROWS, Power, CROSS, NeedLineY, AlongY, 2, 0, false);
    OddLineSilent(stroke, CROSS, NeedLineY, AlongY, 2, true);
  }

  /** A line on which the rule draws no pixel emits nothing and leaves the flag as it is. */
  lemma SilentLine(t: Trace, mode: Mode, img: seq<seq<Gray>>, need: (int, nat) -> bool,
                   axes: Axes, axisDim: int, k: nat, invert: bool)
    requires k < |img| && NonEmptyRows(img) && !LineInk(img[k], need, k)
    ensures PassFrom(t, mode, img, need, axes, axisDim, k, invert)
            == PassFrom(t, mode, img, need, axes, axisDim, k + 1, invert)
  {
    var row := Oriented(img[k], invert);
    ReverseInk(img[k], need, k);
    assert !LineInk(row, need, k);
    DrawnIffInk(row, need, k);
    EmitLineBlank(t, mode, need, k, invert, axes, axisDim, Evaluated(row));
    PassStep(t, mode, img, need, axes, axisDim, k, invert);
  }

  /** Four leading lines, on none of which the rule draws a pixel, emit nothing and
      leave the flag as it is. */
  lemma FourSilentLines(t: Trace, mode: Mode, img: seq<seq<Gray>>, need: (int, nat) -> bool,
                        axes: Axes, axisDim: int, invert: bool)
    requires 4 <= |img| && NonEmptyRows(img)
    requires forall i :: 0 <= i < 4 ==> !LineInk(img[i], need, i)
    ensures PassFrom(t, mode, img, need, axes, axisDim, 0, invert)
            == PassFrom(t, mode, img, need, axes, axisDim, 4, invert)
  {
    forall k | 0 <= k < 4
      ensures PassFrom(t, mode, img, need, axes, axisDim, k, invert)
              == PassFrom(t, mode, img, need, axes, axisDim, k + 1, invert)
    {
      SilentLine(t, mode, img, need, axes, axisDim, k, invert);
    }
    assert PassFrom(t, mode, img, need, axes, axisDim, 0, invert)
        == PassFrom(t, mode, img, need, axes, axisDim, 1, invert);
    assert PassFrom(t, mode, img, need, axes, axisDim, 1, invert)
        == PassFrom(t, mode, img, need, axes, axisDim, 2, invert);
    assert PassFrom(t, mode, img, need, axes, axisDim, 2, invert)
        == PassFrom(t, mode, img, need, axes, axisDim, 3, invert);
  }

  /** A 2 x 5 image: a black run ending in one mid-gray pixel, over a white row. */
  const RAMP: seq<seq<Gray>> := [[0, 0, 0, 0, 50], [255, 255, 255, 255, 255]]

  /** The columns of RAMP. */
  const RAMP_COLUMNS: seq<seq<Gray>> := [[0, 255], [0, 255], [0, 255], [0, 255], [50, 255]]

  /** The rows pass over RAMP: the black run is burnt from the origin, then the gray pixel
      as a zero-length stroke where the tool already is; the cursor is left at (4, 0). */
  const RAMP_ROWS: Trace :=
    Trace([SvgLine(0, 0, 4, 0, 0), SvgLine(4, 0, 4, 0, 42)],
          [Burn(Physical(4), 0.0, 6), Burn(Physical(4), 0.0, 5)], 4, 0, 4, 0)

  /** The converse of CursorCarriesAcrossPasses: the one vertical stroke of RAMP, on
      column 4 from row 0, has the along/across pair (0, 4), which differs from the
      cursor (4, 0), so a move is emitted; but it moves to (x, y) = (4, 0), where the rows
      pass left the tool. */
  lemma RedundantMoveAtSwitch()
    ensures Drive(ORIGIN, Power, RAMP).svg == RAMP_ROWS.svg + [SvgLine(4, 0, 4, 1, 42)]
    ensures Drive(ORIGIN, Power, RAMP).gcode
            == [Burn(Physical(4), 0.0, 6), Burn(Physical(4), 0.0, 5), Move(Physical(4), 0.0),
                Burn(Physical(4), Physical(1), 5)]
  {
    RampRows();
    RampColumns();
  }

  /** The segments of the lines of RAMP, and its quantized and swapped forms. */
  lemma RampRuns()
    ensures Evaluated([0, 0, 0, 0, 50]) == [Seg(0, 4, 0), Seg(4, 4, 50)]
    ensures Evaluated([50, 255]) == [Seg(0, 1, 50), Seg(1, 1, 255)]
    ensures QuantizeGrid(RAMP) == RAMP && Transpose(RAMP, 5) == RAMP_COLUMNS
  {
    var row: seq<Gray> := [0, 0, 0, 0, 50];
    assert Scan(row, 0, 1) == Scan(row, 0, 4);
    assert Scan(row, 0, 4) == [Seg(0, 4, 0)] + Scan(row, 4, 5);
    var col: seq<Gray> := [50, 255];
    assert Scan(col, 0, 1) == [Seg(0, 1, 50)] + Scan(col, 1, 2);
    var q := QuantizeGrid(RAMP);
    assert q[0] == RAMP[0] && q[1] == RAMP[1];
    var t := Transpose(RAMP, 5);
    assert t[0] == RAMP_COLUMNS[0] && t[1] == RAMP_COLUMNS[1] && t[2] == RAMP_COLUMNS[2];
    assert t[3] == RAMP_COLUMNS[3] && t[4] == RAMP_COLUMNS[4];
  }

  lemma RampRows()
    ensures HorizontalPass(ORIGIN, Power, RAMP) == RAMP_ROWS
  {
    RampRuns();
    var segs := Evaluated([0, 0, 0, 0, 50]);
    var black := Stroke(ORIGIN, Power, 0, 4, 0, false, AlongX, 5, 0);
    RampRowStrokes();
    assert segs[1..] == [Seg(4, 4, 50)];
    EmitOne(black, Power, NeedLineX, 0, false, AlongX, 5, Seg(4, 4, 50));
    assert EmitLine(ORIGIN, Power, NeedLineX, 0, false, AlongX, 5, segs)
        == EmitLine(black, Power, NeedLineX, 0, false, AlongX, 5, segs[1..]);
    PassStep(ORIGIN, Power, RAMP, NeedLineX, AlongX, 5, 0, false);
    OddLineSilent(RAMP_ROWS, RAMP, NeedLineX, AlongX, 5, true);
  }

  /** The two strokes of row 0 of RAMP; the second needs no move. */
  lemma RampRowStrokes()
    ensures Stroke(Stroke(ORIGIN, Power, 0, 4, 0, false, AlongX, 5, 0), Power, 4, 4, 0, false, AlongX, 5, 50)
            == RAMP_ROWS
  {
    assert Level(Power, StrokeColor(0)) == 6 && Level(Power, StrokeColor(50)) == 5;
  }

  /** The state after the columns pass of RAMP. */
  const RAMP_DONE: Trace :=
    Trace(RAMP_ROWS.svg + [SvgLine(4, 0, 4, 1, 42)],
          RAMP_ROWS.gcode + [Move(Physical(4), 0.0), Burn(Physical(4), Physical(1), 5)], 0, 4, 1, 4)

  lemma RampColumns()
    ensures VerticalPass(RAMP_ROWS, Power, RAMP) == RAMP_DONE
  {
    RampRuns();
    var cols := RAMP_COLUMNS;
    var t := RAMP_ROWS;
    forall i | 0 <= i < 4
      ensures !LineInk(cols[i], NeedLineY, i)
    {
      assert cols[i] == [0, 255];
    }
    FourSilentLines(t, Power, cols, NeedLineY, AlongY, 2, false);
    var segs := Evaluated([50, 255]);
    var stroke := Stroke(t, Power, 0, 1, 4, false, AlongY, 2, 50);
    RampColumnStroke();
    assert segs[1..] == [Seg(1, 1, 255)];
    EmitOne(stroke, Power, NeedLineY, 4, false, AlongY, 2, Seg(1, 1, 255));
    assert EmitLine(t, Power, NeedLineY, 4, false, AlongY, 2, segs)
        == EmitLine(stroke, Power, NeedLineY, 4, false, AlongY, 2, segs[1..]);
    PassStep(t, Power, cols, NeedLineY, AlongY, 2, 4, false);
  }

  /** The vertical stroke of column 4 of RAMP: a move, then the burn. */
  lemma RampColumnStroke()
    ensures Stroke(RAMP_ROWS, Power, 0, 1, 4, false, AlongY, 2, 50) == RAMP_DONE
  {
    assert Level(Power, StrokeColor(50)) == 5;
  }
}
