/** What one conversion emits, as functions of the image: svgPrint for one stroke, the
    serpentine scan of generateVectors for one pass, and the two passes of main. */
module Emitter {
  import opened Shades
  import opened Hatching
  import opened Gcode
  import opened Runs
  import opened Raster

  /** The axes argument of generateVectors: ['x', 'y'] (lines are rows, strokes are
      horizontal) or ['y', 'x'] (lines are columns, strokes are vertical). */
  datatype Axes = AlongX | AlongY

  /** An SVG <line> element in pixel units, with its gray stroke colour. */
  datatype SvgLine = SvgLine(x1: int, y1: int, x2: int, y2: int, color: int)

  /** Everything svgPrint reads and writes: the two output streams and the cursor
      last_a..last_d, in pixels along (a, c) and across (b, d) the scan line. */
  datatype Trace = Trace(svg: seq<SvgLine>, gcode: seq<Instr>, lastA: int, lastB: int, lastC: int, lastD: int)

  /** Nothing written yet and the cursor at the origin. */
  const ORIGIN: Trace := Trace([], [], 0, 0, 0, 0)

  /** A coordinate along a scan line, mirrored on inverted lines. */
  function Mirror(i: int, invert: bool, axisDim: int): int {
    if invert then axisDim - i else i
  }

  /** The physical (x, y) of the point `along` the scan line on line `across`. */
  function Place(axes: Axes, along: int, across: int): (real, real) {
    match axes
    case AlongX => (Physical(along), Physical(across))
    case AlongY => (Physical(across), Physical(along))
  }

  /** The SVG element of a stroke from `a` to `c` on line `rowNum`. */
  function Record(axes: Axes, a: int, c: int, rowNum: int, color: int): SvgLine {
    match axes
    case AlongX => SvgLine(a, rowNum, c, rowNum, color)
    case AlongY => SvgLine(rowNum, a, rowNum, c, color)
  }

  /** svgPrint: one stroke adds one SVG line, with the mirrored endpoints and the bucketed
      colour, and one burn to its end at the level of that colour, preceded by a move to
      its start exactly when the start differs from the cursor, which then sits at the
      end of the stroke. */
  function Stroke(t: Trace, mode: Mode, start: int, stop: int, rowNum: int, invert: bool,
                  axes: Axes, axisDim: int, val: Gray): (u: Trace)
    ensures |u.svg| == |t.svg| + 1 && u.svg[..|t.svg|] == t.svg
    ensures |t.gcode| < |u.gcode| <= |t.gcode| + 2 && u.gcode[..|t.gcode|] == t.gcode
    ensures u.gcode[|u.gcode| - 1].Burn? && (|u.gcode| == |t.gcode| + 2 ==> u.gcode[|t.gcode|].Move?)
    ensures |u.gcode| == |t.gcode| + 2 <==> (Mirror(start, invert, axisDim), rowNum) != (t.lastC, t.lastD)
    ensures u.lastA == Mirror(start, invert, axisDim) && u.lastB == rowNum
    ensures u.lastC == Mirror(stop, invert, axisDim) && u.lastD == rowNum
    ensures u.svg[|t.svg|]
            == Record(axes, Mirror(start, invert, axisDim), Mirror(stop, invert, axisDim), rowNum, StrokeColor(val))
    ensures var to := Place(axes, Mirror(stop, invert, axisDim), rowNum);
            u.gcode[|u.gcode| - 1] == BurnTo(to.0, to.1, Level(mode, StrokeColor(val)))
    ensures var from := Place(axes, Mirror(start, invert, axisDim), rowNum);
            |u.gcode| == |t.gcode| + 2 ==> u.gcode[|t.gcode|] == MoveTo(from.0, from.1)
  {
    var color := StrokeColor(val);
    var a, c := Mirror(start, invert, axisDim), Mirror(stop, invert, axisDim);
    var b, d := rowNum, rowNum;
    var from, to := Place(axes, a, b), Place(axes, c, d);
    var travel := if a != t.lastC || b != t.lastD then [MoveTo(from.0, from.1)] else [];
    Trace(t.svg + [Record(axes, a, c, b, color)],
          t.gcode + travel + [BurnTo(to.0, to.1, Level(mode, color))],
          a, b, c, d)
  }

  /** The strokes of one scan line: each evaluated segment in turn is tested with the draw
      rule and emitted when it passes. The SVG stream grows exactly when some segment is
      drawn, and both streams are only appended to. */
  function EmitLine(t: Trace, mode: Mode, need: (int, nat) -> bool, rowNum: nat, invert: bool,
                    axes: Axes, axisDim: int, segs: seq<Seg>): (u: Trace)
    ensures |u.svg| >= |t.svg| && u.svg[..|t.svg|] == t.svg
    ensures |u.gcode| >= |t.gcode| && u.gcode[..|t.gcode|] == t.gcode
    ensures |u.svg| > |t.svg| <==> AnyDrawn(segs, need, rowNum)
    decreases |segs|
  {
    if segs == [] then t
    else
      var s := segs[0];
      var next := if need(s.val, rowNum) then Stroke(t, mode, s.start, s.stop, rowNum, invert, axes, axisDim, s.val) else t;
      EmitLine(next, mode, need, rowNum, invert, axes, axisDim, segs[1..])
  }

  /** The number of segments the rule draws on line r. */
  function DrawnCount(segs: seq<Seg>, need: (int, nat) -> bool, r: nat): nat {
    if segs == [] then 0 else (if need(segs[0].val, r) then 1 else 0) + DrawnCount(segs[1..], need, r)
  }

  /** One SVG line per drawn segment: a scan line adds exactly as many SVG lines as it has
      segments that pass the rule. */
  lemma {:induction false} EmitLineCount(t: Trace, mode: Mode, need: (int, nat) -> bool, rowNum: nat,
                                         invert: bool, axes: Axes, axisDim: int, segs: seq<Seg>)
    ensures |EmitLine(t, mode, need, rowNum, invert, axes, axisDim, segs).svg| == |t.svg| + DrawnCount(segs, need, rowNum)
    decreases |segs|
  {
    if segs != [] {
      var s := segs[0];
      var next := if need(s.val, rowNum) then Stroke(t, mode, s.start, s.stop, rowNum, invert, axes, axisDim, s.val) else t;
      EmitLineCount(next, mode, need, rowNum, invert, axes, axisDim, segs[1..]);
    }
  }

  /** Every scan line has at least one pixel (row[index] is read after the loop). */
  predicate NonEmptyRows(img: seq<seq<Gray>>) {
    forall k :: 0 <= k < |img| ==> |img[k]| > 0
  }

  /** A line as it is scanned: flipped when the pass is inverted. */
  function Oriented(row: seq<Gray>, invert: bool): seq<Gray> {
    if invert then Reverse(row) else row
  }

  /** The invert flag when line k is scanned: false at the start of the pass, toggled after
      every line on which something was drawn. */
  function InvertAt(img: seq<seq<Gray>>, need: (int, nat) -> bool, k: nat): bool
    requires k <= |img| && NonEmptyRows(img)
  {
    if k == 0 then false
    else
      var inv := InvertAt(img, need, k - 1);
      if AnyDrawn(Evaluated(Oriented(img[k - 1], inv)), need, k - 1) then !inv else inv
  }

  /** generateVectors from line k on, with the invert flag the scan has reached: each line
      is flipped when the flag is set, and the flag toggles after a line on which some
      segment was drawn. */
  function PassFrom(t: Trace, mode: Mode, img: seq<seq<Gray>>, need: (int, nat) -> bool,
                    axes: Axes, axisDim: int, k: nat, invert: bool): Trace
    requires k <= |img| && NonEmptyRows(img)
    decreases |img| - k
  {
    if k == |img| then t
    else
      var segs := Evaluated(Oriented(img[k], invert));
      PassFrom(EmitLine(t, mode, need, k, invert, axes, axisDim, segs), mode, img, need, axes, axisDim,
               k + 1, if AnyDrawn(segs, need, k) then !invert else invert)
  }

  /** generateVectors(img, needLine, axes, axisDimension): the flag starts false. */
  function Pass(t: Trace, mode: Mode, img: seq<seq<Gray>>, need: (int, nat) -> bool,
                axes: Axes, axisDim: int): Trace
    requires NonEmptyRows(img)
  {
    PassFrom(t, mode, img, need, axes, axisDim, 0, false)
  }

  /** A non-empty rectangular image. */
  predicate IsImage(grid: seq<seq<Gray>>) {
    |grid| > 0 && |grid[0]| > 0 && Rectangular(grid, |grid[0]|)
  }

  /** The first pass of main: rows of the quantized image, horizontal strokes. */
  function HorizontalPass(t: Trace, mode: Mode, grid: seq<seq<Gray>>): Trace
    requires IsImage(grid)
  {
    Pass(t, mode, QuantizeGrid(grid), NeedLineX, AlongX, |grid[0]|)
  }

  /** The second pass of main: columns of the quantized image, vertical strokes. */
  function VerticalPass(t: Trace, mode: Mode, grid: seq<seq<Gray>>): Trace
    requires IsImage(grid)
  {
    Pass(t, mode, Transpose(QuantizeGrid(grid), |grid[0]|), NeedLineY, AlongY, |grid|)
  }

  /** Both passes in order; the second starts from the cursor the first one left. */
  function Drive(t: Trace, mode: Mode, grid: seq<seq<Gray>>): Trace
    requires IsImage(grid)
  {
    VerticalPass(HorizontalPass(t, mode, grid), mode, grid)
  }

  /** A pass started with the flag InvertAt(k) scans line k with that flag and goes on
      with InvertAt(k + 1); as Pass starts at InvertAt(0), every line k of a pass is
      scanned with InvertAt(k). */
  lemma PassUsesInvertAt(t: Trace, mode: Mode, img: seq<seq<Gray>>, need: (int, nat) -> bool,
                         axes: Axes, axisDim: int, k: nat)
    requires k < |img| && NonEmptyRows(img)
    ensures var inv := InvertAt(img, need, k);
            PassFrom(t, mode, img, need, axes, axisDim, k, inv)
            == PassFrom(EmitLine(t, mode, need, k, inv, axes, axisDim, Evaluated(Oriented(img[k], inv))),
                        mode, img, need, axes, axisDim, k + 1, InvertAt(img, need, k + 1))
    ensures InvertAt(img, need, 0) == false
  {
  }

  /** One step of the scan: at a value change the pending segment is tested and emitted
      before the scan goes on from the change; elsewhere the pending segment grows. */
  lemma ScanStep(t: Trace, mode: Mode, need: (int, nat) -> bool, rowNum: nat, invert: bool,
                 axes: Axes, axisDim: int, row: seq<Gray>, first: nat, i: nat)
    requires first < i < |row|
    ensures var s := Seg(first, i, row[i - 1]);
            var next := if need(s.val, rowNum) then Stroke(t, mode, first, i, rowNum, invert, axes, axisDim, s.val) else t;
            row[i] != row[i - 1] ==>
              EmitLine(t, mode, need, rowNum, invert, axes, axisDim, Scan(row, first, i))
              == EmitLine(next, mode, need, rowNum, invert, axes, axisDim, Scan(row, i, i + 1))
              && (AnyDrawn(Scan(row, first, i), need, rowNum) <==> need(s.val, rowNum) || AnyDrawn(Scan(row, i, i + 1), need, rowNum))
    ensures row[i] == row[i - 1] ==> Scan(row, first, i) == Scan(row, first, i + 1)
  {
    var rest := Scan(row, i, i + 1);
    assert ([Seg(first, i, row[i - 1])] + rest)[1..] == rest;
  }

  /** The last step of the scan: the pending segment is tested up to the last pixel. */
  lemma ScanLast(t: Trace, mode: Mode, need: (int, nat) -> bool, rowNum: nat, invert: bool,
                 axes: Axes, axisDim: int, row: seq<Gray>, first: nat)
    requires first < |row|
    ensures var v := row[|row| - 1];
            EmitLine(t, mode, need, rowNum, invert, axes, axisDim, Scan(row, first, |row|))
            == (if need(v, rowNum) then Stroke(t, mode, first, |row| - 1, rowNum, invert, axes, axisDim, v) else t)
            && (AnyDrawn(Scan(row, first, |row|), need, rowNum) <==> need(v, rowNum))
  {
    assert Scan(row, first, |row|) == [Seg(first, |row| - 1, row[|row| - 1])];
    EmitOne(t, mode, need, rowNum, invert, axes, axisDim, Seg(first, |row| - 1, row[|row| - 1]));
  }

  /** A line of one segment emits that segment's stroke exactly when the rule draws it. */
  lemma EmitOne(t: Trace, mode: Mode, need: (int, nat) -> bool, rowNum: nat, invert: bool,
                axes: Axes, axisDim: int, s: Seg)
    ensures EmitLine(t, mode, need, rowNum, invert, axes, axisDim, [s])
            == (if need(s.val, rowNum) then Stroke(t, mode, s.start, s.stop, rowNum, invert, axes, axisDim, s.val) else t)
    ensures AnyDrawn([s], need, rowNum) <==> need(s.val, rowNum)
  {
    assert [s][1..] == [];
    if need(s.val, rowNum) {
      var u := Stroke(t, mode, s.start, s.stop, rowNum, invert, axes, axisDim, s.val);
      assert EmitLine(t, mode, need, rowNum, invert, axes, axisDim, [s])
          == EmitLine(u, mode, need, rowNum, invert, axes, axisDim, []);
    }
  }

  /** One line of a pass. */
  lemma PassStep(t: Trace, mode: Mode, img: seq<seq<Gray>>, need: (int, nat) -> bool,
                 axes: Axes, axisDim: int, k: nat, invert: bool)
    requires k < |img| && NonEmptyRows(img)
    ensures var segs := Evaluated(Oriented(img[k], invert));
            PassFrom(t, mode, img, need, axes, axisDim, k, invert)
            == PassFrom(EmitLine(t, mode, need, k, invert, axes, axisDim, segs), mode, img, need, axes, axisDim,
                        k + 1, if AnyDrawn(segs, need, k) then !invert else invert)
  {
  }

  /** A pass only appends to both output streams. */
  lemma {:induction false} PassFromExtends(t: Trace, mode: Mode, img: seq<seq<Gray>>, need: (int, nat) -> bool,
                                           axes: Axes, axisDim: int, k: nat, invert: bool)
    requires k <= |img| && NonEmptyRows(img)
    ensures var u := PassFrom(t, mode, img, need, axes, axisDim, k, invert);
            |u.svg| >= |t.svg| && u.svg[..|t.svg|] == t.svg
            && |u.gcode| >= |t.gcode| && u.gcode[..|t.gcode|] == t.gcode
    decreases |img| - k
  {
    if k < |img| {
      var segs := Evaluated(Oriented(img[k], invert));
      var line := EmitLine(t, mode, need, k, invert, axes, axisDim, segs);
      var next := if AnyDrawn(segs, need, k) then !invert else invert;
      PassFromExtends(line, mode, img, need, axes, axisDim, k + 1, next);
      var u := PassFrom(line, mode, img, need, axes, axisDim, k + 1, next);
      assert u.svg[..|t.svg|] == u.svg[..|line.svg|][..|t.svg|];
      assert u.gcode[..|t.gcode|] == u.gcode[..|line.gcode|][..|t.gcode|];
    }
  }

  // ---------------------------------------------------------------------------------
  // The serpentine schedule

  /** The number of lines before line k that have a pixel the draw rule accepts. */
  ghost function InkedLines(img: seq<seq<Gray>>, need: (int, nat) -> bool, k: nat): nat
    requires k <= |img|
  {
    if k == 0 then 0
    else InkedLines(img, need, k - 1) + (if LineInk(img[k - 1], need, k - 1) then 1 else 0)
  }

  /** Line k is scanned reversed exactly when an odd number of earlier lines were drawn. */
  lemma {:induction false} InvertParity(img: seq<seq<Gray>>, need: (int, nat) -> bool, k: nat)
    requires k <= |img| && NonEmptyRows(img)
    ensures InvertAt(img, need, k) <==> InkedLines(img, need, k) % 2 == 1
  {
    if k > 0 {
      var j := k - 1;
      InvertParity(img, need, j);
      InvertToggles(img, need, j);
      var ink := LineInk(img[j], need, j);
      assert InkedLines(img, need, k) == InkedLines(img, need, j) + (if ink then 1 else 0);
      ParityStep(InvertAt(img, need, j), InvertAt(img, need, k), InkedLines(img, need, j),
                 InkedLines(img, need, k), ink);
    }
  }

  /** A flag that toggles exactly when a counter steps keeps tracking the counter's parity. */
  lemma ParityStep(before: bool, after: bool, n: nat, m: nat, step: bool)
    requires before <==> n % 2 == 1
    requires after != before <==> step
    requires m == n + (if step then 1 else 0)
    ensures after <==> m % 2 == 1
  {
  }

  /** The flag toggles after a line exactly when the line has a pixel the rule draws;
      a line with nothing drawn leaves it unchanged. */
  lemma InvertToggles(img: seq<seq<Gray>>, need: (int, nat) -> bool, k: nat)
    requires k < |img| && NonEmptyRows(img)
    ensures InvertAt(img, need, k + 1) != InvertAt(img, need, k) <==> LineInk(img[k], need, k)
  {
    var inv := InvertAt(img, need, k);
    DrawnIffInk(Oriented(img[k], inv), need, k);
    ReverseInk(img[k], need, k);
  }

  /** On a line scanned in either direction, the stroke of an interior segment spans
      exactly pixels of the unflipped line that have the segment's shade: mirroring the
      coordinates undoes the flip. */
  lemma StrokeCoversRun(row: seq<Gray>, invert: bool, k: nat)
    requires |row| > 0
    requires k < |Evaluated(Oriented(row, invert))| - 1
    ensures var s := Evaluated(Oriented(row, invert))[k];
            var a, c := Mirror(s.start, invert, |row|), Mirror(s.stop, invert, |row|);
            var lo, hi := if invert then c else a, if invert then a else c;
            0 <= lo < hi <= |row| && hi - lo == s.stop - s.start
            && forall p :: lo <= p < hi ==> row[p] == s.val
  {
    var line := Oriented(row, invert);
    EvaluatedAreRuns(line);
    var s := Evaluated(line)[k];
    assert Interior(line, s);
    if invert {
      forall p | |row| - s.stop <= p < |row| - s.start
        ensures row[p] == s.val
      {
        assert line[|row| - 1 - p] == row[p];
      }
    }
  }

  /** The segment closed after the loop, on a line scanned in either direction: its
      stroke spans pixels of the unflipped line that have the segment's shade and stops
      one pixel short of the edge the scan ends at, at len - 1 on a plain line and at 1 on
      a flipped one, although that edge pixel has the same shade. */
  lemma FinalStrokeShort(row: seq<Gray>, invert: bool)
    requires |row| > 0
    ensures var segs := Evaluated(Oriented(row, invert));
            var s := segs[|segs| - 1];
            var a, c := Mirror(s.start, invert, |row|), Mirror(s.stop, invert, |row|);
            var lo, hi := if invert then c else a, if invert then a else c;
            0 <= lo <= hi <= |row| && hi - lo == s.stop - s.start
            && (if invert then lo == 1 && row[0] == s.val else hi == |row| - 1 && row[|row| - 1] == s.val)
            && forall p :: lo <= p < hi ==> row[p] == s.val
  {
    var line := Oriented(row, invert);
    EvaluatedAreRuns(line);
    var segs := Evaluated(line);
    var s := segs[|segs| - 1];
    assert Final(line, s);
    if invert {
      assert line[|row| - 1] == row[0];
      forall p | 1 <= p < |row| - s.start
        ensures row[p] == s.val
      {
        assert line[|row| - 1 - p] == row[p];
      }
    }
  }

  // ---------------------------------------------------------------------------------
  // The shape of the G-code program

  /** The number of burns in a program. */
  function Burns(g: seq<Instr>): nat {
    if g == [] then 0 else Burns(g[..|g| - 1]) + (if g[|g| - 1].Burn? then 1 else 0)
  }

  /** Every move is immediately followed by a burn. */
  ghost predicate MovesFollowed(g: seq<Instr>) {
    forall k :: 0 <= k < |g| && g[k].Move? ==> k + 1 < |g| && g[k + 1].Burn?
  }

  /** One burn per SVG line, and no move that is not followed by its burn. */
  ghost predicate Balanced(t: Trace) {
    Burns(t.gcode) == |t.svg| && MovesFollowed(t.gcode)
  }

  lemma StrokeBalanced(t: Trace, mode: Mode, start: int, stop: int, rowNum: int, invert: bool,
                       axes: Axes, axisDim: int, val: Gray)
    requires Balanced(t)
    ensures Balanced(Stroke(t, mode, start, stop, rowNum, invert, axes, axisDim, val))
  {
    var u := Stroke(t, mode, start, stop, rowNum, invert, axes, axisDim, val);
    var g := u.gcode;
    var n := |t.gcode|;
    assert g[..|g| - 1][..n] == t.gcode;
    if |g| == n + 2 {
      assert g[..|g| - 1] == t.gcode + [g[n]];
      assert (t.gcode + [g[n]])[..n] == t.gcode;
    } else {
      assert g[..|g| - 1] == t.gcode;
    }
    forall k | 0 <= k < |g| && g[k].Move?
      ensures k + 1 < |g| && g[k + 1].Burn?
    {
      if k < n {
        assert g[k] == t.gcode[k];
        assert k + 1 < n ==> g[k + 1] == t.gcode[k + 1];
      }
    }
  }

  lemma {:induction false} EmitLineBalanced(t: Trace, mode: Mode, need: (int, nat) -> bool, rowNum: nat,
                                            invert: bool, axes: Axes, axisDim: int, segs: seq<Seg>)
    requires Balanced(t)
    ensures Balanced(EmitLine(t, mode, need, rowNum, invert, axes, axisDim, segs))
    decreases |segs|
  {
    if segs != [] {
      var s := segs[0];
      if need(s.val, rowNum) {
        StrokeBalanced(t, mode, s.start, s.stop, rowNum, invert, axes, axisDim, s.val);
        var next := Stroke(t, mode, s.start, s.stop, rowNum, invert, axes, axisDim, s.val);
        EmitLineBalanced(next, mode, need, rowNum, invert, axes, axisDim, segs[1..]);
      } else {
        EmitLineBalanced(t, mode, need, rowNum, invert, axes, axisDim, segs[1..]);
      }
    }
  }

  lemma {:induction false} PassFromBalanced(t: Trace, mode: Mode, img: seq<seq<Gray>>, need: (int, nat) -> bool,
                                            axes: Axes, axisDim: int, k: nat, invert: bool)
    requires k <= |img| && NonEmptyRows(img) && Balanced(t)
    ensures Balanced(PassFrom(t, mode, img, need, axes, axisDim, k, invert))
    decreases |img| - k
  {
    if k < |img| {
      var segs := Evaluated(Oriented(img[k], invert));
      var next := if AnyDrawn(segs, need, k) then !invert else invert;
      EmitLineBalanced(t, mode, need, k, invert, axes, axisDim, segs);
      PassFromBalanced(EmitLine(t, mode, need, k, invert, axes, axisDim, segs), mode, img, need, axes, axisDim, k + 1, next);
    }
  }

  /** A whole conversion emits exactly one burn per SVG line, and every move it emits is
      immediately followed by a burn. */
  lemma DriveBalanced(mode: Mode, grid: seq<seq<Gray>>)
    requires IsImage(grid)
    ensures Balanced(Drive(ORIGIN, mode, grid))
  {
    var image := QuantizeGrid(grid);
    PassFromBalanced(ORIGIN, mode, image, NeedLineX, AlongX, |grid[0]|, 0, false);
    var h := HorizontalPass(ORIGIN, mode, grid);
    PassFromBalanced(h, mode, Transpose(image, |grid[0]|), NeedLineY, AlongY, |grid|, 0, false);
  }

  // ---------------------------------------------------------------------------------
  // Stroke direction and the order of the two passes

  /** A horizontal SVG line in the rows pass, a vertical one in the columns pass. */
  predicate Along(line: SvgLine, axes: Axes) {
    match axes
    case AlongX => line.y1 == line.y2
    case AlongY => line.x1 == line.x2
  }

  /** All SVG lines from index n on follow `axes`. */
  ghost predicate AlignedFrom(t: Trace, n: nat, axes: Axes) {
    forall k :: n <= k < |t.svg| ==> Along(t.svg[k], axes)
  }

  lemma {:induction false} EmitLineAligned(t: Trace, n: nat, mode: Mode, need: (int, nat) -> bool, rowNum: nat,
                                           invert: bool, axes: Axes, axisDim: int, segs: seq<Seg>)
    requires n <= |t.svg| && AlignedFrom(t, n, axes)
    ensures AlignedFrom(EmitLine(t, mode, need, rowNum, invert, axes, axisDim, segs), n, axes)
    decreases |segs|
  {
    if segs != [] {
      var s := segs[0];
      if need(s.val, rowNum) {
        var next := Stroke(t, mode, s.start, s.stop, rowNum, invert, axes, axisDim, s.val);
        forall k | n <= k < |next.svg|
          ensures Along(next.svg[k], axes)
        {
          if k < |t.svg| {
            assert next.svg[k] == next.svg[..|t.svg|][k];
          }
        }
        EmitLineAligned(next, n, mode, need, rowNum, invert, axes, axisDim, segs[1..]);
      } else {
        EmitLineAligned(t, n, mode, need, rowNum, invert, axes, axisDim, segs[1..]);
      }
    }
  }

  lemma {:induction false} PassFromAligned(t: Trace, n: nat, mode: Mode, img: seq<seq<Gray>>,
                                           need: (int, nat) -> bool, axes: Axes, axisDim: int, k: nat, invert: bool)
    requires k <= |img| && NonEmptyRows(img)
    requires n <= |t.svg| && AlignedFrom(t, n, axes)
    ensures AlignedFrom(PassFrom(t, mode, img, need, axes, axisDim, k, invert), n, axes)
    decreases |img| - k
  {
    if k < |img| {
      var segs := Evaluated(Oriented(img[k], invert));
      var next := if AnyDrawn(segs, need, k) then !invert else invert;
      EmitLineAligned(t, n, mode, need, k, invert, axes, axisDim, segs);
      PassFromAligned(EmitLine(t, mode, need, k, invert, axes, axisDim, segs), n, mode, img, need, axes, axisDim, k + 1, next);
    }
  }

  /** The SVG output of a conversion is what was there before, then the horizontal
      strokes of the rows pass, then the vertical strokes of the columns pass. */
  lemma DriveOrder(t: Trace, mode: Mode, grid: seq<seq<Gray>>)
    requires IsImage(grid)
    ensures var h, u := HorizontalPass(t, mode, grid), Drive(t, mode, grid);
            |t.svg| <= |h.svg| <= |u.svg| && u.svg[..|h.svg|] == h.svg && h.svg[..|t.svg|] == t.svg
            && (forall k :: |t.svg| <= k < |h.svg| ==> u.svg[k].y1 == u.svg[k].y2)
            && (forall k :: |h.svg| <= k < |u.svg| ==> u.svg[k].x1 == u.svg[k].x2)
  {
    var image := QuantizeGrid(grid);
    PassFromAligned(t, |t.svg|, mode, image, NeedLineX, AlongX, |grid[0]|, 0, false);
    PassFromExtends(t, mode, image, NeedLineX, AlongX, |grid[0]|, 0, false);
    var h := HorizontalPass(t, mode, grid);
    PassFromAligned(h, |h.svg|, mode, Transpose(image, |grid[0]|), NeedLineY, AlongY, |grid|, 0, false);
    PassFromExtends(h, mode, Transpose(image, |grid[0]|), NeedLineY, AlongY, |grid|, 0, false);
    var u := Drive(t, mode, grid);
    forall k | |t.svg| <= k < |h.svg|
      ensures u.svg[k].y1 == u.svg[k].y2
    {
      assert u.svg[k] == u.svg[..|h.svg|][k];
      assert Along(h.svg[k], AlongX);
    }
    forall k | |h.svg| <= k < |u.svg|
      ensures u.svg[k].x1 == u.svg[k].x2
    {
      assert Along(u.svg[k], AlongY);
    }
  }

  // ---------------------------------------------------------------------------------
  // Travel elision

  /** Where the tool is after a program: at the point of its last instruction, or at the
      origin before the first one. */
  function ToolAt(g: seq<Instr>): (real, real) {
    if g == [] then (0.0, 0.0) else (g[|g| - 1].x, g[|g| - 1].y)
  }

  /** The cursor, read in the orientation of `axes`, is where the tool is. */
  predicate CursorOnTool(t: Trace, axes: Axes) {
    ToolAt(t.gcode) == Place(axes, t.lastC, t.lastD)
  }

  /** Within a pass, whenever the cursor names the tool position, a stroke's burn starts
      exactly at the stroke's start point (a move is emitted when it is not already there),
      and the cursor goes on naming the tool position. */
  lemma StrokeFromTool(t: Trace, mode: Mode, start: int, stop: int, rowNum: nat, invert: bool,
                       axes: Axes, axisDim: int, val: Gray)
    requires CursorOnTool(t, axes)
    requires 0 <= Mirror(start, invert, axisDim) && 0 <= Mirror(stop, invert, axisDim)
    ensures var u := Stroke(t, mode, start, stop, rowNum, invert, axes, axisDim, val);
            CursorOnTool(u, axes)
            && ToolAt(u.gcode[..|u.gcode| - 1]) == Place(axes, Mirror(start, invert, axisDim), rowNum)
  {
    var u := Stroke(t, mode, start, stop, rowNum, invert, axes, axisDim, val);
    var a, c := Mirror(start, invert, axisDim), Mirror(stop, invert, axisDim);
    PixelsUnclamped(a, c);
    PixelsUnclamped(c, rowNum);
    PixelsUnclamped(rowNum, a);
    if |u.gcode| == |t.gcode| + 2 {
      assert u.gcode[..|u.gcode| - 1] == t.gcode + [u.gcode[|t.gcode|]];
    } else {
      assert u.gcode[..|u.gcode| - 1] == t.gcode;
    }
  }

  /** All coordinates of the segments stay non-negative once mirrored. */
  ghost predicate InFrame(segs: seq<Seg>, invert: bool, axisDim: int) {
    forall k :: 0 <= k < |segs| ==> 0 <= Mirror(segs[k].start, invert, axisDim) && 0 <= Mirror(segs[k].stop, invert, axisDim)
  }

  lemma {:induction false} EmitLineFromTool(t: Trace, mode: Mode, need: (int, nat) -> bool, rowNum: nat,
                                            invert: bool, axes: Axes, axisDim: int, segs: seq<Seg>)
    requires CursorOnTool(t, axes) && InFrame(segs, invert, axisDim)
    ensures CursorOnTool(EmitLine(t, mode, need, rowNum, invert, axes, axisDim, segs), axes)
    decreases |segs|
  {
    if segs != [] {
      var s := segs[0];
      InFrameTail(segs, invert, axisDim);
      if need(s.val, rowNum) {
        StrokeFromTool(t, mode, s.start, s.stop, rowNum, invert, axes, axisDim, s.val);
        var next := Stroke(t, mode, s.start, s.stop, rowNum, invert, axes, axisDim, s.val);
        EmitLineFromTool(next, mode, need, rowNum, invert, axes, axisDim, segs[1..]);
      } else {
        EmitLineFromTool(t, mode, need, rowNum, invert, axes, axisDim, segs[1..]);
      }
    }
  }

  /** The segments of a line no longer than axisDim stay inside [0, axisDim] when mirrored. */
  lemma EvaluatedInFrame(row: seq<Gray>, invert: bool, axisDim: int)
    requires 0 < |row| <= axisDim
    ensures InFrame(Evaluated(row), invert, axisDim)
  {
    EvaluatedAreRuns(row);
    var segs := Evaluated(row);
    forall k | 0 <= k < |segs|
      ensures 0 <= segs[k].start <= segs[k].stop < |row|
    {
      if k < |segs| - 1 {
        assert Interior(row, segs[k]);
      } else {
        assert Final(row, segs[k]);
      }
      if k > 0 {
        assert Interior(row, segs[k - 1]);
      }
    }
  }

  lemma {:induction false} PassFromTool(t: Trace, mode: Mode, img: seq<seq<Gray>>, need: (int, nat) -> bool,
                                        axes: Axes, axisDim: int, k: nat, invert: bool)
    requires k <= |img| && NonEmptyRows(img)
    requires forall j :: 0 <= j < |img| ==> |img[j]| <= axisDim
    requires CursorOnTool(t, axes)
    ensures CursorOnTool(PassFrom(t, mode, img, need, axes, axisDim, k, invert), axes)
    decreases |img| - k
  {
    if k < |img| {
      var row := Oriented(img[k], invert);
      var segs := Evaluated(row);
      var line := EmitLine(t, mode, need, k, invert, axes, axisDim, segs);
      assert CursorOnTool(line, axes) by {
        assert 0 < |row| <= axisDim;
        EvaluatedInFrame(row, invert, axisDim);
        EmitLineFromTool(t, mode, need, k, invert, axes, axisDim, segs);
      }
      PassFromTool(line, mode, img, need, axes, axisDim, k + 1, if AnyDrawn(segs, need, k) then !invert else invert);
    }
  }

  /** The physical start and end points of an SVG line. */
  function StartOf(line: SvgLine): (real, real) {
    (Physical(line.x1), Physical(line.y1))
  }

  function EndOf(line: SvgLine): (real, real) {
    (Physical(line.x2), Physical(line.y2))
  }

  /** Every burn of the program runs from the start to the end of its own SVG line: the
      burn at position k is burn number Burns(g[..k]), its line is svg[Burns(g[..k])], the
      tool is at that line's start just before the burn and at its end just after. */
  ghost predicate BurnsTraced(t: Trace) {
    forall k :: 0 <= k < |t.gcode| && t.gcode[k].Burn? ==> BurnTracedAt(t, k)
  }

  ghost predicate BurnTracedAt(t: Trace, k: nat)
    requires k < |t.gcode|
  {
    Burns(t.gcode[..k]) < |t.svg|
    && ToolAt(t.gcode[..k]) == StartOf(t.svg[Burns(t.gcode[..k])])
    && ToolAt(t.gcode[..k + 1]) == EndOf(t.svg[Burns(t.gcode[..k])])
  }

  /** Appending to both streams keeps every earlier burn traced. */
  lemma ExtendTraced(t: Trace, u: Trace, k: nat)
    requires k < |t.gcode| <= |u.gcode| && u.gcode[..|t.gcode|] == t.gcode
    requires |t.svg| <= |u.svg| && u.svg[..|t.svg|] == t.svg
    requires BurnTracedAt(t, k)
    ensures BurnTracedAt(u, k)
  {
    assert u.gcode[..k] == t.gcode[..k] && u.gcode[..k + 1] == t.gcode[..k + 1];
    assert u.svg[Burns(t.gcode[..k])] == t.svg[Burns(t.gcode[..k])];
  }

  /** A stroke emitted while the cursor names the tool position burns along its own line. */
  lemma StrokeTraced(t: Trace, mode: Mode, start: int, stop: int, rowNum: nat, invert: bool,
                     axes: Axes, axisDim: int, val: Gray)
    requires Balanced(t) && CursorOnTool(t, axes) && BurnsTraced(t)
    requires 0 <= Mirror(start, invert, axisDim) && 0 <= Mirror(stop, invert, axisDim)
    ensures BurnsTraced(Stroke(t, mode, start, stop, rowNum, invert, axes, axisDim, val))
  {
    var u := Stroke(t, mode, start, stop, rowNum, invert, axes, axisDim, val);
    var g, n := u.gcode, |t.gcode|;
    var a, c := Mirror(start, invert, axisDim), Mirror(stop, invert, axisDim);
    StrokeFromTool(t, mode, start, stop, rowNum, invert, axes, axisDim, val);
    PixelsUnclamped(c, rowNum);
    forall k | 0 <= k < |g| && g[k].Burn?
      ensures BurnTracedAt(u, k)
    {
      if k < n {
        assert t.gcode[k] == g[k];
        ExtendTraced(t, u, k);
      } else {
        assert k == |g| - 1;
        if |g| == n + 2 {
          assert g[..k] == t.gcode + [g[n]];
          assert (t.gcode + [g[n]])[..n] == t.gcode;
        } else {
          assert g[..k] == t.gcode;
        }
        assert g[..k + 1] == g;
      }
    }
  }

  /** The segments of a line stay in frame after the first one is dropped. */
  lemma InFrameTail(segs: seq<Seg>, invert: bool, axisDim: int)
    requires segs != [] && InFrame(segs, invert, axisDim)
    ensures InFrame(segs[1..], invert, axisDim)
  {
    forall k | 0 <= k < |segs| - 1
      ensures 0 <= Mirror(segs[1..][k].start, invert, axisDim) && 0 <= Mirror(segs[1..][k].stop, invert, axisDim)
    {
      assert segs[1..][k] == segs[k + 1];
    }
  }

  lemma {:induction false} EmitLineTraced(t: Trace, mode: Mode, need: (int, nat) -> bool, rowNum: nat,
                                          invert: bool, axes: Axes, axisDim: int, segs: seq<Seg>)
    requires Balanced(t) && CursorOnTool(t, axes) && BurnsTraced(t) && InFrame(segs, invert, axisDim)
    ensures BurnsTraced(EmitLine(t, mode, need, rowNum, invert, axes, axisDim, segs))
    decreases |segs|
  {
    if segs != [] {
      var s := segs[0];
      InFrameTail(segs, invert, axisDim);
      if need(s.val, rowNum) {
        StrokeTraced(t, mode, s.start, s.stop, rowNum, invert, axes, axisDim, s.val);
        StrokeBalanced(t, mode, s.start, s.stop, rowNum, invert, axes, axisDim, s.val);
        StrokeFromTool(t, mode, s.start, s.stop, rowNum, invert, axes, axisDim, s.val);
        var next := Stroke(t, mode, s.start, s.stop, rowNum, invert, axes, axisDim, s.val);
        EmitLineTraced(next, mode, need, rowNum, invert, axes, axisDim, segs[1..]);
      } else {
        EmitLineTraced(t, mode, need, rowNum, invert, axes, axisDim, segs[1..]);
      }
    }
  }

  lemma {:induction false} PassFromTraced(t: Trace, mode: Mode, img: seq<seq<Gray>>, need: (int, nat) -> bool,
                                          axes: Axes, axisDim: int, k: nat, invert: bool)
    requires k <= |img| && NonEmptyRows(img)
    requires forall j :: 0 <= j < |img| ==> |img[j]| <= axisDim
    requires Balanced(t) && CursorOnTool(t, axes) && BurnsTraced(t)
    ensures BurnsTraced(PassFrom(t, mode, img, need, axes, axisDim, k, invert))
    decreases |img| - k
  {
    if k < |img| {
      var row := Oriented(img[k], invert);
      var segs := Evaluated(row);
      var line := EmitLine(t, mode, need, k, invert, axes, axisDim, segs);
      assert 0 < |row| <= axisDim;
      EvaluatedInFrame(row, invert, axisDim);
      EmitLineTraced(t, mode, need, k, invert, axes, axisDim, segs);
      EmitLineBalanced(t, mode, need, k, invert, axes, axisDim, segs);
      EmitLineFromTool(t, mode, need, k, invert, axes, axisDim, segs);
      PassFromTraced(line, mode, img, need, axes, axisDim, k + 1, if AnyDrawn(segs, need, k) then !invert else invert);
    }
  }

  /** In the rows pass every burn starts where the tool is: starting from the origin, burn
      number i runs from the start to the end of SVG line i, so no horizontal stroke is
      ever burnt from anywhere but its own start point. */
  lemma HorizontalPassFromTool(mode: Mode, grid: seq<seq<Gray>>)
    requires IsImage(grid)
    ensures var h := HorizontalPass(ORIGIN, mode, grid);
            Burns(h.gcode) == |h.svg| && CursorOnTool(h, AlongX)
            && forall k :: 0 <= k < |h.gcode| && h.gcode[k].Burn? ==>
                 Burns(h.gcode[..k]) < |h.svg|
                 && ToolAt(h.gcode[..k]) == StartOf(h.svg[Burns(h.gcode[..k])])
                 && ToolAt(h.gcode[..k + 1]) == EndOf(h.svg[Burns(h.gcode[..k])])
  {
    var image := QuantizeGrid(grid);
    PassFromTool(ORIGIN, mode, image, NeedLineX, AlongX, |grid[0]|, 0, false);
    PassFromBalanced(ORIGIN, mode, image, NeedLineX, AlongX, |grid[0]|, 0, false);
    PassFromTraced(ORIGIN, mode, image, NeedLineX, AlongX, |grid[0]|, 0, false);
  }

  /** At the switch of passes the cursor still names the tool in the rows' orientation,
      while a vertical stroke compares its own (along, across) pair with it. So the move
      before the first vertical burn is missing, leaving the burn to start off its stroke,
      exactly when that pair equals the cursor on a cursor off the diagonal; and it is
      emitted to where the tool already is exactly when the swapped pair equals it. */
  lemma AxisSwitch(t: Trace, mode: Mode, start: int, stop: int, rowNum: nat, invert: bool,
                   axisDim: int, val: Gray)
    requires CursorOnTool(t, AlongX)
    ensures var u := Stroke(t, mode, start, stop, rowNum, invert, AlongY, axisDim, val);
            var a := Mirror(start, invert, axisDim);
            var moved := |u.gcode| == |t.gcode| + 2;
            var there := ToolAt(t.gcode) == Place(AlongY, a, rowNum);
            (!moved && !there <==> a == t.lastC && rowNum == t.lastD && t.lastC != t.lastD)
            && (moved && there <==> rowNum == t.lastC && a == t.lastD && t.lastC != t.lastD)
  {
    var a := Mirror(start, invert, axisDim);
    assert ToolAt(t.gcode) == (Physical(t.lastC), Physical(t.lastD));
    assert Place(AlongY, a, rowNum) == (Physical(rowNum), Physical(a));
  }

  // ---------------------------------------------------------------------------------
  // Blank images

  lemma {:induction false} EmitLineBlank(t: Trace, mode: Mode, need: (int, nat) -> bool, rowNum: nat,
                                         invert: bool, axes: Axes, axisDim: int, segs: seq<Seg>)
    requires !AnyDrawn(segs, need, rowNum)
    ensures EmitLine(t, mode, need, rowNum, invert, axes, axisDim, segs) == t
    decreases |segs|
  {
    if segs != [] {
      EmitLineBlank(t, mode, need, rowNum, invert, axes, axisDim, segs[1..]);
    }
  }

  lemma {:induction false} PassFromBlank(t: Trace, mode: Mode, img: seq<seq<Gray>>, need: (int, nat) -> bool,
                                         axes: Axes, axisDim: int, k: nat, invert: bool)
    requires k <= |img| && NonEmptyRows(img)
    requires forall j, p :: 0 <= j < |img| && 0 <= p < |img[j]| ==> !need(img[j][p], j)
    ensures PassFrom(t, mode, img, need, axes, axisDim, k, invert) == t
    decreases |img| - k
  {
    if k < |img| {
      DrawnIffInk(Oriented(img[k], invert), need, k);
      ReverseInk(img[k], need, k);
      EmitLineBlank(t, mode, need, k, invert, axes, axisDim, Evaluated(Oriented(img[k], invert)));
      PassFromBlank(t, mode, img, need, axes, axisDim, k + 1, invert);
    }
  }

  /** An image whose pixels all lie in the top band emits nothing at all. */
  lemma AllWhiteDrawsNothing(t: Trace, mode: Mode, grid: seq<seq<Gray>>)
    requires IsImage(grid)
    requires forall i, j :: 0 <= i < |grid| && 0 <= j < |grid[i]| ==> grid[i][j] >= SHADE6
    ensures Drive(t, mode, grid) == t
  {
    var image := QuantizeGrid(grid);
    var cols := Transpose(image, |grid[0]|);
    PassFromBlank(t, mode, image, NeedLineX, AlongX, |grid[0]|, 0, false);
    PassFromBlank(t, mode, cols, NeedLineY, AlongY, |grid|, 0, false);
  }
}
