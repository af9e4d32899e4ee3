/** The draw rules: which shade is hatched on which scan line, per axis. */
module Hatching {
  import opened Shades

  /** needLineX: whether a run of shade `val` on row `rowIndex` becomes a horizontal stroke. */
  predicate NeedLineX(val: int, rowIndex: nat)
    ensures NeedLineX(val, rowIndex) ==> rowIndex % 2 == 0 && val <= SHADE5
  {
    if rowIndex % 2 == 0 && val <= SHADE1 then true
    else if rowIndex % 4 == 0 && val <= SHADE3 then true
    else if rowIndex % 8 == 0 && val <= SHADE5 then true
    else false
  }

  /** needLineY: whether a run of shade `val` on column `rowIndex` becomes a vertical stroke. */
  predicate NeedLineY(val: int, rowIndex: nat)
    ensures NeedLineY(val, rowIndex) ==> rowIndex % 4 == 0 && SHADE1 < val <= SHADE4
  {
    if rowIndex % 2 == 0 && val <= SHADE1 then false
    else if rowIndex % 4 == 0 && val <= SHADE2 then true
    else if rowIndex % 4 == 0 && val <= SHADE3 then false
    else if rowIndex % 8 == 0 && val <= SHADE4 then true
    else false
  }

  /** The hatching table: the quantized shades drawn horizontally on a line, by line period. */
  function LevelsX(rowIndex: nat): set<int> {
    if rowIndex % 8 == 0 then {SHADE1, SHADE2, SHADE3, SHADE4, SHADE5}
    else if rowIndex % 4 == 0 then {SHADE1, SHADE2, SHADE3}
    else if rowIndex % 2 == 0 then {SHADE1}
    else {}
  }

  /** The hatching table for vertical strokes. */
  function LevelsY(rowIndex: nat): set<int> {
    if rowIndex % 8 == 0 then {SHADE2, SHADE4}
    else if rowIndex % 4 == 0 then {SHADE2}
    else {}
  }

  /** The periods 2 and 4 divide 8: a line index's residues mod 2 and mod 4 are those of
      its residue mod 8. */
  lemma LinePeriods(rowIndex: nat)
    ensures rowIndex % 4 == (rowIndex % 8) % 4 && rowIndex % 2 == (rowIndex % 8) % 2
  {
    var q, m := rowIndex / 8, rowIndex % 8;
    ModFour(rowIndex, 2 * q + m / 4, m % 4);
    ModTwo(rowIndex, 4 * q + m / 2, m % 2);
  }

  lemma ModFour(n: int, k: int, r: int)
    requires n == 4 * k + r && 0 <= r < 4
    ensures n % 4 == r
  {
  }

  lemma ModTwo(n: int, k: int, r: int)
    requires n == 2 * k + r && 0 <= r < 2
    ensures n % 2 == r
  {
  }

  /** On quantized shades both rules are exactly the table above. */
  lemma HatchTable(val: int, rowIndex: nat)
    requires IsLevel(val)
    ensures NeedLineX(val, rowIndex) <==> val in LevelsX(rowIndex)
    ensures NeedLineY(val, rowIndex) <==> val in LevelsY(rowIndex)
  {
    LinePeriods(rowIndex);
  }

  /** Odd lines are never drawn, on either axis. */
  lemma OddLinesBlank(val: int, rowIndex: nat)
    requires rowIndex % 2 == 1
    ensures !NeedLineX(val, rowIndex) && !NeedLineY(val, rowIndex)
  {
  }

  /** White is never drawn, black never vertically. */
  lemma WhiteAndBlack(rowIndex: nat)
    ensures !NeedLineX(WHITE, rowIndex) && !NeedLineY(WHITE, rowIndex)
    ensures !NeedLineY(SHADE1, rowIndex)
  {
    LinePeriods(rowIndex);
  }

  /** A vertical stroke only ever crosses a line that is also drawn horizontally. */
  lemma VerticalImpliesHorizontal(val: int, rowIndex: nat)
    requires NeedLineY(val, rowIndex)
    ensures NeedLineX(val, rowIndex)
  {
  }

  /** The horizontal rule is downward closed: a line that draws a shade draws every darker one. */
  lemma HorizontalDownwardClosed(val: int, darker: int, rowIndex: nat)
    requires darker <= val && NeedLineX(val, rowIndex)
    ensures NeedLineX(darker, rowIndex)
  {
  }
}
