/** The run detector of generateVectors: the segments one scan line is cut into, in the
    order they are tested against the draw rule. */
module Runs {
  import opened Shades

  /** A segment from `start` to `stop` (pixel edges) tested with shade `val`. */
  datatype Seg = Seg(start: int, stop: int, val: Gray)

  /** The segments evaluated from position `i` on, while a segment is pending since
      `first`: a value change at `i` closes [first, i) with the previous pixel's shade;
      after the last pixel the pending segment is closed at |row| - 1, not |row|. */
  function Scan(row: seq<Gray>, first: nat, i: nat): (segs: seq<Seg>)
    requires first < i <= |row|
    ensures |segs| > 0 && segs[0].start == first
    ensures segs[|segs| - 1].stop == |row| - 1 && segs[|segs| - 1].val == row[|row| - 1]
    decreases |row| - i
  {
    if i == |row| then [Seg(first, |row| - 1, row[|row| - 1])]
    else if row[i] != row[i - 1] then [Seg(first, i, row[i - 1])] + Scan(row, i, i + 1)
    else Scan(row, first, i + 1)
  }

  /** All segments a scan line is tested with, left to right. */
  function Evaluated(row: seq<Gray>): (segs: seq<Seg>)
    requires |row| > 0
    ensures |segs| > 0 && segs[0].start == 0
    ensures segs[|segs| - 1].stop == |row| - 1 && segs[|segs| - 1].val == row[|row| - 1]
  {
    Scan(row, 0, 1)
  }

  /** The pixels lo..hi-1 all have shade v. */
  ghost predicate Constant(row: seq<Gray>, lo: int, hi: int, v: int)
    requires 0 <= lo && hi <= |row|
  {
    forall p :: lo <= p < hi ==> row[p] == v
  }

  /** A segment closed by a value change: a maximal, non-empty run of its shade. */
  ghost predicate Interior(row: seq<Gray>, s: Seg) {
    0 <= s.start < s.stop < |row| && row[s.stop] != s.val && Constant(row, s.start, s.stop, s.val)
  }

  /** The segment closed after the loop: it ends at the last pixel index and every pixel
      from its start to the end of the line has the last pixel's shade. */
  ghost predicate Final(row: seq<Gray>, s: Seg) {
    0 <= s.start <= s.stop && s.stop == |row| - 1 && s.val == row[|row| - 1]
    && Constant(row, s.start, |row|, s.val)
  }

  /** `segs` cuts row from `first` on into consecutive runs, the last one closed by the end
      of the line. */
  ghost predicate RunsFrom(row: seq<Gray>, first: int, segs: seq<Seg>) {
    0 <= first < |row| && |segs| > 0 && segs[0].start == first
    && (forall k :: 0 < k < |segs| ==> segs[k].start == segs[k - 1].stop)
    && (forall k :: 0 <= k < |segs| - 1 ==> Interior(row, segs[k]))
    && Final(row, segs[|segs| - 1])
  }

  ghost predicate RunsOf(row: seq<Gray>, segs: seq<Seg>) {
    RunsFrom(row, 0, segs)
  }

  lemma {:induction false} ScanRuns(row: seq<Gray>, first: nat, i: nat)
    requires first < i <= |row|
    requires Constant(row, first, i, row[i - 1])
    ensures RunsFrom(row, first, Scan(row, first, i))
    decreases |row| - i
  {
    if i == |row| {
    } else if row[i] != row[i - 1] {
      ScanRuns(row, i, i + 1);
      var rest := Scan(row, i, i + 1);
      var segs := [Seg(first, i, row[i - 1])] + rest;
      assert segs == Scan(row, first, i);
      forall k | 0 < k < |segs|
        ensures segs[k].start == segs[k - 1].stop
      {
        if k > 1 {
          assert segs[k] == rest[k - 1] && segs[k - 1] == rest[k - 2];
        }
      }
      forall k | 0 <= k < |segs| - 1
        ensures Interior(row, segs[k])
      {
        if k > 0 {
          assert segs[k] == rest[k - 1];
        }
      }
    } else {
      ScanRuns(row, first, i + 1);
    }
  }

  /** The evaluated segments are the runs of the line, in ascending order: the first starts
      at 0, each starts where the previous one stopped, each interior one is a non-empty
      maximal run, and the last is [s, |row| - 1], possibly of length zero. */
  lemma EvaluatedAreRuns(row: seq<Gray>)
    requires |row| > 0
    ensures RunsOf(row, Evaluated(row))
  {
    ScanRuns(row, 0, 1);
  }

  /** The first run of a cut that starts inside a constant block reaches past that block. */
  lemma FirstRunEnd(row: seq<Gray>, first: nat, hi: nat, segs: seq<Seg>)
    requires first < hi <= |row| && Constant(row, first, hi, row[first])
    requires RunsFrom(row, first, segs)
    ensures |segs| > 1 ==> hi <= segs[0].stop < |row| && segs[0].val == row[first]
  {
    if |segs| > 1 {
      var s := segs[0];
      assert Interior(row, s);
      assert row[first] == s.val;
    }
  }

  lemma {:induction false} RunsUnique(row: seq<Gray>, first: nat, i: nat, segs: seq<Seg>)
    requires first < i <= |row|
    requires Constant(row, first, i, row[i - 1])
    requires RunsFrom(row, first, segs)
    ensures segs == Scan(row, first, i)
    decreases |row| - i
  {
    assert row[first] == row[i - 1];
    FirstRunEnd(row, first, i, segs);
    if i == |row| {
      assert |segs| == 1;
      assert segs == [segs[0]];
    } else if row[i] != row[i - 1] {
      assert Final(row, segs[|segs| - 1]);
      assert |segs| > 1;
      var s := segs[0];
      assert Interior(row, s);
      assert s == Seg(first, i, row[i - 1]);
      var rest := segs[1..];
      forall k | 0 < k < |rest|
        ensures rest[k].start == rest[k - 1].stop
      {
        assert rest[k] == segs[k + 1] && rest[k - 1] == segs[k];
      }
      forall k | 0 <= k < |rest| - 1
        ensures Interior(row, rest[k])
      {
        assert rest[k] == segs[k + 1];
      }
      assert RunsFrom(row, i, rest);
      RunsUnique(row, i, i + 1, rest);
      assert segs == [s] + rest;
    } else {
      RunsUnique(row, first, i + 1, segs);
    }
  }

  /** The runs of a line determine its evaluated segments: Evaluated is the one cut of the
      line into runs as RunsOf describes them. */
  lemma RunsDetermineEvaluated(row: seq<Gray>, segs: seq<Seg>)
    requires |row| > 0 && RunsOf(row, segs)
    ensures segs == Evaluated(row)
  {
    RunsUnique(row, 0, 1, segs);
  }

  /** A line of a single shade is evaluated exactly once, as [0, |row| - 1]. */
  lemma ConstantLineOnce(row: seq<Gray>)
    requires |row| > 0 && forall p :: 0 <= p < |row| ==> row[p] == row[0]
    ensures Evaluated(row) == [Seg(0, |row| - 1, row[0])]
  {
    RunsDetermineEvaluated(row, [Seg(0, |row| - 1, row[0])]);
  }

  /** The shade changes from the previous pixel at position j. */
  ghost predicate ChangeAt(row: seq<Gray>, j: nat) {
    1 <= j < |row| && row[j] != row[j - 1]
  }

  /** The positions from `i` on where the shade changes. */
  ghost function ChangesFrom(row: seq<Gray>, i: nat): set<nat> {
    set j: nat | i <= j < |row| && ChangeAt(row, j)
  }

  /** Splitting off position i from the change positions after it. */
  lemma ChangesSplit(row: seq<Gray>, i: nat)
    requires 1 <= i < |row|
    ensures ChangeAt(row, i) ==> ChangesFrom(row, i) == {i} + ChangesFrom(row, i + 1)
    ensures !ChangeAt(row, i) ==> ChangesFrom(row, i) == ChangesFrom(row, i + 1)
    ensures i !in ChangesFrom(row, i + 1)
  {
  }

  lemma {:induction false} ScanCount(row: seq<Gray>, first: nat, i: nat)
    requires first < i <= |row|
    ensures |Scan(row, first, i)| == 1 + |ChangesFrom(row, i)|
    decreases |row| - i
  {
    if i == |row| {
      assert ChangesFrom(row, i) == {};
    } else if row[i] != row[i - 1] {
      ChangesSplit(row, i);
      ScanCount(row, i, i + 1);
      assert Scan(row, first, i) == [Seg(first, i, row[i - 1])] + Scan(row, i, i + 1);
    } else {
      ChangesSplit(row, i);
      ScanCount(row, first, i + 1);
      assert Scan(row, first, i) == Scan(row, first, i + 1);
    }
  }

  /** A line is evaluated once more than the number of its value changes. */
  lemma EvaluatedCount(row: seq<Gray>)
    requires |row| > 0
    ensures |Evaluated(row)| == 1 + |set j: nat | j < |row| && ChangeAt(row, j)|
  {
    ScanCount(row, 0, 1);
    assert ChangesFrom(row, 1) == set j: nat | j < |row| && ChangeAt(row, j);
  }

  /** The total length of a list of segments. */
  function Covered(segs: seq<Seg>): int {
    if segs == [] then 0 else segs[0].stop - segs[0].start + Covered(segs[1..])
  }

  lemma {:induction false} ScanCovered(row: seq<Gray>, first: nat, i: nat)
    requires first < i <= |row|
    ensures Covered(Scan(row, first, i)) == |row| - 1 - first
    decreases |row| - i
  {
    if i == |row| {
    } else if row[i] != row[i - 1] {
      ScanCovered(row, i, i + 1);
      var segs := [Seg(first, i, row[i - 1])] + Scan(row, i, i + 1);
      assert segs[1..] == Scan(row, i, i + 1);
    } else {
      ScanCovered(row, first, i + 1);
    }
  }

  /** The evaluated segments cover |row| - 1 pixels: the last pixel is never inside one. */
  lemma EvaluatedCovered(row: seq<Gray>)
    requires |row| > 0
    ensures Covered(Evaluated(row)) == |row| - 1
  {
    ScanCovered(row, 0, 1);
  }

  /** Whether some segment of `segs` passes the draw rule on line r. */
  function AnyDrawn(segs: seq<Seg>, need: (int, nat) -> bool, r: nat): bool {
    segs != [] && (need(segs[0].val, r) || AnyDrawn(segs[1..], need, r))
  }

  /** Whether some pixel of the line has a shade the draw rule accepts on line r. */
  ghost predicate LineInk(row: seq<Gray>, need: (int, nat) -> bool, r: nat) {
    exists j :: 0 <= j < |row| && need(row[j], r)
  }

  lemma {:induction false} ScanInk(row: seq<Gray>, first: nat, i: nat, need: (int, nat) -> bool, r: nat)
    requires first < i <= |row|
    requires Constant(row, first, i, row[i - 1])
    ensures AnyDrawn(Scan(row, first, i), need, r) <==> exists j :: first <= j < |row| && need(row[j], r)
    decreases |row| - i
  {
    if i == |row| {
      var segs := Scan(row, first, i);
      assert segs[1..] == [];
      if exists j :: first <= j < |row| && need(row[j], r) {
        var j :| first <= j < |row| && need(row[j], r);
        assert row[j] == row[|row| - 1];
      }
    } else if row[i] != row[i - 1] {
      ScanInk(row, i, i + 1, need, r);
      var segs := [Seg(first, i, row[i - 1])] + Scan(row, i, i + 1);
      assert segs[1..] == Scan(row, i, i + 1);
      if exists j :: first <= j < |row| && need(row[j], r) {
        var j :| first <= j < |row| && need(row[j], r);
        if j < i {
          assert row[j] == row[i - 1];
        }
      }
    } else {
      ScanInk(row, first, i + 1, need, r);
    }
  }

  /** Some segment of a line is drawn if and only if some pixel of it has a drawn shade:
      every shade of the line is tested, the last one by the final segment. */
  lemma DrawnIffInk(row: seq<Gray>, need: (int, nat) -> bool, r: nat)
    requires |row| > 0
    ensures AnyDrawn(Evaluated(row), need, r) <==> LineInk(row, need, r)
  {
    ScanInk(row, 0, 1, need, r);
  }

  /** np.flipud on one line. */
  function Reverse(s: seq<Gray>): (r: seq<Gray>)
    ensures |r| == |s| && forall i :: 0 <= i < |s| ==> r[i] == s[|s| - 1 - i]
  {
    seq(|s|, i requires 0 <= i < |s| => s[|s| - 1 - i])
  }

  /** Reversing a line does not change whether it has ink. */
  lemma ReverseInk(row: seq<Gray>, need: (int, nat) -> bool, r: nat)
    ensures LineInk(Reverse(row), need, r) <==> LineInk(row, need, r)
  {
    var rev := Reverse(row);
    if LineInk(row, need, r) {
      var j :| 0 <= j < |row| && need(row[j], r);
      assert rev[|row| - 1 - j] == row[j];
    }
    if LineInk(rev, need, r) {
      var j :| 0 <= j < |rev| && need(rev[j], r);
      assert row[|row| - 1 - j] == rev[j];
    }
  }
}
