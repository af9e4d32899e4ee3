/** Stroke colour, power/speed level and the clamped G-code move and burn records. */
module Gcode {
  import opened Shades

  /** Millimetres per pixel at 200 dots per inch. */
  const PIXEL_SIZE: real := 25.4 / 200.0
  /** Coordinates below this are written as exactly zero. */
  const EPSILON: real := 0.001
  /** Width of one of the six colour buckets of the 0..255 range. */
  const BUCKET: int := 256 / 6

  /** S_OR_F: modulate laser power (0) or feed speed (1). */
  datatype Mode = Power | Speed

  /** A G-code instruction: a rapid move, or a burn carrying its level index 0..6
      (the power step or speed step it is scaled by). */
  datatype Instr = Move(x: real, y: real) | Burn(x: real, y: real, level: int)

  /** A pixel coordinate in millimetres. */
  function Physical(p: int): real {
    p as real * PIXEL_SIZE
  }

  /** The clamp MOVE_TO and BURN_TO apply to each coordinate: a value below EPSILON is
      written as 0, and every other value is written unchanged. */
  function Clamp(v: real): (r: real)
    ensures r == 0.0 || r >= EPSILON
    ensures v < EPSILON ==> r == 0.0
    ensures r == v <==> v == 0.0 || v >= EPSILON
  {
    if v < EPSILON then 0.0 else v
  }

  /** MOVE_TO: a rapid move to (x, y), each coordinate clamped. */
  function MoveTo(x: real, y: real): (r: Instr)
    ensures r.Move?
    ensures (x < EPSILON ==> r.x == 0.0) && (x >= EPSILON ==> r.x == x)
    ensures (y < EPSILON ==> r.y == 0.0) && (y >= EPSILON ==> r.y == y)
  {
    Move(Clamp(x), Clamp(y))
  }

  /** BURN_TO: a burn to (x, y) at the given level, each coordinate clamped. */
  function BurnTo(x: real, y: real, level: int): (r: Instr)
    ensures r.Burn? && r.level == level
    ensures (x < EPSILON ==> r.x == 0.0) && (x >= EPSILON ==> r.x == x)
    ensures (y < EPSILON ==> r.y == 0.0) && (y >= EPSILON ==> r.y == y)
  {
    Burn(Clamp(x), Clamp(y), level)
  }

  /** Pixel coordinates of the image are never altered by the clamp, and distinct pixels
      stay distinct in millimetres, so comparing cursors in pixels is comparing them in
      millimetres. */
  lemma PixelsUnclamped(p: nat, q: nat)
    ensures Clamp(Physical(p)) == Physical(p)
    ensures Physical(p) == Physical(q) <==> p == q
  {
  }

  /** The stroke colour: the shade rounded down to a multiple of BUCKET. */
  function StrokeColor(val: Gray): (c: Gray)
    ensures c <= val && val - c < BUCKET && c % BUCKET == 0
  {
    assert BUCKET == 42;
    if val != 0 then (val / BUCKET) * BUCKET else val
  }

  /** The level index of a burn: darker colours burn with more power, or move slower. */
  function Level(mode: Mode, color: Gray): (l: int)
    ensures 0 <= l <= 6
  {
    match mode
    case Speed => color / BUCKET
    case Power => (255 - color) / BUCKET
  }

  /** Rounding a colour again changes nothing, and rounding keeps the order of shades. */
  lemma StrokeColorIdempotent(val: Gray, brighter: Gray)
    requires val <= brighter
    ensures StrokeColor(StrokeColor(val)) == StrokeColor(val)
    ensures StrokeColor(val) <= StrokeColor(brighter)
  {
    DivBucketMonotone(val, brighter);
  }

  /** Integer division by BUCKET keeps the order of non-negative values. */
  lemma DivBucketMonotone(a: int, b: int)
    requires 0 <= a <= b
    ensures a / BUCKET <= b / BUCKET
  {
    assert BUCKET == 42;
    assert BUCKET * (a / BUCKET) <= a < BUCKET * (a / BUCKET) + BUCKET;
    assert BUCKET * (b / BUCKET) <= b < BUCKET * (b / BUCKET) + BUCKET;
  }

  /** The power level never grows and the speed level never shrinks as the shade gets lighter. */
  lemma LevelOrder(val: Gray, brighter: Gray)
    requires val <= brighter
    ensures Level(Power, StrokeColor(brighter)) <= Level(Power, StrokeColor(val))
    ensures Level(Speed, StrokeColor(val)) <= Level(Speed, StrokeColor(brighter))
  {
    StrokeColorIdempotent(val, brighter);
    var c, d := StrokeColor(val), StrokeColor(brighter);
    DivBucketMonotone(255 - d, 255 - c);
    DivBucketMonotone(c, d);
  }
}
