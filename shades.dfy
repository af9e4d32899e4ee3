/** The six-shade quantizer applied to the grayscale image before scanning. */
module Shades {

  /** A sample of an 8-bit grayscale ("L" mode) image. */
  type Gray = x: int | 0 <= x <= 255

  // Shade thresholds: a pixel below SHADE2 becomes SHADE1, below SHADE3 becomes SHADE2,
  // and so on; SHADE6 only bounds the top band, whose pixels become WHITE.
  const SHADE1: int := 0
  const SHADE2: int := 50
  const SHADE3: int := 100
  const SHADE4: int := 158
  const SHADE5: int := 212
  const SHADE6: int := 240
  const WHITE: int := 255

  /** The values a quantized pixel can take. */
  predicate IsLevel(v: int) {
    v == SHADE1 || v == SHADE2 || v == SHADE3 || v == SHADE4 || v == SHADE5 || v == WHITE
  }

  /** The per-pixel reduction to six shades: every pixel below the top band is darkened
      to the brightest level not above it, and the top band becomes white. */
  function Quantize(px: Gray): (r: Gray)
    ensures IsLevel(r)
    ensures r == WHITE <==> px >= SHADE6
    ensures px < SHADE6 ==> r <= px && forall l :: IsLevel(l) && l <= px ==> l <= r
  {
    if px < SHADE2 then SHADE1
    else if px < SHADE3 then SHADE2
    else if px < SHADE4 then SHADE3
    else if px < SHADE5 then SHADE4
    else if px < SHADE6 then SHADE5
    else WHITE
  }

  /** A brighter pixel never quantizes to a darker level. */
  lemma QuantizeMonotone(p: Gray, q: Gray)
    requires p <= q
    ensures Quantize(p) <= Quantize(q)
  {
  }

  /** The levels are exactly the fixed points, so quantizing twice changes nothing. */
  lemma QuantizeIdempotent(px: Gray)
    ensures Quantize(Quantize(px)) == Quantize(px)
    ensures IsLevel(px) <==> Quantize(px) == px
  {
  }
}
