/** The pixel array: quantization of every pixel and the swap of its two axes. */
module Raster {
  import opened Shades

  /** Every row has `width` pixels. */
  predicate Rectangular(g: seq<seq<Gray>>, width: nat) {
    forall i :: 0 <= i < |g| ==> |g[i]| == width
  }

  /** Image.eval of the quantizer over the whole image. */
  function QuantizeGrid(g: seq<seq<Gray>>): (q: seq<seq<Gray>>)
    ensures |q| == |g| && forall i :: 0 <= i < |g| ==> |q[i]| == |g[i]|
    ensures forall i, j :: 0 <= i < |g| && 0 <= j < |g[i]| ==> q[i][j] == Quantize(g[i][j])
  {
    seq(|g|, i requires 0 <= i < |g| => seq(|g[i]|, j requires 0 <= j < |g[i]| => Quantize(g[i][j])))
  }

  /** np.swapaxes(image, 0, 1): column j of the image becomes line j. */
  function Transpose(g: seq<seq<Gray>>, width: nat): (t: seq<seq<Gray>>)
    requires Rectangular(g, width)
    ensures |t| == width && Rectangular(t, |g|)
    ensures forall j, i :: 0 <= j < width && 0 <= i < |g| ==> t[j][i] == g[i][j]
  {
    seq(width, j requires 0 <= j < width => seq(|g|, i requires 0 <= i < |g| => g[i][j]))
  }

  /** Swapping the axes twice gives the image back. */
  lemma TransposeTwice(g: seq<seq<Gray>>, width: nat)
    requires Rectangular(g, width)
    ensures Transpose(Transpose(g, width), |g|) == g
  {
    var t := Transpose(Transpose(g, width), |g|);
    forall i | 0 <= i < |g|
      ensures t[i] == g[i]
    {
    }
  }
}
