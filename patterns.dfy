/** The one pattern generator with integer semantics: the uniform 50% alpha
    buffer. The others compute with floating point and are not modelled. */
module Patterns {
  import opened Pixels

  /** Half of full opacity, 255 * 0.5 rounded to a sample. */
  const HalfAlpha: byte := 128

  /** A `w*h` alpha buffer in which every weight is HalfAlpha. */
  function UniformAlphaMask(w: nat, h: nat): (mask: seq<byte>)
    ensures |mask| == w * h
    ensures forall i :: 0 <= i < |mask| ==> mask[i] == HalfAlpha
  {
    seq(w * h, _ => HalfAlpha)
  }
}
