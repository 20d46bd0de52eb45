/** Per-pixel compositing of grayscale buffers: the alpha blend of two images
    under an alpha buffer, and the multiply of an image by a cut-out mask. */
module Compositor {
  import opened Pixels
  import Patterns

  // ---------------------------------------------------------------------
  // Alpha blend
  // ---------------------------------------------------------------------

  /** 255 times the exact blend of `a` (weight 255 - alpha) and `b` (weight
      alpha), before the division by 255. */
  function Weighted(a: byte, b: byte, alpha: byte): int
  {
    (255 - alpha) * a + alpha * b
  }

  lemma WeightedBetween(a: byte, b: byte, alpha: byte)
    ensures 255 * Min(a, b) <= Weighted(a, b, alpha) <= 255 * Max(a, b)
  {
    Distrib(alpha, b, a);
    Distrib(a, 255, alpha);
    assert Weighted(a, b, alpha) == 255 * a + alpha * (b - a);
    if a <= b {
      MulNonneg(alpha, b - a);
      MulNonneg(255 - alpha, b - a);
      Distrib(b - a, 255, alpha);
    } else {
      MulNonneg(alpha, a - b);
      MulNonneg(255 - alpha, a - b);
      Distrib(a - b, 255, alpha);
      Distrib(alpha, a, b);
    }
  }

  /** One blended sample, `((255 - alpha)*a + alpha*b + 127) / 255`: the
      integer nearest to the exact blend (the +127 bias turns the truncating
      division into rounding), and never outside the range spanned by the two
      inputs, so the cast back to 8 bits never truncates. */
  function BlendPixel(a: byte, b: byte, alpha: byte): (r: byte)
    ensures -127 <= 255 * r - Weighted(a, b, alpha) <= 127
    ensures Min(a, b) <= r <= Max(a, b)
  {
    WeightedBetween(a, b, alpha);
    (Weighted(a, b, alpha) + 127) / 255
  }

  /** Alpha 0 shows image A exactly and alpha 255 shows image B exactly. */
  lemma BlendEndpoints(a: byte, b: byte)
    ensures BlendPixel(a, b, 0) == a
    ensures BlendPixel(a, b, 255) == b
  {
    var r0, r1 := BlendPixel(a, b, 0), BlendPixel(a, b, 255);
    assert -127 <= 255 * (r0 - a) <= 127;
    assert -127 <= 255 * (r1 - b) <= 127;
  }

  /** Alpha 128 gives the 50/50 mix: twice the result is within one of
      `a + b`, so the result is `(a + b) / 2` rounded one way or the other. */
  lemma BlendHalf(a: byte, b: byte)
    ensures a as int + b - 1 <= 2 * BlendPixel(a, b, 128) as int <= a as int + b + 1
  {
    var r := BlendPixel(a, b, 128);
    assert Weighted(a, b, 128) == 127 * a + 128 * b;
    assert -509 <= 510 * r - 255 * (a + b) <= 509;
  }

  /** Swapping the two images and inverting the alpha gives the same blend. */
  lemma BlendSwap(a: byte, b: byte, alpha: byte)
    ensures BlendPixel(a, b, alpha) == BlendPixel(b, a, 255 - alpha)
  {
    assert Weighted(a, b, alpha) == Weighted(b, a, 255 - alpha);
  }

  lemma BlendFormula(x: byte, y: byte, a: byte)
    ensures ((255 - a) * x + a * y + 127) / 255 == BlendPixel(x, y, a)
  {
  }

  /** The first `n` samples of the blend of A and B under Alpha: sample `i`
      depends only on `A[i]`, `B[i]` and `Alpha[i]`. */
  function Blended(A: seq<byte>, B: seq<byte>, Alpha: seq<byte>, n: nat): (out: seq<byte>)
    requires n <= |A| && n <= |B| && n <= |Alpha|
    ensures |out| == n
    ensures forall i :: 0 <= i < n ==> Min(A[i], B[i]) <= out[i] <= Max(A[i], B[i])
  {
    seq(n, i requires 0 <= i < n => BlendPixel(A[i], B[i], Alpha[i]))
  }

  /** The blend loop: fills a fresh `w*h` buffer index by index. The C++
      reads `A`, `B` and `Alpha` at every index below `w*h` without a bounds
      check, and its loop counter `w*h` is a C `int`. */
  method BlendGray8(A: seq<byte>, B: seq<byte>, Alpha: seq<byte>, w: Int32, h: Int32) returns (out: seq<byte>)
    requires 0 <= w && 0 <= h && w * h <= Int32Max
    requires w * h <= |A| && w * h <= |B| && w * h <= |Alpha|
    ensures out == Blended(A, B, Alpha, w * h)
  {
    var n := w * h;
    var buf := new byte[n];
    var i := 0;
    while i < n
      invariant 0 <= i <= n
      invariant forall k :: 0 <= k < i ==> buf[k] == BlendPixel(A[k], B[k], Alpha[k])
    {
      var a: int := Alpha[i];
      var aInv: int := 255 - a;
      var v: int := (aInv * A[i] + a * B[i] + 127) / 255;
      BlendFormula(A[i], B[i], a);
      buf[i] := v;
      i := i + 1;
    }
    out := buf[..];
  }

  /** An alpha buffer that is all 0 reproduces image A. */
  lemma {:induction false} BlendAllTransparent(A: seq<byte>, B: seq<byte>, Alpha: seq<byte>, n: nat)
    requires n <= |A| && n <= |B| && n <= |Alpha|
    requires forall i :: 0 <= i < n ==> Alpha[i] == 0
    ensures Blended(A, B, Alpha, n) == A[..n]
  {
    forall i | 0 <= i < n ensures Blended(A, B, Alpha, n)[i] == A[i] {
      BlendEndpoints(A[i], B[i]);
    }
  }

  /** An alpha buffer that is all 255 reproduces image B. */
  lemma {:induction false} BlendAllOpaque(A: seq<byte>, B: seq<byte>, Alpha: seq<byte>, n: nat)
    requires n <= |A| && n <= |B| && n <= |Alpha|
    requires forall i :: 0 <= i < n ==> Alpha[i] == 255
    ensures Blended(A, B, Alpha, n) == B[..n]
  {
    forall i | 0 <= i < n ensures Blended(A, B, Alpha, n)[i] == B[i] {
      BlendEndpoints(A[i], B[i]);
    }
  }

  /** Blending under the uniform 50% alpha buffer averages the two images,
      each sample rounded one way or the other; black over white gives 128. */
  lemma {:induction false} BlendUniformHalf(A: seq<byte>, B: seq<byte>, w: nat, h: nat)
    requires w * h <= |A| && w * h <= |B|
    ensures var out := Blended(A, B, Patterns.UniformAlphaMask(w, h), w * h);
            forall i :: 0 <= i < w * h ==>
              A[i] as int + B[i] - 1 <= 2 * out[i] as int <= A[i] as int + B[i] + 1 &&
              (A[i] == 0 && B[i] == 255 ==> out[i] == 128)
  {
    var mask := Patterns.UniformAlphaMask(w, h);
    var out := Blended(A, B, mask, w * h);
    forall i | 0 <= i < w * h
      ensures A[i] as int + B[i] - 1 <= 2 * out[i] as int <= A[i] as int + B[i] + 1
      ensures A[i] == 0 && B[i] == 255 ==> out[i] == 128
    {
      assert out[i] == BlendPixel(A[i], B[i], 128);
      BlendHalf(A[i], B[i]);
    }
  }

  // ---------------------------------------------------------------------
  // Mask multiply
  // ---------------------------------------------------------------------

  /** One masked sample, `(v * m) / 255` truncated: never brighter than the
      pixel, the pixel itself under mask 255, black under mask 0. */
  function MaskPixel(v: byte, m: byte): (r: byte)
    ensures r <= v
    ensures m == 255 ==> r == v
    ensures m == 0 ==> r == 0
  {
    MulNonneg(v, m);
    MulNonneg(v, 255 - m);
    Distrib(v, 255, m);
    v as int * m / 255
  }

  /** The image multiplied sample by sample by the mask. */
  function Masked(img: seq<byte>, mask: seq<byte>): (out: seq<byte>)
    requires |img| == |mask|
    ensures |out| == |img|
    ensures forall i :: 0 <= i < |img| ==> out[i] <= img[i]
  {
    seq(|img|, i requires 0 <= i < |img| => MaskPixel(img[i], mask[i]))
  }

  /** A cut-out mask: every weight is fully off (0) or fully on (255). */
  predicate IsBinaryMask(mask: seq<byte>)
  {
    forall i :: 0 <= i < |mask| ==> mask[i] == 0 || mask[i] == 255
  }

  /** The multiply loop of the circular cut-out: the decoded image and the
      mask both hold `w*h` samples, and `w*h` is a C `int`. */
  method MultiplyByMask(img: seq<byte>, mask: seq<byte>, w: Int32, h: Int32) returns (result: seq<byte>)
    requires 0 <= w && 0 <= h && w * h <= Int32Max
    requires |img| == w * h && |mask| == w * h
    ensures result == Masked(img, mask)
  {
    var n := w * h;
    var buf := new byte[n];
    var i := 0;
    while i < n
      invariant 0 <= i <= n
      invariant forall k :: 0 <= k < i ==> buf[k] == MaskPixel(img[k], mask[k])
    {
      var v: int := (img[i] as int * mask[i]) / 255;
      assert v == MaskPixel(img[i], mask[i]);
      buf[i] := v;
      i := i + 1;
    }
    result := buf[..];
  }

  /** Under a cut-out mask, pixels where the mask is on keep their value
      exactly and every other pixel becomes black. */
  lemma {:induction false} CutOut(img: seq<byte>, mask: seq<byte>)
    requires |img| == |mask| && IsBinaryMask(mask)
    ensures forall i :: 0 <= i < |img| ==> Masked(img, mask)[i] == if mask[i] == 255 then img[i] else 0
  {
    forall i | 0 <= i < |img| ensures Masked(img, mask)[i] == if mask[i] == 255 then img[i] else 0 {
      assert mask[i] == 0 || mask[i] == 255;
    }
  }

  /** Applying a cut-out mask twice gives the same image as applying it once. */
  lemma {:induction false} MaskIdempotent(img: seq<byte>, mask: seq<byte>)
    requires |img| == |mask| && IsBinaryMask(mask)
    ensures Masked(Masked(img, mask), mask) == Masked(img, mask)
  {
    var once := Masked(img, mask);
    CutOut(img, mask);
    CutOut(once, mask);
    assert Masked(once, mask) == once;
  }
}
