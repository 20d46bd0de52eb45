/** The reduction of decoded scanlines to one 8-bit gray sample per pixel.
    The PNG stream itself is decoded by libpng, which is not part of this
    model: its output enters here as the channel count it reports and the
    rows it returns, already expanded to 8 bits per channel. */
module Decoder {
  import opened Pixels

  datatype DecodeError = UnsupportedChannels(channels: nat)

  /** Channel counts the reduction knows: gray, gray+alpha, RGB, RGBA. */
  predicate Supported(channels: nat)
  {
    1 <= channels <= 4
  }

  /** Integer luma, `(77*r + 150*g + 29*b + 128) >> 8`: the weights sum to
      256, so the result lies between the darkest and the brightest channel
      and a gray triple keeps its value. */
  function Luma(r: byte, g: byte, b: byte): (v: byte)
    ensures Min(Min(r, g), b) <= v <= Max(Max(r, g), b)
  {
    (77 * r + 150 * g + 29 * b + 128) / 256
  }

  /** Black stays black, white stays white, every gray keeps its level. */
  lemma LumaOfGray(v: byte)
    ensures Luma(v, v, v) == v
  {
  }

  /** A pixel that carries an alpha byte (the last one) equal to 0. */
  predicate Transparent(channels: nat, p: seq<byte>)
    requires |p| == channels
  {
    (channels == 2 || channels == 4) && p[channels - 1] == 0
  }

  /** The gray sample of one pixel, given as its `channels` bytes. A fully
      transparent pixel is black; any other gray pixel keeps its level, and
      any other colour pixel lands between its darkest and brightest
      channel. */
  function GrayOf(channels: nat, p: seq<byte>): (g: byte)
    requires Supported(channels) && |p| == channels
    ensures Transparent(channels, p) ==> g == 0
    ensures channels <= 2 && !Transparent(channels, p) ==> g == p[0]
    ensures channels >= 3 && !Transparent(channels, p) ==>
              Min(Min(p[0], p[1]), p[2]) <= g <= Max(Max(p[0], p[1]), p[2])
  {
    if channels == 4 then (if p[3] == 0 then 0 else Luma(p[0], p[1], p[2]))
    else if channels == 3 then Luma(p[0], p[1], p[2])
    else if channels == 2 then (if p[1] == 0 then 0 else p[0])
    else p[0]
  }

  /** RGBA: alpha exactly 0 forces black; any other alpha, however small,
      gives the same luma as the RGB pixel without it. */
  lemma RgbaAlphaGate(p: seq<byte>)
    requires |p| == 4
    ensures GrayOf(4, p) == if p[3] == 0 then 0 else GrayOf(3, p[..3])
  {
  }

  /** Partial transparency is ignored: two RGBA pixels with the same colour
      and nonzero alphas reduce to the same sample. */
  lemma RgbaPartialAlphaIgnored(p: seq<byte>, q: seq<byte>)
    requires |p| == 4 && |q| == 4 && p[..3] == q[..3]
    requires p[3] != 0 && q[3] != 0
    ensures GrayOf(4, p) == GrayOf(4, q)
  {
    assert p[0] == q[0] && p[1] == q[1] && p[2] == q[2];
  }

  /** Gray+alpha: alpha exactly 0 forces black, otherwise the gray byte is
      kept unchanged. */
  lemma GrayAlphaGate(g: byte, a: byte)
    ensures GrayOf(2, [g, a]) == if a == 0 then 0 else g
  {
  }

  /** Expanding a gray pixel to RGB (or gray+alpha to RGBA) does not change
      its reduced sample: the four branches agree on gray input. */
  lemma {:induction false} GrayExpansionInvariant(v: byte, a: byte)
    ensures GrayOf(3, [v, v, v]) == GrayOf(1, [v]) == v
    ensures GrayOf(4, [v, v, v, a]) == GrayOf(2, [v, a])
  {
    LumaOfGray(v);
  }

  /** Worked values: a fully transparent red pixel reduces to 0 and an
      opaque one to `(77*255 + 128) >> 8 == 77`. */
  lemma RedPixel()
    ensures GrayOf(4, [255, 0, 0, 0]) == 0
    ensures GrayOf(4, [255, 0, 0, 255]) == 77
    ensures GrayOf(2, [200, 0]) == 0 && GrayOf(2, [200, 1]) == 200
  {
  }

  lemma PixelFits(x: int, w: nat, channels: nat)
    requires 0 <= x < w
    ensures 0 <= x * channels && x * channels + channels <= w * channels
  {
    RowFits(x, channels, w);
    MulComm(x, channels);
    MulComm(w, channels);
  }

  /** Pixel `x` of a scanline: the `channels` bytes starting at
      `x * channels`. */
  function PixelAt(channels: nat, row: seq<byte>, w: nat, x: int): (p: seq<byte>)
    requires |row| == w * channels && 0 <= x < w
    ensures |p| == channels
  {
    PixelFits(x, w, channels);
    row[x * channels .. x * channels + channels]
  }

  /** One row reduced: one sample per pixel, so `w * channels` bytes give
      `w` samples; each transparent pixel becomes black, and each other
      pixel keeps its gray level or lands within its colour range. */
  function ReduceRow(channels: nat, row: seq<byte>, w: nat): (out: seq<byte>)
    requires Supported(channels) && |row| == w * channels
    ensures |out| == w
    ensures forall x :: 0 <= x < w && Transparent(channels, PixelAt(channels, row, w, x)) ==> out[x] == 0
    ensures forall x :: 0 <= x < w && channels <= 2 && !Transparent(channels, PixelAt(channels, row, w, x)) ==>
              out[x] == row[x * channels]
  {
    seq(w, x requires 0 <= x < w =>
      PixelFits(x, w, channels);
      GrayOf(channels, row[x * channels .. x * channels + channels]))
  }

  /** A gray row is copied verbatim. */
  lemma GrayRowCopied(row: seq<byte>, w: nat)
    requires |row| == w
    ensures ReduceRow(1, row, w) == row
  {
    forall x | 0 <= x < w ensures ReduceRow(1, row, w)[x] == row[x] {
      assert row[x .. x + 1][0] == row[x];
    }
  }

  /** Every row reduced on its own. */
  function ReducedRows(channels: nat, rows: seq<seq<byte>>, w: nat): (out: seq<seq<byte>>)
    requires Supported(channels)
    requires forall y :: 0 <= y < |rows| ==> |rows[y]| == w * channels
    ensures |out| == |rows|
    ensures forall y :: 0 <= y < |out| ==> |out[y]| == w
  {
    seq(|rows|, y requires 0 <= y < |rows| => ReduceRow(channels, rows[y], w))
  }

  /** The whole gray image: the reduced rows laid end to end, `w` samples
      for each of the `h` scanlines. */
  function ReduceImage(channels: nat, rows: seq<seq<byte>>, w: nat): (img: seq<byte>)
    requires Supported(channels)
    requires forall y :: 0 <= y < |rows| ==> |rows[y]| == w * channels
    ensures |img| == w * |rows|
  {
    FlattenLength(ReducedRows(channels, rows, w), w);
    Flatten(ReducedRows(channels, rows, w))
  }

  /** Row `y` of the reduced image occupies `[y*w, y*w + w)`: its sample `x`
      is the reduction of pixel `x` of scanline `y`. */
  lemma ReduceImageAt(channels: nat, rows: seq<seq<byte>>, w: nat, y: int, x: int)
    requires Supported(channels)
    requires forall k :: 0 <= k < |rows| ==> |rows[k]| == w * channels
    requires 0 <= y < |rows| && 0 <= x < w
    ensures 0 <= y * w + x < |ReduceImage(channels, rows, w)|
    ensures ReduceImage(channels, rows, w)[y * w + x] == ReduceRow(channels, rows[y], w)[x]
  {
    var reduced := ReducedRows(channels, rows, w);
    FlattenAt(reduced, w, y, x);
    assert reduced[y] == ReduceRow(channels, rows[y], w);
  }

  /** A gray image comes out as its scanlines laid end to end. */
  lemma {:induction false} GrayImageCopied(rows: seq<seq<byte>>, w: nat)
    requires forall y :: 0 <= y < |rows| ==> |rows[y]| == w
    ensures ReduceImage(1, rows, w) == Flatten(rows)
  {
    forall y | 0 <= y < |rows| ensures ReducedRows(1, rows, w)[y] == rows[y] {
      GrayRowCopied(rows[y], w);
    }
    assert ReducedRows(1, rows, w) == rows;
  }

  lemma ReducedPrefixStep(channels: nat, rows: seq<seq<byte>>, w: nat, y: nat)
    requires Supported(channels) && y < |rows|
    requires forall k :: 0 <= k < |rows| ==> |rows[k]| == w * channels
    ensures Flatten(ReducedRows(channels, rows[..y + 1], w)) ==
            Flatten(ReducedRows(channels, rows[..y], w)) + ReduceRow(channels, rows[y], w)
  {
    var before := ReducedRows(channels, rows[..y], w);
    assert ReducedRows(channels, rows[..y + 1], w) == before + [ReduceRow(channels, rows[y], w)];
    FlattenSnoc(before, ReduceRow(channels, rows[y], w));
  }

  /** `img` is `before` with `out` written at `base` and nothing else
      changed. */
  ghost predicate Spliced(img: seq<byte>, before: seq<byte>, base: nat, out: seq<byte>)
  {
    |img| == |before| && base + |out| <= |img| &&
    (forall k :: 0 <= k < |img| && !(base <= k < base + |out|) ==> img[k] == before[k]) &&
    (forall j :: 0 <= j < |out| ==> img[base + j] == out[j])
  }

  lemma SplicedIsConcat(img: seq<byte>, before: seq<byte>, base: nat, out: seq<byte>)
    requires Spliced(img, before, base, out)
    ensures img == before[..base] + out + before[base + |out|..]
  {
    var rhs := before[..base] + out + before[base + |out|..];
    forall k | 0 <= k < |img| ensures img[k] == rhs[k] {
      if base <= k < base + |out| {
        assert img[base + (k - base)] == out[k - base];
      }
    }
  }

  /** RGBA branch: a fully transparent pixel becomes black, any other the
      luma of its colour; the byte offset advances by 4 per pixel. */
  method ReduceRgbaRow(img: array<byte>, base: nat, row: seq<byte>, w: nat)
    requires |row| == w * 4 && base + w <= img.Length
    modifies img
    ensures Spliced(img[..], old(img[..]), base, ReduceRow(4, row, w))
  {
    var out := ReduceRow(4, row, w);
    var x, p := 0, 0;
    while x < w
      invariant 0 <= x <= w && p == 4 * x
      invariant forall k :: 0 <= k < img.Length && !(base <= k < base + x) ==> img[k] == old(img[k])
      invariant forall j :: 0 <= j < x ==> img[base + j] == out[j]
    {
      var r, g, b, a := row[p], row[p + 1], row[p + 2], row[p + 3];
      if a == 0 {
        img[base + x] := 0;
      } else {
        var yv := (77 * r as int + 150 * g as int + 29 * b as int + 128) / 256;
        assert yv == Luma(r, g, b);
        img[base + x] := yv;
      }
      assert row[x * 4 .. x * 4 + 4] == [r, g, b, a];
      p := p + 4;
      x := x + 1;
    }
  }

  /** RGB branch: the luma of each pixel; the offset advances by 3. */
  method ReduceRgbRow(img: array<byte>, base: nat, row: seq<byte>, w: nat)
    requires |row| == w * 3 && base + w <= img.Length
    modifies img
    ensures Spliced(img[..], old(img[..]), base, ReduceRow(3, row, w))
  {
    var out := ReduceRow(3, row, w);
    var x, p := 0, 0;
    while x < w
      invariant 0 <= x <= w && p == 3 * x
      invariant forall k :: 0 <= k < img.Length && !(base <= k < base + x) ==> img[k] == old(img[k])
      invariant forall j :: 0 <= j < x ==> img[base + j] == out[j]
    {
      var r, g, b := row[p], row[p + 1], row[p + 2];
      var yv := (77 * r as int + 150 * g as int + 29 * b as int + 128) / 256;
      assert yv == Luma(r, g, b);
      img[base + x] := yv;
      assert row[x * 3 .. x * 3 + 3] == [r, g, b];
      p := p + 3;
      x := x + 1;
    }
  }

  /** Gray+alpha branch: a fully transparent pixel becomes black, any other
      keeps its gray byte; the offset advances by 2. */
  method ReduceGrayAlphaRow(img: array<byte>, base: nat, row: seq<byte>, w: nat)
    requires |row| == w * 2 && base + w <= img.Length
    modifies img
    ensures Spliced(img[..], old(img[..]), base, ReduceRow(2, row, w))
  {
    var out := ReduceRow(2, row, w);
    var x, p := 0, 0;
    while x < w
      invariant 0 <= x <= w && p == 2 * x
      invariant forall k :: 0 <= k < img.Length && !(base <= k < base + x) ==> img[k] == old(img[k])
      invariant forall j :: 0 <= j < x ==> img[base + j] == out[j]
    {
      var gray, alpha := row[p], row[p + 1];
      img[base + x] := if alpha == 0 then 0 else gray;
      assert row[x * 2 .. x * 2 + 2] == [gray, alpha];
      p := p + 2;
      x := x + 1;
    }
  }

  /** Gray branch: the scanline is block-copied. */
  method CopyGrayRow(img: array<byte>, base: nat, row: seq<byte>, w: nat)
    requires |row| == w && base + w <= img.Length
    modifies img
    ensures Spliced(img[..], old(img[..]), base, ReduceRow(1, row, w))
  {
    GrayRowCopied(row, w);
    forall x | 0 <= x < w {
      img[base + x] := row[x];
    }
  }

  /** The per-row dispatch of the reader on the channel count: writes the
      reduction of `row` into `img[base .. base + w)` and leaves every other
      sample alone. */
  method ConvertRow(img: array<byte>, base: nat, channels: nat, row: seq<byte>, w: nat)
    requires Supported(channels) && |row| == w * channels
    requires base + w <= img.Length
    modifies img
    ensures img[..] == old(img[..base]) + ReduceRow(channels, row, w) + old(img[base + w..])
  {
    if channels == 4 {
      ReduceRgbaRow(img, base, row, w);
    } else if channels == 3 {
      ReduceRgbRow(img, base, row, w);
    } else if channels == 2 {
      ReduceGrayAlphaRow(img, base, row, w);
    } else {
      CopyGrayRow(img, base, row, w);
    }
    SplicedIsConcat(img[..], old(img[..]), base, ReduceRow(channels, row, w));
  }

  lemma SplicePrefix(after: seq<byte>, before: seq<byte>, base: nat, out: seq<byte>)
    requires base + |out| <= |before|
    requires after == before[..base] + out + before[base + |out|..]
    ensures after[..base + |out|] == before[..base] + out
  {
  }

  /** The row loop of the reader. The `w*h` output buffer is allocated
      before the loop (the C++ zero-fills it; every sample is overwritten,
      so its first contents do not matter). Scanline `y`, the `w * channels`
      bytes libpng returns for it, is reduced into row `y`. A channel count
      outside 1..4 fails on the first scanline and no buffer is returned. */
  method ReadGray8(channels: nat, w: nat, h: nat, rows: seq<seq<byte>>) returns (r: Result<seq<byte>, DecodeError>)
    requires 1 <= w && 1 <= h
    requires |rows| == h
    requires forall y :: 0 <= y < h ==> |rows[y]| == w * channels
    ensures !Supported(channels) ==> r == Err(UnsupportedChannels(channels))
    ensures Supported(channels) ==> r == Ok(ReduceImage(channels, rows, w))
  {
    var img := new byte[w * h];
    var y := 0;
    while y < h
      invariant 0 <= y <= h
      invariant y > 0 ==> Supported(channels)
      invariant 0 <= y * w <= img.Length
      invariant Supported(channels) ==> img[..y * w] == Flatten(ReducedRows(channels, rows[..y], w))
      invariant img.Length == w * h
    {
      if !Supported(channels) {
        return Err(UnsupportedChannels(channels));
      }
      RowFits(y, w, h);
      var base := y * w;
      ghost var before := img[..];
      ConvertRow(img, base, channels, rows[y], w);
      SplicePrefix(img[..], before, base, ReduceRow(channels, rows[y], w));
      ReducedPrefixStep(channels, rows, w, y);
      MulSucc(y, w);
      y := y + 1;
    }
    assert rows[..h] == rows;
    MulComm(h, w);
    assert img[..h * w] == img[..];
    r := Ok(img[..]);
  }
}
