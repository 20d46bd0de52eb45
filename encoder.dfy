/** The framing done by the PNG writer: argument checks, the image header,
    and the rows handed to the library top to bottom. Compression, filtering
    and chunk serialisation are done by libpng and are not part of this
    model; the encoded image is represented by its header fields and the
    sequence of rows written. */
module Encoder {
  import opened Pixels
  import Decoder

  /** The IHDR fields, as in section 11.2.2 of the W3C PNG Specification
      (Second Edition). */
  datatype Header = Header(width: int, height: int, bitDepth: int, colorType: int,
                           compression: int, filter: int, interlace: int)

  const ColorTypeGray := 0
  const CompressionBase := 0
  const FilterBase := 0
  const InterlaceNone := 0

  /** An image as handed to the PNG library: its header and its rows of
      unfiltered sample bytes, in the order they are written. */
  datatype Png = Png(header: Header, rows: seq<seq<byte>>)

  datatype EncodeError = BadDims | SizeMismatch | OpenFailed

  /** Samples per pixel of each colour type (section 11.2.2, table 11.1). */
  function Channels(colorType: int): nat
  {
    if colorType == 2 then 3
    else if colorType == 4 then 2
    else if colorType == 6 then 4
    else 1
  }

  /** A header the PNG specification allows: positive dimensions below
      2^31, a permitted colour type / bit depth pair, method 0 for
      compression and filtering, and interlace method 0 or 1. */
  predicate ValidHeader(hd: Header)
  {
    1 <= hd.width <= Int32Max && 1 <= hd.height <= Int32Max &&
    ((hd.colorType == 0 && hd.bitDepth in {1, 2, 4, 8, 16}) ||
     (hd.colorType == 3 && hd.bitDepth in {1, 2, 4, 8}) ||
     (hd.colorType in {2, 4, 6} && hd.bitDepth in {8, 16})) &&
    hd.compression == 0 && hd.filter == 0 && hd.interlace in {0, 1}
  }

  /** Bytes in one scanline of a valid header, without the filter byte. */
  function ScanlineBytes(hd: Header): int
  {
    (hd.width * Channels(hd.colorType) * hd.bitDepth + 7) / 8
  }

  /** A valid non-interlaced image: one row per line of the header's height,
      each exactly a scanline long. */
  predicate WellFormed(png: Png)
  {
    ValidHeader(png.header) && png.header.interlace == InterlaceNone &&
    |png.rows| == png.header.height &&
    forall y :: 0 <= y < |png.rows| ==> |png.rows[y]| == ScanlineBytes(png.header)
  }

  /** The writer. Bad dimensions and a buffer that is not `w*h` samples long
      are rejected before the output file is even opened (`sinkOpens` says
      whether opening it succeeds); then the 8-bit gray non-interlaced header
      is written and row `y` is handed over as the slice `[y*w, y*w + w)`. */
  method WritePngGray8(img: seq<byte>, w: Int32, h: Int32, sinkOpens: bool) returns (r: Result<Png, EncodeError>)
    ensures w <= 0 || h <= 0 ==> r == Err(BadDims)
    ensures w > 0 && h > 0 && |img| != w * h ==> r == Err(SizeMismatch)
    ensures w > 0 && h > 0 && |img| == w * h && !sinkOpens ==> r == Err(OpenFailed)
    ensures w > 0 && h > 0 && |img| == w * h && sinkOpens ==>
              r.Ok? && WellFormed(r.value) &&
              r.value.header == Header(w, h, 8, ColorTypeGray, CompressionBase, FilterBase, InterlaceNone) &&
              Flatten(r.value.rows) == img
  {
    if w <= 0 || h <= 0 {
      return Err(BadDims);
    }
    if |img| != w * h {
      return Err(SizeMismatch);
    }
    if !sinkOpens {
      return Err(OpenFailed);
    }
    var header := Header(w, h, 8, ColorTypeGray, CompressionBase, FilterBase, InterlaceNone);
    var rows: seq<seq<byte>> := [];
    var y := 0;
    while y < h
      invariant 0 <= y <= h && |rows| == y
      invariant forall k :: 0 <= k < y ==> |rows[k]| == w
      invariant 0 <= y * w <= |img|
      invariant Flatten(rows) == img[..y * w]
    {
      RowFits(y, w, h);
      var src := img[y * w .. y * w + w];
      FlattenSnoc(rows, src);
      MulSucc(y, w);
      assert img[..y * w + w] == img[..y * w] + src;
      rows := rows + [src];
      y := y + 1;
    }
    assert img[..h * w] == img by { MulComm(h, w); }
    r := Ok(Png(header, rows));
  }

  /** Reading back what the writer produced gives the original samples: the
      image is 8-bit gray, so the reader sees one channel and copies each
      scanline. (libpng is taken to return the rows it was given.) */
  lemma {:induction false} WriteThenReadIsIdentity(img: seq<byte>, w: Int32, h: Int32, png: Png)
    requires w > 0 && h > 0 && |img| == w * h
    requires WellFormed(png)
    requires png.header == Header(w, h, 8, ColorTypeGray, CompressionBase, FilterBase, InterlaceNone)
    requires Flatten(png.rows) == img
    ensures var channels := Channels(png.header.colorType);
            Decoder.Supported(channels) &&
            (forall y :: 0 <= y < |png.rows| ==> |png.rows[y]| == w * channels) &&
            Decoder.ReduceImage(channels, png.rows, w) == img
  {
    Decoder.GrayImageCopied(png.rows, w);
  }
}
