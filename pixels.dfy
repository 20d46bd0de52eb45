/** Shared vocabulary of the grayscale pipeline: 8-bit samples, the C `int`
    range the dimensions live in, the error-carrying result type, and the
    row-major layout of a `w*h` buffer as `h` rows of `w` samples. */
module Pixels {

  /** An unsigned 8-bit sample (`uint8_t` / `unsigned char`). */
  type byte = x: int | 0 <= x < 256

  const Int32Max: int := 0x7FFF_FFFF

  /** A value of the C type `int`. */
  type Int32 = x: int | -0x8000_0000 <= x <= Int32Max

  datatype Result<+T, +E> = Ok(value: T) | Err(error: E)

  function Min(a: int, b: int): int { if a <= b then a else b }
  function Max(a: int, b: int): int { if a <= b then b else a }

  /** The rows laid end to end: the flat row-major buffer they make up. */
  function Flatten(rows: seq<seq<byte>>): (s: seq<byte>)
  {
    if rows == [] then [] else Flatten(rows[..|rows| - 1]) + rows[|rows| - 1]
  }

  /** Appending one row to the rows appends it to the flat buffer. */
  lemma FlattenSnoc(rows: seq<seq<byte>>, row: seq<byte>)
    ensures Flatten(rows + [row]) == Flatten(rows) + row
  {
    assert (rows + [row])[..|rows|] == rows;
  }

  lemma MulSucc(n: int, w: int)
    ensures (n + 1) * w == n * w + w && w * (n + 1) == w * n + w
  {
  }

  lemma MulNonneg(x: int, y: int)
    requires 0 <= x && 0 <= y
    ensures 0 <= x * y
  {
  }

  lemma Distrib(x: int, y: int, z: int)
    ensures x * (y - z) == x * y - x * z
    ensures (y - z) * x == y * x - z * x
  {
  }

  lemma MulComm(n: int, w: int)
    ensures n * w == w * n
  {
  }

  /** Row `y` of a buffer with rows of `w` samples lies inside a buffer of
      `h` such rows. */
  lemma {:induction false} RowFits(y: int, w: nat, h: int)
    requires 0 <= y < h
    ensures 0 <= y * w && y * w + w <= w * h
    decreases h - y
  {
    MulSucc(y, w);
    if y + 1 < h {
      RowFits(y + 1, w, h);
    } else {
      MulComm(h, w);
    }
  }

  /** With every row `w` long, the flat buffer has `w * |rows|` samples. */
  lemma {:induction false} FlattenLength(rows: seq<seq<byte>>, w: nat)
    requires forall y :: 0 <= y < |rows| ==> |rows[y]| == w
    ensures |Flatten(rows)| == w * |rows|
  {
    if rows != [] {
      var n := |rows| - 1;
      FlattenLength(rows[..n], w);
      MulSucc(n, w);
    }
  }

  /** With every row `w` long, sample `x` of row `y` sits at index `y*w + x`
      of the flat buffer. */
  lemma {:induction false} FlattenAt(rows: seq<seq<byte>>, w: nat, y: int, x: int)
    requires forall k :: 0 <= k < |rows| ==> |rows[k]| == w
    requires 0 <= y < |rows| && 0 <= x < w
    ensures 0 <= y * w + x < |Flatten(rows)| && Flatten(rows)[y * w + x] == rows[y][x]
  {
    var n := |rows| - 1;
    var init := rows[..n];
    FlattenLength(init, w);
    RowFits(y, w, |rows|);
    FlattenLength(rows, w);
    assert Flatten(rows) == Flatten(init) + rows[n];
    if y < n {
      FlattenAt(init, w, y, x);
      assert init[y] == rows[y];
    } else {
      MulComm(n, w);
      assert y * w + x == |Flatten(init)| + x;
    }
  }

  /** Rows that are the successive `w`-sample slices of `img` lay end to end
      into `img`. */
  lemma {:induction false} SlicesFlatten(img: seq<byte>, w: nat, rows: seq<seq<byte>>)
    requires |img| == w * |rows|
    requires forall y :: 0 <= y < |rows| ==> 0 <= y * w && y * w + w <= |img| && rows[y] == img[y * w .. y * w + w]
    ensures Flatten(rows) == img
  {
    var h := |rows|;
    if h > 0 {
      var n := h - 1;
      RowFits(n, w, h);
      MulComm(n, w);
      var prefix := img[..w * n];
      forall y | 0 <= y < n
        ensures 0 <= y * w && y * w + w <= |prefix| && rows[..n][y] == prefix[y * w .. y * w + w]
      {
        RowFits(y, w, n);
        assert rows[y] == img[y * w .. y * w + w];
      }
      SlicesFlatten(prefix, w, rows[..n]);
      MulSucc(n, w);
      assert rows[n] == img[w * n ..];
      calc {
        Flatten(rows);
        Flatten(rows[..n]) + rows[n];
        prefix + img[w * n ..];
        img;
      }
    }
  }

  /** A flat buffer of `w*h` samples cut into `h` rows of `w` is recovered
      by laying the rows end to end exactly when row `y` is the slice
      `[y*w, y*w + w)` of it. */
  lemma FlattenSlices(img: seq<byte>, w: nat, rows: seq<seq<byte>>)
    requires |img| == w * |rows|
    requires forall y :: 0 <= y < |rows| ==> |rows[y]| == w
    ensures Flatten(rows) == img <==>
            forall y :: 0 <= y < |rows| ==> 0 <= y * w && y * w + w <= |img| && rows[y] == img[y * w .. y * w + w]
  {
    var h := |rows|;
    if Flatten(rows) == img {
      forall y | 0 <= y < h
        ensures 0 <= y * w && y * w + w <= |img| && rows[y] == img[y * w .. y * w + w]
      {
        RowFits(y, w, h);
        forall x | 0 <= x < w ensures rows[y][x] == img[y * w .. y * w + w][x] {
          FlattenAt(rows, w, y, x);
        }
      }
    }
    if forall y :: 0 <= y < h ==> 0 <= y * w && y * w + w <= |img| && rows[y] == img[y * w .. y * w + w] {
      SlicesFlatten(img, w, rows);
    }
  }
}
