/** The pixel matrix as numpy lays it out: `reshape((d, d, 3))` on the way in and
    `tobytes()` on the way out, both in row-major (C) order. */
module Pixels {
  import opened Bytes
  import Geometry

  /** An image's pixel array: rows, each a sequence of pixels, each a sequence of channel bytes. */
  type Grid = seq<seq<seq<Byte>>>

  /** `g` is a `d x d` image of 3-channel pixels. */
  predicate IsImage(g: Grid, d: nat)
  {
    && |g| == d
    && forall r :: 0 <= r < d ==>
         |g[r]| == d && forall c :: 0 <= c < d ==> |g[r][c]| == Geometry.CHANNELS
  }

  /** `np.frombuffer(buf, dtype=np.uint8).reshape((d, d, 3))`: the buffer cut
      into `d` rows of `d` pixels of 3 bytes. */
  function Reshape(buf: seq<Byte>, d: nat): (g: Grid)
    requires |buf| == d * d * Geometry.CHANNELS
    ensures IsImage(g, d)
  {
    var rows := Chunks(buf, d, d * Geometry.CHANNELS);
    seq(d, r requires 0 <= r < d => Chunks(rows[r], d, Geometry.CHANNELS))
  }

  /** The bytes of each row: its pixels' channel bytes, in order. */
  function RowBytes(g: Grid): seq<seq<Byte>>
  {
    seq(|g|, r requires 0 <= r < |g| => Concat(g[r]))
  }

  /** Where channel `k` of pixel `(r, c)` of a `d`-wide RGB image sits in row-major order. */
  function Offset(d: nat, r: nat, c: nat, k: nat): nat
  {
    Geometry.CHANNELS * (r * d + c) + k
  }

  /** `flat` holds the `d x d` RGB image `g` in row-major order: channel `k` of
      pixel `(r, c)` is byte `3 * (r * d + c) + k`, and nothing else is there. */
  predicate RowMajor(flat: seq<Byte>, g: Grid, d: nat)
  {
    && IsImage(g, d)
    && |flat| == d * d * Geometry.CHANNELS
    && forall r, c, k :: 0 <= r < d && 0 <= c < d && 0 <= k < Geometry.CHANNELS ==>
         Offset(d, r, c, k) < |flat| &&
         flat[Offset(d, r, c, k)] == g[r][c][k]
  }

  /** `ndarray.tobytes()`: the bytes of every pixel, row after row, channel order
      kept; a square RGB image comes out in row-major order. */
  function Flatten(g: Grid): (flat: seq<Byte>)
    ensures IsImage(g, |g|) ==> RowMajor(flat, g, |g|)
  {
    RowBytesAt(g);
    Concat(RowBytes(g))
  }

  /** Row-major layout: channel `k` of pixel `(r, c)` is byte `3 * (r * d + c) + k`. */
  lemma PixelAt(buf: seq<Byte>, d: nat, r: nat, c: nat, k: nat)
    requires |buf| == d * d * Geometry.CHANNELS
    requires r < d && c < d && k < Geometry.CHANNELS
    ensures Offset(d, r, c, k) < |buf|
    ensures Reshape(buf, d)[r][c][k] == buf[Offset(d, r, c, k)]
  {
    var rows := Chunks(buf, d, d * Geometry.CHANNELS);
    var j := c * Geometry.CHANNELS + k;
    assert j < d * Geometry.CHANNELS;
    ChunkAt(rows[r], d, Geometry.CHANNELS, c, k);
    ChunkAt(buf, d, d * Geometry.CHANNELS, r, j);
    RowMajorOffset(r, c, k, d);
  }

  lemma RowMajorOffset(r: nat, c: nat, k: nat, d: nat)
    ensures r * (d * Geometry.CHANNELS) + (c * Geometry.CHANNELS + k) == Offset(d, r, c, k)
  {
    assert r * (d * Geometry.CHANNELS) == Geometry.CHANNELS * (r * d);
  }

  /** The row bytes of a `d x d` image, joined, reshape into the same image. */
  lemma ReshapeRowBytes(g: Grid, d: nat)
    requires IsImage(g, d)
    ensures |Concat(RowBytes(g))| == d * d * Geometry.CHANNELS
    ensures Reshape(Concat(RowBytes(g)), d) == g
  {
    var rows := RowBytes(g);
    forall r | 0 <= r < d
      ensures |rows[r]| == d * Geometry.CHANNELS && Chunks(rows[r], d, Geometry.CHANNELS) == g[r]
    {
      ChunksConcat(g[r], Geometry.CHANNELS);
    }
    ChunksConcat(rows, d * Geometry.CHANNELS);
    assert |Concat(rows)| == d * (d * Geometry.CHANNELS);
  }

  /** A reshaped buffer holds its image in row-major order. */
  lemma ReshapeRowMajor(buf: seq<Byte>, d: nat)
    requires |buf| == d * d * Geometry.CHANNELS
    ensures RowMajor(buf, Reshape(buf, d), d)
  {
    var g := Reshape(buf, d);
    forall r, c, k | 0 <= r < d && 0 <= c < d && 0 <= k < Geometry.CHANNELS
      ensures Offset(d, r, c, k) < |buf|
      ensures buf[Offset(d, r, c, k)] == g[r][c][k]
    {
      PixelAt(buf, d, r, c, k);
    }
  }

  /** The joined row bytes of a square image are in row-major order. */
  lemma RowBytesAt(g: Grid)
    ensures IsImage(g, |g|) ==> RowMajor(Concat(RowBytes(g)), g, |g|)
  {
    if IsImage(g, |g|) {
      var buf := Concat(RowBytes(g));
      ReshapeRowBytes(g, |g|);
      ReshapeRowMajor(buf, |g|);
    }
  }

  /** Flattening the reshaped buffer gives the buffer back unchanged. */
  lemma FlattenReshape(buf: seq<Byte>, d: nat)
    requires |buf| == d * d * Geometry.CHANNELS
    ensures Flatten(Reshape(buf, d)) == buf
  {
    var rows := Chunks(buf, d, d * Geometry.CHANNELS);
    var g := Reshape(buf, d);
    forall r | 0 <= r < d
      ensures Concat(g[r]) == rows[r]
    {
      ConcatChunks(rows[r], d, Geometry.CHANNELS);
    }
    assert RowBytes(g) == rows;
    ConcatChunks(buf, d, d * Geometry.CHANNELS);
  }

  /** Reshaping the flattened bytes of a `d x d` image gives the same image back. */
  lemma ReshapeFlatten(g: Grid, d: nat)
    requires IsImage(g, d)
    ensures |Flatten(g)| == d * d * Geometry.CHANNELS
    ensures Reshape(Flatten(g), d) == g
  {
    ReshapeRowBytes(g, d);
  }
}
