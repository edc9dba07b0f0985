/** The size of the square image: how many pixels the framed buffer needs and
    the side of the smallest square that holds them. */
module Geometry {

  /** Bytes per pixel: the R, G and B channels. */
  const CHANNELS: nat := 3

  /** `math.ceil(total_bytes / 3)`: the fewest 3-byte pixels that hold `total` bytes. */
  function RequiredPixels(total: nat): (p: nat)
    ensures p * CHANNELS >= total
    ensures p == 0 || (p - 1) * CHANNELS < total
  {
    (total + CHANNELS - 1) / CHANNELS
  }

  /** The integer ceiling square root: the least `d` with `d * d >= m`. */
  function CeilSqrt(m: nat): (d: nat)
    ensures d * d >= m
    ensures d == 0 || (d - 1) * (d - 1) < m
  {
    CeilSqrtFrom(m, 0)
  }

  /** The least `r >= d` with `r * r >= m`, given that every candidate below `d` is too small. */
  function CeilSqrtFrom(m: nat, d: nat): (r: nat)
    requires d == 0 || (d - 1) * (d - 1) < m
    ensures r * r >= m
    ensures r == 0 || (r - 1) * (r - 1) < m
    decreases m - d
  {
    if d * d >= m then d
    else
      assert d <= d * d;
      CeilSqrtFrom(m, d + 1)
  }

  /** `a <= b` gives `a * a <= b * b` on naturals. */
  lemma SquareMonotone(a: nat, b: nat)
    requires a <= b
    ensures a * a <= b * b
  {
    assert a * a <= a * b;
    assert a * b <= b * b;
  }

  /** `math.ceil(math.sqrt(required_pixels))`, read as the integer ceiling square
      root: the side of the square image for a buffer of `total` bytes, which
      always has room for the whole buffer. */
  function Dimension(total: nat): (d: nat)
    ensures d * d * CHANNELS >= total
  {
    CeilSqrt(RequiredPixels(total))
  }

  /** No smaller square holds the buffer: every side `e` whose square has room
      for `total` bytes is at least `Dimension(total)`. */
  lemma DimensionIsLeast(total: nat, e: nat)
    requires e * e * CHANNELS >= total
    ensures Dimension(total) <= e
  {
    var p := RequiredPixels(total);
    var d := Dimension(total);
    assert e * e >= p;
    if e < d {
      SquareMonotone(e, d - 1);
      assert false;
    }
  }
}
