/** The fixed grid unit of tile art and the integer types the loaders read
    from asset metadata. */
module Grid {

  /** Width and height, in pixels, of one tile. */
  const TileSize: nat := 20

  /** Width and height, in pixels, of one quadrant of a tile: half of
      `TileSize`, written out so that the arithmetic over it stays linear. */
  const HalfTileSize: nat := 10

  /** Number of bytes per RGBA pixel in a decoded image buffer. */
  const PixelSize: nat := 4

  /** One more than the largest `u32`. */
  const U32Limit: int := 0x1_0000_0000

  newtype u32 = x: int | 0 <= x < 0x1_0000_0000

  /** A pair of `u32` coordinates or dimensions. */
  datatype UVec2 = UVec2(x: u32, y: u32)

  /** Division by a positive constant has a unique quotient and remainder. */
  lemma DivModUnique(n: nat, d: nat, r: nat, q: nat)
    requires 0 < d && r < d && n == r + q * d
    ensures n % d == r && n / d == q
  {
    var q', r' := n / d, n % d;
    assert n == r' + q' * d;
    if q' < q {
      assert q' * d + d <= q * d by { MulMonotone(q' + 1, q, d); }
    } else if q < q' {
      assert q * d + d <= q' * d by { MulMonotone(q + 1, q', d); }
    }
  }

  lemma MulMonotone(a: nat, b: nat, d: nat)
    requires a <= b
    ensures a * d <= b * d
  {
  }

  lemma MulSucc(a: nat, d: nat)
    ensures (a + 1) * d == a * d + d
  {
  }
}
