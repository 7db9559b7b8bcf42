/** A tiling texture: one large pixel layer addressed with wrap-around in
    both axes, for seamless backgrounds. */
module Textures {
  import opened Grid
  import opened Pixels

  /** `texture` is `size.x` tiles wide and `size.y` tiles high; `layers`
      records which physical layers it was made from. */
  datatype TileTexture = TileTexture(texture: TileLayer, size: UVec2, layers: seq<nat>)

  /** Width of the texture in pixels. */
  function Width(size: UVec2): nat {
    size.x as nat * TileSize
  }

  /** Height of the texture in pixels. */
  function Height(size: UVec2): nat {
    size.y as nat * TileSize
  }

  /** Both periods are non-zero (the wrap divides by them) and every index
      the lookup computes fits in a `u32`. */
  predicate Addressable(size: UVec2) {
    0 < size.x && 0 < size.y && Width(size) * Height(size) <= U32Limit
  }

  /** The row-major index of `pos` after wrapping each coordinate into the
      texture. */
  function WrapIndex(size: UVec2, pos: UVec2): (idx: nat)
    requires Addressable(size)
    ensures idx < Width(size) * Height(size)
  {
    var w, h := Width(size), Height(size);
    var x, y := pos.x as nat % w, pos.y as nat % h;
    RowMajorBound(x, y, size.x as nat, w, h);
    x + y * TileSize * size.x as nat
  }

  lemma RowMajorBound(x: nat, y: nat, sx: nat, w: nat, h: nat)
    requires w == sx * TileSize && x < w && y < h
    ensures x + y * TileSize * sx < w * h
  {
    assert y * TileSize * sx == y * w;
    MulMonotone(y, h - 1, w);
    MulSucc(h - 1, w);
  }

  /** The pixel the texture shows at an unbounded position: the pixel at
      the wrapped column of the wrapped row, rows being `Width` pixels long. */
  function GetPixel(t: TileTexture, pos: UVec2): (px: TilePixel)
    requires Addressable(t.size) && WrapIndex(t.size, pos) < |t.texture.colors|
    ensures var w, h := Width(t.size), Height(t.size);
            && pos.x as nat % w + (pos.y as nat % h) * w < |t.texture.colors|
            && px == t.texture.colors[pos.x as nat % w + (pos.y as nat % h) * w]
  {
    WrapIndexRowMajor(t.size, pos);
    t.texture.colors[WrapIndex(t.size, pos)]
  }

  /** A texture holding exactly `Width * Height` pixels answers every
      position. */
  lemma SizedTextureAnswersEverywhere(t: TileTexture, pos: UVec2)
    requires Addressable(t.size)
    requires |t.texture.colors| == Width(t.size) * Height(t.size)
    ensures WrapIndex(t.size, pos) < |t.texture.colors|
  {
  }

  /** Positions congruent modulo the texture's width and height show the
      same pixel. */
  lemma SameResiduesSamePixel(t: TileTexture, p: UVec2, p': UVec2)
    requires Addressable(t.size) && WrapIndex(t.size, p) < |t.texture.colors|
    requires p.x as nat % Width(t.size) == p'.x as nat % Width(t.size)
    requires p.y as nat % Height(t.size) == p'.y as nat % Height(t.size)
    ensures WrapIndex(t.size, p') < |t.texture.colors|
    ensures GetPixel(t, p) == GetPixel(t, p')
  {
  }

  /** Shifting a position by whole texture periods leaves the pixel as it
      was. */
  lemma {:induction false} Periodic(t: TileTexture, pos: UVec2, i: nat, j: nat)
    requires Addressable(t.size) && WrapIndex(t.size, pos) < |t.texture.colors|
    requires pos.x as nat + i * Width(t.size) < U32Limit
    requires pos.y as nat + j * Height(t.size) < U32Limit
    ensures var shifted := UVec2((pos.x as nat + i * Width(t.size)) as u32,
                                 (pos.y as nat + j * Height(t.size)) as u32);
            && WrapIndex(t.size, shifted) < |t.texture.colors|
            && GetPixel(t, shifted) == GetPixel(t, pos)
  {
    var w, h := Width(t.size), Height(t.size);
    var shifted := UVec2((pos.x as nat + i * w) as u32, (pos.y as nat + j * h) as u32);
    ModAddMultiple(pos.x as nat, i, w);
    ModAddMultiple(pos.y as nat, j, h);
    SameResiduesSamePixel(t, pos, shifted);
  }

  /** Adding a multiple of the divisor leaves the remainder unchanged. */
  lemma ModAddMultiple(a: nat, k: nat, d: nat)
    requires 0 < d
    ensures (a + k * d) % d == a % d
  {
    DivModUnique(a + k * d, d, a % d, a / d + k);
  }

  /** The index in terms of the pixel width: wrapped column plus wrapped
      row times the width. */
  lemma WrapIndexRowMajor(size: UVec2, pos: UVec2)
    requires Addressable(size)
    ensures WrapIndex(size, pos)
            == pos.x as nat % Width(size) + (pos.y as nat % Height(size)) * Width(size)
  {
    var y := pos.y as nat % Height(size);
    assert y * TileSize * size.x as nat == y * (size.x as nat * TileSize);
  }

  /** Inside one period the index is the row-major linearisation: column
      and row can be read back from it. */
  lemma {:induction false} WrapIndexInvertible(size: UVec2, pos: UVec2)
    requires Addressable(size)
    requires (pos.x as nat) < Width(size) && (pos.y as nat) < Height(size)
    ensures WrapIndex(size, pos) % Width(size) == pos.x as nat
    ensures WrapIndex(size, pos) / Width(size) == pos.y as nat
  {
    var w, h := Width(size), Height(size);
    var x, y := pos.x as nat, pos.y as nat;
    DivModUnique(x, w, x, 0);
    DivModUnique(y, h, y, 0);
    WrapIndexRowMajor(size, pos);
    DivModUnique(WrapIndex(size, pos), w, x, y);
  }

  /** Every pixel of a sized texture is shown at some position inside the
      first period. */
  lemma {:induction false} WrapIndexCovers(size: UVec2, idx: nat) returns (pos: UVec2)
    requires Addressable(size) && idx < Width(size) * Height(size)
    ensures (pos.x as nat) < Width(size) && (pos.y as nat) < Height(size)
    ensures WrapIndex(size, pos) == idx
  {
    var w, h := Width(size), Height(size);
    var x, y := SplitRowMajor(idx, w, h);
    pos := UVec2(x as u32, y as u32);
    WrapIndexRowMajor(size, pos);
    assert x % w == x by { DivModUnique(x, w, x, 0); }
    assert y % h == y by { DivModUnique(y, h, y, 0); }
  }

  /** An index inside a `w` by `h` grid has a column below `w` and a row
      below `h`, both of which fit in a `u32` when the grid does. */
  lemma SplitRowMajor(idx: nat, w: nat, h: nat) returns (x: nat, y: nat)
    requires 0 < w && idx < w * h && w * h <= U32Limit
    ensures x < w && y < h && idx == x + y * w
    ensures x < U32Limit && y < U32Limit
  {
    x, y := idx % w, idx / w;
    if y >= h {
      MulMonotone(h, y, w);
    }
    MulMonotone(1, h, w);
    MulMonotone(1, w, h);
  }
}
