/** A block material: four quadrants of adjacency-dependent art, plus a
    layer-repeat table that only gates which logical slots are available. */
module Blocks {
  import opened Grid
  import opened Pixels
  import opened SubTiles

  /** Quadrants in order: 0 top left, 1 top right, 2 bottom right,
      3 bottom left. */
  datatype BlockMaterial = BlockMaterial(subTiles: seq<SubTile>, computedTileLayers: seq<nat>)

  /** Number of entries in a full neighbour state. */
  const NeighborCount: nat := 9

  /** A position inside a tile, as a quadrant and an index into that
      quadrant's `HalfTileSize`-wide grid. */
  datatype Placement = Placement(quadrant: nat, local: nat)

  predicate ValidPlacement(p: Placement) {
    p.quadrant < 4 && p.local < HalfTileSize * HalfTileSize
  }

  /** Splits a row-major position of a tile into its quadrant and the
      row-major position inside that quadrant. */
  function Split(rpos: nat): (p: Placement)
    requires rpos < TileSize * TileSize
    ensures ValidPlacement(p)
  {
    var x, y := rpos % TileSize, rpos / TileSize;
    var quadrant :=
      if x <= 9 && y <= 9 then 0
      else if x >= 10 && y <= 9 then 1
      else if x >= 10 && y >= 10 then 2
      else 3;
    var x := if x > 9 then x - 10 else x;
    var y := if y > 9 then y - 10 else y;
    Placement(quadrant, x + y * HalfTileSize)
  }

  /** The tile position of a placement: the inverse of `Split`. */
  function Join(p: Placement): (rpos: nat)
    requires ValidPlacement(p)
    ensures rpos < TileSize * TileSize
  {
    var dx := if p.quadrant == 1 || p.quadrant == 2 then HalfTileSize else 0;
    var dy := if p.quadrant >= 2 then HalfTileSize else 0;
    var x := p.local % HalfTileSize + dx;
    var y := p.local / HalfTileSize + dy;
    x + y * TileSize
  }

  /** The quadrants are the four quarters of the tile, clockwise from the
      top left. */
  lemma QuadrantsAreQuarters(rpos: nat)
    requires rpos < TileSize * TileSize
    ensures var x, y := rpos % TileSize, rpos / TileSize;
            && (Split(rpos).quadrant == 0 <==> x < HalfTileSize && y < HalfTileSize)
            && (Split(rpos).quadrant == 1 <==> x >= HalfTileSize && y < HalfTileSize)
            && (Split(rpos).quadrant == 2 <==> x >= HalfTileSize && y >= HalfTileSize)
            && (Split(rpos).quadrant == 3 <==> x < HalfTileSize && y >= HalfTileSize)
  {
  }

  /** Splitting a joined placement gives the placement back. */
  lemma {:induction false} SplitJoin(p: Placement)
    requires ValidPlacement(p)
    ensures Split(Join(p)) == p
  {
    var lx, ly := p.local % HalfTileSize, p.local / HalfTileSize;
    var dx := if p.quadrant == 1 || p.quadrant == 2 then HalfTileSize else 0;
    var dy := if p.quadrant >= 2 then HalfTileSize else 0;
    var rpos := Join(p);
    assert rpos == (lx + dx) + (ly + dy) * TileSize;
    assert rpos % TileSize == lx + dx && rpos / TileSize == ly + dy by {
      DivModUnique(rpos, TileSize, lx + dx, ly + dy);
    }
    assert p.local == lx + ly * HalfTileSize;
  }

  /** Joining a split position gives the position back: together with
      `SplitJoin`, positions and valid placements are in one-to-one
      correspondence. */
  lemma {:induction false} JoinSplit(rpos: nat)
    requires rpos < TileSize * TileSize
    ensures Join(Split(rpos)) == rpos
  {
    var p := Split(rpos);
    var x, y := rpos % TileSize, rpos / TileSize;
    var lx := if x > 9 then x - 10 else x;
    var ly := if y > 9 then y - 10 else y;
    assert p.local == lx + ly * HalfTileSize;
    assert p.local % HalfTileSize == lx && p.local / HalfTileSize == ly by {
      DivModUnique(p.local, HalfTileSize, lx, ly);
    }
  }

  /** The three-cell neighbour window a quadrant reads: cells `2q` to `2q + 2`. */
  function Window(neighbors: seq<bool>, quadrant: nat): (w: seq<bool>)
    requires 2 * quadrant + 3 <= |neighbors|
    ensures |w| == 3
    ensures forall k :: 0 <= k < 3 ==> w[k] == neighbors[2 * quadrant + k]
  {
    neighbors[2 * quadrant .. 2 * quadrant + 3]
  }

  /** Everything a lookup at `rpos` indexes exists: the position is inside
      the tile, its quadrant has a sub tile, the neighbour window is inside
      `neighbors`, and the selected variant covers the local position. */
  predicate CanDraw(m: BlockMaterial, rpos: nat, neighbors: seq<bool>) {
    && rpos < TileSize * TileSize
    && var p := Split(rpos);
    && p.quadrant < |m.subTiles|
    && 2 * p.quadrant + 3 <= |neighbors|
    && var st := m.subTiles[p.quadrant];
    && Select(st.quadrant, Window(neighbors, p.quadrant)) < |st.data|
    && p.local < |Get(st, Window(neighbors, p.quadrant)).colors|
  }

  /** The pixel of block `m` at tile position `rpos` for logical slot
      `subLayer`, given the occupancy of the surrounding cells. A slot beyond
      the layer-repeat table draws `Neutral`; otherwise the slot plays no
      further part. */
  function GetPixel(m: BlockMaterial, subLayer: nat, rpos: nat, neighbors: seq<bool>): (px: TilePixel)
    requires subLayer < |m.computedTileLayers| ==> CanDraw(m, rpos, neighbors)
    ensures subLayer >= |m.computedTileLayers| ==> px == Neutral
    ensures subLayer < |m.computedTileLayers| ==>
      var p := Split(rpos);
      exists v :: 0 <= v < |m.subTiles[p.quadrant].data| &&
                  p.local < |m.subTiles[p.quadrant].data[v].colors| &&
                  px == m.subTiles[p.quadrant].data[v].colors[p.local]
  {
    if subLayer >= |m.computedTileLayers| then Neutral
    else
      var p := Split(rpos);
      Get(m.subTiles[p.quadrant], Window(neighbors, p.quadrant)).colors[p.local]
  }

  /** A neighbour state of nine cells covers the window of every quadrant. */
  lemma NineNeighborsSuffice(rpos: nat)
    requires rpos < TileSize * TileSize
    ensures 2 * Split(rpos).quadrant + 3 <= NeighborCount
  {
  }

  /** Every available slot draws the same pixel: the table gates, it does
      not select. */
  lemma SlotOnlyGates(m: BlockMaterial, s: nat, s': nat, rpos: nat, neighbors: seq<bool>)
    requires s < |m.computedTileLayers| && s' < |m.computedTileLayers|
    requires CanDraw(m, rpos, neighbors)
    ensures GetPixel(m, s, rpos, neighbors) == GetPixel(m, s', rpos, neighbors)
  {
  }

  /** A quadrant reads only its own window: neighbour states that agree on
      cells `2q` to `2q + 2` draw the same pixel in quadrant `q`. */
  lemma OnlyOwnWindowMatters(m: BlockMaterial, s: nat, rpos: nat, n1: seq<bool>, n2: seq<bool>)
    requires CanDraw(m, rpos, n1) && CanDraw(m, rpos, n2)
    requires var q := Split(rpos).quadrant;
             forall k :: 2 * q <= k <= 2 * q + 2 ==> n1[k] == n2[k]
    ensures GetPixel(m, s, rpos, n1) == GetPixel(m, s, rpos, n2)
  {
    var q := Split(rpos).quadrant;
    assert Window(n1, q) == Window(n2, q);
  }
}
