/** The pure index arithmetic of the three asset loaders: how a decoded
    image is cut into tile layers, into material quadrants and their
    adjacency variants, or kept whole as a texture. Reading the file and
    decompressing the image happen before this and are not modelled; each
    loader starts from the RGBA buffer the decompressor produced. */
module Loaders {
  import opened Results
  import opened Grid
  import opened Pixels
  import opened SubTiles
  import Blocks
  import Tiles
  import Textures
  import LayerRepeats

  /** Metadata of a flat tile asset. */
  datatype TileMeta = TileMeta(name: string, size: UVec2, layerRepeats: seq<nat>)

  /** Metadata of a texture asset. */
  datatype TextureMeta = TextureMeta(name: string, size: UVec2, layers: seq<nat>)

  /** Metadata of a block material asset. */
  datatype MaterialMeta = MaterialMeta(name: string, layerRepeats: seq<nat>)

  /** Why a load fails; each is a panic of the modelled loader. */
  datatype LoadError =
    | Undecodable(cause: DecodeError)   // the image holds a pixel outside the table
    | SizeOverflow                      // `size.x * size.y` does not fit a `u32`
    | ZeroChunkSize                     // a tile of zero area cannot be cut into layers
    | ShortMaterialChunk(quadrant: nat) // the last quadrant has fewer than `QuadrantChunk` pixels

  /** Number of adjacency variants stacked side by side in a material sheet. */
  const BlockRows: nat := 5

  /** Pixels of one quadrant's strip of a material sheet: `BlockRows`
      variants, each `HalfTileSize` square, so 10 * 10 * 5. */
  const QuadrantChunk: nat := 500

  /** Concatenation of a sequence of sequences. */
  function Flatten<T>(cs: seq<seq<T>>): seq<T> {
    if |cs| == 0 then [] else cs[0] + Flatten(cs[1..])
  }

  /** Consecutive pieces of `s` of length `n`; the last piece is shorter when
      `n` does not divide `|s|` (that the pieces add back up to `s` is
      `ChunksFlatten`). */
  function Chunks<T>(s: seq<T>, n: nat): (cs: seq<seq<T>>)
    requires 0 < n
    ensures forall i :: 0 <= i < |cs| ==> 0 < |cs[i]| <= n
    ensures forall i :: 0 <= i < |cs| - 1 ==> |cs[i]| == n
    decreases |s|
  {
    if |s| == 0 then []
    else if |s| <= n then [s]
    else [s[..n]] + Chunks(s[n..], n)
  }

  /** The pieces laid end to end are the input. */
  lemma {:induction false} ChunksFlatten<T>(s: seq<T>, n: nat)
    requires 0 < n
    ensures Flatten(Chunks(s, n)) == s
    decreases |s|
  {
    if |s| > n {
      var cs := Chunks(s, n);
      assert cs[1..] == Chunks(s[n..], n);
      ChunksFlatten(s[n..], n);
      assert s == s[..n] + s[n..];
    } else if |s| > 0 {
      assert Flatten(Chunks(s, n)) == s + Flatten([]);
    }
  }

  /** Element `k` of piece `i` is element `i * n + k` of the whole. */
  lemma ChunkElement<T>(s: seq<T>, n: nat, i: nat, k: nat)
    requires 0 < n && i < |Chunks(s, n)| && k < |Chunks(s, n)[i]|
    ensures i * n + k < |s| && Chunks(s, n)[i][k] == s[i * n + k]
  {
    ChunkElementAt(s, n, i, k);
    OffsetIsProduct(i, n);
  }

  /** `i * n`, counted up one piece at a time. */
  function Offset(i: nat, n: nat): nat {
    if i == 0 then 0 else Offset(i - 1, n) + n
  }

  lemma {:induction false} OffsetIsProduct(i: nat, n: nat)
    ensures Offset(i, n) == i * n
  {
    if i > 0 {
      OffsetIsProduct(i - 1, n);
      MulSucc(i - 1, n);
    }
  }

  lemma {:induction false} ChunkElementAt<T>(s: seq<T>, n: nat, i: nat, k: nat)
    requires 0 < n && i < |Chunks(s, n)| && k < |Chunks(s, n)[i]|
    ensures Offset(i, n) + k < |s| && Chunks(s, n)[i][k] == s[Offset(i, n) + k]
    decreases |s|
  {
    var cs := Chunks(s, n);
    if |s| <= n {
      assert cs == [s];
    } else {
      var rest := s[n..];
      assert cs == [s[..n]] + Chunks(rest, n);
      if i == 0 {
        assert cs[0] == s[..n];
      } else {
        assert cs[i] == Chunks(rest, n)[i - 1];
        ChunkElementAt(rest, n, i - 1, k);
        var j := Offset(i - 1, n) + k;
        assert Offset(i, n) + k == j + n;
        assert cs[i][k] == rest[j];
      }
    }
  }

  /** When `n` divides `|s|`, there are `|s| / n` pieces, all of length `n`. */
  lemma {:induction false} ChunksExact<T>(s: seq<T>, n: nat)
    requires 0 < n && |s| % n == 0
    ensures |Chunks(s, n)| == |s| / n
    ensures forall i :: 0 <= i < |Chunks(s, n)| ==> |Chunks(s, n)[i]| == n
    decreases |s|
  {
    if |s| > n {
      DivModUnique(|s|, n, 0, |s| / n);
      DivModUnique(|s| - n, n, 0, |s| / n - 1);
      ChunksExact(s[n..], n);
    } else if |s| > 0 {
      DivModUnique(|s|, n, |s| % n, |s| / n);
    }
  }

  // ---------------------------------------------------------------------
  // Flat tiles

  /** Loads a flat tile: the decoded pixels are cut into physical layers of
      `size.x * size.y` whole tiles each. */
  function LoadTile(image: seq<byte>, meta: TileMeta): (r: Result<Tiles.Tile, LoadError>)
    ensures r.Ok? <==> DecodePixels(image).Ok? && 0 < meta.size.x as nat * meta.size.y as nat < U32Limit
    ensures DecodePixels(image).Err? ==> r == Err(Undecodable(DecodePixels(image).error))
    ensures r.Ok? ==> r.value.size == meta.size &&
                      r.value.computedTileLayers == LayerRepeats.ComputeTileLayers(meta.layerRepeats)
  {
    match DecodePixels(image)
    case Err(e) => Err(Undecodable(e))
    case Ok(ps) =>
      var area := meta.size.x as nat * meta.size.y as nat;
      if area >= U32Limit then Err(SizeOverflow)
      else if area == 0 then Err(ZeroChunkSize)
      else
        var cs := Chunks(ps, TileSize * TileSize * area);
        Ok(Tiles.Tile(seq(|cs|, i requires 0 <= i < |cs| => TileLayer(cs[i])),
                      LayerRepeats.ComputeTileLayers(meta.layerRepeats),
                      meta.size))
  }

  /** Pixels per physical layer of a tile of the given size. */
  function LayerLength(size: UVec2): nat {
    TileSize * TileSize * (size.x as nat * size.y as nat)
  }

  /** The layers of a loaded tile, laid end to end, are the decoded image;
      every layer but the last holds exactly `LayerLength` pixels. */
  lemma LoadedTileLayers(image: seq<byte>, meta: TileMeta)
    requires LoadTile(image, meta).Ok?
    ensures var t := LoadTile(image, meta).value;
            && Flatten(seq(|t.layers|, i requires 0 <= i < |t.layers| => t.layers[i].colors))
               == DecodePixels(image).value
            && (forall i :: 0 <= i < |t.layers| ==> 0 < |t.layers[i].colors| <= LayerLength(meta.size))
            && (forall i :: 0 <= i < |t.layers| - 1 ==> |t.layers[i].colors| == LayerLength(meta.size))
  {
    var t := LoadTile(image, meta).value;
    var cs := Chunks(DecodePixels(image).value, LayerLength(meta.size));
    ChunksFlatten(DecodePixels(image).value, LayerLength(meta.size));
    assert seq(|t.layers|, i requires 0 <= i < |t.layers| => t.layers[i].colors) == cs;
  }

  /** Looking up a loaded tile: an available slot draws pixel `rpos` of the
      physical layer whose run contains the slot, which is pixel
      `i * LayerLength + rpos` of the decoded image; any other slot draws
      `Neutral`. */
  lemma LoadedTileLookup(image: seq<byte>, meta: TileMeta, t: Tiles.Tile, ps: seq<TilePixel>,
                         subLayer: nat, rpos: nat)
    requires LoadTile(image, meta) == Ok(t) && DecodePixels(image) == Ok(ps)
    requires subLayer < |t.computedTileLayers| ==> Tiles.CanDraw(t, subLayer, rpos)
    ensures var n := LayerLength(meta.size);
            match LayerRepeats.LayerOf(meta.layerRepeats, subLayer)
            case Nothing => Tiles.GetPixel(t, subLayer, rpos) == Neutral
            case Some(i) => i * n + rpos < |ps| && Tiles.GetPixel(t, subLayer, rpos) == ps[i * n + rpos]
  {
    LoadedLayers(image, meta, t, ps);
    LookupInPieces(t, meta.layerRepeats, ps, LayerLength(meta.size), subLayer, rpos);
  }

  /** The layers of a loaded tile are the pieces of the decoded image. */
  lemma LoadedLayers(image: seq<byte>, meta: TileMeta, t: Tiles.Tile, ps: seq<TilePixel>)
    requires LoadTile(image, meta) == Ok(t) && DecodePixels(image) == Ok(ps)
    ensures 0 < LayerLength(meta.size)
    ensures t.computedTileLayers == LayerRepeats.ComputeTileLayers(meta.layerRepeats)
    ensures |t.layers| == |Chunks(ps, LayerLength(meta.size))|
    ensures forall i :: 0 <= i < |t.layers| ==> t.layers[i].colors == Chunks(ps, LayerLength(meta.size))[i]
  {
  }

  /** A lookup in a tile whose layers are the length-`n` pieces of `ps`
      reads `ps` at the start of the selected piece plus `rpos`. */
  lemma LookupInPieces(t: Tiles.Tile, rs: seq<nat>, ps: seq<TilePixel>, n: nat, subLayer: nat, rpos: nat)
    requires 0 < n && t.computedTileLayers == LayerRepeats.ComputeTileLayers(rs)
    requires |t.layers| == |Chunks(ps, n)|
    requires forall i :: 0 <= i < |t.layers| ==> t.layers[i].colors == Chunks(ps, n)[i]
    requires subLayer < |t.computedTileLayers| ==> Tiles.CanDraw(t, subLayer, rpos)
    ensures match LayerRepeats.LayerOf(rs, subLayer)
            case Nothing => Tiles.GetPixel(t, subLayer, rpos) == Neutral
            case Some(i) => i * n + rpos < |ps| && Tiles.GetPixel(t, subLayer, rpos) == ps[i * n + rpos]
  {
    Tiles.GetPixelFollowsRuns(t, rs, subLayer, rpos);
    match LayerRepeats.LayerOf(rs, subLayer)
    case Nothing =>
    case Some(i) =>
      ChunkElement(ps, n, i, rpos);
  }

  // ---------------------------------------------------------------------
  // Block materials

  /** Where pixel `(vx, vy)` of variant `r` sits in a quadrant's strip: the
      strip is `BlockRows` variants wide, laid side by side. */
  function SourceIndex(r: nat, vx: nat, vy: nat): (w: nat)
    requires r < BlockRows && vx < HalfTileSize && vy < HalfTileSize
    ensures w < QuadrantChunk
  {
    var start := r * HalfTileSize;
    start + vx + vy * HalfTileSize * BlockRows
  }

  /** Distinct variant pixels read distinct strip pixels. */
  lemma {:induction false} SourceIndexInjective(r: nat, vx: nat, vy: nat, r': nat, vx': nat, vy': nat)
    requires r < BlockRows && vx < HalfTileSize && vy < HalfTileSize
    requires r' < BlockRows && vx' < HalfTileSize && vy' < HalfTileSize
    requires SourceIndex(r, vx, vy) == SourceIndex(r', vx', vy')
    ensures r == r' && vx == vx' && vy == vy'
  {
    var w := SourceIndex(r, vx, vy);
    var rowWidth := HalfTileSize * BlockRows;
    DivModUnique(w, rowWidth, r * HalfTileSize + vx, vy);
    DivModUnique(w, rowWidth, r' * HalfTileSize + vx', vy');
    DivModUnique(r * HalfTileSize + vx, HalfTileSize, vx, r);
    DivModUnique(r' * HalfTileSize + vx', HalfTileSize, vx', r');
  }

  /** Every strip pixel is read by some variant pixel: with injectivity, the
      slicing is a rearrangement of the strip. */
  lemma SourceIndexCovers(w: nat)
    requires w < QuadrantChunk
    ensures var rowWidth := HalfTileSize * BlockRows;
            && (w % rowWidth) / HalfTileSize < BlockRows
            && SourceIndex((w % rowWidth) / HalfTileSize, w % HalfTileSize, w / rowWidth) == w
  {
  }

  /** The five adjacency variants of one quadrant, cut out of its strip. */
  function SliceQuadrant(row: seq<TilePixel>, quadrant: nat): (st: SubTile)
    requires |row| == QuadrantChunk
    ensures st.quadrant == quadrant && |st.data| == BlockRows
    ensures forall r :: 0 <= r < BlockRows ==> |st.data[r].colors| == HalfTileSize * HalfTileSize
  {
    SubTile(quadrant, seq(BlockRows, r requires 0 <= r < BlockRows =>
      TileLayer(seq(HalfTileSize * HalfTileSize, i requires 0 <= i < HalfTileSize * HalfTileSize =>
        row[SourceIndex(r, i % HalfTileSize, i / HalfTileSize)]))))
  }

  /** Cuts a decoded material sheet into quadrants: strip `q` becomes the
      sub tile of quadrant `q`. A trailing strip that is too short fails. */
  function SliceMaterial(ps: seq<TilePixel>): (r: Result<seq<SubTile>, LoadError>)
    ensures r.Ok? <==> |ps| % QuadrantChunk == 0
    ensures r.Err? ==> r.error == ShortMaterialChunk(|ps| / QuadrantChunk)
    ensures r.Ok? ==> |r.value| == |ps| / QuadrantChunk
    ensures r.Ok? ==> forall q :: 0 <= q < |r.value| ==>
              r.value[q].quadrant == q && |r.value[q].data| == BlockRows
  {
    if |ps| % QuadrantChunk != 0 then Err(ShortMaterialChunk(|ps| / QuadrantChunk))
    else
      var chunks := Chunks(ps, QuadrantChunk);
      ChunksExact(ps, QuadrantChunk);
      Ok(seq(|chunks|, q requires 0 <= q < |chunks| => SliceQuadrant(chunks[q], q)))
  }

  /** Index into a material sheet, which is `BlockRows * HalfTileSize`
      pixels wide: quadrant strips are stacked top to bottom, variants side
      by side within a strip. */
  function SheetIndex(quadrant: nat, variant: nat, vx: nat, vy: nat): nat {
    (quadrant * HalfTileSize + vy) * (HalfTileSize * BlockRows) + variant * HalfTileSize + vx
  }

  /** Pixel `(vx, vy)` of variant `v` of quadrant `q` is the sheet pixel at
      column `v * HalfTileSize + vx` and row `q * HalfTileSize + vy`. */
  lemma {:induction false} SlicedPixel(ps: seq<TilePixel>, q: nat, v: nat, vx: nat, vy: nat)
    requires SliceMaterial(ps).Ok? && q < |SliceMaterial(ps).value|
    requires v < BlockRows && vx < HalfTileSize && vy < HalfTileSize
    ensures var st := SliceMaterial(ps).value[q];
            && vx + vy * HalfTileSize < |st.data[v].colors|
            && SheetIndex(q, v, vx, vy) < |ps|
            && st.data[v].colors[vx + vy * HalfTileSize] == ps[SheetIndex(q, v, vx, vy)]
  {
    var chunks := Chunks(ps, QuadrantChunk);
    ChunksExact(ps, QuadrantChunk);
    var i := vx + vy * HalfTileSize;
    DivModUnique(i, HalfTileSize, vx, vy);
    ChunkElement(ps, QuadrantChunk, q, SourceIndex(v, vx, vy));
    assert q * QuadrantChunk + SourceIndex(v, vx, vy) == SheetIndex(q, v, vx, vy);
  }

  /** Loads a block material: decode, expand the layer repeats, slice the
      sheet into quadrants. */
  function LoadMaterial(image: seq<byte>, meta: MaterialMeta): (r: Result<Blocks.BlockMaterial, LoadError>)
    ensures r.Ok? <==> DecodePixels(image).Ok? && |DecodePixels(image).value| % QuadrantChunk == 0
    ensures DecodePixels(image).Err? ==> r == Err(Undecodable(DecodePixels(image).error))
    ensures r.Ok? ==> r.value.computedTileLayers == LayerRepeats.ComputeTileLayers(meta.layerRepeats)
    ensures r.Ok? ==> r.value.subTiles == SliceMaterial(DecodePixels(image).value).value
  {
    var computed := LayerRepeats.ComputeTileLayers(meta.layerRepeats);
    match DecodePixels(image)
    case Err(e) => Err(Undecodable(e))
    case Ok(ps) =>
      match SliceMaterial(ps)
      case Err(e) => Err(e)
      case Ok(subTiles) => Ok(Blocks.BlockMaterial(subTiles, computed))
  }

  /** A material whose sheet has all four quadrant strips draws every
      position for any nine-cell neighbour state; an available slot shows
      the sheet pixel of the variant that the quadrant's window selects,
      and any other slot shows `Neutral`. */
  lemma LoadedBlockLookup(image: seq<byte>, meta: MaterialMeta, subLayer: nat, rpos: nat, neighbors: seq<bool>)
    requires LoadMaterial(image, meta).Ok?
    requires |DecodePixels(image).value| >= 4 * QuadrantChunk
    requires rpos < TileSize * TileSize && |neighbors| >= Blocks.NeighborCount
    ensures var m := LoadMaterial(image, meta).value;
            Blocks.CanDraw(m, rpos, neighbors)
    ensures var m := LoadMaterial(image, meta).value;
            var ps := DecodePixels(image).value;
            var p := Blocks.Split(rpos);
            var v := Select(p.quadrant, Blocks.Window(neighbors, p.quadrant));
            var vx, vy := p.local % HalfTileSize, p.local / HalfTileSize;
            && SheetIndex(p.quadrant, v, vx, vy) < |ps|
            && Blocks.GetPixel(m, subLayer, rpos, neighbors)
               == if subLayer < |LayerRepeats.ComputeTileLayers(meta.layerRepeats)|
                  then ps[SheetIndex(p.quadrant, v, vx, vy)]
                  else Neutral
  {
    var m := LoadMaterial(image, meta).value;
    var ps := DecodePixels(image).value;
    var p := Blocks.Split(rpos);
    Blocks.NineNeighborsSuffice(rpos);
    var w := Blocks.Window(neighbors, p.quadrant);
    var v := Select(p.quadrant, w);
    var vx, vy := p.local % HalfTileSize, p.local / HalfTileSize;
    DivModUnique(p.local, HalfTileSize, vx, vy) by {
      assert p.local == vx + vy * HalfTileSize;
    }
    SlicedPixel(ps, p.quadrant, v, vx, vy);
  }

  // ---------------------------------------------------------------------
  // Textures

  /** Loads a texture: the whole decoded image is one layer. */
  function LoadTexture(image: seq<byte>, meta: TextureMeta): (r: Result<Textures.TileTexture, LoadError>)
    ensures r.Ok? <==> DecodePixels(image).Ok?
    ensures DecodePixels(image).Err? ==> r == Err(Undecodable(DecodePixels(image).error))
    ensures r.Ok? ==> r.value.texture.colors == DecodePixels(image).value &&
                      r.value.size == meta.size && r.value.layers == meta.layers
  {
    match DecodePixels(image)
    case Err(e) => Err(Undecodable(e))
    case Ok(ps) => Ok(Textures.TileTexture(TileLayer(ps), meta.size, meta.layers))
  }

  /** A loaded texture whose image holds exactly one period of pixels
      answers every position with the decoded pixel at the wrapped column of
      the wrapped row. */
  lemma LoadedTextureLookup(image: seq<byte>, meta: TextureMeta, pos: UVec2)
    requires LoadTexture(image, meta).Ok? && Textures.Addressable(meta.size)
    requires |DecodePixels(image).value| == Textures.Width(meta.size) * Textures.Height(meta.size)
    ensures var t := LoadTexture(image, meta).value;
            var ps := DecodePixels(image).value;
            var w, h := Textures.Width(meta.size), Textures.Height(meta.size);
            && Textures.WrapIndex(t.size, pos) < |t.texture.colors|
            && pos.x as nat % w + (pos.y as nat % h) * w < |ps|
            && Textures.GetPixel(t, pos) == ps[pos.x as nat % w + (pos.y as nat % h) * w]
  {
    Textures.WrapIndexRowMajor(meta.size, pos);
  }
}
