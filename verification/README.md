# Tile compositing core of pixed, in Dafny

This project models the pure part of `src/tiles.rs` of the pixed tile
engine. Tile art is drawn in four categorical pixel classes: `Up`, `Neutral`,
`Down` and `None`. The model covers six things:

- how an RGBA image buffer is decoded into those classes;
- how a layer-repeat table (run lengths, one per physical layer) expands
  into a slot-to-layer lookup;
- how a block material picks one pixel from the quadrant of a position, the
  adjacency variant that the quadrant's three-cell neighbour window selects,
  and the layer-repeat gate;
- how a flat tile picks a pixel through its layer-repeat table;
- how a tiling texture wraps a position in both axes;
- how the three asset loaders cut a decoded image into tile layers, material
  quadrants and variants, or one texture.

Modules, one per file:

| file | module | models |
|---|---|---|
| `results.dfy` | `Results` | `Option` (absent case `Nothing`, since `None` is a pixel class) and `Result` |
| `grid.dfy` | `Grid` | `TILE_SIZE`, `HALF_TILE_SIZE`, `PIXEL_SIZE`, `u32`, `UVec2`, small division lemmas |
| `pixels.dfy` | `Pixels` | `TilePixel`, `TileLayer`, the RGBA decode |
| `layer_repeats.dfy` | `LayerRepeats` | `compute_tile_layers` |
| `sub_tiles.dfy` | `SubTiles` | `SubTile` and `SubTile::get` |
| `blocks.dfy` | `Blocks` | `BlockMaterial::get_pixel` |
| `tiles.dfy` | `Tiles` | `Tile::get_pixel` |
| `textures.dfy` | `Textures` | `TileTexture::get_pixel` |
| `loaders.dfy` | `Loaders` | the metadata records and the slicing inside the three `load` functions |

A panic in the Rust code is modelled in one of two ways. If it happens while
an asset loads, it becomes an `Err` of a `Result`: an unrecognised or
truncated pixel, a `u32` overflow, `chunks(0)`, or a short material strip.
If it happens in a `get_pixel` lookup (an index out of bounds, or the
unreachable quadrant arm), it becomes a `requires` clause. That clause is
only demanded when the slot is available, because an unavailable slot
returns `Neutral` before anything is indexed.

## Model

| member | source | states |
|---|---|---|
| `Pixels.Classify` | src/tiles.rs:322-329 | a quadruple classifies as `p` exactly when it is the RGBA encoding of `p`, so only the four table entries are recognised |
| `Pixels.DecodePixels` | src/tiles.rs:316-333 | decoding succeeds exactly when the length is a multiple of 4 and every quadruple is recognised; it then yields one pixel per quadruple, in input order (length = bytes / 4); on failure it reports the first bad pixel, either a truncated chunk or an unrecognised quadruple |
| `Pixels.DecodeEncode` | src/tiles.rs:316-333 | decoding the encoding of any pixel sequence gives that sequence back |
| `Pixels.EncodeDecode` | src/tiles.rs:316-333 | a buffer that decodes is exactly the encoding of its result, so no two buffers decode to the same pixels |
| `Pixels.AllGreenIsNeutral` | src/tiles.rs:326 | a 20×20 buffer of `(0,255,0,255)` decodes to 400 `Neutral` pixels |
| `LayerRepeats.ComputeTileLayers` | src/tiles.rs:301-314 | the table has one slot per repeat: its length is the sum of the run lengths |
| `LayerRepeats.TileLayerOfInRun` | src/tiles.rs:302-310 | the layer the per-slot unroll finds for an in-range slot exists and is the layer whose run holds the slot |
| `LayerRepeats.RunsMapToTheirLayer` | src/tiles.rs:301-314 | every slot in `[sum(rs[..i]), sum(rs[..i+1]))` is in range and maps to layer `i` |
| `LayerRepeats.ComputeTileLayersSorted` | src/tiles.rs:301-314 | the lookup is non-decreasing and every entry names an existing layer (`< |rs|`) |
| `LayerRepeats.LayerOfIsRun` | src/tiles.rs:301-314 | the front-to-back run walk finds layer `i` exactly when the slot lies in the run of `i` |
| `LayerRepeats.LookupMatchesLayerOf` | src/tiles.rs:301-314 | a slot is in range of the lookup exactly when some run contains it, and then the lookup and the run walk name the same layer |
| `LayerRepeats.UnrollRepeats` | src/tiles.rs:302-310 | the push-per-repeat loop builds exactly the lookup table |
| `LayerRepeats.Examples` | src/tiles.rs:301-314 | `[3,2]` expands to `[0,0,0,1,1]`, `[2,1,3]` to `[0,0,1,2,2,2]`, `[]` to `[]` |
| `SubTiles.VariantIndex` | src/tiles.rs:39-46 | the variant is below 5 and equals 2·horizontal + vertical + (1 when all three neighbours are present) |
| `SubTiles.DiagonalMattersOnlyWithBothCardinals` | src/tiles.rs:39-46 | the diagonal changes the variant exactly when both cardinal neighbours are present; diagonal-only and no neighbours both give 0 |
| `SubTiles.VariantIndexInjective` | src/tiles.rs:39-46 | distinct adjacency cases select distinct variants |
| `SubTiles.Select` | src/tiles.rs:34-46 | for any quadrant: 0 iff neither end of the window is set; 4 iff all three are; 3 iff both ends without the middle; 2 and 1 split on whether the horizontal end (position 0 for even quadrants, 2 for odd) or the vertical end is set |
| `SubTiles.SelectDependsOnParity` | src/tiles.rs:35-36 | only the quadrant's parity affects the selection |
| `SubTiles.SelectMirrors` | src/tiles.rs:35-37 | adjacent quadrants see the window mirrored: `[a,b,c]` in quadrant `q` selects as `[c,b,a]` in quadrant `q+1` |
| `SubTiles.Get` | src/tiles.rs:34-49 | the layer returned is one of the quadrant's own variants |
| `Blocks.Split` | src/tiles.rs:90-102 | every position below 400 splits into a quadrant below 4 and a local index below 100 |
| `Blocks.QuadrantsAreQuarters` | src/tiles.rs:92-98 | quadrant 0 iff x<10 and y<10; 1 iff x≥10 and y<10; 2 iff x≥10 and y≥10; 3 iff x<10 and y≥10 |
| `Blocks.SplitJoin` | src/tiles.rs:90-102 | splitting the position of a placement gives that placement back |
| `Blocks.JoinSplit` | src/tiles.rs:90-102 | rebuilding a split position gives it back; with `SplitJoin`, positions and placements correspond one to one |
| `Blocks.Window` | src/tiles.rs:105 | the window has three cells, cells `2q` to `2q+2` of the neighbour state |
| `Blocks.GetPixel` | src/tiles.rs:86-107 | an out-of-range slot gives `Neutral` whatever the position and neighbours; otherwise the pixel is the local-index pixel of one of the quadrant's variants |
| `Blocks.NineNeighborsSuffice` | src/tiles.rs:105 | the window of every quadrant lies within nine neighbour cells |
| `Blocks.SlotOnlyGates` | src/tiles.rs:86-89 | all available slots give the same pixel: the table gates availability and selects nothing |
| `Blocks.OnlyOwnWindowMatters` | src/tiles.rs:104-106 | neighbour states that agree on cells `2q` to `2q+2` give the same pixel in quadrant `q` |
| `Tiles.GetPixel` | src/tiles.rs:119-125 | an out-of-range slot gives `Neutral` |
| `Tiles.GetPixelFollowsRuns` | src/tiles.rs:119-125 | with a table expanded from `rs`, the pixel comes from the layer whose run contains the slot, and is `Neutral` exactly when no run does |
| `Tiles.RunsExample` | src/tiles.rs:119-125 | with runs `[2,1,3]`, slots 0–1 use layer 0, slot 2 layer 1, slots 3–5 layer 2, and slots 6 and 7 give `Neutral` |
| `Textures.WrapIndex` | src/tiles.rs:62-67 | the wrapped linear index is below `(20·size.x)·(20·size.y)` |
| `Textures.GetPixel` | src/tiles.rs:61-68 | the pixel shown is the one at the wrapped column of the wrapped row, rows being `20·size.x` pixels long |
| `Textures.SizedTextureAnswersEverywhere` | src/tiles.rs:62-69 | a texture of exactly `(20·size.x)·(20·size.y)` pixels answers every position |
| `Textures.SameResiduesSamePixel` | src/tiles.rs:62-69 | positions congruent modulo the texture's width and height give the same pixel |
| `Textures.Periodic` | src/tiles.rs:62-69 | shifting a position by whole periods in either axis leaves the pixel unchanged |
| `Textures.WrapIndexInvertible` | src/tiles.rs:67 | within one period, the column and row can be read back from the index |
| `Textures.WrapIndexCovers` | src/tiles.rs:67 | every index of a sized texture is reached from some position within one period |
| `Loaders.Chunks` | src/tiles.rs:181-187 | each piece is non-empty and at most `n` long, and all but the last are exactly `n` long |
| `Loaders.ChunksFlatten` | src/tiles.rs:181-187 | the pieces laid end to end are the input: chunking loses and reorders nothing |
| `Loaders.ChunkElement` | src/tiles.rs:181-187 | element `k` of piece `i` is element `i·n+k` of the input |
| `Loaders.ChunksExact` | src/tiles.rs:225-227 | when `n` divides the length, there are `length/n` pieces, each `n` long |
| `Loaders.LoadTile` | src/tiles.rs:180-190 | loading succeeds exactly when the image decodes and `0 < size.x·size.y < 2^32`; decode errors propagate; the lookup table is the expansion of `layer_repeats` and the size is kept |
| `Loaders.LoadedTileLayers` | src/tiles.rs:180-187 | the loaded layers concatenate to the decoded image; each holds at most `400·size.x·size.y` pixels, and all but the last exactly that many |
| `Loaders.LookupInPieces` | src/tiles.rs:119-125 | on any tile whose layers are the length-`n` pieces of `ps`, an available slot in run `i` reads `ps[i·n + rpos]`; a slot in no run reads `Neutral` |
| `Loaders.LoadedTileLookup` | src/tiles.rs:119-125 | on a loaded tile, an available slot gives decoded pixel `i·400·size.x·size.y + rpos`, where `i` is the layer whose run contains the slot; other slots give `Neutral` |
| `Loaders.SourceIndex` | src/tiles.rs:233-238 | every strip index `r·10 + vx + vy·50` with `r<5` and `vx,vy<10` is below 500 |
| `Loaders.SourceIndexInjective` | src/tiles.rs:233-238 | distinct variant pixels read distinct strip pixels |
| `Loaders.SourceIndexCovers` | src/tiles.rs:233-238 | every strip pixel is read by some variant pixel, so slicing rearranges the strip |
| `Loaders.SliceQuadrant` | src/tiles.rs:229-245 | a 500-pixel strip yields a sub tile for its quadrant with 5 variants of exactly 100 pixels each |
| `Loaders.SliceMaterial` | src/tiles.rs:225-246 | slicing succeeds exactly when the pixel count is a multiple of 500; it then gives `count/500` sub tiles, sub tile `q` for quadrant `q` with 5 variants; otherwise it reports the short strip |
| `Loaders.SlicedPixel` | src/tiles.rs:231-241 | pixel `(vx,vy)` of variant `v` of quadrant `q` is the sheet pixel at column `10v+vx`, row `10q+vy` of the 50-wide sheet |
| `Loaders.LoadMaterial` | src/tiles.rs:223-250 | loading succeeds exactly when the image decodes to a multiple of 500 pixels; decode errors propagate; the table is the expansion of `layer_repeats` |
| `Loaders.LoadedBlockLookup` | src/tiles.rs:86-107 | on a material with all four strips, any position and nine-cell neighbour state can be drawn; an available slot gives the sheet pixel of the variant its quadrant's window selects, and other slots give `Neutral` |
| `Loaders.LoadedTextureLookup` | src/tiles.rs:61-68 | a loaded texture of exactly `(20·size.x)·(20·size.y)` decoded pixels shows, at any position, decoded pixel `x mod W + (y mod H)·W` |

## Left out

- Reading the asset file and decoding the PNG (`read_to_end`, `Image::from_buffer`) are I/O and library calls. Each loader starts from the RGBA byte buffer they produce.
- The loaders' `extensions` lists and `TextureLoader::extensions` (which is `todo!()`) are registration glue. So are the derive and reflection attributes and the `Material` wrapper.
- `TileTexture::filter` is left out. It is always `[None, Neutral]` and no lookup reads it.
- `src/main.rs` (window, camera, plugins) is not part of this model.
- `Textures.WrapIndex`: `u32` overflow in `pos % (size * 20)` and in the index is not modelled. A precondition (`Addressable`) requires non-zero sizes and `(20·size.x)·(20·size.y) ≤ 2^32`. This keeps every intermediate value within `u32`.
- `Loaders.LoadTile`: an overflowing `size.x * size.y` is modelled as a load error, which is what a debug build does (it panics). A release build would wrap instead.
- `LayerRepeats.ComputeTileLayers`: a `usize` overflow of the run-length sum is not modelled. Run lengths are unbounded naturals.
- `LayerRepeats.ComputeTileLayers`: like the source, the model unrolls the whole table again for every slot (`TileLayerOf`). The unroll is a recursive definition; `UnrollRepeats` models the push loop itself and is proved to build the same table.
- `SubTiles.Get`: its contract only says the result is one of the quadrant's variants. Which variant it is appears in the contract of `SubTiles.Select`.
- `Blocks.GetPixel` requires every variant lookup to be in bounds. It does not model the panic the source raises when the sub tile, window or variant is missing. `Loaders.LoadedBlockLookup` shows that a loaded material with four strips meets this requirement.
- Error reporting is simplified. A decode failure reports the index of the first bad pixel and nothing else. A material failure reports the index of the short strip.
