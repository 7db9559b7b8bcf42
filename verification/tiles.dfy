/** A flat tile: full-size pixel layers selected through a layer-repeat
    table, with no adjacency awareness. */
module Tiles {
  import opened Grid
  import opened Pixels
  import LayerRepeats

  /** `size` is carried from the metadata but never consulted by a lookup. */
  datatype Tile = Tile(layers: seq<TileLayer>, computedTileLayers: seq<nat>, size: UVec2)

  /** The pixel lookup for an available slot indexes nothing that is missing. */
  predicate CanDraw(t: Tile, subLayer: nat, rpos: nat)
    requires subLayer < |t.computedTileLayers|
  {
    var layer := t.computedTileLayers[subLayer];
    layer < |t.layers| && rpos < |t.layers[layer].colors|
  }

  /** The pixel of tile `t` at position `rpos` for logical slot `subLayer`:
      the slot picks a physical layer through the table, and a slot beyond
      the table draws `Neutral`. */
  function GetPixel(t: Tile, subLayer: nat, rpos: nat): (px: TilePixel)
    requires subLayer < |t.computedTileLayers| ==> CanDraw(t, subLayer, rpos)
    ensures subLayer >= |t.computedTileLayers| ==> px == Neutral
  {
    if subLayer < |t.computedTileLayers| then
      t.layers[t.computedTileLayers[subLayer]].colors[rpos]
    else
      Neutral
  }

  /** For a tile whose table was expanded from run lengths `rs`, a lookup
      draws from the layer whose run contains the slot, and draws `Neutral`
      exactly when no run contains it. */
  lemma GetPixelFollowsRuns(t: Tile, rs: seq<nat>, subLayer: nat, rpos: nat)
    requires t.computedTileLayers == LayerRepeats.ComputeTileLayers(rs)
    requires subLayer < |t.computedTileLayers| ==> CanDraw(t, subLayer, rpos)
    ensures match LayerRepeats.LayerOf(rs, subLayer)
            case Nothing => GetPixel(t, subLayer, rpos) == Neutral
            case Some(i) => i < |t.layers| && rpos < |t.layers[i].colors| &&
                            GetPixel(t, subLayer, rpos) == t.layers[i].colors[rpos]
  {
    LayerRepeats.LookupMatchesLayerOf(rs, subLayer);
  }

  /** With runs `[2, 1, 3]` over three one-pixel layers, slots 0 and 1 draw
      from layer 0, slot 2 from layer 1, slots 3 to 5 from layer 2, and
      slots 6 and beyond fall back to `Neutral`. */
  lemma RunsExample(rpos: nat)
    ensures LayerRepeats.ComputeTileLayers([2, 1, 3]) == [0, 0, 1, 2, 2, 2]
    ensures var t := Tile([TileLayer([Up]), TileLayer([Down]), TileLayer([None])],
                          LayerRepeats.ComputeTileLayers([2, 1, 3]), UVec2(1, 1));
            && GetPixel(t, 0, 0) == Up && GetPixel(t, 1, 0) == Up && GetPixel(t, 2, 0) == Down
            && GetPixel(t, 3, 0) == None && GetPixel(t, 4, 0) == None && GetPixel(t, 5, 0) == None
            && GetPixel(t, 6, rpos) == Neutral && GetPixel(t, 7, rpos) == Neutral
  {
    LayerRepeats.Examples();
  }
}
