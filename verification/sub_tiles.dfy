/** One quadrant of a block material: five pre-sliced pixel layers, one per
    adjacency case, chosen from a three-cell window of neighbour occupancy. */
module SubTiles {
  import opened Pixels

  /** The variants of a quadrant, indexed by adjacency case (0 to 4). */
  datatype SubTile = SubTile(quadrant: nat, data: seq<TileLayer>)

  /** Number of adjacency cases, and so of variants per quadrant. */
  const VariantCount: nat := 5

  /** Window position of the horizontal neighbour for a quadrant: position 0
      for even quadrants, position 2 for odd ones. */
  function HorizontalSlot(quadrant: nat): (k: nat)
    ensures k == if quadrant % 2 == 0 then 0 else 2
  {
    2 * (quadrant % 2)
  }

  /** Window position of the vertical neighbour: the other end of the window. */
  function VerticalSlot(quadrant: nat): (k: nat)
    ensures k == 2 - HorizontalSlot(quadrant)
  {
    2 * (1 - quadrant % 2)
  }

  /** The middle of the window is always the diagonal neighbour. */
  const DiagonalSlot: nat := 1

  /** The adjacency case for the three derived neighbour signals. */
  function VariantIndex(horizontal: bool, vertical: bool, diagonal: bool): (idx: nat)
    ensures idx < VariantCount
    ensures idx == (if horizontal then 2 else 0) + (if vertical then 1 else 0)
                   + (if horizontal && vertical && diagonal then 1 else 0)
  {
    match (horizontal, vertical, diagonal)
    case (true, true, true) => 4    // all neighbours
    case (true, true, false) => 3   // only the two cardinal neighbours
    case (true, false, _) => 2      // horizontal neighbour only
    case (false, true, _) => 1      // vertical neighbour only
    case (false, false, true) => 0  // diagonal only: drawn as no neighbours
    case (false, false, false) => 0 // no neighbours
  }

  /** The diagonal neighbour matters exactly when both cardinal neighbours are
      present. */
  lemma DiagonalMattersOnlyWithBothCardinals(horizontal: bool, vertical: bool)
    ensures VariantIndex(horizontal, vertical, true) != VariantIndex(horizontal, vertical, false)
            <==> horizontal && vertical
  {
  }

  /** Distinct adjacency cases select distinct variants. */
  lemma VariantIndexInjective(h: bool, v: bool, d: bool, h': bool, v': bool, d': bool)
    requires VariantIndex(h, v, d) == VariantIndex(h', v', d')
    ensures h == h' && v == v' && (h && v ==> d == d')
  {
  }

  /** The variant a quadrant selects for a window of at least three cells. */
  function Select(quadrant: nat, adj: seq<bool>): (idx: nat)
    requires |adj| >= 3
    ensures idx < VariantCount
    ensures idx == 0 <==> !adj[0] && !adj[2]
    ensures idx == 4 <==> adj[0] && adj[1] && adj[2]
    ensures idx == 3 <==> adj[0] && !adj[1] && adj[2]
    ensures idx == 2 <==> adj[HorizontalSlot(quadrant)] && !adj[VerticalSlot(quadrant)]
    ensures idx == 1 <==> !adj[HorizontalSlot(quadrant)] && adj[VerticalSlot(quadrant)]
  {
    var horizontal := adj[HorizontalSlot(quadrant)];
    var vertical := adj[VerticalSlot(quadrant)];
    var diagonal := adj[DiagonalSlot];
    VariantIndex(horizontal, vertical, diagonal)
  }

  /** Only the parity of the quadrant matters. */
  lemma SelectDependsOnParity(quadrant: nat, adj: seq<bool>)
    requires |adj| >= 3
    ensures Select(quadrant, adj) == Select(quadrant % 2, adj)
  {
  }

  /** Neighbouring quadrants see the window mirrored: what is horizontal for
      one is vertical for the other. */
  lemma SelectMirrors(quadrant: nat, a: bool, b: bool, c: bool)
    ensures Select(quadrant, [a, b, c]) == Select(quadrant + 1, [c, b, a])
  {
  }

  /** The layer a sub tile shows for a neighbour window. */
  function Get(st: SubTile, adj: seq<bool>): (layer: TileLayer)
    requires |adj| >= 3 && Select(st.quadrant, adj) < |st.data|
    ensures layer in st.data
  {
    st.data[Select(st.quadrant, adj)]
  }
}
