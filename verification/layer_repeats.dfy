/** The layer-repeat table: a list of run lengths, one per physical layer,
    expanded into a lookup from logical slot to physical layer. */
module LayerRepeats {
  import opened Results

  /** The total of all run lengths, that is, the number of logical slots. */
  function Sum(rs: seq<nat>): nat {
    if |rs| == 0 then 0 else Sum(rs[..|rs| - 1]) + rs[|rs| - 1]
  }

  /** The first logical slot of physical layer `i`. */
  function Start(rs: seq<nat>, i: nat): nat
    requires i <= |rs|
  {
    Sum(rs[..i])
  }

  /** The unrolled table: `rs[0]` copies of 0, then `rs[1]` copies of 1, and
      so on, appended in order of the run-length list. */
  function Unroll(rs: seq<nat>): (u: seq<nat>)
    ensures |u| == Sum(rs)
  {
    if |rs| == 0 then []
    else Unroll(rs[..|rs| - 1]) + seq(rs[|rs| - 1], _ => |rs| - 1)
  }

  /** The physical layer of one logical slot, found by unrolling the whole
      table and indexing it. */
  function TileLayerOf(slot: nat, rs: seq<nat>): nat
    requires slot < Sum(rs)
  {
    Unroll(rs)[slot]
  }

  /** The layer found for a slot is the layer whose run holds the slot. */
  lemma TileLayerOfInRun(slot: nat, rs: seq<nat>)
    requires slot < Sum(rs)
    ensures var layer := TileLayerOf(slot, rs);
            layer < |rs| && Start(rs, layer) <= slot < Start(rs, layer + 1)
  {
    var j := SlotInSomeRun(rs, slot);
    UnrollRuns(rs, j, slot);
  }

  /** The lookup array: one physical layer index per logical slot, as many
      slots as the runs add up to. */
  function ComputeTileLayers(rs: seq<nat>): (layers: seq<nat>)
    ensures |layers| == Sum(rs)
  {
    seq(Sum(rs), slot requires 0 <= slot < Sum(rs) => TileLayerOf(slot, rs))
  }

  /** Every slot of the run of physical layer `i` maps to `i`. */
  lemma RunsMapToTheirLayer(rs: seq<nat>, i: nat, slot: nat)
    requires i < |rs| && Start(rs, i) <= slot < Start(rs, i + 1)
    ensures slot < |ComputeTileLayers(rs)| && ComputeTileLayers(rs)[slot] == i
  {
    UnrollRuns(rs, i, slot);
  }

  lemma {:induction false} UnrollRuns(rs: seq<nat>, i: nat, slot: nat)
    requires i < |rs| && Start(rs, i) <= slot < Start(rs, i + 1)
    ensures slot < |Unroll(rs)| && Unroll(rs)[slot] == i
  {
    var n := |rs| - 1;
    var init := rs[..n];
    assert rs[..n + 1] == rs;
    if i < n {
      assert rs[..i] == init[..i] && rs[..i + 1] == init[..i + 1];
      UnrollRuns(init, i, slot);
      StartMonotone(init, i + 1, n);
      assert init[..n] == init;
    }
  }

  /** Starts never decrease along the table. */
  lemma {:induction false} StartMonotone(rs: seq<nat>, i: nat, j: nat)
    requires i <= j <= |rs|
    ensures Start(rs, i) <= Start(rs, j)
    decreases j - i
  {
    if i < j {
      StartMonotone(rs, i + 1, j);
      assert rs[..i + 1][..i] == rs[..i];
    }
  }

  /** The expansion is non-decreasing and names only existing layers. */
  lemma {:induction false} ComputeTileLayersSorted(rs: seq<nat>)
    ensures forall slot :: 0 <= slot < |ComputeTileLayers(rs)| ==> ComputeTileLayers(rs)[slot] < |rs|
    ensures forall a, b :: 0 <= a <= b < |ComputeTileLayers(rs)| ==>
      ComputeTileLayers(rs)[a] <= ComputeTileLayers(rs)[b]
  {
    UnrollSorted(rs);
  }

  lemma {:induction false} UnrollSorted(rs: seq<nat>)
    ensures forall slot :: 0 <= slot < |Unroll(rs)| ==> Unroll(rs)[slot] < |rs|
    ensures forall a, b :: 0 <= a <= b < |Unroll(rs)| ==> Unroll(rs)[a] <= Unroll(rs)[b]
  {
    if |rs| > 0 {
      UnrollSorted(rs[..|rs| - 1]);
    }
  }

  /** A second reading of the table, walking the runs from the front: the
      layer whose run contains `slot`, or nothing past the last run. */
  function LayerOf(rs: seq<nat>, slot: nat): Option<nat> {
    if |rs| == 0 then Nothing
    else if slot < rs[0] then Some(0)
    else
      match LayerOf(rs[1..], slot - rs[0])
      case Nothing => Nothing
      case Some(i) => Some(i + 1)
  }

  /** Splitting the first run off the front of the table. */
  lemma {:induction false} SumFront(rs: seq<nat>)
    requires |rs| > 0
    ensures Sum(rs) == rs[0] + Sum(rs[1..])
    decreases |rs|
  {
    if |rs| > 1 {
      var n := |rs| - 1;
      SumFront(rs[..n]);
      assert rs[..n][1..] == rs[1..][..n - 1];
    }
  }

  lemma StartFront(rs: seq<nat>, i: nat)
    requires 0 < i <= |rs|
    ensures Start(rs, i) == rs[0] + Start(rs[1..], i - 1)
  {
    SumFront(rs[..i]);
    assert rs[..i][1..] == rs[1..][..i - 1];
  }

  /** `LayerOf` finds layer `i` exactly when `slot` lies in the run of `i`. */
  lemma {:induction false} LayerOfIsRun(rs: seq<nat>, slot: nat, i: nat)
    ensures LayerOf(rs, slot) == Some(i) <==> i < |rs| && Start(rs, i) <= slot < Start(rs, i + 1)
    decreases |rs|
  {
    if |rs| > 0 {
      assert Start(rs, 0) == 0 by { assert rs[..0] == []; }
      assert Start(rs, 1) == rs[0] by { assert rs[..1][..0] == []; }
      if slot < rs[0] {
        if 0 < i < |rs| {
          StartMonotone(rs, 1, i);
        }
      } else if i > 0 {
        LayerOfIsRun(rs[1..], slot - rs[0], i - 1);
        if i < |rs| {
          StartFront(rs, i);
          StartFront(rs, i + 1);
        }
      }
    }
  }

  /** The expanded lookup and the run walk agree on every slot: a slot is in
      range of the lookup exactly when some run contains it, and then both
      name the same layer. */
  lemma LookupMatchesLayerOf(rs: seq<nat>, slot: nat)
    ensures slot < |ComputeTileLayers(rs)| <==> LayerOf(rs, slot).Some?
    ensures slot < |ComputeTileLayers(rs)| ==> LayerOf(rs, slot) == Some(ComputeTileLayers(rs)[slot])
  {
    assert rs[..|rs|] == rs;
    if slot < |ComputeTileLayers(rs)| {
      var j := SlotInSomeRun(rs, slot);
      RunsMapToTheirLayer(rs, j, slot);
      LayerOfIsRun(rs, slot, j);
    } else if LayerOf(rs, slot).Some? {
      var j := LayerOf(rs, slot).value;
      LayerOfIsRun(rs, slot, j);
      StartMonotone(rs, j + 1, |rs|);
    }
  }

  /** Every in-range slot lies in the run of some layer. */
  lemma {:induction false} SlotInSomeRun(rs: seq<nat>, slot: nat) returns (j: nat)
    requires slot < Sum(rs)
    ensures j < |rs| && Start(rs, j) <= slot < Start(rs, j + 1)
  {
    var n := |rs| - 1;
    assert rs[..n + 1] == rs;
    if slot >= Sum(rs[..n]) {
      j := n;
    } else {
      j := SlotInSomeRun(rs[..n], slot);
      assert rs[..n][..j] == rs[..j] && rs[..n][..j + 1] == rs[..j + 1];
    }
  }

  /** Unrolls the table the way the source does: one push per repeat, layer
      by layer. */
  method UnrollRepeats(rs: seq<nat>) returns (unrolled: seq<nat>)
    ensures unrolled == ComputeTileLayers(rs)
  {
    unrolled := [];
    var idx := 0;
    while idx < |rs|
      invariant 0 <= idx <= |rs|
      invariant unrolled == Unroll(rs[..idx])
    {
      var j := 0;
      while j < rs[idx]
        invariant 0 <= j <= rs[idx]
        invariant unrolled == Unroll(rs[..idx]) + seq(j, _ => idx)
      {
        unrolled := unrolled + [idx];
        j := j + 1;
      }
      assert rs[..idx + 1][..idx] == rs[..idx];
      idx := idx + 1;
    }
    assert rs[..|rs|] == rs;
  }

  /** Examples: `[3, 2]` and `[2, 1, 3]` expand as expected, `[]` to nothing. */
  lemma Examples()
    ensures ComputeTileLayers([3, 2]) == [0, 0, 0, 1, 1]
    ensures ComputeTileLayers([2, 1, 3]) == [0, 0, 1, 2, 2, 2]
    ensures ComputeTileLayers([]) == []
  {
    assert [3, 2][..1] == [3];
    assert [3][..0] == [];
    assert [2, 1, 3][..2] == [2, 1];
    assert [2, 1][..1] == [2];
    assert [2][..0] == [];
  }
}
