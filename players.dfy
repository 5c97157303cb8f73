/** One side of the game (player_t): its bases, its ant total for the turn,
    the part of that total not yet spent on beacons, and its occupied cells. */
module Players {
  import opened Cells

  /** The sum of the side's positive per-cell ant counts. */
  function AntsTotal(cells: seq<Cell>, side: Side): int
  {
    if cells == [] then 0
    else
      var last := cells[|cells| - 1];
      AntsTotal(cells[..|cells| - 1], side) + (if last.Ants(side) > 0 then last.Ants(side) else 0)
  }

  /** The indices of the cells where the side has ants, in index order. */
  function Occupied(cells: seq<Cell>, side: Side): seq<nat>
  {
    if cells == [] then []
    else
      var k := |cells| - 1;
      Occupied(cells[..k], side) + (if cells[k].Ants(side) > 0 then [k] else [])
  }

  /** The ant counts of the listed cells, added up. */
  function SumAt(cells: seq<Cell>, side: Side, idx: seq<nat>): int
    requires forall i :: 0 <= i < |idx| ==> idx[i] < |cells|
  {
    if idx == [] then 0 else SumAt(cells, side, idx[..|idx| - 1]) + cells[idx[|idx| - 1]].Ants(side)
  }

  /** The occupied list holds exactly the cells with ants, each once, ascending. */
  lemma {:induction false} OccupiedExactly(cells: seq<Cell>, side: Side)
    ensures forall c: nat :: c in Occupied(cells, side) <==> c < |cells| && cells[c].Ants(side) > 0
    ensures forall i, j :: 0 <= i < j < |Occupied(cells, side)| ==>
      Occupied(cells, side)[i] < Occupied(cells, side)[j]
  {
    if cells != [] {
      var k := |cells| - 1;
      var prefix := cells[..k];
      OccupiedExactly(prefix, side);
      var occ := Occupied(cells, side);
      var tail: seq<nat> := if cells[k].Ants(side) > 0 then [k] else [];
      assert occ == Occupied(prefix, side) + tail;
      forall c: nat
        ensures c in occ <==> c < |cells| && cells[c].Ants(side) > 0
      {
        if c < k {
          assert prefix[c] == cells[c];
        }
      }
      forall i, j | 0 <= i < j < |occ|
        ensures occ[i] < occ[j]
      {
        if j == |occ| - 1 && tail != [] {
          assert occ[i] in Occupied(prefix, side);
        }
      }
    }
  }

  /** Every listed index is a cell of the board. */
  lemma {:induction false} OccupiedInRange(cells: seq<Cell>, side: Side)
    ensures forall i :: 0 <= i < |Occupied(cells, side)| ==> Occupied(cells, side)[i] < |cells|
  {
    if cells != [] {
      var k := |cells| - 1;
      OccupiedInRange(cells[..k], side);
      var occ := Occupied(cells[..k], side);
      assert Occupied(cells, side) == occ + (if cells[k].Ants(side) > 0 then [k] else []);
    }
  }

  /** The total is the sum over the occupied cells, and it is never negative. */
  lemma {:induction false} AntsTotalOverOccupied(cells: seq<Cell>, side: Side)
    ensures forall i :: 0 <= i < |Occupied(cells, side)| ==> Occupied(cells, side)[i] < |cells|
    ensures AntsTotal(cells, side) == SumAt(cells, side, Occupied(cells, side))
    ensures AntsTotal(cells, side) >= 0
  {
    OccupiedInRange(cells, side);
    if cells != [] {
      var k := |cells| - 1;
      var prefix := cells[..k];
      AntsTotalOverOccupied(prefix, side);
      var occ := Occupied(prefix, side);
      SumAtExtend(prefix, cells, side, occ);
      if cells[k].Ants(side) > 0 {
        assert Occupied(cells, side) == occ + [k];
        assert (occ + [k])[..|occ|] == occ;
      } else {
        assert Occupied(cells, side) == occ;
      }
    }
  }

  /** A sum over cells of a prefix does not change when the board is extended. */
  lemma {:induction false} SumAtExtend(prefix: seq<Cell>, cells: seq<Cell>, side: Side, idx: seq<nat>)
    requires prefix <= cells
    requires forall i :: 0 <= i < |idx| ==> idx[i] < |prefix|
    ensures SumAt(cells, side, idx) == SumAt(prefix, side, idx)
  {
    if idx != [] {
      SumAtExtend(prefix, cells, side, idx[..|idx| - 1]);
    }
  }

  class Player {
    const id: Side
    const bases: seq<nat>
    var antsCnt: int
    var antsCntFree: int
    var ants: seq<nat>

    /** player_t::init without the stream: the side and its base cells. */
    constructor (id: Side, bases: seq<nat>)
      ensures this.id == id && this.bases == bases
      ensures antsCnt == 0 && antsCntFree == 0 && ants == []
    {
      this.id := id;
      this.bases := bases;
      antsCnt, antsCntFree, ants := 0, 0, [];
    }

    /** update_step: totals the side's ants, lists its occupied cells and
        makes the whole total free to spend. */
    method UpdateStep(cells: array<Cell>)
      modifies this
      ensures antsCnt == AntsTotal(cells[..], id)
      ensures ants == Occupied(cells[..], id)
      ensures antsCntFree == antsCnt
    {
      antsCnt := 0;
      ants := [];
      for c := 0 to cells.Length
        invariant antsCnt == AntsTotal(cells[..c], id)
        invariant ants == Occupied(cells[..c], id)
      {
        assert cells[..c + 1][..c] == cells[..c];
        if cells[c].Ants(id) > 0 {
          antsCnt := antsCnt + cells[c].Ants(id);
          ants := ants + [c];
        }
      }
      assert cells[..cells.Length] == cells[..];
      antsCntFree := antsCnt;
    }

    /** use_ants: spends cnt ants of the free budget (unchecked). */
    method UseAnts(cnt: int)
      modifies this`antsCntFree
      ensures antsCntFree == old(antsCntFree) - cnt
    {
      antsCntFree := antsCntFree - cnt;
    }
  }
}
