/** The resource valuation of compute_aims: board totals of eggs and crystals,
    the list of cells still holding resources, and the egg coefficient chosen
    from four tiers. Coefficients are multiples of 0.5 and are carried as
    integer half-units. */
module Valuation {
  import opened Cells

  const CRYSTAL_PER_ANT_TO_MAXIMIZE_EGGS := 10
  /** The four egg tiers (10.0, 2.0, 3.0, 0.5) and the crystal coefficient (1.0), in half-units. */
  const EGGS_KOEF_LV_MAX := 20
  const EGGS_KOEF_LV_MAX_BUT_NO_CRYSTALS := 4
  const EGGS_KOEF_LV_NORMAL := 6
  const EGGS_KOEF_LV_NORMAL_BUT_NO_CRYSTALS := 1
  const CRYSTALS_KOEF := 2

  /** The source's egg tier as the double it multiplies by. */
  function EggsTierReal(myAnts: int, enemyAnts: int, crystals: int): real
  {
    var crystalsPlenty := crystals > CRYSTAL_PER_ANT_TO_MAXIMIZE_EGGS * myAnts;
    if myAnts <= enemyAnts then (if crystalsPlenty then 10.0 else 2.0)
    else (if crystalsPlenty then 3.0 else 0.5)
  }

  /** eggs_koef = number of bases times the tier, in half-units. */
  function EggsKoefHalves(basesCount: nat, myAnts: int, enemyAnts: int, crystals: int): (r: nat)
    ensures r as real == 2.0 * basesCount as real * EggsTierReal(myAnts, enemyAnts, crystals)
  {
    var tier :=
      if myAnts <= enemyAnts then
        (if crystals > CRYSTAL_PER_ANT_TO_MAXIMIZE_EGGS * myAnts then EGGS_KOEF_LV_MAX
         else EGGS_KOEF_LV_MAX_BUT_NO_CRYSTALS)
      else
        (if crystals > CRYSTAL_PER_ANT_TO_MAXIMIZE_EGGS * myAnts then EGGS_KOEF_LV_NORMAL
         else EGGS_KOEF_LV_NORMAL_BUT_NO_CRYSTALS);
    basesCount * tier
  }

  /** With the same crystals, eggs weigh strictly more when behind or level in
      ants than when ahead. */
  lemma EggsTierOrder(myAnts: int, enemyAnts: int, crystals: int, myAnts': int, enemyAnts': int, crystals': int)
    requires myAnts == myAnts' && crystals == crystals'
    requires myAnts <= enemyAnts && myAnts' > enemyAnts'
    ensures EggsTierReal(myAnts, enemyAnts, crystals) > EggsTierReal(myAnts', enemyAnts', crystals')
  {
  }

  /** Sum of positive resources on egg cells. */
  function EggTotal(cells: seq<Cell>): int
  {
    if cells == [] then 0
    else
      var last := cells[|cells| - 1];
      EggTotal(cells[..|cells| - 1]) + (if last.resources > 0 && last.IsEgg() then last.resources else 0)
  }

  /** Sum of positive resources on every other cell. */
  function CrystalTotal(cells: seq<Cell>): int
  {
    if cells == [] then 0
    else
      var last := cells[|cells| - 1];
      CrystalTotal(cells[..|cells| - 1]) + (if last.resources > 0 && !last.IsEgg() then last.resources else 0)
  }

  /** Sum of all positive resources on the board. */
  function ResourceTotal(cells: seq<Cell>): int
  {
    if cells == [] then 0
    else
      var last := cells[|cells| - 1];
      ResourceTotal(cells[..|cells| - 1]) + (if last.resources > 0 then last.resources else 0)
  }

  /** The indices of the cells holding resources, in index order. */
  function AimCells(cells: seq<Cell>): seq<nat>
  {
    if cells == [] then []
    else
      var k := |cells| - 1;
      AimCells(cells[..k]) + (if cells[k].resources > 0 then [k] else [])
  }

  /** The two totals split the positive resources of the board between them. */
  lemma {:induction false} TotalsSplit(cells: seq<Cell>)
    ensures EggTotal(cells) + CrystalTotal(cells) == ResourceTotal(cells)
    ensures EggTotal(cells) >= 0 && CrystalTotal(cells) >= 0
  {
    if cells != [] {
      TotalsSplit(cells[..|cells| - 1]);
    }
  }

  /** The aims are exactly the cells with resources, each once, ascending. */
  lemma {:induction false} AimCellsExactly(cells: seq<Cell>)
    ensures forall c: nat :: c in AimCells(cells) <==> c < |cells| && cells[c].resources > 0
    ensures forall i, j :: 0 <= i < j < |AimCells(cells)| ==> AimCells(cells)[i] < AimCells(cells)[j]
  {
    if cells != [] {
      var k := |cells| - 1;
      var prefix := cells[..k];
      AimCellsExactly(prefix);
      var aims := AimCells(cells);
      var tail: seq<nat> := if cells[k].resources > 0 then [k] else [];
      assert aims == AimCells(prefix) + tail;
      forall c: nat
        ensures c in aims <==> c < |cells| && cells[c].resources > 0
      {
        if c < k {
          assert prefix[c] == cells[c];
        }
      }
      forall i, j | 0 <= i < j < |aims|
        ensures aims[i] < aims[j]
      {
        if j == |aims| - 1 && tail != [] {
          assert aims[i] in AimCells(prefix);
        }
      }
    }
  }
}
