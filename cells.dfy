/** One board cell (cell_t) as a value. Its identity is its index on the board
    and its neighbours live in the board's adjacency; what is kept here is the
    cell's type, its per-turn counts and the fields computed during a turn. */
module Cells {
  import opened Graph

  /** m_type codes: 0 empty, 1 egg, 2 crystal. */
  const EGG_TYPE := 1

  type Side = p: nat | p < 2

  datatype Cell = Cell(
    kind: int,             // m_type
    resources: int,        // m_resources
    ants0: int,            // m_ants[0]
    ants1: int,            // m_ants[1]
    resourcesValue: int,   // m_resources_value
    beacon: int,           // m_beacon
    oppChainVal: int,      // m_opp_chain_val
    chainLen: int,         // m_chain_len
    chainParent: int)      // m_chain_parent as a cell index, NO_CELL for nullptr
  {
    function Ants(side: Side): int
    {
      if side == 0 then ants0 else ants1
    }

    /** is_egg: an egg cell that still holds eggs. */
    predicate IsEgg()
    {
      kind == EGG_TYPE && resources > 0
    }

    /** cell_t::read without the stream: takes this turn's counts and clears
        every field computed during a turn. */
    function Read(resources: int, ants0: int, ants1: int): (r: Cell)
      ensures r.kind == kind
      ensures r.resources == resources && r.Ants(0) == ants0 && r.Ants(1) == ants1
      ensures r.resourcesValue == 0 && r.beacon == 0 && r.oppChainVal == 0
      ensures r.chainLen == -1 && r.chainParent == NO_CELL
    {
      Cell(kind, resources, ants0, ants1, 0, 0, 0, -1, NO_CELL)
    }

    /** set_resources_value: resources times the coefficient of the cell's kind,
        converted to int by truncation. Coefficients are given in half-units
        (the source's coefficients are all multiples of 0.5). */
    function SetResourcesValue(eggsHalves: int, crystalsHalves: int): (r: Cell)
      ensures r == this.(resourcesValue := r.resourcesValue)
      ensures var product := resources as real * (if IsEgg() then eggsHalves else crystalsHalves) as real / 2.0;
        (product >= 0.0 ==> r.resourcesValue as real <= product < r.resourcesValue as real + 1.0) &&
        (product < 0.0 ==> r.resourcesValue as real - 1.0 < product <= r.resourcesValue as real)
    {
      var koef := if IsEgg() then eggsHalves else crystalsHalves;
      this.(resourcesValue := TruncHalf(resources * koef))
    }

    /** cell_t::set_min_beacon: raises the beacon to at least minVal and returns
        the amount it was raised by. */
    function SetMinBeacon(minVal: int): (r: (Cell, int))
      ensures r.0 == this.(beacon := r.0.beacon)
      ensures r.0.beacon >= beacon && r.0.beacon >= minVal
      ensures r.0.beacon == beacon || r.0.beacon == minVal
      ensures r.1 == r.0.beacon - beacon && r.1 >= 0
    {
      var add := if minVal - beacon > 0 then minVal - beacon else 0;
      (this.(beacon := beacon + add), add)
    }

    /** cell_t::set_chain_parent: with no parent (NO_CELL) the depth drops to 0
        and the old parent reference is kept; otherwise the cell hangs one level
        below parent, whose depth is parentLen. */
    function SetChainParent(parent: int, parentLen: int): (r: Cell)
      ensures parent == NO_CELL ==> r == this.(chainLen := 0)
      ensures parent != NO_CELL ==> r == this.(chainLen := parentLen + 1, chainParent := parent)
    {
      if parent == NO_CELL then this.(chainLen := 0)
      else this.(chainLen := parentLen + 1, chainParent := parent)
    }
  }

  /** x / 2 rounded toward zero: the conversion of x * 0.5 to int. */
  function TruncHalf(x: int): (r: int)
    ensures x >= 0 ==> r as real <= x as real / 2.0 < r as real + 1.0
    ensures x < 0 ==> r as real - 1.0 < x as real / 2.0 <= r as real
  {
    if x >= 0 then x / 2 else -((-x) / 2)
  }

  /** Resetting twice with the same counts is the same as resetting once. */
  lemma ReadIdempotent(c: Cell, resources: int, ants0: int, ants1: int)
    ensures c.Read(resources, ants0, ants1).Read(resources, ants0, ants1) == c.Read(resources, ants0, ants1)
  {
  }

  /** Applying the valuation twice with the same coefficients changes nothing. */
  lemma SetResourcesValueIdempotent(c: Cell, eggsHalves: int, crystalsHalves: int)
    ensures c.SetResourcesValue(eggsHalves, crystalsHalves).SetResourcesValue(eggsHalves, crystalsHalves)
         == c.SetResourcesValue(eggsHalves, crystalsHalves)
  {
  }
}
