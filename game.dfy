/** The bot (game_t): the board, both sides, the distance table, the aim list
    and the turn's output text, with the steps of one turn. Input parsing is
    replaced by parameters carrying the parsed values. */
module Games {
  import opened Graph
  import opened Cells
  import opened Distances
  import opened Players
  import opened Valuation
  import Chain
  import opened Planner
  import opened Actions

  /** The per-cell counts of one side, as the chain search reads them. */
  function AntsOf(cells: seq<Cell>, side: Side): (r: seq<int>)
    ensures |r| == |cells|
    ensures forall c :: 0 <= c < |cells| ==> r[c] == cells[c].Ants(side)
  {
    seq(|cells|, c requires 0 <= c < |cells| => cells[c].Ants(side))
  }

  function Max(a: int, b: int): int
  {
    if a < b then b else a
  }

  /** Cell c hangs below a seed or an earlier chain cell it neighbours, one
      level deeper than it. */
  ghost predicate HangsBelow(adj: Adjacency, cells: seq<Cell>, seeds: seq<nat>, earlier: seq<nat>, c: nat)
    requires |cells| == |adj| && c < |adj|
  {
    var p := cells[c].chainParent;
    0 <= p < |adj| && (p as nat in seeds || p as nat in earlier) && c in adj[p] &&
    cells[c].chainLen == cells[p].chainLen + 1
  }

  /** Each added cell hangs below a seed or an earlier added cell. */
  ghost predicate Hung(adj: Adjacency, cells: seq<Cell>, seeds: seq<nat>, added: seq<nat>)
    requires |cells| == |adj| && InRange(added, |adj|)
    decreases |added|
  {
    if added == [] then true
    else
      var k := |added| - 1;
      Hung(adj, cells, seeds, added[..k]) && HangsBelow(adj, cells, seeds, added[..k], added[k])
  }

  /** The chain grown by fill_beacons is a tree hanging from the seeds: a seed
      has depth 0, and each added cell hangs below a seed or an earlier added
      cell. */
  ghost predicate ChainTree(adj: Adjacency, cells: seq<Cell>, seeds: seq<nat>, added: seq<nat>)
    requires |cells| == |adj| && InRange(seeds, |adj|) && InRange(added, |adj|)
  {
    (forall i :: 0 <= i < |seeds| ==> cells[seeds[i]].chainLen == 0) && Hung(adj, cells, seeds, added)
  }

  /** Every chain cell is reached from some seed by a walk of exactly as many
      edges as its recorded depth. */
  lemma {:induction false} ChainConnected(adj: Adjacency, cells: seq<Cell>, seeds: seq<nat>, added: seq<nat>, i: nat)
    requires |cells| == |adj| && InRange(seeds, |adj|) && InRange(added, |adj|)
    requires ChainTree(adj, cells, seeds, added)
    requires i < |added|
    ensures cells[added[i]].chainLen >= 1
    ensures exists s :: s in seeds && added[i] in Ball(adj, s, cells[added[i]].chainLen as nat)
    decreases |added|
  {
    var k := |added| - 1;
    var prefix := added[..k];
    if i < k {
      ChainConnected(adj, cells, seeds, prefix, i);
      assert prefix[i] == added[i];
    } else {
      var c := added[i];
      assert HangsBelow(adj, cells, seeds, prefix, c);
      var p: nat := cells[c].chainParent as nat;
      if p in seeds {
        var j :| 0 <= j < |seeds| && seeds[j] == p;
        assert cells[p].chainLen == 0;
        assert p in Ball(adj, p, 0);
        BallGrow(adj, p, 0, p, c);
        assert c in Ball(adj, p, cells[c].chainLen as nat);
      } else {
        var j :| 0 <= j < |prefix| && prefix[j] == p;
        ChainConnected(adj, cells, seeds, prefix, j);
        var s :| s in seeds && p in Ball(adj, s, cells[p].chainLen as nat);
        BallGrow(adj, s, cells[p].chainLen as nat, p, c);
        assert c in Ball(adj, s, cells[c].chainLen as nat);
      }
    }
  }

  /** The cells after c is hung below parent, one level deeper than it. */
  function Hang(cells: seq<Cell>, c: nat, parent: nat): (r: seq<Cell>)
    requires c < |cells| && parent < |cells|
    ensures |r| == |cells| && r[c].chainParent == parent && r[c].chainLen == cells[parent].chainLen + 1
    ensures forall d :: 0 <= d < |cells| && d != c ==> r[d] == cells[d]
  {
    cells[c := cells[c].(chainLen := cells[parent].chainLen + 1, chainParent := parent)]
  }

  /** The tree depends only on the chain fields of the seeds and the added cells. */
  lemma {:induction false} HungAgree(adj: Adjacency, cells: seq<Cell>, cells': seq<Cell>, seeds: seq<nat>, added: seq<nat>)
    requires |cells| == |adj| && |cells'| == |adj| && InRange(added, |adj|)
    requires forall c :: c in seeds || c in added ==>
      c < |adj| && cells'[c].chainLen == cells[c].chainLen && cells'[c].chainParent == cells[c].chainParent
    requires Hung(adj, cells, seeds, added)
    ensures Hung(adj, cells', seeds, added)
    decreases |added|
  {
    if added != [] {
      var k := |added| - 1;
      var prefix := added[..k];
      HungAgree(adj, cells, cells', seeds, prefix);
      var c := added[k];
      assert c in added;
      var p := cells[c].chainParent;
      assert p as nat in seeds || p as nat in prefix;
      if p as nat in prefix {
        var j :| 0 <= j < |prefix| && prefix[j] == p as nat;
        assert added[j] == p as nat;
      }
    }
  }

  lemma ChainTreeAgree(adj: Adjacency, cells: seq<Cell>, cells': seq<Cell>, seeds: seq<nat>, added: seq<nat>)
    requires |cells| == |adj| && |cells'| == |adj| && InRange(seeds, |adj|) && InRange(added, |adj|)
    requires forall c :: c in seeds || c in added ==>
      c < |adj| && cells'[c].chainLen == cells[c].chainLen && cells'[c].chainParent == cells[c].chainParent
    requires ChainTree(adj, cells, seeds, added)
    ensures ChainTree(adj, cells', seeds, added)
  {
    HungAgree(adj, cells, cells', seeds, added);
    forall i | 0 <= i < |seeds|
      ensures cells'[seeds[i]].chainLen == 0
    {
      assert seeds[i] in seeds;
    }
  }

  /** Hanging a new cell below a chain cell it neighbours keeps the tree. */
  lemma ChainTreeExtend(adj: Adjacency, cells: seq<Cell>, seeds: seq<nat>, added: seq<nat>, c: nat, parent: nat)
    requires |cells| == |adj| && InRange(seeds, |adj|) && InRange(added, |adj|)
    requires ChainTree(adj, cells, seeds, added)
    requires c < |adj| && c !in seeds && c !in added
    requires parent < |adj| && (parent in seeds || parent in added) && c in adj[parent]
    ensures InRange(added + [c], |adj|)
    ensures ChainTree(adj, Hang(cells, c, parent), seeds, added + [c])
  {
    var cells' := Hang(cells, c, parent);
    ChainTreeAgree(adj, cells, cells', seeds, added);
    assert (added + [c])[..|added|] == added;
    assert HangsBelow(adj, cells', seeds, added, c);
  }

  /** after differs from before only in the chain fields of the touched cells. */
  ghost predicate ChainFieldsOnly(before: seq<Cell>, after: seq<Cell>, touched: set<nat>)
  {
    |after| == |before| &&
    forall c :: 0 <= c < |before| ==>
      after[c] == if c in touched
                  then before[c].(chainLen := after[c].chainLen, chainParent := after[c].chainParent)
                  else before[c]
  }

  lemma ChainFieldsStep(before: seq<Cell>, now: seq<Cell>, touched: set<nat>, c: nat, parent: nat)
    requires ChainFieldsOnly(before, now, touched) && c < |now| && parent < |now|
    ensures ChainFieldsOnly(before, Hang(now, c, parent), touched + {c})
  {
  }

  lemma ChainFieldsValues(before: seq<Cell>, after: seq<Cell>, touched: set<nat>)
    requires ChainFieldsOnly(before, after, touched)
    ensures Values(after) == Values(before)
  {
  }

  /** Adding a cell off the chain grows the key set by exactly that cell. */
  lemma GrowKeys(universe: set<nat>, path: map<nat, int>, seeds: set<nat>, added: seq<nat>, c: nat)
    requires path.Keys == seeds + Elements(added) && path.Keys <= universe && c in universe && c !in path
    ensures Elements(added + [c]) == Elements(added) + {c}
    ensures path[c := 1].Keys == seeds + Elements(added + [c]) && path[c := 1].Keys <= universe
    ensures universe - path[c := 1].Keys < universe - path.Keys
  {
    assert path[c := 1].Keys == path.Keys + {c};
    assert c in universe - path.Keys;
  }

  /** What holds between the rounds of the greedy loop of fill_beacons: the
      chain is the bases plus the cells added so far, each at value 1 in the
      path; the aims left are those not yet taken; the rounds so far were
      greedy; the chain fields form a tree over the bases; and no other field
      of any cell changed. */
  ghost predicate Growing(adj: Adjacency, table: seq<seq<int>>, bases: seq<nat>, cells0: seq<Cell>, cells: seq<Cell>,
                          universe: set<nat>, aims0: seq<nat>, base0: nat, path: map<nat, int>,
                          aimsLeft: seq<nat>, added: seq<nat>)
  {
    Board(adj, table) && |cells0| == |adj| && |cells| == |adj| && base0 < |adj| &&
    InRange(aims0, |adj|) && InRange(bases, |adj|) &&
    path.Keys == Elements(bases) + Elements(added) && (forall c :: c in path ==> path[c] == 1) &&
    path.Keys <= universe && InRange(added, |adj|) &&
    aimsLeft == Remaining(aims0, added) && InRange(aimsLeft, |adj|) &&
    GreedyRun(adj, table, Values(cells0), Elements(bases), aims0, base0, added) &&
    ChainTree(adj, cells, bases, added) && ChainFieldsOnly(cells0, cells, Elements(added))
  }

  /** Seeding the chain changes only the chain length of the bases, so it
      leaves every resource value as it was. */
  lemma SeedFields(start: seq<Cell>, seeded: seq<Cell>, bases: seq<nat>)
    requires |seeded| == |start|
    requires forall c :: 0 <= c < |start| ==>
      seeded[c] == if c in bases then start[c].(chainLen := 0) else start[c]
    ensures ChainFieldsOnly(start, seeded, Elements(bases))
    ensures Values(seeded) == Values(start)
  {
    assert forall c :: 0 <= c < |start| ==> Values(seeded)[c] == Values(start)[c];
  }

  /** Two rounds of chain-field changes are one, over both sets of cells. */
  lemma ChainFieldsCompose(a: seq<Cell>, b: seq<Cell>, c: seq<Cell>, t1: set<nat>, t2: set<nat>)
    requires ChainFieldsOnly(a, b, t1) && ChainFieldsOnly(b, c, t2)
    ensures ChainFieldsOnly(a, c, t1 + t2)
  {
    forall i | 0 <= i < |a|
      ensures c[i] == if i in t1 + t2 then a[i].(chainLen := c[i].chainLen, chainParent := c[i].chainParent) else a[i]
    {
    }
  }

  /** The cells after fill_beacons against the cells before: a base keeps
      everything but its depth, which becomes 0, and its beacon; an added cell
      keeps everything but its chain fields and its beacon; the beacon of a
      chain cell becomes at least 1; every other cell is unchanged. */
  ghost predicate Filled(before: seq<Cell>, after: seq<Cell>, bases: seq<nat>, added: seq<nat>)
  {
    |after| == |before| &&
    forall c :: 0 <= c < |before| ==>
      after[c] == if c in bases then before[c].(chainLen := 0, beacon := Max(before[c].beacon, 1))
                  else if c in added
                  then before[c].(chainLen := after[c].chainLen, chainParent := after[c].chainParent,
                                  beacon := Max(before[c].beacon, 1))
                  else before[c]
  }

  /** The planning changes only chain fields of chain cells, and of a base
      only its depth, to 0; the final loop raises the beacon of every chain
      cell to at least 1. Together they give Filled. */
  lemma FillCells(start: seq<Cell>, grown: seq<Cell>, marked: seq<Cell>,
                  bases: seq<nat>, added: seq<nat>, path: map<nat, int>)
    requires |marked| == |start|
    requires ChainFieldsOnly(start, grown, Elements(bases) + Elements(added))
    requires path.Keys == Elements(bases) + Elements(added) && forall c :: c in path ==> path[c] == 1
    requires forall c :: 0 <= c < |grown| ==>
      marked[c] == if c in path then grown[c].(beacon := Max(grown[c].beacon, path[c])) else grown[c]
    requires forall i :: 0 <= i < |bases| ==> bases[i] < |start| && grown[bases[i]] == start[bases[i]].(chainLen := 0)
    ensures Filled(start, marked, bases, added)
  {
    forall c | 0 <= c < |start|
      ensures marked[c] == if c in bases then start[c].(chainLen := 0, beacon := Max(start[c].beacon, 1))
                           else if c in added
                           then start[c].(chainLen := marked[c].chainLen, chainParent := marked[c].chainParent,
                                          beacon := Max(start[c].beacon, 1))
                           else start[c]
    {
      assert c in path <==> c in bases || c in added;
    }
  }

  /** The cell indices below n. */
  ghost function Below(n: nat): (r: set<nat>)
    ensures forall c: nat :: c in r <==> c < n
  {
    if n == 0 then {} else Below(n - 1) + {n - 1}
  }

  lemma AppendAssoc(a: string, b: string, c: string)
    ensures a + (b + c) == a + b + c
  {
  }

  /** Boards with the same counts of a side give that side the same counts. */
  lemma SameAnts(before: seq<Cell>, after: seq<Cell>, side: Side)
    requires |after| == |before|
    requires forall c :: 0 <= c < |before| ==> after[c].Ants(side) == before[c].Ants(side)
    ensures AntsOf(after, side) == AntsOf(before, side)
  {
  }

  /** Writing the enemy chain values leaves every resource value as it was. */
  lemma ChainKeepsValues(before: seq<Cell>, after: seq<Cell>, chain: map<nat, int>)
    requires |after| == |before|
    requires forall c :: 0 <= c < |before| ==>
      after[c] == if c in chain then before[c].(oppChainVal := chain[c]) else before[c]
    ensures Values(after) == Values(before)
  {
    assert forall c :: 0 <= c < |before| ==> Values(after)[c] == Values(before)[c];
  }

  /** The board with the enemy chain values written on the chain-map cells. */
  ghost function WithChain(valued: seq<Cell>, chain: map<nat, int>): seq<Cell>
  {
    seq(|valued|, c requires 0 <= c < |valued| => if c in chain then valued[c].(oppChainVal := chain[c]) else valued[c])
  }

  lemma WithChainCells(valued: seq<Cell>, chained: seq<Cell>, chain: map<nat, int>)
    requires |chained| == |valued|
    requires forall c :: 0 <= c < |valued| ==>
      chained[c] == if c in chain then valued[c].(oppChainVal := chain[c]) else valued[c]
    ensures chained == WithChain(valued, chain)
  {
  }

  class Game {
    const adj: Adjacency
    const cells: array<Cell>
    const me: Player
    const enemy: Player
    const distances: DistanceMap
    var aims: seq<nat>
    var crystals: int
    var eggs: int
    var actionsText: string

    ghost predicate Valid()
      reads this, cells, me, enemy, distances, distances.dist
    {
      ValidGraph(adj) && cells.Length == |adj| && distances.adj == adj && distances.Valid() &&
      me != enemy && me.id == 0 && enemy.id == 1 &&
      |me.bases| > 0 && InRange(me.bases, |adj|) && InRange(enemy.bases, |adj|) &&
      InRange(aims, |adj|) &&
      forall c :: 0 <= c < cells.Length ==> cells[c].ants0 >= 0 && cells[c].ants1 >= 0
    }

    /** game_t(): the cells with their kinds and starting resources, the two
        sides with their bases, and the distance table. Fields the source
        leaves unread until the first turn start at its defaults. */
    constructor (kinds: seq<int>, resources: seq<int>, adj: Adjacency, myBases: seq<nat>, enemyBases: seq<nat>)
      requires ValidGraph(adj) && |kinds| == |adj| && |resources| == |adj|
      requires |myBases| == |enemyBases| && |myBases| > 0
      requires InRange(myBases, |adj|) && InRange(enemyBases, |adj|)
      ensures Valid() && fresh(cells) && fresh(me) && fresh(enemy) && fresh(distances)
      ensures this.adj == adj && me.bases == myBases && enemy.bases == enemyBases
      ensures forall c :: 0 <= c < |adj| ==> cells[c] == Cell(kinds[c], resources[c], 0, 0, -1, -1, -1, -1, NO_CELL)
      ensures aims == [] && crystals == -1 && eggs == -1 && actionsText == ""
    {
      var n := |adj|;
      var board := new Cell[n];
      for i := 0 to n
        invariant forall c :: 0 <= c < i ==> board[c] == Cell(kinds[c], resources[c], 0, 0, -1, -1, -1, -1, NO_CELL)
      {
        board[i] := Cell(kinds[i], resources[i], 0, 0, -1, -1, -1, -1, NO_CELL);
      }
      this.adj := adj;
      cells := board;
      me := new Player(0, myBases);
      enemy := new Player(1, enemyBases);
      distances := new DistanceMap(adj);
      aims := [];
      crystals, eggs := -1, -1;
      actionsText := "";
    }

    /** read_step without the stream: clears the output and the aims, resets
        every cell with this turn's counts and updates both sides. */
    method BeginTurn(resources: seq<int>, ants0: seq<int>, ants1: seq<int>)
      requires Valid() && |resources| == cells.Length && |ants0| == cells.Length && |ants1| == cells.Length
      requires forall c :: 0 <= c < cells.Length ==> ants0[c] >= 0 && ants1[c] >= 0
      modifies this, cells, me, enemy
      ensures Valid()
      ensures actionsText == "" && aims == [] && crystals == old(crystals) && eggs == old(eggs)
      ensures forall c :: 0 <= c < cells.Length ==> cells[c] == old(cells[c]).Read(resources[c], ants0[c], ants1[c])
      ensures me.antsCnt == AntsTotal(cells[..], 0) && me.ants == Occupied(cells[..], 0) && me.antsCntFree == me.antsCnt
      ensures enemy.antsCnt == AntsTotal(cells[..], 1) && enemy.ants == Occupied(cells[..], 1)
      ensures enemy.antsCntFree == enemy.antsCnt
    {
      actionsText := "";
      aims := [];
      for c := 0 to cells.Length
        modifies cells
        invariant forall d :: 0 <= d < c ==> cells[d] == old(cells[d]).Read(resources[d], ants0[d], ants1[d])
        invariant forall d :: c <= d < cells.Length ==> cells[d] == old(cells[d])
      {
        cells[c] := cells[c].Read(resources[c], ants0[c], ants1[c]);
      }
      me.UpdateStep(cells);
      enemy.UpdateStep(cells);
    }

    /** compute_aims: the board totals, the cells with resources appended to
        the aim list, and every aim valued with the egg coefficient of the
        turn and crystal coefficient 1. */
    method ComputeAims()
      requires Valid()
      modifies this`aims, this`crystals, this`eggs, cells
      ensures Valid() && actionsText == old(actionsText)
      ensures crystals == CrystalTotal(old(cells[..])) && eggs == EggTotal(old(cells[..]))
      ensures aims == old(aims) + AimCells(old(cells[..]))
      ensures forall c :: 0 <= c < cells.Length ==>
        cells[c] == if c in aims
                    then old(cells[c]).SetResourcesValue(EggsKoefHalves(|me.bases|, me.antsCnt, enemy.antsCnt, crystals), CRYSTALS_KOEF)
                    else old(cells[c])
    {
      var crystalsSum, eggsSum := CountResources();
      var found := CollectAims();
      crystals, eggs := crystalsSum, eggsSum;
      aims := aims + found;
      var eggsKoef := EggsKoefHalves(|me.bases|, me.antsCnt, enemy.antsCnt, crystals);
      ValueAims(eggsKoef);
    }

    /** The first loop of compute_aims: positive resources summed over egg
        cells and over the other cells. */
    method CountResources() returns (crystalsSum: int, eggsSum: int)
      requires Valid()
      ensures crystalsSum == CrystalTotal(cells[..]) && eggsSum == EggTotal(cells[..])
    {
      crystalsSum, eggsSum := 0, 0;
      for c := 0 to cells.Length
        invariant crystalsSum == CrystalTotal(cells[..c]) && eggsSum == EggTotal(cells[..c])
      {
        assert cells[..c + 1][..c] == cells[..c];
        if cells[c].resources > 0 {
          if cells[c].IsEgg() {
            eggsSum := eggsSum + cells[c].resources;
          } else {
            crystalsSum := crystalsSum + cells[c].resources;
          }
        }
      }
      assert cells[..cells.Length] == cells[..];
    }

    /** The second loop of compute_aims: the cells holding resources, in cell order. */
    method CollectAims() returns (found: seq<nat>)
      requires Valid()
      ensures found == AimCells(cells[..]) && InRange(found, cells.Length)
    {
      found := [];
      for c := 0 to cells.Length
        invariant found == AimCells(cells[..c])
      {
        assert cells[..c + 1][..c] == cells[..c];
        if cells[c].resources > 0 {
          found := found + [c];
        }
      }
      assert cells[..cells.Length] == cells[..];
      AimCellsExactly(cells[..]);
      assert InRange(found, cells.Length) by {
        forall i | 0 <= i < |found|
          ensures found[i] < cells.Length
        {
          assert found[i] in found;
        }
      }
    }

    /** The last loop of compute_aims: every aim valued with the egg
        coefficient and crystal coefficient 1; an aim listed twice is valued
        twice, to the same result. */
    method ValueAims(eggsKoef: int)
      requires Valid()
      modifies cells
      ensures Valid()
      ensures forall c :: 0 <= c < cells.Length ==>
        cells[c] == if c in aims then old(cells[c]).SetResourcesValue(eggsKoef, CRYSTALS_KOEF) else old(cells[c])
    {
      for i := 0 to |aims|
        invariant forall c :: 0 <= c < cells.Length ==>
          cells[c] == if c in aims[..i] then old(cells[c]).SetResourcesValue(eggsKoef, CRYSTALS_KOEF) else old(cells[c])
      {
        var a := aims[i];
        SetResourcesValueIdempotent(old(cells[a]), eggsKoef, CRYSTALS_KOEF);
        cells[a] := cells[a].SetResourcesValue(eggsKoef, CRYSTALS_KOEF);
        assert aims[..i + 1] == aims[..i] + [a];
      }
      assert aims[..|aims|] == aims;
    }

    /** compute_enemy_chain: the chain search over the enemy's counts from the
        enemy's bases, each reached cell receiving its value. */
    method ComputeEnemyChain() returns (ghost chain: map<nat, int>)
      requires Valid()
      modifies cells
      ensures Valid()
      ensures Chain.IsChainMap(adj, AntsOf(old(cells[..]), 1), enemy.bases, chain)
      ensures forall c :: 0 <= c < cells.Length ==>
        cells[c] == if c in chain then old(cells[c]).(oppChainVal := chain[c]) else old(cells[c])
    {
      var ants := AntsOf(cells[..], enemy.id);
      var path := Chain.EnemyChain(adj, ants, enemy.bases);
      chain := path;
      var todo := path.Keys;
      while todo != {}
        modifies cells
        invariant todo <= path.Keys
        invariant forall c :: 0 <= c < cells.Length ==>
          cells[c] == if c in path && c !in todo then old(cells[c]).(oppChainVal := path[c]) else old(cells[c])
        decreases todo
      {
        var c :| c in todo;
        cells[c] := cells[c].(oppChainVal := path[c]);
        todo := todo - {c};
      }
    }

    /** The first loop of fill_beacons: every base joins the chain with
        beacon 1, costs one free ant and becomes a chain root. */
    method SeedChain() returns (path: map<nat, int>)
      requires Valid()
      modifies cells, me`antsCntFree
      ensures Valid()
      ensures path.Keys == Elements(me.bases) && forall c :: c in path ==> path[c] == 1
      ensures me.antsCntFree == old(me.antsCntFree) - |me.bases|
      ensures forall c :: 0 <= c < cells.Length ==>
        cells[c] == if c in me.bases then old(cells[c]).(chainLen := 0) else old(cells[c])
    {
      path := map[];
      for i := 0 to |me.bases|
        invariant path.Keys == Elements(me.bases[..i]) && forall c :: c in path ==> path[c] == 1
        invariant me.antsCntFree == old(me.antsCntFree) - i
        invariant forall c :: 0 <= c < cells.Length ==>
          cells[c] == if c in me.bases[..i] then old(cells[c]).(chainLen := 0) else old(cells[c])
      {
        var b := me.bases[i];
        assert me.bases[..i + 1] == me.bases[..i] + [b];
        path := path[b := 1];
        me.UseAnts(1);
        cells[b] := cells[b].SetChainParent(NO_CELL, 0);
      }
      assert me.bases[..|me.bases|] == me.bases;
    }

    /** One greedy round's update of fill_beacons: the chosen cell hangs below
        its parent and costs one free ant. */
    method Attach(c: nat, parent: nat)
      requires Valid() && c < cells.Length && parent < cells.Length
      modifies cells, me`antsCntFree
      ensures Valid()
      ensures cells[..] == Hang(old(cells[..]), c, parent)
      ensures me.antsCntFree == old(me.antsCntFree) - 1
    {
      cells[c] := cells[c].SetChainParent(parent, cells[parent].chainLen);
      me.UseAnts(1);
    }

    /** One round of the greedy loop of fill_beacons: the best frontier cell
        is looked for; when there is one, it joins the chain below the cell it
        was found from, its ant is spent and it stops being an aim. Either
        way, every invariant of the loop is kept. */
    method GreedyRound(ghost cells0: seq<Cell>, ghost universe: set<nat>, aims0: seq<nat>, base0: nat,
                       path: map<nat, int>, aimsLeft: seq<nat>, ghost added: seq<nat>)
      returns (found: bool, path': map<nat, int>, aimsLeft': seq<nat>, ghost added': seq<nat>)
      requires Valid() && universe == Below(|adj|)
      requires Growing(adj, distances.Table, me.bases, cells0, cells[..], universe, aims0, base0, path, aimsLeft, added)
      requires aimsLeft != []
      modifies cells, me`antsCntFree
      ensures Valid()
      ensures Growing(adj, distances.Table, me.bases, cells0, cells[..], universe, aims0, base0, path', aimsLeft', added')
      ensures !found ==> Frontier(adj, path.Keys) == {} && added' == added && me.antsCntFree == old(me.antsCntFree)
      ensures found ==> |added'| == |added| + 1 && me.antsCntFree == old(me.antsCntFree) - 1
      ensures found ==> universe - path'.Keys < universe - path.Keys
    {
      var best, parent;
      found, best, parent := ChooseNext(distances, cells, path, aimsLeft, base0);
      if !found {
        return false, path, aimsLeft, added;
      }
      path', aimsLeft', added' := AddToChain(cells0, universe, aims0, base0, path, aimsLeft, added, best, parent);
    }

    /** The update half of a greedy round: the chosen cell joins the chain
        below its parent, its ant is spent and it stops being an aim. */
    method AddToChain(ghost cells0: seq<Cell>, ghost universe: set<nat>, aims0: seq<nat>, base0: nat,
                      path: map<nat, int>, aimsLeft: seq<nat>, ghost added: seq<nat>, best: nat, parent: nat)
      returns (path': map<nat, int>, aimsLeft': seq<nat>, ghost added': seq<nat>)
      requires Valid() && universe == Below(|adj|)
      requires Growing(adj, distances.Table, me.bases, cells0, cells[..], universe, aims0, base0, path, aimsLeft, added)
      requires aimsLeft != []
      requires BestOnFrontier(adj, distances.Table, Values(cells[..]), path.Keys, aimsLeft, base0, best)
      requires parent in path && parent < |adj| && best in adj[parent]
      modifies cells, me`antsCntFree
      ensures Valid()
      ensures added' == added + [best] && me.antsCntFree == old(me.antsCntFree) - 1
      ensures Growing(adj, distances.Table, me.bases, cells0, cells[..], universe, aims0, base0, path', aimsLeft', added')
      ensures universe - path'.Keys < universe - path.Keys
    {
      ghost var seeds := Elements(me.bases);
      ChainFieldsValues(cells0, cells[..], Elements(added));
      assert best !in path && best in universe;
      GrowKeys(universe, path, seeds, added, best);
      GreedyRunExtend(adj, distances.Table, Values(cells0), seeds, aims0, base0, added, best);
      RemainingStep(aims0, added, best);
      RemainingInRange(aimsLeft, [best], |adj|);
      ghost var before := cells[..];
      ChainTreeExtend(adj, before, me.bases, added, best, parent);
      ChainFieldsStep(cells0, before, Elements(added), best, parent);
      Attach(best, parent);
      path' := path[best := 1];
      aimsLeft' := Remaining(aimsLeft, [best]);
      added' := added + [best];
    }

    /** The greedy loop of fill_beacons: while aims remain and ants are free,
        the best frontier cell joins the chain below the cell it was found
        from, costs one free ant and stops being an aim. It stops early when
        the chain has no frontier left. */
    method GreedyRounds(ghost cells0: seq<Cell>, aims0: seq<nat>, base0: nat, path0: map<nat, int>)
      returns (path: map<nat, int>, ghost added: seq<nat>)
      requires Valid()
      requires Growing(adj, distances.Table, me.bases, cells0, cells[..], Below(|adj|), aims0, base0, path0, aims0, [])
      modifies cells, me`antsCntFree
      ensures Valid()
      ensures Growing(adj, distances.Table, me.bases, cells0, cells[..], Below(|adj|), aims0, base0, path,
                      Remaining(aims0, added), added)
      ensures me.antsCntFree == old(me.antsCntFree) - |added|
      ensures added != [] ==> me.antsCntFree >= 0
      ensures Remaining(aims0, added) == [] || me.antsCntFree <= 0 || Frontier(adj, path.Keys) == {}
    {
      ghost var universe := Below(|adj|);
      var aimsLeft := aims0;
      path := path0;
      added := [];
      var stuck := false;
      while aimsLeft != [] && me.antsCntFree > 0
        invariant Valid()
        invariant Growing(adj, distances.Table, me.bases, cells0, cells[..], universe, aims0, base0, path, aimsLeft, added)
        invariant me.antsCntFree == old(me.antsCntFree) - |added|
        invariant added != [] ==> me.antsCntFree >= 0
        invariant stuck ==> Frontier(adj, path.Keys) == {}
        decreases universe - path.Keys
      {
        var found;
        found, path, aimsLeft, added := GreedyRound(cells0, universe, aims0, base0, path, aimsLeft, added);
        if !found {
          stuck := true;
          break;
        }
      }
    }

    /** The planning loops of fill_beacons: the bases seed the chain, then the
        greedy rounds grow it. */
    method GrowChain() returns (path: map<nat, int>, ghost added: seq<nat>)
      requires Valid()
      modifies cells, me`antsCntFree
      ensures Valid()
      ensures Board(adj, distances.Table) && InRange(Distinct(aims), |adj|) && InRange(added, |adj|)
      ensures path.Keys == Elements(me.bases) + Elements(added) && forall c :: c in path ==> path[c] == 1
      ensures GreedyRun(adj, distances.Table, Values(old(cells[..])), Elements(me.bases), Distinct(aims), me.bases[0], added)
      ensures me.antsCntFree == old(me.antsCntFree) - |me.bases| - |added|
      ensures added != [] ==> me.antsCntFree >= 0
      ensures Remaining(Distinct(aims), added) == [] || me.antsCntFree <= 0 ||
              Frontier(adj, Elements(me.bases) + Elements(added)) == {}
      ensures ChainTree(adj, cells[..], me.bases, added)
      ensures ChainFieldsOnly(old(cells[..]), cells[..], Elements(me.bases) + Elements(added))
      ensures forall i :: 0 <= i < |me.bases| ==> cells[me.bases[i]] == old(cells[me.bases[i]]).(chainLen := 0)
    {
      ghost var start := cells[..];
      var path0 := SeedChain();
      ghost var cells0 := cells[..];
      SeedFields(start, cells0, me.bases);
      var base0 := me.bases[0];
      var aims0 := Distinct(aims);
      DistinctInRange(aims, |adj|);
      TableBoard(adj, distances.Table);
      RemainingNone(aims0);
      assert ChainTree(adj, cells0, me.bases, []);
      path, added := GreedyRounds(cells0, aims0, base0, path0);
      GreedyRunFresh(adj, distances.Table, Values(cells0), Elements(me.bases), aims0, base0, added);
      ChainFieldsCompose(start, cells0, cells[..], Elements(me.bases), Elements(added));
    }

    /** The closing loop of fill_beacons: every chain cell gets a beacon of at
        least its chain value; no ants are charged for it. */
    method MarkBeacons(path: map<nat, int>)
      requires Valid() && forall c :: c in path ==> c < cells.Length
      modifies cells
      ensures Valid()
      ensures forall c :: 0 <= c < cells.Length ==>
        cells[c] == if c in path then old(cells[c]).(beacon := Max(old(cells[c].beacon), path[c])) else old(cells[c])
    {
      var todo := path.Keys;
      while todo != {}
        invariant todo <= path.Keys
        invariant forall c :: 0 <= c < cells.Length ==>
          cells[c] == if c in path && c !in todo then old(cells[c]).(beacon := Max(old(cells[c].beacon), path[c]))
                      else old(cells[c])
        decreases todo
      {
        var c :| c in todo;
        cells[c] := cells[c].SetMinBeacon(path[c]).0;
        todo := todo - {c};
      }
    }

    /** The closing loop of fill_beacons on a grown chain: the tree is kept,
        and against the cells before seeding the board is Filled. */
    method MarkChain(ghost start: seq<Cell>, path: map<nat, int>, ghost added: seq<nat>)
      requires Valid() && InRange(added, |adj|)
      requires path.Keys == Elements(me.bases) + Elements(added) && forall c :: c in path ==> path[c] == 1
      requires ChainFieldsOnly(start, cells[..], Elements(me.bases) + Elements(added))
      requires forall i :: 0 <= i < |me.bases| ==> cells[me.bases[i]] == start[me.bases[i]].(chainLen := 0)
      requires ChainTree(adj, cells[..], me.bases, added)
      modifies cells
      ensures Valid()
      ensures ChainTree(adj, cells[..], me.bases, added)
      ensures Filled(start, cells[..], me.bases, added)
    {
      ghost var grown := cells[..];
      MarkBeacons(path);
      FillCells(start, grown, cells[..], me.bases, added, path);
      ChainTreeAgree(adj, grown, cells[..], me.bases, added);
    }

    /** The output loop of fill_beacons: one BEACON command per cell with a
        positive beacon, in cell order. */
    method EmitBeacons()
      requires Valid()
      modifies this`actionsText
      ensures Valid()
      ensures actionsText == old(actionsText) + BeaconsText(cells[..])
    {
      for c := 0 to cells.Length
        invariant actionsText == old(actionsText) + BeaconsText(cells[..c])
      {
        ghost var prefix := cells[..c + 1];
        assert prefix[..c] == cells[..c] && prefix[c] == cells[c];
        assert BeaconsText(prefix) ==
          BeaconsText(cells[..c]) + (if cells[c].beacon > 0 then BeaconCommand(c, cells[c].beacon) else "");
        ghost var text := actionsText;
        if cells[c].beacon > 0 {
          CommitBeacon(c, cells[c].beacon);
        }
        assert cells[..c + 1] == prefix;
        ghost var piece := if cells[c].beacon > 0 then BeaconCommand(c, cells[c].beacon) else "";
        assert actionsText == text + piece;
        ghost var doneText := BeaconsText(cells[..c]);
        assert BeaconsText(prefix) == doneText + piece;
        AppendAssoc(old(actionsText), doneText, piece);
      }
      assert cells[..cells.Length] == cells[..];
    }

    /** The planning part of fill_beacons: seeds the chain with the bases,
        grows it greedily and raises the beacons along it. */
    method BuildChain() returns (ghost added: seq<nat>)
      requires Valid()
      modifies cells, me`antsCntFree
      ensures Valid()
      ensures Board(adj, distances.Table) && InRange(Distinct(aims), |adj|) && InRange(added, |adj|)
      ensures GreedyRun(adj, distances.Table, Values(old(cells[..])), Elements(me.bases), Distinct(aims), me.bases[0], added)
      ensures me.antsCntFree == old(me.antsCntFree) - |me.bases| - |added|
      ensures added != [] ==> me.antsCntFree >= 0
      ensures Remaining(Distinct(aims), added) == [] || me.antsCntFree <= 0 ||
              Frontier(adj, Elements(me.bases) + Elements(added)) == {}
      ensures ChainTree(adj, cells[..], me.bases, added)
      ensures Filled(old(cells[..]), cells[..], me.bases, added)
    {
      ghost var start := cells[..];
      var path;
      path, added := GrowChain();
      MarkChain(start, path, added);
    }

    /** fill_beacons: seeds the chain with the bases, grows it greedily,
        raises the beacons along it and writes them out. */
    method FillBeacons() returns (ghost added: seq<nat>)
      requires Valid()
      modifies this`actionsText, cells, me`antsCntFree
      ensures Valid()
      ensures Board(adj, distances.Table) && InRange(Distinct(aims), |adj|) && InRange(added, |adj|)
      ensures GreedyRun(adj, distances.Table, Values(old(cells[..])), Elements(me.bases), Distinct(aims), me.bases[0], added)
      ensures me.antsCntFree == old(me.antsCntFree) - |me.bases| - |added|
      ensures added != [] ==> me.antsCntFree >= 0
      ensures Remaining(Distinct(aims), added) == [] || me.antsCntFree <= 0 ||
              Frontier(adj, Elements(me.bases) + Elements(added)) == {}
      ensures ChainTree(adj, cells[..], me.bases, added)
      ensures Filled(old(cells[..]), cells[..], me.bases, added)
      ensures actionsText == old(actionsText) + BeaconsText(cells[..])
    {
      added := BuildChain();
      EmitBeacons();
    }

    /** game_t::set_min_beacon: raises a cell's beacon and charges the
        increase to the free ants. */
    method SetMinBeacon(c: nat, minBeacon: int)
      requires Valid() && c < cells.Length
      modifies cells, me`antsCntFree
      ensures Valid()
      ensures cells[c] == old(cells[c]).(beacon := Max(old(cells[c].beacon), minBeacon))
      ensures me.antsCntFree == old(me.antsCntFree) - (cells[c].beacon - old(cells[c].beacon))
      ensures forall d :: 0 <= d < cells.Length && d != c ==> cells[d] == old(cells[d])
    {
      var r := cells[c].SetMinBeacon(minBeacon);
      cells[c] := r.0;
      me.UseAnts(r.1);
    }

    /** commit_beacon */
    method CommitBeacon(cellId: int, strength: int)
      modifies this`actionsText
      ensures actionsText == old(actionsText) + BeaconCommand(cellId, strength)
    {
      actionsText := actionsText + BeaconCommand(cellId, strength);
    }

    /** commit_wait */
    method CommitWait()
      modifies this`actionsText
      ensures actionsText == old(actionsText) + WAIT_COMMAND
    {
      actionsText := actionsText + WAIT_COMMAND;
    }

    /** The analysis half of play_step: compute_aims, then
        compute_enemy_chain. `valued` is the board after valuation and
        `chain` the enemy chain map. */
    method Analyse() returns (ghost valued: seq<Cell>, ghost chain: map<nat, int>)
      requires Valid()
      modifies this`aims, this`crystals, this`eggs, cells
      ensures Valid() && actionsText == old(actionsText)
      ensures crystals == CrystalTotal(old(cells[..])) && eggs == EggTotal(old(cells[..]))
      ensures aims == old(aims) + AimCells(old(cells[..]))
      ensures |valued| == cells.Length
      ensures forall c :: 0 <= c < cells.Length ==>
        valued[c] == if c in aims
                     then old(cells[c]).SetResourcesValue(EggsKoefHalves(|me.bases|, me.antsCnt, enemy.antsCnt, crystals), CRYSTALS_KOEF)
                     else old(cells[c])
      ensures Chain.IsChainMap(adj, AntsOf(old(cells[..]), 1), enemy.bases, chain)
      ensures forall c :: 0 <= c < cells.Length ==>
        cells[c] == if c in chain then valued[c].(oppChainVal := chain[c]) else valued[c]
      ensures Values(cells[..]) == Values(valued)
    {
      ghost var start := cells[..];
      ComputeAims();
      valued := cells[..];
      SameAnts(start, valued, 1);
      chain := ComputeEnemyChain();
      ChainKeepsValues(valued, cells[..], chain);
    }

    /** The planning half of play_step: fill_beacons, then commit_wait. */
    method Plan() returns (ghost added: seq<nat>)
      requires Valid()
      modifies this`actionsText, cells, me`antsCntFree
      ensures Valid()
      ensures Board(adj, distances.Table) && InRange(Distinct(aims), |adj|) && InRange(added, |adj|)
      ensures GreedyRun(adj, distances.Table, Values(old(cells[..])), Elements(me.bases), Distinct(aims), me.bases[0], added)
      ensures me.antsCntFree == old(me.antsCntFree) - |me.bases| - |added|
      ensures added != [] ==> me.antsCntFree >= 0
      ensures Remaining(Distinct(aims), added) == [] || me.antsCntFree <= 0 ||
              Frontier(adj, Elements(me.bases) + Elements(added)) == {}
      ensures ChainTree(adj, cells[..], me.bases, added)
      ensures Filled(old(cells[..]), cells[..], me.bases, added)
      ensures actionsText == old(actionsText) + BeaconsText(cells[..]) + WAIT_COMMAND
    {
      added := FillBeacons();
      CommitWait();
    }

    /** play_step without the timer message and the output stream: the three
        planning steps, then WAIT. `valued` is the board after valuation and
        `chain` the enemy chain map. */
    method PlayStep() returns (ghost valued: seq<Cell>, ghost chain: map<nat, int>, ghost added: seq<nat>)
      requires Valid()
      modifies this`aims, this`crystals, this`eggs, this`actionsText, cells, me`antsCntFree
      ensures Valid()
      ensures crystals == CrystalTotal(old(cells[..])) && eggs == EggTotal(old(cells[..]))
      ensures aims == old(aims) + AimCells(old(cells[..]))
      ensures |valued| == cells.Length
      ensures forall c :: 0 <= c < cells.Length ==>
        valued[c] == if c in aims
                     then old(cells[c]).SetResourcesValue(EggsKoefHalves(|me.bases|, me.antsCnt, enemy.antsCnt, crystals), CRYSTALS_KOEF)
                     else old(cells[c])
      ensures Chain.IsChainMap(adj, AntsOf(old(cells[..]), 1), enemy.bases, chain)
      ensures Board(adj, distances.Table) && InRange(Distinct(aims), |adj|) && InRange(added, |adj|)
      ensures GreedyRun(adj, distances.Table, Values(valued), Elements(me.bases), Distinct(aims), me.bases[0], added)
      ensures me.antsCntFree == old(me.antsCntFree) - |me.bases| - |added|
      ensures added != [] ==> me.antsCntFree >= 0
      ensures Remaining(Distinct(aims), added) == [] || me.antsCntFree <= 0 ||
              Frontier(adj, Elements(me.bases) + Elements(added)) == {}
      ensures ChainTree(adj, cells[..], me.bases, added)
      ensures Filled(WithChain(valued, chain), cells[..], me.bases, added)
      ensures actionsText == old(actionsText) + BeaconsText(cells[..]) + WAIT_COMMAND
    {
      valued, chain := Analyse();
      WithChainCells(valued, cells[..], chain);
      added := Plan();
    }
  }
}
