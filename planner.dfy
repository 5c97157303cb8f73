/** The greedy growth of fill_beacons: the key a candidate cell is ranked by,
    the comparator handed to std::min_element, the two scans of one round
    (scoring the candidates, picking the best), and what a whole run of
    rounds means. Unordered containers are walked in an unspecified order,
    so every statement here holds whichever order the walk takes. */
module Planner {
  import opened Graph
  import opened Cells
  import opened Distances

  /** The three-part rank of a candidate: distance to its nearest remaining
      aim, value of the aims at that distance, distance to the first base. */
  datatype Key = Key(minDis: int, valCnt: int, baseDis: int)

  /** A candidate's data (temp_data_t): the first two parts of its key and
      the chain cell it was found from. */
  datatype Candidate = Candidate(minDis: int, valCnt: int, parent: nat)

  /** The comparator: nearer aims first, then more value, then nearer the first base. */
  predicate Precedes(a: Key, b: Key): (r: bool)
    ensures a.minDis < b.minDis ==> r
    ensures a.minDis == b.minDis && a.valCnt > b.valCnt ==> r
    ensures r ==> a != b && a.minDis <= b.minDis
    ensures r && a.minDis == b.minDis ==> a.valCnt >= b.valCnt
  {
    if a.minDis != b.minDis then a.minDis < b.minDis
    else if a.valCnt != b.valCnt then a.valCnt > b.valCnt
    else a.baseDis < b.baseDis
  }

  /** The comparator is a strict total order on keys, as std::min_element needs. */
  lemma PrecedesStrictOrder(a: Key, b: Key, c: Key)
    ensures !Precedes(a, a)
    ensures Precedes(a, b) && Precedes(b, c) ==> Precedes(a, c)
    ensures a != b ==> Precedes(a, b) || Precedes(b, a)
  {
  }

  predicate InRange(s: seq<nat>, n: nat)
  {
    forall i :: 0 <= i < |s| ==> s[i] < n
  }

  /** A board and its distance table agree in size. */
  predicate Board(adj: Adjacency, table: seq<seq<int>>)
  {
    ValidGraph(adj) && |table| == |adj| && forall i :: 0 <= i < |table| ==> |table[i]| == |adj|
  }

  /** The resource value of every cell, in cell order. */
  function Values(cells: seq<Cell>): (r: seq<int>)
    ensures |r| == |cells| && forall c :: 0 <= c < |cells| ==> r[c] == cells[c].resourcesValue
  {
    seq(|cells|, c requires 0 <= c < |cells| => cells[c].resourcesValue)
  }

  /** min_dis: the distance from c to its nearest aim, INF when there is none
      nearer than INF. */
  function MinAimDist(table: seq<seq<int>>, c: nat, aims: seq<nat>): (r: int)
    requires c < |table| && InRange(aims, |table[c]|)
    ensures r <= INF
    ensures forall i :: 0 <= i < |aims| ==> r <= table[c][aims[i]]
    ensures r == INF || exists i :: 0 <= i < |aims| && table[c][aims[i]] == r
  {
    if aims == [] then INF
    else
      var m := MinAimDist(table, c, aims[..|aims| - 1]);
      var d := table[c][aims[|aims| - 1]];
      if m > d then d else m
  }

  /** val_cnt for distance d: the resource values of the aims exactly d away from c. */
  function ValueAt(values: seq<int>, table: seq<seq<int>>, c: nat, aims: seq<nat>, d: int): int
    requires c < |table| && InRange(aims, |table[c]|) && InRange(aims, |values|)
  {
    if aims == [] then 0
    else
      var a := aims[|aims| - 1];
      ValueAt(values, table, c, aims[..|aims| - 1], d) + (if table[c][a] == d then values[a] else 0)
  }

  /** With no aim at distance d the value there is 0. */
  lemma {:induction false} ValueAtNone(values: seq<int>, table: seq<seq<int>>, c: nat, aims: seq<nat>, d: int)
    requires c < |table| && InRange(aims, |table[c]|) && InRange(aims, |values|)
    requires forall i :: 0 <= i < |aims| ==> table[c][aims[i]] != d
    ensures ValueAt(values, table, c, aims, d) == 0
  {
    if aims != [] {
      ValueAtNone(values, table, c, aims[..|aims| - 1], d);
    }
  }

  /** One more aim: the minimum drops to its distance when that is smaller,
      and the value at the minimum restarts from, adds or ignores its value. */
  lemma AimStep(values: seq<int>, table: seq<seq<int>>, c: nat, aims: seq<nat>, i: nat)
    requires c < |table| && InRange(aims, |table[c]|) && InRange(aims, |values|) && i < |aims|
    ensures var m := MinAimDist(table, c, aims[..i]);
            var d := table[c][aims[i]];
            var m' := MinAimDist(table, c, aims[..i + 1]);
            m' == (if m > d then d else m) &&
            ValueAt(values, table, c, aims[..i + 1], m') ==
              (if m > d then values[aims[i]]
               else if m == d then ValueAt(values, table, c, aims[..i], m) + values[aims[i]]
               else ValueAt(values, table, c, aims[..i], m))
  {
    var m := MinAimDist(table, c, aims[..i]);
    var d := table[c][aims[i]];
    assert aims[..i + 1][..i] == aims[..i];
    if m > d {
      ValueAtNone(values, table, c, aims[..i], d);
    }
  }

  /** The inner loop over the aims for one new candidate: keeps the smallest
      distance seen and adds up the values at it, restarting the sum when a
      nearer aim turns up. */
  method AimScore(dm: DistanceMap, cells: array<Cell>, c: nat, aims: seq<nat>) returns (minDis: int, valCnt: int)
    requires dm.Valid() && c < |dm.adj| && cells.Length == |dm.adj| && InRange(aims, |dm.adj|)
    ensures |dm.Table[c]| == |dm.adj|
    ensures minDis == MinAimDist(dm.Table, c, aims)
    ensures valCnt == ValueAt(Values(cells[..]), dm.Table, c, aims, minDis)
  {
    RowOf(dm.adj, dm.Table, c);
    ghost var values := Values(cells[..]);
    minDis, valCnt := INF, 0;
    for i := 0 to |aims|
      invariant minDis == MinAimDist(dm.Table, c, aims[..i])
      invariant valCnt == ValueAt(values, dm.Table, c, aims[..i], minDis)
    {
      var a := aims[i];
      var d := dm.Get(c, a);
      AimStep(values, dm.Table, c, aims, i);
      if minDis > d {
        minDis := d;
        valCnt := cells[a].resourcesValue;
      } else if minDis == d {
        valCnt := valCnt + cells[a].resourcesValue;
      }
    }
    assert aims[..|aims|] == aims;
  }

  /** Every entry of cand is a scored cell next to the chain and off it. */
  ghost predicate Scored(adj: Adjacency, table: seq<seq<int>>, values: seq<int>, path: set<nat>,
                         aims: seq<nat>, cand: map<nat, Candidate>)
    requires InRange(aims, |adj|) && |values| == |adj|
  {
    forall x :: x in cand ==>
      x < |adj| && x < |table| && |table[x]| == |adj| && x !in path &&
      cand[x].minDis == MinAimDist(table, x, aims) &&
      cand[x].valCnt == ValueAt(values, table, x, aims, cand[x].minDis) &&
      cand[x].parent in path && cand[x].parent < |adj| && x in adj[cand[x].parent]
  }

  /** Every neighbour of the listed chain cells is on the chain or entered. */
  ghost predicate Covered(adj: Adjacency, path: set<nat>, done: set<nat>, cand: map<nat, Candidate>)
  {
    forall p, j :: p in done && p < |adj| && 0 <= j < |adj[p]| ==> adj[p][j] in path || adj[p][j] in cand
  }

  /** A candidate map is exactly the frontier when every entry lies next to
      the chain and off it, and every neighbour of the chain is on it or entered. */
  lemma FrontierExactly(adj: Adjacency, table: seq<seq<int>>, values: seq<int>, path: set<nat>,
                        aims: seq<nat>, cand: map<nat, Candidate>)
    requires InRange(aims, |adj|) && |values| == |adj|
    requires Scored(adj, table, values, path, aims, cand) && Covered(adj, path, path, cand)
    ensures cand.Keys == Frontier(adj, path)
  {
    forall x | x in cand
      ensures x in Frontier(adj, path)
    {
      var p := cand[x].parent;
      var j :| 0 <= j < |adj[p]| && adj[p][j] == x;
    }
  }

  lemma ScoredInsert(adj: Adjacency, table: seq<seq<int>>, values: seq<int>, path: set<nat>,
                     aims: seq<nat>, cand: map<nat, Candidate>, x: nat, entry: Candidate)
    requires InRange(aims, |adj|) && |values| == |adj|
    requires Scored(adj, table, values, path, aims, cand)
    requires x < |adj| && x < |table| && |table[x]| == |adj| && x !in path
    requires entry.minDis == MinAimDist(table, x, aims)
    requires entry.valCnt == ValueAt(values, table, x, aims, entry.minDis)
    requires entry.parent in path && entry.parent < |adj| && x in adj[entry.parent]
    ensures Scored(adj, table, values, path, aims, cand[x := entry])
  {
  }

  /** One neighbour of the candidate loop: a cell off the chain and not yet a
      candidate is scored against the aims and entered with parent p. */
  method ScoreNeighbour(dm: DistanceMap, cells: array<Cell>, path: map<nat, int>, aims: seq<nat>,
                        p: nat, next: nat, cand: map<nat, Candidate>) returns (cand': map<nat, Candidate>)
    requires dm.Valid() && ValidGraph(dm.adj) && cells.Length == |dm.adj| && InRange(aims, |dm.adj|)
    requires p in path && p < |dm.adj| && next in dm.adj[p]
    requires Scored(dm.adj, dm.Table, Values(cells[..]), path.Keys, aims, cand)
    ensures Scored(dm.adj, dm.Table, Values(cells[..]), path.Keys, aims, cand')
    ensures cand.Keys <= cand'.Keys && (next in path || next in cand')
    ensures next in path || next in cand ==> cand' == cand
  {
    cand' := cand;
    if next !in path && next !in cand {
      var minDis, valCnt := AimScore(dm, cells, next, aims);
      ScoredInsert(dm.adj, dm.Table, Values(cells[..]), path.Keys, aims, cand, next, Candidate(minDis, valCnt, p));
      cand' := cand[next := Candidate(minDis, valCnt, p)];
    }
  }

  /** The scan of one chain cell's neighbours: each one off the chain and not
      yet a candidate is scored and entered with p as its parent. */
  method ScanNeighbours(dm: DistanceMap, cells: array<Cell>, path: map<nat, int>, aims: seq<nat>,
                        p: nat, cand: map<nat, Candidate>) returns (cand': map<nat, Candidate>)
    requires dm.Valid() && ValidGraph(dm.adj) && cells.Length == |dm.adj| && InRange(aims, |dm.adj|)
    requires p in path && p < |dm.adj|
    requires Scored(dm.adj, dm.Table, Values(cells[..]), path.Keys, aims, cand)
    ensures Scored(dm.adj, dm.Table, Values(cells[..]), path.Keys, aims, cand')
    ensures cand.Keys <= cand'.Keys
    ensures forall j :: 0 <= j < |dm.adj[p]| ==> dm.adj[p][j] in path || dm.adj[p][j] in cand'
  {
    var adj := dm.adj;
    cand' := cand;
    for j := 0 to |adj[p]|
      invariant Scored(adj, dm.Table, Values(cells[..]), path.Keys, aims, cand')
      invariant cand.Keys <= cand'.Keys
      invariant forall j' :: 0 <= j' < j ==> adj[p][j'] in path || adj[p][j'] in cand'
    {
      var next := adj[p][j];
      ghost var before := cand';
      assert next in adj[p];
      cand' := ScoreNeighbour(dm, cells, path, aims, p, next, cand');
      forall j' | 0 <= j' < j + 1
        ensures adj[p][j'] in path || adj[p][j'] in cand'
      {
        if j' < j {
          assert adj[p][j'] in path || adj[p][j'] in before;
        }
      }
    }
  }

  /** The first scan of a round: every cell next to the chain and off it
      becomes a candidate once, scored against the remaining aims, and
      remembers the chain cell it was first found from. */
  method CollectCandidates(dm: DistanceMap, cells: array<Cell>, path: map<nat, int>, aims: seq<nat>)
    returns (cand: map<nat, Candidate>)
    requires dm.Valid() && ValidGraph(dm.adj) && cells.Length == |dm.adj| && InRange(aims, |dm.adj|)
    requires forall p :: p in path ==> p < |dm.adj|
    ensures cand.Keys == Frontier(dm.adj, path.Keys)
    ensures Scored(dm.adj, dm.Table, Values(cells[..]), path.Keys, aims, cand)
  {
    cand := map[];
    var todo := path.Keys;
    while todo != {}
      invariant todo <= path.Keys
      invariant Scored(dm.adj, dm.Table, Values(cells[..]), path.Keys, aims, cand)
      invariant Covered(dm.adj, path.Keys, path.Keys - todo, cand)
      decreases todo
    {
      var p :| p in todo;
      todo := todo - {p};
      cand := ScanNeighbours(dm, cells, path, aims, p, cand);
    }
    FrontierExactly(dm.adj, dm.Table, Values(cells[..]), path.Keys, aims, cand);
  }

  lemma TableBoard(adj: Adjacency, table: seq<seq<int>>)
    requires ValidGraph(adj) && IsDistanceTable(adj, table)
    ensures Board(adj, table)
  {
    forall i | 0 <= i < |table|
      ensures |table[i]| == |adj|
    {
      RowOf(adj, table, i);
    }
  }

  /** A candidate's full key: the stored two parts and its distance to the first base. */
  function KeyOf(table: seq<seq<int>>, cand: map<nat, Candidate>, x: nat, base0: nat): Key
    requires x in cand && x < |table| && base0 < |table[x]|
  {
    Key(cand[x].minDis, cand[x].valCnt, table[x][base0])
  }

  /** std::min_element over the candidates: no candidate precedes the one picked. */
  method SelectBest(dm: DistanceMap, cand: map<nat, Candidate>, base0: nat) returns (best: nat)
    requires dm.Valid() && cand != map[] && base0 < |dm.adj|
    requires forall x :: x in cand ==> x < |dm.adj| && |dm.Table[x]| == |dm.adj|
    ensures best in cand
    ensures forall x :: x in cand ==> !Precedes(KeyOf(dm.Table, cand, x, base0), KeyOf(dm.Table, cand, best, base0))
  {
    var todo := cand.Keys;
    best :| best in todo;
    todo := todo - {best};
    var bestKey := Key(cand[best].minDis, cand[best].valCnt, dm.Get(best, base0));
    while todo != {}
      invariant todo <= cand.Keys && best in cand && best !in todo
      invariant bestKey == KeyOf(dm.Table, cand, best, base0)
      invariant forall x :: x in cand && x !in todo ==> !Precedes(KeyOf(dm.Table, cand, x, base0), bestKey)
      decreases todo
    {
      var x :| x in todo;
      todo := todo - {x};
      var key := Key(cand[x].minDis, cand[x].valCnt, dm.Get(x, base0));
      if Precedes(key, bestKey) {
        forall y | y in cand && y !in todo
          ensures !Precedes(KeyOf(dm.Table, cand, y, base0), key)
        {
          PrecedesStrictOrder(KeyOf(dm.Table, cand, y, base0), key, bestKey);
        }
        best, bestKey := x, key;
      }
    }
  }

  /** One round of fill_beacons up to its choice: scan the frontier of the
      chain, rank it, and pick a best cell with the chain cell it was found
      from; none when the chain has no frontier. */
  method ChooseNext(dm: DistanceMap, cells: array<Cell>, path: map<nat, int>, aims: seq<nat>, base0: nat)
    returns (found: bool, best: nat, parent: nat)
    requires dm.Valid() && ValidGraph(dm.adj) && cells.Length == |dm.adj| && InRange(aims, |dm.adj|)
    requires base0 < |dm.adj| && forall p :: p in path ==> p < |dm.adj|
    ensures Board(dm.adj, dm.Table)
    ensures !found <==> Frontier(dm.adj, path.Keys) == {}
    ensures found ==> BestOnFrontier(dm.adj, dm.Table, Values(cells[..]), path.Keys, aims, base0, best)
    ensures found ==> parent in path && parent < |dm.adj| && best in dm.adj[parent]
  {
    TableBoard(dm.adj, dm.Table);
    var cand := CollectCandidates(dm, cells, path, aims);
    if cand == map[] {
      return false, 0, 0;
    }
    best := SelectBest(dm, cand, base0);
    parent := cand[best].parent;
    found := true;
    ghost var values := Values(cells[..]);
    forall x | x in Frontier(dm.adj, path.Keys) && x < |dm.adj|
      ensures !Precedes(Score(dm.Table, values, x, aims, base0), Score(dm.Table, values, best, aims, base0))
    {
      assert KeyOf(dm.Table, cand, x, base0) == Score(dm.Table, values, x, aims, base0);
    }
  }

  /** The aims not yet taken, in their original order. */
  function Remaining(aims: seq<nat>, taken: seq<nat>): seq<nat>
  {
    if aims == [] then []
    else
      var a := aims[|aims| - 1];
      Remaining(aims[..|aims| - 1], taken) + (if a in taken then [] else [a])
  }

  /** What remains is exactly the aims not taken. */
  lemma {:induction false} RemainingExactly(aims: seq<nat>, taken: seq<nat>)
    ensures forall x :: x in Remaining(aims, taken) <==> x in aims && x !in taken
    ensures forall i :: 0 <= i < |Remaining(aims, taken)| ==> Remaining(aims, taken)[i] in aims
  {
    if aims != [] {
      var k := |aims| - 1;
      RemainingExactly(aims[..k], taken);
      var r := Remaining(aims, taken);
      assert r == Remaining(aims[..k], taken) + (if aims[k] in taken then [] else [aims[k]]);
      assert aims == aims[..k] + [aims[k]];
      forall i | 0 <= i < |r|
        ensures r[i] in aims
      {
        if i < |Remaining(aims[..k], taken)| {
          assert r[i] in aims[..k];
        }
      }
    }
  }

  lemma RemainingInRange(aims: seq<nat>, taken: seq<nat>, n: nat)
    requires InRange(aims, n)
    ensures InRange(Remaining(aims, taken), n)
  {
    RemainingExactly(aims, taken);
    var r := Remaining(aims, taken);
    forall i | 0 <= i < |r|
      ensures r[i] < n
    {
      var j :| 0 <= j < |aims| && aims[j] == r[i];
    }
  }

  /** Before anything is taken every aim remains. */
  lemma {:induction false} RemainingNone(aims: seq<nat>)
    ensures Remaining(aims, []) == aims
  {
    if aims != [] {
      RemainingNone(aims[..|aims| - 1]);
    }
  }

  /** Taking one more cell is erasing it from what was left. */
  lemma {:induction false} RemainingStep(aims: seq<nat>, taken: seq<nat>, c: nat)
    ensures Remaining(aims, taken + [c]) == Remaining(Remaining(aims, taken), [c])
  {
    if aims != [] {
      var k := |aims| - 1;
      var a := aims[k];
      RemainingStep(aims[..k], taken, c);
      var left := Remaining(aims, taken);
      if a !in taken {
        assert left[..|left| - 1] == Remaining(aims[..k], taken);
      } else {
        assert left == Remaining(aims[..k], taken);
      }
    }
  }

  /** The unordered set built from the aim list: each aim once, in order of first appearance. */
  function Distinct(s: seq<nat>): seq<nat>
  {
    if s == [] then []
    else
      var prefix := Distinct(s[..|s| - 1]);
      var x := s[|s| - 1];
      if x in prefix then prefix else prefix + [x]
  }

  /** The set holds every listed aim, and each only once. */
  lemma {:induction false} DistinctExactly(s: seq<nat>)
    ensures forall x :: x in Distinct(s) <==> x in s
    ensures forall i :: 0 <= i < |Distinct(s)| ==> Distinct(s)[i] in s
    ensures forall i, j :: 0 <= i < j < |Distinct(s)| ==> Distinct(s)[i] != Distinct(s)[j]
  {
    if s != [] {
      var k := |s| - 1;
      DistinctExactly(s[..k]);
      var prefix := Distinct(s[..k]);
      var r := Distinct(s);
      assert s == s[..k] + [s[k]];
      forall i | 0 <= i < |r|
        ensures r[i] in s
      {
        if i < |prefix| {
          assert r[i] in s[..k];
        }
      }
    }
  }

  lemma DistinctInRange(s: seq<nat>, n: nat)
    requires InRange(s, n)
    ensures InRange(Distinct(s), n)
  {
    DistinctExactly(s);
    var r := Distinct(s);
    forall i | 0 <= i < |r|
      ensures r[i] < n
    {
      var j :| 0 <= j < |s| && s[j] == r[i];
    }
  }

  ghost function Elements(s: seq<nat>): set<nat>
  {
    set x | x in s
  }

  /** The rank of frontier cell x against the given aims. */
  function Score(table: seq<seq<int>>, values: seq<int>, x: nat, aims: seq<nat>, base0: nat): Key
    requires x < |table| && InRange(aims, |table[x]|) && InRange(aims, |values|) && base0 < |table[x]|
  {
    var d := MinAimDist(table, x, aims);
    Key(d, ValueAt(values, table, x, aims, d), table[x][base0])
  }

  /** c is a frontier cell of path that no frontier cell precedes. */
  ghost predicate BestOnFrontier(adj: Adjacency, table: seq<seq<int>>, values: seq<int>, path: set<nat>,
                                 aims: seq<nat>, base0: nat, c: nat)
    requires Board(adj, table) && |values| == |adj| && InRange(aims, |adj|) && base0 < |adj|
  {
    c in Frontier(adj, path) && c < |adj| &&
    forall x :: x in Frontier(adj, path) && x < |adj| ==>
      !Precedes(Score(table, values, x, aims, base0), Score(table, values, c, aims, base0))
  }

  /** A run of rounds from the seed cells: each round began with aims still
      untaken, and its added cell was a best frontier cell of the chain grown
      so far, ranked against the aims not yet taken. */
  ghost predicate GreedyRun(adj: Adjacency, table: seq<seq<int>>, values: seq<int>, seeds: set<nat>,
                            aims0: seq<nat>, base0: nat, added: seq<nat>)
    requires Board(adj, table) && |values| == |adj| && InRange(aims0, |adj|) && base0 < |adj|
    decreases |added|
  {
    if added == [] then true
    else
      var k := |added| - 1;
      GreedyRun(adj, table, values, seeds, aims0, base0, added[..k]) &&
      Remaining(aims0, added[..k]) != [] &&
      (RemainingInRange(aims0, added[..k], |adj|);
       BestOnFrontier(adj, table, values, seeds + Elements(added[..k]), Remaining(aims0, added[..k]), base0, added[k]))
  }

  lemma GreedyRunExtend(adj: Adjacency, table: seq<seq<int>>, values: seq<int>, seeds: set<nat>,
                        aims0: seq<nat>, base0: nat, added: seq<nat>, c: nat)
    requires Board(adj, table) && |values| == |adj| && InRange(aims0, |adj|) && base0 < |adj|
    requires GreedyRun(adj, table, values, seeds, aims0, base0, added)
    requires Remaining(aims0, added) != [] && InRange(Remaining(aims0, added), |adj|)
    requires BestOnFrontier(adj, table, values, seeds + Elements(added), Remaining(aims0, added), base0, c)
    ensures GreedyRun(adj, table, values, seeds, aims0, base0, added + [c])
  {
    assert (added + [c])[..|added|] == added;
  }

  /** Every round of a run began with aims untaken and picked a best frontier
      cell of its own chain. */
  lemma {:induction false} GreedyRunAt(adj: Adjacency, table: seq<seq<int>>, values: seq<int>, seeds: set<nat>,
                                       aims0: seq<nat>, base0: nat, added: seq<nat>, i: nat)
    requires Board(adj, table) && |values| == |adj| && InRange(aims0, |adj|) && base0 < |adj|
    requires GreedyRun(adj, table, values, seeds, aims0, base0, added) && i < |added|
    ensures Remaining(aims0, added[..i]) != []
    ensures (RemainingInRange(aims0, added[..i], |adj|);
             BestOnFrontier(adj, table, values, seeds + Elements(added[..i]), Remaining(aims0, added[..i]), base0, added[i]))
    decreases |added|
  {
    var k := |added| - 1;
    if i < k {
      GreedyRunAt(adj, table, values, seeds, aims0, base0, added[..k], i);
      assert added[..k][..i] == added[..i];
    }
  }

  /** A run never adds a seed, and never adds a cell twice: each added cell
      was off the chain grown before it. */
  lemma {:induction false} GreedyRunFresh(adj: Adjacency, table: seq<seq<int>>, values: seq<int>, seeds: set<nat>,
                                          aims0: seq<nat>, base0: nat, added: seq<nat>)
    requires Board(adj, table) && |values| == |adj| && InRange(aims0, |adj|) && base0 < |adj|
    requires GreedyRun(adj, table, values, seeds, aims0, base0, added)
    ensures forall i :: 0 <= i < |added| ==> added[i] !in seeds
    ensures forall i, j :: 0 <= i < j < |added| ==> added[i] != added[j]
  {
    forall j | 0 <= j < |added|
      ensures added[j] !in seeds + Elements(added[..j])
    {
      GreedyRunAt(adj, table, values, seeds, aims0, base0, added, j);
    }
    forall i, j | 0 <= i < j < |added|
      ensures added[i] != added[j]
    {
      assert added[i] in Elements(added[..j]) by { assert added[..j][i] == added[i]; }
    }
  }

  /** A round that can reach a remaining aim in one step takes an aim: an aim
      is at distance 0 from itself and from no other cell. */
  lemma {:induction false} GreedyTakesAdjacentAim(adj: Adjacency, table: seq<seq<int>>, values: seq<int>,
                                                  path: set<nat>, aims: seq<nat>, base0: nat, c: nat, a: nat)
    requires Board(adj, table) && |values| == |adj| && IsDistanceTable(adj, table) && InRange(aims, |adj|) && base0 < |adj|
    requires BestOnFrontier(adj, table, values, path, aims, base0, c)
    requires a in aims && a in Frontier(adj, path)
    ensures c in aims
  {
    RowOf(adj, table, a);
    RowOf(adj, table, c);
    var ia :| 0 <= ia < |aims| && aims[ia] == a;
    assert MinAimDist(table, a, aims) <= 0;
    assert !Precedes(Score(table, values, a, aims, base0), Score(table, values, c, aims, base0));
    var d := MinAimDist(table, c, aims);
    assert d <= 0;
    var i :| 0 <= i < |aims| && table[c][aims[i]] == d;
    assert aims[i] in Ball(adj, c, 0);
  }
}
