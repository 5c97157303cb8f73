/** The all-pairs distance table (map_t): one breadth-first search per source
    cell fills a |adj| x |adj| matrix of edge counts, INF where unreachable. */
module Distances {
  import opened Graph

  /** A queue element of the search: a cell and the distance it was reached at. */
  datatype Visit = Visit(cell: nat, dist: int)

  /** What a finished row for source s guarantees: the source is at 0, entries
      lie in [0, INF], every finite entry is realised by a walk of that length,
      and no edge out of a finite cell can be shortened any more. */
  ghost predicate RowOk(adj: Adjacency, s: nat, row: seq<int>)
  {
    Closed(adj, s, row) &&
    (forall c :: 0 <= c < |row| && row[c] < INF ==> c in Ball(adj, s, row[c]))
  }

  /** The row starts at 0 in s, stays in [0, INF], and no edge out of a
      finite cell can be shortened any more. */
  ghost predicate Closed(adj: Adjacency, s: nat, row: seq<int>)
  {
    ValidGraph(adj) && |row| == |adj| && s < |adj| && row[s] == 0 &&
    (forall c :: 0 <= c < |row| ==> 0 <= row[c] <= INF) &&
    (forall c, j :: 0 <= c < |row| && row[c] < INF && 0 <= j < |adj[c]| ==>
       row[adj[c][j]] <= row[c] + 1)
  }

  /** Every row of the table is finished: one row per source cell. */
  ghost predicate IsDistanceTable(adj: Adjacency, table: seq<seq<int>>)
  {
    |table| == |adj| && (forall s :: 0 <= s < |table| ==> |table[s]| == |adj|) && RowsOk(adj, table, |table|)
  }

  /** The first k rows are finished. */
  ghost predicate RowsOk(adj: Adjacency, table: seq<seq<int>>, k: nat)
    requires k <= |table|
  {
    k == 0 || (RowsOk(adj, table, k - 1) && RowOk(adj, k - 1, table[k - 1]))
  }

  lemma {:induction false} RowsOkAt(adj: Adjacency, table: seq<seq<int>>, k: nat, s: nat)
    requires k <= |table| && RowsOk(adj, table, k) && s < k
    ensures RowOk(adj, s, table[s])
    decreases k
  {
    if s < k - 1 {
      RowsOkAt(adj, table, k - 1, s);
    }
  }

  lemma {:induction false} RowsOkFrom(adj: Adjacency, table: seq<seq<int>>, k: nat)
    requires k <= |table| && forall s :: 0 <= s < k ==> RowOk(adj, s, table[s])
    ensures RowsOk(adj, table, k)
    decreases k
  {
    if k > 0 {
      RowsOkFrom(adj, table, k - 1);
    }
  }

  /** Each row of a distance table is a finished row. */
  lemma RowOf(adj: Adjacency, table: seq<seq<int>>, s: nat)
    requires IsDistanceTable(adj, table) && s < |adj|
    ensures RowOk(adj, s, table[s])
  {
    RowsOkAt(adj, table, |table|, s);
  }

  /** Cell c is reached, or a queue entry will reach it, at distance at most b. */
  ghost predicate Pending(row: seq<int>, q: seq<Visit>, c: nat, b: int)
  {
    (c < |row| && row[c] <= b) || exists i :: 0 <= i < |q| && q[i].cell == c && q[i].dist <= b
  }

  ghost function Total(row: seq<int>): int
  {
    if row == [] then 0 else Total(row[..|row| - 1]) + row[|row| - 1]
  }

  lemma {:induction false} TotalNonNegative(row: seq<int>)
    requires forall c :: 0 <= c < |row| ==> row[c] >= 0
    ensures Total(row) >= 0
  {
    if row != [] {
      TotalNonNegative(row[..|row| - 1]);
    }
  }

  /** Lowering one entry lowers the total by the same amount. */
  lemma {:induction false} TotalUpdate(row: seq<int>, c: nat, v: int)
    requires c < |row|
    ensures Total(row[c := v]) == Total(row) - row[c] + v
  {
    var last := |row| - 1;
    if c < last {
      assert row[c := v][..last] == row[..last][c := v];
      TotalUpdate(row[..last], c, v);
    } else {
      assert row[c := v][..last] == row[..last];
    }
  }

  lemma PendingAfterPop(row: seq<int>, row': seq<int>, q: seq<Visit>, c: nat, b: int)
    requires |q| > 0 && Pending(row, q, c, b)
    requires |row'| == |row| && q[0].cell < |row|
    requires forall x :: 0 <= x < |row| ==> row'[x] <= row[x]
    requires row'[q[0].cell] <= q[0].dist
    ensures Pending(row', q[1..], c, b)
  {
    if !(c < |row| && row[c] <= b) {
      var i :| 0 <= i < |q| && q[i].cell == c && q[i].dist <= b;
      if i > 0 {
        assert q[1..][i - 1] == q[i];
      }
    }
  }

  lemma PendingAfterPush(row: seq<int>, q: seq<Visit>, extra: seq<Visit>, c: nat, b: int)
    requires Pending(row, q, c, b)
    ensures Pending(row, q + extra, c, b)
  {
    if !(c < |row| && row[c] <= b) {
      var i :| 0 <= i < |q| && q[i].cell == c && q[i].dist <= b;
      assert (q + extra)[i] == q[i];
    }
  }

  /** Every queued cell is a cell of the board, reached from the source along a
      walk no longer than its queued distance. */
  ghost predicate QueueOk(adj: Adjacency, from: nat, n: nat, q: seq<Visit>)
  {
    forall i :: 0 <= i < |q| ==> q[i].cell < n && 0 <= q[i].dist && q[i].cell in Ball(adj, from, q[i].dist)
  }

  /** Entries lie in [0, INF] and every finite entry is realised by a walk. */
  ghost predicate Reached(adj: Adjacency, from: nat, row: seq<int>)
  {
    (forall c :: 0 <= c < |row| ==> 0 <= row[c] <= INF) &&
    (forall c :: 0 <= c < |row| && row[c] < INF ==> c in Ball(adj, from, row[c]))
  }

  /** Every edge out of a finite cell is already relaxed or still pending in the queue. */
  ghost predicate EdgesPending(adj: Adjacency, row: seq<int>, q: seq<Visit>)
  {
    forall c, j :: 0 <= c < |row| && c < |adj| && row[c] < INF && 0 <= j < |adj[c]| ==>
      Pending(row, q, adj[c][j], row[c] + 1)
  }

  /** The search state between two pops of the queue. */
  ghost predicate Searching(adj: Adjacency, from: nat, row: seq<int>, q: seq<Visit>)
  {
    ValidGraph(adj) && |row| == |adj| && from < |adj| &&
    Reached(adj, from, row) && QueueOk(adj, from, |row|, q) &&
    Pending(row, q, from, 0) && EdgesPending(adj, row, q)
  }

  /** Recording a shorter walk to x keeps every entry realised. */
  lemma SettleReached(adj: Adjacency, from: nat, row: seq<int>, x: nat, e: int)
    requires Reached(adj, from, row) && x < |row| && 0 <= e < row[x] && x in Ball(adj, from, e)
    ensures Reached(adj, from, row[x := e])
  {
    var row' := row[x := e];
    forall c | 0 <= c < |row'|
      ensures 0 <= row'[c] <= INF && (row'[c] < INF ==> c in Ball(adj, from, row'[c]))
    {
      if c != x {
        assert row'[c] == row[c];
      }
    }
  }

  /** Popping an improving entry and queueing every neighbour it improves
      leaves every edge out of a finite cell relaxed or pending. */
  lemma SettleEdges(adj: Adjacency, row: seq<int>, q: seq<Visit>, pushed: seq<Visit>)
    requires ValidGraph(adj) && |row| == |adj| && q != [] && q[0].cell < |row| && q[0].dist < row[q[0].cell]
    requires EdgesPending(adj, row, q)
    requires forall k :: 0 <= k < |adj[q[0].cell]| ==>
      row[q[0].cell := q[0].dist][adj[q[0].cell][k]] <= q[0].dist + 1 ||
      Visit(adj[q[0].cell][k], q[0].dist + 1) in pushed
    ensures EdgesPending(adj, row[q[0].cell := q[0].dist], q[1..] + pushed)
  {
    var x, e := q[0].cell, q[0].dist;
    var row' := row[x := e];
    forall c, j | 0 <= c < |row'| && c < |adj| && row'[c] < INF && 0 <= j < |adj[c]|
      ensures Pending(row', q[1..] + pushed, adj[c][j], row'[c] + 1)
    {
      if c == x {
        SettleOwnEdge(row', q[1..], pushed, adj[x][j], e + 1);
      } else {
        PendingAfterPop(row, row', q, adj[c][j], row[c] + 1);
        PendingAfterPush(row', q[1..], pushed, adj[c][j], row[c] + 1);
      }
    }
  }

  /** Popping an entry that brings no improvement keeps the search state. */
  lemma SkipKeeps(adj: Adjacency, from: nat, row: seq<int>, q: seq<Visit>)
    requires Searching(adj, from, row, q) && q != [] && row[q[0].cell] <= q[0].dist
    ensures Searching(adj, from, row, q[1..])
  {
    PendingAfterPop(row, row, q, from, 0);
    forall c, j | 0 <= c < |row| && row[c] < INF && 0 <= j < |adj[c]|
      ensures Pending(row, q[1..], adj[c][j], row[c] + 1)
    {
      PendingAfterPop(row, row, q, adj[c][j], row[c] + 1);
    }
  }

  /** Popping an improving entry, recording it and queueing every neighbour it
      improves keeps the search state and lowers the total of the row. */
  lemma SettleKeeps(adj: Adjacency, from: nat, row: seq<int>, q: seq<Visit>, pushed: seq<Visit>)
    requires Searching(adj, from, row, q) && q != [] && q[0].dist < row[q[0].cell]
    requires forall i :: 0 <= i < |pushed| ==>
      pushed[i].dist == q[0].dist + 1 && pushed[i].cell in adj[q[0].cell]
    requires forall k :: 0 <= k < |adj[q[0].cell]| ==>
      row[q[0].cell := q[0].dist][adj[q[0].cell][k]] <= q[0].dist + 1 ||
      Visit(adj[q[0].cell][k], q[0].dist + 1) in pushed
    ensures Searching(adj, from, row[q[0].cell := q[0].dist], q[1..] + pushed)
    ensures Total(row[q[0].cell := q[0].dist]) < Total(row)
  {
    var x, e := q[0].cell, q[0].dist;
    var row' := row[x := e];
    TotalUpdate(row, x, e);
    SettleQueue(adj, from, |row|, q, pushed);
    SettleReached(adj, from, row, x, e);
    SettleEdges(adj, row, q, pushed);
    PendingAfterPop(row, row', q, from, 0);
    PendingAfterPush(row', q[1..], pushed, from, 0);
  }

  /** Popping the head and queueing neighbours of its cell one step further
      keeps every queued cell reached along a walk of its queued length. */
  lemma SettleQueue(adj: Adjacency, from: nat, n: nat, q: seq<Visit>, pushed: seq<Visit>)
    requires ValidGraph(adj) && n == |adj| && QueueOk(adj, from, n, q) && q != []
    requires forall i :: 0 <= i < |pushed| ==>
      pushed[i].dist == q[0].dist + 1 && pushed[i].cell in adj[q[0].cell]
    ensures QueueOk(adj, from, n, q[1..] + pushed)
  {
    var q' := q[1..] + pushed;
    var x, e := q[0].cell, q[0].dist;
    assert x in Ball(adj, from, e);
    forall i | 0 <= i < |q'|
      ensures q'[i].cell < n && 0 <= q'[i].dist && q'[i].cell in Ball(adj, from, q'[i].dist)
    {
      if i >= |q| - 1 {
        assert q'[i] == pushed[i - (|q| - 1)];
        BallGrow(adj, from, e, x, q'[i].cell);
      } else {
        assert q'[i] == q[i + 1];
      }
    }
  }

  lemma SettleOwnEdge(row: seq<int>, q: seq<Visit>, pushed: seq<Visit>, c: nat, b: int)
    requires c < |row| && (row[c] <= b || Visit(c, b) in pushed)
    ensures Pending(row, q + pushed, c, b)
  {
    if row[c] > b {
      var i :| 0 <= i < |pushed| && pushed[i] == Visit(c, b);
      assert (q + pushed)[|q| + i] == pushed[i];
    }
  }

  /** The inner loop of the search: every neighbour of cell whose entry in row
      `from` exceeds dist + 1 is queued at dist + 1, in neighbour order. */
  method ImprovedNeighbours(adj: Adjacency, d: array2<int>, from: nat, cell: nat, dist: int)
    returns (pushed: seq<Visit>)
    requires ValidGraph(adj) && d.Length0 == |adj| && d.Length1 == |adj| && from < |adj| && cell < |adj|
    ensures forall i :: 0 <= i < |pushed| ==>
      pushed[i].dist == dist + 1 && pushed[i].cell in adj[cell] && d[from, pushed[i].cell] > dist + 1
    ensures forall k :: 0 <= k < |adj[cell]| ==>
      d[from, adj[cell][k]] <= dist + 1 || Visit(adj[cell][k], dist + 1) in pushed
  {
    pushed := [];
    for k := 0 to |adj[cell]|
      invariant forall i :: 0 <= i < |pushed| ==>
        pushed[i].dist == dist + 1 && pushed[i].cell in adj[cell] && d[from, pushed[i].cell] > dist + 1
      invariant forall k' :: 0 <= k' < k ==>
        d[from, adj[cell][k']] <= dist + 1 || Visit(adj[cell][k'], dist + 1) in pushed
    {
      var next := adj[cell][k];
      if d[from, next] > dist + 1 {
        pushed := pushed + [Visit(next, dist + 1)];
      }
    }
  }

  /** The search from one source (the body of map_t::map_t's outer loop): fills
      row `from` of d and leaves every other row alone. */
  method Explore(adj: Adjacency, d: array2<int>, from: nat) returns (ghost row: seq<int>)
    requires ValidGraph(adj) && d.Length0 == |adj| && d.Length1 == |adj| && from < |adj|
    requires forall j :: 0 <= j < |adj| ==> d[from, j] == INF
    modifies d
    ensures RowOk(adj, from, row)
    ensures forall i, j :: 0 <= i < |adj| && 0 <= j < |adj| ==>
      d[i, j] == if i == from then row[j] else old(d[i, j])
  {
    var n := |adj|;
    row := seq(n, j => INF);
    var q: seq<Visit> := [Visit(from, 0)];
    assert Ball(adj, from, 0) == {from};
    assert q[0].cell == from && q[0].dist <= 0;
    TotalNonNegative(row);
    while q != []
      invariant Searching(adj, from, row, q)
      invariant forall j :: 0 <= j < n ==> d[from, j] == row[j]
      invariant forall i, j :: 0 <= i < n && 0 <= j < n && i != from ==> d[i, j] == old(d[i, j])
      invariant Total(row) >= 0
      decreases Total(row), |q|
    {
      var cellTo, dist := q[0].cell, q[0].dist;
      if d[from, cellTo] <= dist {
        SkipKeeps(adj, from, row, q);
        q := q[1..];
        continue;
      }
      d[from, cellTo] := dist;
      ghost var row' := row[cellTo := dist];
      assert forall j :: 0 <= j < n ==> d[from, j] == row'[j];
      var pushed := ImprovedNeighbours(adj, d, from, cellTo, dist);
      forall k | 0 <= k < |adj[cellTo]|
        ensures row'[adj[cellTo][k]] <= dist + 1 || Visit(adj[cellTo][k], dist + 1) in pushed
      {
        assert d[from, adj[cellTo][k]] == row'[adj[cellTo][k]];
      }
      SettleKeeps(adj, from, row, q, pushed);
      row := row[cellTo := dist];
      q := q[1..] + pushed;
      TotalNonNegative(row);
    }
    assert Pending(row, q, from, 0);
  }

  /** map_t: the distance table over a fixed board. */
  class DistanceMap {
    const adj: Adjacency
    const dist: array2<int>
    ghost const Table: seq<seq<int>>

    ghost predicate Valid()
      reads this, dist
    {
      dist.Length0 == |adj| && dist.Length1 == |adj| && IsDistanceTable(adj, Table) &&
      forall i, j :: 0 <= i < |adj| && 0 <= j < |adj| ==> |Table[i]| == |adj| && dist[i, j] == Table[i][j]
    }

    constructor (adj: Adjacency)
      requires ValidGraph(adj)
      ensures this.adj == adj && Valid()
    {
      var n := |adj|;
      var d := new int[n, n]((i, j) => INF);
      ghost var table: seq<seq<int>> := seq(n, i => seq(n, j => INF));
      for from := 0 to n
        invariant |table| == n && forall i :: 0 <= i < n ==> |table[i]| == n
        invariant forall i, j :: 0 <= i < n && 0 <= j < n ==> d[i, j] == table[i][j]
        invariant forall i :: 0 <= i < from ==> RowOk(adj, i, table[i])
        invariant forall i, j :: from <= i < n && 0 <= j < n ==> table[i][j] == INF
      {
        ghost var row := Explore(adj, d, from);
        table := table[from := row];
      }
      RowsOkFrom(adj, table, n);
      this.adj := adj;
      dist := d;
      Table := table;
    }

    /** operator(): the number of edges on a shortest walk, INF when there is none. */
    function Get(from: nat, to: nat): (r: int)
      reads this, dist
      requires Valid() && from < |adj| && to < |adj|
      ensures 0 <= r <= INF
      ensures r < INF ==> to in Ball(adj, from, r) && forall k: nat :: to in Ball(adj, from, k) ==> r <= k
      ensures r == INF ==> forall k: nat :: k < INF ==> to !in Ball(adj, from, k)
    {
      Shortest(adj, Table, from, to);
      dist[from, to]
    }
  }

  /** A finished row never exceeds the length of any walk. */
  lemma {:induction false} RowComplete(adj: Adjacency, s: nat, row: seq<int>, c: nat, k: nat)
    requires Closed(adj, s, row) && c in Ball(adj, s, k)
    ensures c < |row| && row[c] <= k
    decreases k
  {
    if k == 0 {
    } else if c in Ball(adj, s, k - 1) {
      RowComplete(adj, s, row, c, k - 1);
    } else {
      var p, m := BallStep(adj, s, k, c);
      RowComplete(adj, s, row, p, k - 1);
      if row[p] < INF {
        assert row[c] <= row[p] + 1;
      }
    }
  }

  /** Every finite entry is the length of a shortest walk; INF means no walk
      shorter than INF exists. */
  lemma Shortest(adj: Adjacency, table: seq<seq<int>>, i: nat, j: nat)
    requires IsDistanceTable(adj, table) && i < |adj| && j < |adj|
    ensures |table[i]| == |adj| && 0 <= table[i][j] <= INF
    ensures table[i][j] < INF ==>
      j in Ball(adj, i, table[i][j]) && forall k: nat :: j in Ball(adj, i, k) ==> table[i][j] <= k
    ensures table[i][j] == INF ==> forall k: nat :: k < INF ==> j !in Ball(adj, i, k)
  {
    RowOf(adj, table, i);
    forall k: nat | j in Ball(adj, i, k)
      ensures table[i][j] <= k
    {
      RowComplete(adj, i, table[i], j, k);
    }
  }

  /** On an undirected board the table is symmetric. */
  lemma Symmetric(adj: Adjacency, table: seq<seq<int>>, i: nat, j: nat)
    requires IsDistanceTable(adj, table) && Undirected(adj) && i < |adj| && j < |adj|
    ensures table[i][j] == table[j][i]
  {
    Shortest(adj, table, i, j);
    Shortest(adj, table, j, i);
    if table[i][j] < INF {
      BallReverse(adj, i, j, table[i][j]);
    }
    if table[j][i] < INF {
      BallReverse(adj, j, i, table[j][i]);
    }
  }

  /** The triangle inequality holds for every triple, finite or not. */
  lemma Triangle(adj: Adjacency, table: seq<seq<int>>, i: nat, j: nat, k: nat)
    requires IsDistanceTable(adj, table) && i < |adj| && j < |adj| && k < |adj|
    ensures table[i][k] <= table[i][j] + table[j][k]
  {
    Shortest(adj, table, i, j);
    Shortest(adj, table, j, k);
    Shortest(adj, table, i, k);
    if table[i][j] < INF && table[j][k] < INF {
      BallCompose(adj, i, j, k, table[i][j], table[j][k]);
    }
  }
}
