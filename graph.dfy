/** The static board: cells are the indices 0 .. |adj| - 1 and adj[c] lists
    the neighbours of cell c (the source keeps at most six per cell). */
module Graph {

  const NEIGH_SIZE := 6
  /** Sentinel for "unreachable" in the distance table. */
  const INF := 1000000000
  /** The source's INVALID_ID / nullptr for a cell reference. */
  const NO_CELL := -1

  type Adjacency = seq<seq<nat>>

  /** Every neighbour index names a cell and no cell has more than six neighbours. */
  predicate ValidGraph(adj: Adjacency)
  {
    forall c :: 0 <= c < |adj| ==>
      |adj[c]| <= NEIGH_SIZE && forall j :: 0 <= j < |adj[c]| ==> adj[c][j] < |adj|
  }

  /** The board's edges go both ways (the game's maps are undirected). */
  predicate Undirected(adj: Adjacency)
  {
    forall c, j :: 0 <= c < |adj| && 0 <= j < |adj[c]| ==> adj[c][j] < |adj| && c in adj[adj[c][j]]
  }

  /** The cells adjacent to some cell of b. */
  ghost function Step(adj: Adjacency, b: set<nat>): set<nat>
  {
    set p, j | p in b && p < |adj| && 0 <= j < |adj[p]| :: adj[p][j]
  }

  /** The cells reachable from s along a walk of at most k edges. */
  ghost function Ball(adj: Adjacency, s: nat, k: nat): set<nat>
    decreases k
  {
    if k == 0 then {s}
    else
      var inner := Ball(adj, s, k - 1);
      inner + Step(adj, inner)
  }

  /** The cells not in path that are adjacent to a cell of path. */
  ghost function Frontier(adj: Adjacency, path: set<nat>): set<nat>
  {
    set p, j | p in path && p < |adj| && 0 <= j < |adj[p]| && adj[p][j] !in path :: adj[p][j]
  }

  lemma BallGrow(adj: Adjacency, s: nat, k: nat, p: nat, n: nat)
    requires p in Ball(adj, s, k) && p < |adj| && n in adj[p]
    ensures n in Ball(adj, s, k + 1)
  {
    var j :| 0 <= j < |adj[p]| && adj[p][j] == n;
    assert n in Step(adj, Ball(adj, s, k));
  }

  lemma {:induction false} BallMono(adj: Adjacency, s: nat, k: nat, k': nat)
    requires k <= k'
    ensures Ball(adj, s, k) <= Ball(adj, s, k')
    decreases k' - k
  {
    if k < k' {
      BallMono(adj, s, k, k' - 1);
    }
  }

  /** Walks compose: a walk of at most a edges followed by one of at most b. */
  lemma {:induction false} BallCompose(adj: Adjacency, i: nat, j: nat, c: nat, a: nat, b: nat)
    requires j in Ball(adj, i, a) && c in Ball(adj, j, b)
    ensures c in Ball(adj, i, a + b)
    decreases b
  {
    if b == 0 {
      assert c == j;
    } else if c in Ball(adj, j, b - 1) {
      BallCompose(adj, i, j, c, a, b - 1);
      BallMono(adj, i, a + b - 1, a + b);
    } else {
      var p, m := BallStep(adj, j, b, c);
      BallCompose(adj, i, j, p, a, b - 1);
      BallGrow(adj, i, a + b - 1, p, c);
    }
  }

  /** A cell first reached in k steps is one edge away from a cell reached in k - 1. */
  lemma BallStep(adj: Adjacency, s: nat, k: nat, c: nat) returns (p: nat, m: nat)
    requires k > 0 && c in Ball(adj, s, k) && c !in Ball(adj, s, k - 1)
    ensures p in Ball(adj, s, k - 1) && p < |adj| && m < |adj[p]| && adj[p][m] == c
  {
    assert c in Step(adj, Ball(adj, s, k - 1));
    p, m :| p in Ball(adj, s, k - 1) && p < |adj| && 0 <= m < |adj[p]| && adj[p][m] == c;
  }

  /** On an undirected board a walk can be travelled backwards. */
  lemma {:induction false} BallReverse(adj: Adjacency, s: nat, c: nat, k: nat)
    requires Undirected(adj) && s < |adj| && c in Ball(adj, s, k)
    ensures s in Ball(adj, c, k)
    decreases k
  {
    if k == 0 {
    } else if c in Ball(adj, s, k - 1) {
      BallReverse(adj, s, c, k - 1);
      BallMono(adj, c, k - 1, k);
    } else {
      var p, m := BallStep(adj, s, k, c);
      BallReverse(adj, s, p, k - 1);
      assert c < |adj| && p in adj[c];
      BallGrow(adj, c, 0, c, p);
      BallCompose(adj, c, p, s, 1, k - 1);
    }
  }
}
