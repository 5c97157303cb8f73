/** The enemy chain power of compute_enemy_chain: for every cell, the largest
    ant count the enemy can hold along a connected walk from one of its bases
    through cells it occupies, the walk's strength being its smallest count. */
module Chain {
  import opened Graph

  /** A queue element (temp_data_t): a cell and the strength it was reached with. */
  datatype Link = Link(cell: nat, minAnts: int)

  function Min(a: int, b: int): int
  {
    if a < b then a else b
  }

  /** The cells that strength v reaches along a walk of at most k edges: a walk
      starts at a base holding at least v ants and steps only onto neighbours
      holding a positive count of at least v. */
  ghost function Projects(adj: Adjacency, ants: seq<int>, bases: seq<nat>, v: int, k: nat): set<nat>
    decreases k
  {
    if k == 0 then
      set b | b in bases && b < |ants| && ants[b] >= v
    else
      var inner := Projects(adj, ants, bases, v, k - 1);
      inner + set p, j | p in inner && p < |adj| && 0 <= j < |adj[p]| && adj[p][j] < |ants|
                         && ants[adj[p][j]] > 0 && ants[adj[p][j]] >= v :: adj[p][j]
  }

  /** Strength v reaches c along some walk. */
  ghost predicate Reaches(adj: Adjacency, ants: seq<int>, bases: seq<nat>, c: nat, v: int)
  {
    exists k: nat :: c in Projects(adj, ants, bases, v, k)
  }

  /** What the search delivers: every recorded value is reached by some walk
      (so it is a lower bound of the best walk), no walk beats a recorded value
      or reaches an unrecorded cell, bases keep their own count, and a reached
      cell other than a base is occupied and holds at least its value. */
  ghost predicate IsChainMap(adj: Adjacency, ants: seq<int>, bases: seq<nat>, path: map<nat, int>)
  {
    (forall c :: c in path ==> c < |ants| && 0 <= path[c] <= ants[c]) &&
    Sound(adj, ants, bases, path) && Complete(adj, ants, bases, path) &&
    (forall i :: 0 <= i < |bases| ==> bases[i] in path && path[bases[i]] == ants[bases[i]]) &&
    (forall c :: c in path && c !in bases ==> ants[c] > 0)
  }

  /** Every recorded value is reached by some walk. */
  ghost predicate Sound(adj: Adjacency, ants: seq<int>, bases: seq<nat>, path: map<nat, int>)
  {
    forall c :: c in path ==> Reaches(adj, ants, bases, c, path[c])
  }

  /** No walk reaches an unrecorded cell or beats a recorded value. */
  ghost predicate Complete(adj: Adjacency, ants: seq<int>, bases: seq<nat>, path: map<nat, int>)
  {
    forall c: nat, v, k: nat :: c in Projects(adj, ants, bases, v, k) ==> c in path && v <= path[c]
  }

  lemma ProjectsStep(adj: Adjacency, ants: seq<int>, bases: seq<nat>, v: int, k: nat, p: nat, j: nat)
    requires p in Projects(adj, ants, bases, v, k) && p < |adj| && j < |adj[p]| && adj[p][j] < |ants|
    requires ants[adj[p][j]] > 0 && ants[adj[p][j]] >= v
    ensures adj[p][j] in Projects(adj, ants, bases, v, k + 1)
  {
  }

  /** A weaker strength reaches at least the same cells. */
  lemma {:induction false} ProjectsAntitone(adj: Adjacency, ants: seq<int>, bases: seq<nat>, v: int, w: int, k: nat)
    requires w <= v
    ensures Projects(adj, ants, bases, v, k) <= Projects(adj, ants, bases, w, k)
    decreases k
  {
    if k > 0 {
      ProjectsAntitone(adj, ants, bases, v, w, k - 1);
    }
  }

  /** Fewer ants anywhere reach no more cells. */
  lemma {:induction false} ProjectsFewerAnts(adj: Adjacency, ants: seq<int>, fewer: seq<int>, bases: seq<nat>, v: int, k: nat)
    requires |fewer| == |ants| && forall c :: 0 <= c < |ants| ==> fewer[c] <= ants[c]
    ensures Projects(adj, fewer, bases, v, k) <= Projects(adj, ants, bases, v, k)
    decreases k
  {
    if k > 0 {
      ProjectsFewerAnts(adj, ants, fewer, bases, v, k - 1);
    }
  }

  /** The largest count on the board (at least 0): a bound for every value. */
  ghost function Peak(ants: seq<int>): (m: int)
    ensures m >= 0 && forall c :: 0 <= c < |ants| ==> ants[c] <= m
  {
    if ants == [] then 0
    else
      var m := Peak(ants[..|ants| - 1]);
      assert forall c :: 0 <= c < |ants| - 1 ==> ants[c] == ants[..|ants| - 1][c];
      if ants[|ants| - 1] > m then ants[|ants| - 1] else m
  }

  /** A cell's remaining room for improvement: M + 1 when unreached, otherwise M minus its value. */
  ghost function Room(path: map<nat, int>, c: nat, m: int): int
  {
    if c in path then m - path[c] else m + 1
  }

  /** The termination measure of the search: the room left over the cells below k. */
  ghost function Potential(path: map<nat, int>, k: nat, m: int): int
  {
    if k == 0 then 0 else Potential(path, k - 1, m) + Room(path, k - 1, m)
  }

  lemma {:induction false} PotentialNonNegative(path: map<nat, int>, k: nat, m: int)
    requires forall c :: c in path ==> path[c] <= m
    requires m >= 0
    ensures Potential(path, k, m) >= 0
  {
    if k > 0 {
      PotentialNonNegative(path, k - 1, m);
    }
  }

  /** Recording a strictly better value for a cell below k lowers the potential. */
  lemma {:induction false} PotentialDrop(path: map<nat, int>, c: nat, v: int, k: nat, m: int)
    requires c in path ==> path[c] < v
    requires 0 <= v <= m
    ensures c < k ==> Potential(path[c := v], k, m) < Potential(path, k, m)
    ensures c >= k ==> Potential(path[c := v], k, m) == Potential(path, k, m)
  {
    if k > 0 {
      PotentialDrop(path, c, v, k - 1, m);
      if c == k - 1 {
        assert Room(path[c := v], k - 1, m) < Room(path, k - 1, m);
      } else {
        assert Room(path[c := v], k - 1, m) == Room(path, k - 1, m);
      }
    }
  }

  /** The edge j out of cell p has been relaxed with strength v. */
  ghost predicate Relaxed(adj: Adjacency, ants: seq<int>, path: map<nat, int>, p: nat, j: nat, v: int)
    requires p < |adj| && j < |adj[p]| && adj[p][j] < |ants|
  {
    var n := adj[p][j];
    ants[n] <= 0 || (n in path && path[n] >= Min(ants[n], v))
  }

  /** Every edge out of c has been relaxed with c's recorded value. */
  ghost predicate Settled(adj: Adjacency, ants: seq<int>, path: map<nat, int>, c: nat)
    requires ValidGraph(adj) && |ants| == |adj| && c in path && c < |adj|
  {
    forall j :: 0 <= j < |adj[c]| ==> Relaxed(adj, ants, path, c, j, path[c])
  }

  ghost predicate Queued(q: seq<Link>, c: nat, v: int)
  {
    exists i :: 0 <= i < |q| && q[i] == Link(c, v)
  }

  /** Every recorded value is reached within the recorded depth. */
  ghost predicate ProjectsOk(adj: Adjacency, ants: seq<int>, bases: seq<nat>, path: map<nat, int>, depth: map<nat, nat>)
  {
    path.Keys == depth.Keys &&
    forall c :: c in path ==> c in Projects(adj, ants, bases, path[c], depth[c])
  }

  /** The search state between two pops of the queue. */
  ghost predicate Searching(adj: Adjacency, ants: seq<int>, bases: seq<nat>, path: map<nat, int>,
                            depth: map<nat, nat>, q: seq<Link>)
  {
    ValidGraph(adj) && |ants| == |adj| &&
    (forall c :: c in path ==> c < |adj| && 0 <= path[c] <= ants[c]) &&
    ProjectsOk(adj, ants, bases, path, depth) &&
    (forall i :: 0 <= i < |q| ==> q[i].cell in path && 0 <= q[i].minAnts <= path[q[i].cell]) &&
    (forall i :: 0 <= i < |bases| ==> bases[i] in path && path[bases[i]] == ants[bases[i]]) &&
    (forall c :: c in path && c !in bases ==> ants[c] > 0) &&
    (forall c :: c in path ==> Settled(adj, ants, path, c) || Queued(q, c, path[c]))
  }

  /** The state while the edges out of `parent`, popped with strength minAnts,
      are being relaxed: edges below j are done, path0 was the map at the pop. */
  ghost predicate Relaxing(adj: Adjacency, ants: seq<int>, bases: seq<nat>, path0: map<nat, int>,
                           path: map<nat, int>, depth: map<nat, nat>, q: seq<Link>,
                           parent: nat, minAnts: int, j: nat)
  {
    ValidGraph(adj) && |ants| == |adj| && parent < |adj| && j <= |adj[parent]| &&
    (forall c :: c in path ==> c < |adj| && 0 <= path[c] <= ants[c]) &&
    ProjectsOk(adj, ants, bases, path, depth) &&
    (forall c :: c in path0 ==> c in path && path[c] >= path0[c]) &&
    parent in path0 && parent in path && path[parent] == path0[parent] &&
    0 <= minAnts <= path[parent] && parent in Projects(adj, ants, bases, minAnts, depth[parent]) &&
    (forall i :: 0 <= i < |q| ==> q[i].cell in path && 0 <= q[i].minAnts <= path[q[i].cell]) &&
    (forall i :: 0 <= i < |bases| ==> bases[i] in path && path[bases[i]] == ants[bases[i]]) &&
    (forall c :: c in path && c !in bases ==> ants[c] > 0) &&
    (forall c :: c in path && c != parent ==> Settled(adj, ants, path, c) || Queued(q, c, path[c])) &&
    (minAnts < path[parent] ==> Settled(adj, ants, path, parent) || Queued(q, parent, path[parent])) &&
    (minAnts == path[parent] ==> forall j' :: 0 <= j' < j ==> Relaxed(adj, ants, path, parent, j', minAnts))
  }

  /** Values only grow and cells are only added: what was relaxed stays relaxed. */
  lemma SettledGrow(adj: Adjacency, ants: seq<int>, path: map<nat, int>, path': map<nat, int>, c: nat)
    requires ValidGraph(adj) && |ants| == |adj| && c in path && c < |adj| && c in path'
    requires path'[c] == path[c]
    requires forall x :: x in path ==> x in path' && path'[x] >= path[x]
    requires Settled(adj, ants, path, c)
    ensures Settled(adj, ants, path', c)
  {
    forall j | 0 <= j < |adj[c]|
      ensures Relaxed(adj, ants, path', c, j, path'[c])
    {
      assert Relaxed(adj, ants, path, c, j, path[c]);
    }
  }

  lemma QueuedGrow(q: seq<Link>, extra: seq<Link>, c: nat, v: int)
    requires Queued(q, c, v)
    ensures Queued(q + extra, c, v)
  {
    var i :| 0 <= i < |q| && q[i] == Link(c, v);
    assert (q + extra)[i] == q[i];
  }

  lemma RelaxStart(adj: Adjacency, ants: seq<int>, bases: seq<nat>, path: map<nat, int>,
                   depth: map<nat, nat>, q: seq<Link>)
    requires Searching(adj, ants, bases, path, depth, q) && q != []
    ensures Relaxing(adj, ants, bases, path, path, depth, q[1..], q[0].cell, q[0].minAnts, 0)
  {
    var parent, minAnts := q[0].cell, q[0].minAnts;
    ProjectsAntitone(adj, ants, bases, path[parent], minAnts, depth[parent]);
    forall c | c in path && (c != parent || minAnts < path[parent]) && !Settled(adj, ants, path, c)
      ensures Queued(q[1..], c, path[c])
    {
      var i :| 0 <= i < |q| && q[i] == Link(c, path[c]);
      assert i != 0;
      assert q[1..][i - 1] == q[i];
    }
  }

  lemma RelaxSkip(adj: Adjacency, ants: seq<int>, bases: seq<nat>, path0: map<nat, int>,
                  path: map<nat, int>, depth: map<nat, nat>, q: seq<Link>,
                  parent: nat, minAnts: int, j: nat)
    requires Relaxing(adj, ants, bases, path0, path, depth, q, parent, minAnts, j)
    requires j < |adj[parent]|
    requires Relaxed(adj, ants, path, parent, j, minAnts)
    ensures Relaxing(adj, ants, bases, path0, path, depth, q, parent, minAnts, j + 1)
  {
  }

  lemma RelaxImprove(adj: Adjacency, ants: seq<int>, bases: seq<nat>, path0: map<nat, int>,
                     path: map<nat, int>, depth: map<nat, nat>, q: seq<Link>,
                     parent: nat, minAnts: int, j: nat)
    requires Relaxing(adj, ants, bases, path0, path, depth, q, parent, minAnts, j)
    requires j < |adj[parent]|
    requires !Relaxed(adj, ants, path, parent, j, minAnts)
    ensures var next := adj[parent][j];
      var newMin := Min(ants[next], minAnts);
      Relaxing(adj, ants, bases, path0, path[next := newMin], depth[next := depth[parent] + 1],
               q + [Link(next, newMin)], parent, minAnts, j + 1)
  {
    var next := adj[parent][j];
    var newMin := Min(ants[next], minAnts);
    var path' := path[next := newMin];
    var depth' := depth[next := depth[parent] + 1];
    var q' := q + [Link(next, newMin)];
    ImproveKeepsProjects(adj, ants, bases, path, depth, parent, minAnts, j);
    ImproveKeepsObligations(adj, ants, bases, path0, path, depth, q, parent, minAnts, j);
    ImproveKeepsQueue(adj, ants, bases, path0, path, depth, q, parent, minAnts, j);
  }

  /** Improving the neighbour along edge j keeps every recorded value reached:
      the neighbour is one step past the parent at the lowered strength. */
  lemma ImproveKeepsProjects(adj: Adjacency, ants: seq<int>, bases: seq<nat>,
                             path: map<nat, int>, depth: map<nat, nat>, parent: nat, minAnts: int, j: nat)
    requires ValidGraph(adj) && |ants| == |adj| && parent < |adj| && j < |adj[parent]|
    requires forall c :: c in path ==> c < |adj| && 0 <= path[c] <= ants[c]
    requires ProjectsOk(adj, ants, bases, path, depth) && parent in path
    requires 0 <= minAnts <= path[parent] && parent in Projects(adj, ants, bases, minAnts, depth[parent])
    requires !Relaxed(adj, ants, path, parent, j, minAnts)
    ensures var next := adj[parent][j];
      var newMin := Min(ants[next], minAnts);
      next != parent && 0 <= newMin <= ants[next] && ants[next] > 0 &&
      ProjectsOk(adj, ants, bases, path[next := newMin], depth[next := depth[parent] + 1])
  {
    var next := adj[parent][j];
    var newMin := Min(ants[next], minAnts);
    assert ants[next] > 0 && (next !in path || path[next] < newMin);
    ProjectsAntitone(adj, ants, bases, minAnts, newMin, depth[parent]);
    assert parent in Projects(adj, ants, bases, newMin, depth[parent]);
    ProjectsStep(adj, ants, bases, newMin, depth[parent], parent, j);
    ProjectsOkUpdate(adj, ants, bases, path, depth, next, newMin, depth[parent] + 1);
  }

  /** Recording a cell reached at strength v within k steps keeps every
      recorded value reached. */
  lemma ProjectsOkUpdate(adj: Adjacency, ants: seq<int>, bases: seq<nat>, path: map<nat, int>,
                         depth: map<nat, nat>, c: nat, v: int, k: nat)
    requires ProjectsOk(adj, ants, bases, path, depth) && c in Projects(adj, ants, bases, v, k)
    ensures ProjectsOk(adj, ants, bases, path[c := v], depth[c := k])
  {
    var path', depth' := path[c := v], depth[c := k];
    forall x | x in path'
      ensures x in Projects(adj, ants, bases, path'[x], depth'[x])
    {
      if x != c {
        assert path'[x] == path[x] && depth'[x] == depth[x];
      }
    }
  }

  lemma ImproveKeepsQueue(adj: Adjacency, ants: seq<int>, bases: seq<nat>, path0: map<nat, int>,
                          path: map<nat, int>, depth: map<nat, nat>, q: seq<Link>,
                          parent: nat, minAnts: int, j: nat)
    requires Relaxing(adj, ants, bases, path0, path, depth, q, parent, minAnts, j)
    requires j < |adj[parent]|
    requires !Relaxed(adj, ants, path, parent, j, minAnts)
    ensures var next := adj[parent][j];
      var newMin := Min(ants[next], minAnts);
      var path' := path[next := newMin];
      var q' := q + [Link(next, newMin)];
      forall i :: 0 <= i < |q'| ==> q'[i].cell in path' && 0 <= q'[i].minAnts <= path'[q'[i].cell]
  {
    var next := adj[parent][j];
    var newMin := Min(ants[next], minAnts);
    var path' := path[next := newMin];
    var q' := q + [Link(next, newMin)];
    forall i | 0 <= i < |q'|
      ensures q'[i].cell in path' && 0 <= q'[i].minAnts <= path'[q'[i].cell]
    {
      if i < |q| {
        assert q'[i] == q[i];
      }
    }
  }

  lemma ImproveKeepsObligations(adj: Adjacency, ants: seq<int>, bases: seq<nat>, path0: map<nat, int>,
                                path: map<nat, int>, depth: map<nat, nat>, q: seq<Link>,
                                parent: nat, minAnts: int, j: nat)
    requires Relaxing(adj, ants, bases, path0, path, depth, q, parent, minAnts, j)
    requires j < |adj[parent]|
    requires !Relaxed(adj, ants, path, parent, j, minAnts)
    ensures var next := adj[parent][j];
      var newMin := Min(ants[next], minAnts);
      var path' := path[next := newMin];
      var q' := q + [Link(next, newMin)];
      (forall c :: c in path' && c != parent ==> Settled(adj, ants, path', c) || Queued(q', c, path'[c])) &&
      (minAnts < path'[parent] ==> Settled(adj, ants, path', parent) || Queued(q', parent, path'[parent])) &&
      (minAnts == path'[parent] ==> forall j' :: 0 <= j' < j + 1 ==> Relaxed(adj, ants, path', parent, j', minAnts))
  {
    var next := adj[parent][j];
    var newMin := Min(ants[next], minAnts);
    var path' := path[next := newMin];
    var q' := q + [Link(next, newMin)];
    assert next != parent;
    assert Queued(q', next, newMin) by {
      assert q'[|q|] == Link(next, newMin);
    }
    forall c | c in path' && c != next && (c != parent || minAnts < path[parent])
      ensures Settled(adj, ants, path', c) || Queued(q', c, path'[c])
    {
      if Settled(adj, ants, path, c) {
        SettledGrow(adj, ants, path, path', c);
      } else {
        QueuedGrow(q, [Link(next, newMin)], c, path[c]);
      }
    }
    if minAnts == path[parent] {
      forall j' | 0 <= j' < j + 1
        ensures Relaxed(adj, ants, path', parent, j', minAnts)
      {
        if j' < j {
          assert Relaxed(adj, ants, path, parent, j', minAnts);
        }
      }
    }
  }

  lemma RelaxEnd(adj: Adjacency, ants: seq<int>, bases: seq<nat>, path0: map<nat, int>,
                 path: map<nat, int>, depth: map<nat, nat>, q: seq<Link>,
                 parent: nat, minAnts: int)
    requires parent < |adj| && Relaxing(adj, ants, bases, path0, path, depth, q, parent, minAnts, |adj[parent]|)
    ensures Searching(adj, ants, bases, path, depth, q)
  {
  }

  /** A closed map: the bases are recorded with their own counts and every
      recorded cell is settled. */
  ghost predicate Closed(adj: Adjacency, ants: seq<int>, bases: seq<nat>, path: map<nat, int>)
  {
    ValidGraph(adj) && |ants| == |adj| &&
    (forall c :: c in path ==> c < |adj| && Settled(adj, ants, path, c)) &&
    (forall i :: 0 <= i < |bases| ==> bases[i] in path && path[bases[i]] == ants[bases[i]])
  }

  /** With the queue empty, every recorded cell is settled. */
  lemma SearchClosed(adj: Adjacency, ants: seq<int>, bases: seq<nat>, path: map<nat, int>, depth: map<nat, nat>)
    requires Searching(adj, ants, bases, path, depth, [])
    ensures Closed(adj, ants, bases, path)
  {
    forall c | c in path
      ensures c < |adj| && Settled(adj, ants, path, c)
    {
      assert !Queued([], c, path[c]);
    }
  }

  /** Once the queue is empty every recorded cell is settled, so no walk can
      reach beyond the map or beat a recorded value. */
  lemma {:induction false} SettledComplete(adj: Adjacency, ants: seq<int>, bases: seq<nat>,
                                           path: map<nat, int>, c: nat, v: int, k: nat)
    requires Closed(adj, ants, bases, path)
    requires c in Projects(adj, ants, bases, v, k)
    ensures c in path && v <= path[c]
    decreases k
  {
    if k == 0 {
      var i :| 0 <= i < |bases| && bases[i] == c;
    } else if c in Projects(adj, ants, bases, v, k - 1) {
      SettledComplete(adj, ants, bases, path, c, v, k - 1);
    } else {
      var p, j :| p in Projects(adj, ants, bases, v, k - 1) && p < |adj| && 0 <= j < |adj[p]| &&
        adj[p][j] < |ants| && ants[adj[p][j]] > 0 && ants[adj[p][j]] >= v && adj[p][j] == c;
      SettledComplete(adj, ants, bases, path, p, v, k - 1);
      assert Relaxed(adj, ants, path, p, j, path[p]);
    }
  }

  /** The seeding half of compute_enemy_chain: every base is queued with its
      own count, and recorded with depth 0. */
  method SeedBases(adj: Adjacency, ants: seq<int>, bases: seq<nat>)
    returns (path: map<nat, int>, ghost depth: map<nat, nat>, q: seq<Link>)
    requires ValidGraph(adj) && |ants| == |adj|
    requires forall c :: 0 <= c < |ants| ==> ants[c] >= 0
    requires forall i :: 0 <= i < |bases| ==> bases[i] < |adj|
    ensures Searching(adj, ants, bases, path, depth, q)
    ensures |q| == |bases| && forall i :: 0 <= i < |bases| ==> q[i] == Link(bases[i], ants[bases[i]])
    ensures forall c :: c in path <==> c in bases
  {
    path := map[];
    depth := map[];
    q := [];
    for i := 0 to |bases|
      invariant path.Keys == depth.Keys
      invariant forall c :: c in path ==> c < |adj| && path[c] == ants[c] && depth[c] == 0
      invariant forall c :: c in path ==> c in bases[..i]
      invariant forall i' :: 0 <= i' < i ==> bases[i'] in path
      invariant |q| == i && forall i' :: 0 <= i' < i ==> q[i'] == Link(bases[i'], ants[bases[i']])
    {
      var b := bases[i];
      q := q + [Link(b, ants[b])];
      if b !in path {
        path := path[b := ants[b]];
        depth := depth[b := 0];
      }
    }
    forall c | c in path
      ensures Queued(q, c, path[c]) && c in Projects(adj, ants, bases, path[c], depth[c])
    {
      var i :| 0 <= i < |bases| && bases[i] == c;
      assert q[i] == Link(c, path[c]);
    }
  }

  /** One pop of the search: the edges out of `parent` are relaxed in turn,
      and a neighbour whose value strictly improves is re-queued. */
  method RelaxEdges(adj: Adjacency, ants: seq<int>, bases: seq<nat>, path0: map<nat, int>,
                    ghost depth0: map<nat, nat>, q0: seq<Link>, parent: nat, minAnts: int, ghost m: int)
    returns (path: map<nat, int>, ghost depth: map<nat, nat>, q: seq<Link>)
    requires Relaxing(adj, ants, bases, path0, path0, depth0, q0, parent, minAnts, 0)
    requires forall c :: 0 <= c < |ants| ==> ants[c] <= m
    ensures Searching(adj, ants, bases, path, depth, q)
    ensures |q| >= |q0|
    ensures Potential(path, |adj|, m) + (|q| - |q0|) <= Potential(path0, |adj|, m)
  {
    path, depth, q := path0, depth0, q0;
    for j := 0 to |adj[parent]|
      invariant Relaxing(adj, ants, bases, path0, path, depth, q, parent, minAnts, j)
      invariant |q| >= |q0|
      invariant Potential(path, |adj|, m) + (|q| - |q0|) <= Potential(path0, |adj|, m)
    {
      var next := adj[parent][j];
      if ants[next] <= 0 {
        RelaxSkip(adj, ants, bases, path0, path, depth, q, parent, minAnts, j);
        continue;
      }
      var newMin := Min(ants[next], minAnts);
      if next in path && path[next] >= newMin {
        RelaxSkip(adj, ants, bases, path0, path, depth, q, parent, minAnts, j);
      } else {
        RelaxImprove(adj, ants, bases, path0, path, depth, q, parent, minAnts, j);
        PotentialDrop(path, next, newMin, |adj|, m);
        path := path[next := newMin];
        depth := depth[next := depth[parent] + 1];
        q := q + [Link(next, newMin)];
      }
    }
    RelaxEnd(adj, ants, bases, path0, path, depth, q, parent, minAnts);
  }

  /** compute_enemy_chain's search: a multi-source widest-path search from the
      bases, re-queueing a cell only when its value strictly improves. */
  method EnemyChain(adj: Adjacency, ants: seq<int>, bases: seq<nat>) returns (path: map<nat, int>)
    requires ValidGraph(adj) && |ants| == |adj|
    requires forall c :: 0 <= c < |ants| ==> ants[c] >= 0
    requires forall i :: 0 <= i < |bases| ==> bases[i] < |adj|
    ensures IsChainMap(adj, ants, bases, path)
  {
    var n := |adj|;
    ghost var m := Peak(ants);
    ghost var depth;
    var q;
    path, depth, q := SeedBases(adj, ants, bases);
    PotentialNonNegative(path, n, m);
    while q != []
      invariant Searching(adj, ants, bases, path, depth, q)
      invariant Potential(path, n, m) >= 0
      decreases Potential(path, n, m), |q|
    {
      var parent, minAnts := q[0].cell, q[0].minAnts;
      RelaxStart(adj, ants, bases, path, depth, q);
      ghost var potential0, queued0 := Potential(path, n, m), |q|;
      path, depth, q := RelaxEdges(adj, ants, bases, path, depth, q[1..], parent, minAnts, m);
      PotentialNonNegative(path, n, m);
      assert Potential(path, n, m) < potential0 || (Potential(path, n, m) == potential0 && |q| < queued0);
    }
    SearchDone(adj, ants, bases, path, depth);
  }

  /** An exhausted search has built the chain map. */
  lemma SearchDone(adj: Adjacency, ants: seq<int>, bases: seq<nat>, path: map<nat, int>, depth: map<nat, nat>)
    requires Searching(adj, ants, bases, path, depth, [])
    ensures IsChainMap(adj, ants, bases, path)
  {
    SearchSound(adj, ants, bases, path, depth);
    SearchClosed(adj, ants, bases, path, depth);
    ClosedIsChainMap(adj, ants, bases, path);
  }

  /** A closed map of reached values, with the bounds the search keeps, is the chain map. */
  lemma ClosedIsChainMap(adj: Adjacency, ants: seq<int>, bases: seq<nat>, path: map<nat, int>)
    requires Closed(adj, ants, bases, path)
    requires forall c :: c in path ==> c < |ants| && 0 <= path[c] <= ants[c]
    requires Sound(adj, ants, bases, path)
    requires forall c :: c in path && c !in bases ==> ants[c] > 0
    ensures IsChainMap(adj, ants, bases, path)
  {
    SearchComplete(adj, ants, bases, path);
  }

  lemma SearchSound(adj: Adjacency, ants: seq<int>, bases: seq<nat>, path: map<nat, int>, depth: map<nat, nat>)
    requires Searching(adj, ants, bases, path, depth, [])
    ensures Sound(adj, ants, bases, path)
  {
    forall c | c in path
      ensures Reaches(adj, ants, bases, c, path[c])
    {
      var k: nat := depth[c];
      assert c in Projects(adj, ants, bases, path[c], k);
    }
  }

  lemma SearchComplete(adj: Adjacency, ants: seq<int>, bases: seq<nat>, path: map<nat, int>)
    requires Closed(adj, ants, bases, path)
    ensures Complete(adj, ants, bases, path)
  {
    forall c: nat, v, k: nat | c in Projects(adj, ants, bases, v, k)
      ensures c in path && v <= path[c]
    {
      SettledComplete(adj, ants, bases, path, c, v, k);
    }
  }

  /** The chain map is determined by the board: whatever order the queue and
      the map are visited in, the search can only deliver this one map. */
  lemma ChainMapUnique(adj: Adjacency, ants: seq<int>, bases: seq<nat>, p: map<nat, int>, p': map<nat, int>)
    requires IsChainMap(adj, ants, bases, p) && IsChainMap(adj, ants, bases, p')
    ensures p == p'
  {
    ChainMapBelow(adj, ants, ants, bases, p, p');
    ChainMapBelow(adj, ants, ants, bases, p', p);
    assert p.Keys == p'.Keys;
  }

  /** With no more enemy ants on any cell, the enemy reaches no new cell and
      no cell with a higher value. */
  lemma ChainMapBelow(adj: Adjacency, ants: seq<int>, fewer: seq<int>, bases: seq<nat>,
                      p: map<nat, int>, pFewer: map<nat, int>)
    requires |fewer| == |ants| && forall c :: 0 <= c < |ants| ==> fewer[c] <= ants[c]
    requires Complete(adj, ants, bases, p) && Sound(adj, fewer, bases, pFewer)
    ensures forall c :: c in pFewer ==> c in p && pFewer[c] <= p[c]
  {
    forall c | c in pFewer
      ensures c in p && pFewer[c] <= p[c]
    {
      assert Reaches(adj, fewer, bases, c, pFewer[c]);
      var k: nat :| c in Projects(adj, fewer, bases, pFewer[c], k);
      ProjectsFewerAnts(adj, ants, fewer, bases, pFewer[c], k);
    }
  }
}
