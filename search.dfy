// The search strategies of algorithms/search_algorithms.py: the shared
// counter object, breadth-first search over the maze, and the three
// strategies that are still placeholders.

module Search {
  import opened Grid

  datatype Strategy = BFS | DFS | UCS | AStar

  /** The counter part of get_stats (search_time and memory_usage are not modelled). */
  datatype Stats = Stats(expandedNodes: nat)

  /** q is a walk from s: it starts at s and every step is a move to an
      adjacent open cell (s itself need not be open). */
  ghost predicate IsWalkFrom(g: Grid, q: seq<Pos>, s: Pos)
    requires WellFormed(g)
  {
    |q| >= 1 && q[0] == s && forall i :: 0 <= i < |q| - 1 ==> Adjacent(g, q[i], q[i + 1])
  }

  ghost predicate IsWalk(g: Grid, q: seq<Pos>, s: Pos, t: Pos)
    requires WellFormed(g)
  {
    IsWalkFrom(g, q, s) && q[|q| - 1] == t
  }

  ghost predicate Reachable(g: Grid, s: Pos, t: Pos)
    requires WellFormed(g)
  {
    exists q :: IsWalk(g, q, s, t)
  }

  predicate Distinct(q: seq<Pos>) {
    forall i, j :: 0 <= i < j < |q| ==> q[i] != q[j]
  }

  /** What a breadth-first search promises: an empty path exactly when the
      goal cannot be reached, and otherwise a loop-free walk from start to
      goal with the fewest cells of all such walks. */
  ghost predicate ShortestPathResult(g: Grid, start: Pos, goal: Pos, path: seq<Pos>)
    requires WellFormed(g)
  {
    (path == [] <==> !Reachable(g, start, goal)) &&
    (path != [] ==>
       IsWalk(g, path, start, goal) && Distinct(path) &&
       forall q :: IsWalk(g, q, start, goal) ==> |path| <= |q|)
  }

  /** The open cells of the maze: a finite bound on what a search can visit. */
  ghost function OpenCells(g: Grid): set<Pos>
    requires WellFormed(g)
  {
    set x, y | 0 <= y < |g| && 0 <= x < |g[0]| && g[y][x] != Wall :: Pos(x, y)
  }

  /** U contains every open cell. */
  ghost predicate CoversOpen(g: Grid, U: set<Pos>)
    requires WellFormed(g)
  {
    forall p :: IsOpen(g, p) ==> p in U
  }

  lemma OpenCellsCover(g: Grid, start: Pos)
    requires WellFormed(g)
    ensures CoversOpen(g, OpenCells(g) + {start})
  {
    forall p | IsOpen(g, p) ensures p in OpenCells(g) {
      assert p == Pos(p.x, p.y);
    }
  }

  /** list.reverse() */
  function Reverse(s: seq<Pos>): (r: seq<Pos>)
    ensures |r| == |s|
  {
    seq(|s|, i requires 0 <= i < |s| => s[|s| - 1 - i])
  }

  /** The parent entry of v records the cell v was discovered from: an
      adjacent cell one level closer to the start. */
  ghost predicate ParentLink(g: Grid, parent: map<Pos, Option<Pos>>, dist: map<Pos, nat>, v: Pos)
    requires WellFormed(g) && v in parent
  {
    parent[v].Some? && parent[v].value in dist && v in dist &&
    Adjacent(g, parent[v].value, v) && dist[v] == dist[parent[v].value] + 1
  }

  lemma {:induction false} SubsetCard(a: set<Pos>, b: set<Pos>)
    requires a <= b
    ensures |a| <= |b|
  {
    if a != {} {
      var x :| x in a;
      SubsetCard(a - {x}, b - {x});
    }
  }

  /** A set that contains s and is closed under moves contains the end of
      every walk from s. */
  lemma {:induction false} ClosedSetHoldsWalkEnd(g: Grid, closed: set<Pos>, q: seq<Pos>, s: Pos)
    requires WellFormed(g) && s in closed
    requires forall v, n :: v in closed && Adjacent(g, v, n) ==> n in closed
    requires IsWalkFrom(g, q, s)
    ensures q[|q| - 1] in closed
  {
    if |q| > 1 {
      var q' := q[..|q| - 1];
      assert IsWalkFrom(g, q', s);
      ClosedSetHoldsWalkEnd(g, closed, q', s);
      assert Adjacent(g, q[|q| - 2], q[|q| - 1]);
    }
  }

  /** Following parent links back from the goal gives a chain whose
      reversal is a loop-free walk from the start with dist[goal] + 1 cells. */
  lemma ReversedChainIsWalk(g: Grid, chain: seq<Pos>, dist: map<Pos, nat>, start: Pos, goal: Pos)
    requires WellFormed(g)
    requires |chain| > 0 && chain[0] == goal && chain[|chain| - 1] == start
    requires goal in dist && |chain| == dist[goal] + 1
    requires forall i :: 0 <= i < |chain| ==> chain[i] in dist && dist[chain[i]] == dist[goal] - i
    requires forall i :: 0 <= i < |chain| - 1 ==> Adjacent(g, chain[i + 1], chain[i])
    ensures IsWalk(g, Reverse(chain), start, goal) && Distinct(Reverse(chain))
  {
    var r := Reverse(chain);
    forall i | 0 <= i < |r| - 1 ensures Adjacent(g, r[i], r[i + 1]) {
      assert r[i] == chain[|chain| - 1 - i] && r[i + 1] == chain[|chain| - 2 - i];
    }
    forall i, j | 0 <= i < j < |r| ensures r[i] != r[j] {
      assert dist[r[i]] != dist[r[j]];
    }
  }

  // ---------------------------------------------------------------------
  // The loop invariant of breadth-first search, in pieces.

  /** Every visited cell has a parent entry and a level; the start is the
      root (parent None, level 0), every other cell links to its parent. */
  ghost predicate Links(g: Grid, start: Pos, visited: set<Pos>, parent: map<Pos, Option<Pos>>, dist: map<Pos, nat>)
    requires WellFormed(g)
  {
    visited == parent.Keys == dist.Keys &&
    start in visited && parent[start] == None && dist[start] == 0 &&
    forall v :: v in parent && v != start ==> ParentLink(g, parent, dist, v)
  }

  /** The queue holds distinct visited cells not yet dequeued, in
      non-decreasing level order, all on level d or d + 1; every visited
      cell is either dequeued (level at most d) or still queued. */
  ghost predicate Layered(queue: seq<Pos>, visited: set<Pos>, popped: set<Pos>, dist: map<Pos, nat>, d: nat)
    requires visited == dist.Keys
  {
    (forall i :: 0 <= i < |queue| ==> queue[i] in visited && queue[i] !in popped) &&
    Distinct(queue) && popped <= visited &&
    (forall v :: v in visited ==> v in popped || v in queue) &&
    (forall i :: 0 <= i < |queue| ==> d <= dist[queue[i]] <= d + 1) &&
    (forall i, j :: 0 <= i < j < |queue| ==> dist[queue[i]] <= dist[queue[j]]) &&
    (forall v :: v in visited ==> dist[v] <= d + 1) &&
    (forall v :: v in popped ==> dist[v] <= d)
  }

  /** Every move out of a dequeued cell (other than `except`) leads to a visited cell. */
  ghost predicate ClosedExcept(g: Grid, popped: set<Pos>, visited: set<Pos>, except: Option<Pos>)
    requires WellFormed(g)
  {
    forall v, n :: v in popped && Some(v) != except && Adjacent(g, v, n) ==> n in visited
  }

  /** Every walk from the start with at most d steps ends at a visited
      cell whose level is at most its step count. */
  ghost predicate LowerBound(g: Grid, start: Pos, visited: set<Pos>, dist: map<Pos, nat>, d: nat)
    requires WellFormed(g) && visited == dist.Keys
  {
    forall q :: IsWalkFrom(g, q, start) && |q| <= d + 1 ==>
      q[|q| - 1] in visited && dist[q[|q| - 1]] <= |q| - 1
  }

  /** The invariant at the head of the breadth-first loop. */
  ghost predicate Frontier(g: Grid, start: Pos, goal: Pos, U: set<Pos>, queue: seq<Pos>, visited: set<Pos>,
                           parent: map<Pos, Option<Pos>>, dist: map<Pos, nat>, d: nat, popped: set<Pos>)
    requires WellFormed(g)
  {
    Links(g, start, visited, parent, dist) && visited <= U &&
    Layered(queue, visited, popped, dist, d) &&
    (queue != [] ==> dist[queue[0]] == d) &&
    ClosedExcept(g, popped, visited, None) &&
    LowerBound(g, start, visited, dist, d) &&
    goal !in popped &&
    (start !in popped ==> popped == {} && queue == [start])
  }

  /** The invariant while the neighbours of `current` are being enqueued. */
  ghost predicate Expanding(g: Grid, start: Pos, goal: Pos, U: set<Pos>, queue: seq<Pos>, visited: set<Pos>,
                            parent: map<Pos, Option<Pos>>, dist: map<Pos, nat>, d: nat, popped: set<Pos>, current: Pos)
    requires WellFormed(g)
  {
    Links(g, start, visited, parent, dist) && visited <= U &&
    Layered(queue, visited, popped, dist, d) &&
    current in popped && dist[current] == d &&
    ClosedExcept(g, popped, visited, Some(current)) &&
    LowerBound(g, start, visited, dist, d) &&
    goal !in popped && start in popped
  }

  lemma FrontierInit(g: Grid, start: Pos, goal: Pos)
    requires WellFormed(g)
    ensures Frontier(g, start, goal, OpenCells(g) + {start}, [start], {start}, map[start := None], map[start := 0], 0, {})
  {
    var visited, dist := {start}, map[start := 0];
    forall q | IsWalkFrom(g, q, start) && |q| <= 1
      ensures q[|q| - 1] in visited && dist[q[|q| - 1]] <= |q| - 1
    {
    }
  }

  /** Dequeuing a cell other than the goal starts its expansion. */
  lemma DequeueStep(g: Grid, start: Pos, goal: Pos, U: set<Pos>, queue: seq<Pos>, visited: set<Pos>,
                    parent: map<Pos, Option<Pos>>, dist: map<Pos, nat>, d: nat, popped: set<Pos>)
    requires WellFormed(g)
    requires Frontier(g, start, goal, U, queue, visited, parent, dist, d, popped)
    requires queue != [] && queue[0] != goal
    ensures Expanding(g, start, goal, U, queue[1..], visited, parent, dist, d, popped + {queue[0]}, queue[0])
  {
    DequeueKeepsLayered(queue, visited, popped, dist, d);
  }

  lemma DequeueKeepsLayered(queue: seq<Pos>, visited: set<Pos>, popped: set<Pos>, dist: map<Pos, nat>, d: nat)
    requires visited == dist.Keys && Layered(queue, visited, popped, dist, d)
    requires queue != [] && dist[queue[0]] == d
    ensures Layered(queue[1..], visited, popped + {queue[0]}, dist, d)
  {
    var c := queue[0];
    forall v | v in visited ensures v in popped + {c} || v in queue[1..] {
      if v !in popped && v != c {
        var i :| 0 <= i < |queue| && queue[i] == v;
        assert queue[1..][i - 1] == v;
      }
    }
  }

  lemma EnqueueKeepsLinks(g: Grid, start: Pos, visited: set<Pos>, parent: map<Pos, Option<Pos>>,
                          dist: map<Pos, nat>, current: Pos, n: Pos)
    requires WellFormed(g) && Links(g, start, visited, parent, dist)
    requires current in visited && n !in visited && Adjacent(g, current, n)
    ensures Links(g, start, visited + {n}, parent[n := Some(current)], dist[n := dist[current] + 1])
  {
    var parent', dist' := parent[n := Some(current)], dist[n := dist[current] + 1];
    forall v | v in parent' && v != start ensures ParentLink(g, parent', dist', v) {
      if v != n {
        assert ParentLink(g, parent, dist, v);
      }
    }
  }

  lemma EnqueueKeepsLayered(queue: seq<Pos>, visited: set<Pos>, popped: set<Pos>, dist: map<Pos, nat>,
                            d: nat, n: Pos, level: nat)
    requires visited == dist.Keys && Layered(queue, visited, popped, dist, d)
    requires n !in visited && level == d + 1
    ensures Layered(queue + [n], visited + {n}, popped, dist[n := level], d)
  {
    var queue', dist' := queue + [n], dist[n := level];
    forall i | 0 <= i < |queue'| ensures d <= dist'[queue'[i]] <= d + 1 {
      if i < |queue| { assert queue'[i] == queue[i] && queue[i] != n; }
    }
    forall i, j | 0 <= i < j < |queue'| ensures dist'[queue'[i]] <= dist'[queue'[j]] {
      if j < |queue| { assert queue'[i] == queue[i] && queue'[j] == queue[j] && queue[i] != n && queue[j] != n; }
      else { assert queue'[i] == queue[i] && queue[i] != n; }
    }
    forall i, j | 0 <= i < j < |queue'| ensures queue'[i] != queue'[j] {
      if j < |queue| { assert queue'[i] == queue[i] && queue'[j] == queue[j]; }
    }
    forall v | v in visited + {n} ensures v in popped || v in queue' {
      if v != n { assert v in popped || v in queue; }
    }
  }

  lemma EnqueueKeepsLowerBound(g: Grid, start: Pos, visited: set<Pos>, dist: map<Pos, nat>, d: nat, n: Pos, level: nat)
    requires WellFormed(g) && visited == dist.Keys && LowerBound(g, start, visited, dist, d) && n !in visited
    ensures LowerBound(g, start, visited + {n}, dist[n := level], d)
  {
    var visited', dist' := visited + {n}, dist[n := level];
    forall q | IsWalkFrom(g, q, start) && |q| <= d + 1
      ensures q[|q| - 1] in visited' && dist'[q[|q| - 1]] <= |q| - 1
    {
      assert q[|q| - 1] in visited;
    }
  }

  /** Enqueuing an unvisited neighbour at the next level keeps the invariant
      and uses up one of the cells the search can still visit. */
  lemma EnqueueStep(g: Grid, start: Pos, goal: Pos, U: set<Pos>, queue: seq<Pos>, visited: set<Pos>,
                    parent: map<Pos, Option<Pos>>, dist: map<Pos, nat>, d: nat, popped: set<Pos>, current: Pos, n: Pos)
    requires WellFormed(g) && CoversOpen(g, U)
    requires Expanding(g, start, goal, U, queue, visited, parent, dist, d, popped, current)
    requires n !in visited && Adjacent(g, current, n)
    ensures Expanding(g, start, goal, U, queue + [n], visited + {n}, parent[n := Some(current)],
                      dist[n := dist[current] + 1], d, popped, current)
    ensures |U - (visited + {n})| + 1 == |U - visited|
  {
    assert n in U;
    assert U - visited == (U - (visited + {n})) + {n};
    EnqueueKeepsLinks(g, start, visited, parent, dist, current, n);
    EnqueueKeepsLayered(queue, visited, popped, dist, d, n, dist[current] + 1);
    EnqueueKeepsLowerBound(g, start, visited, dist, d, n, dist[current] + 1);
  }

  /** Once every neighbour of `current` is visited the loop invariant holds
      again; when the queue has moved on to the next level, the walks one
      step longer are covered too. */
  lemma FinishStep(g: Grid, start: Pos, goal: Pos, U: set<Pos>, queue: seq<Pos>, visited: set<Pos>,
                   parent: map<Pos, Option<Pos>>, dist: map<Pos, nat>, d: nat, popped: set<Pos>, current: Pos)
    requires WellFormed(g)
    requires Expanding(g, start, goal, U, queue, visited, parent, dist, d, popped, current)
    requires forall n :: Adjacent(g, current, n) ==> n in visited
    ensures Frontier(g, start, goal, U, queue, visited, parent, dist, NextLevel(queue, dist, d), popped)
  {
    if queue != [] && dist[queue[0]] == d + 1 {
      forall q | IsWalkFrom(g, q, start) && |q| <= d + 2
        ensures q[|q| - 1] in visited && dist[q[|q| - 1]] <= |q| - 1
      {
        if |q| == d + 2 {
          var q' := q[..|q| - 1];
          assert IsWalkFrom(g, q', start);
          var m := q'[|q'| - 1];
          assert forall i :: 0 <= i < |queue| ==> queue[i] != m by {
            forall i | 0 <= i < |queue| ensures dist[queue[0]] <= dist[queue[i]] { }
          }
          assert Adjacent(g, m, q[|q| - 1]);
        }
      }
    }
  }

  function NextLevel(queue: seq<Pos>, dist: map<Pos, nat>, d: nat): nat
    requires forall i :: 0 <= i < |queue| ==> queue[i] in dist
  {
    if queue != [] && dist[queue[0]] == d + 1 then d + 1 else d
  }

  /** An empty queue without the goal dequeued: no walk reaches the goal. */
  lemma ExhaustedStep(g: Grid, start: Pos, goal: Pos, U: set<Pos>, visited: set<Pos>,
                      parent: map<Pos, Option<Pos>>, dist: map<Pos, nat>, d: nat, popped: set<Pos>)
    requires WellFormed(g)
    requires Frontier(g, start, goal, U, [], visited, parent, dist, d, popped)
    ensures goal !in parent && goal != start && popped != {}
    ensures !Reachable(g, start, goal)
  {
    forall q | IsWalkFrom(g, q, start) ensures q[|q| - 1] in visited {
      ClosedSetHoldsWalkEnd(g, visited, q, start);
    }
  }

  /** The reversed parent chain of a goal dequeued on level d is a
      shortest path: every walk to the goal has at least d steps. */
  lemma FoundStep(g: Grid, start: Pos, goal: Pos, visited: set<Pos>, dist: map<Pos, nat>, d: nat, chain: seq<Pos>)
    requires WellFormed(g) && visited == dist.Keys
    requires LowerBound(g, start, visited, dist, d) && goal in dist && dist[goal] == d
    requires |chain| > 0 && chain[0] == goal && chain[|chain| - 1] == start
    requires |chain| == dist[goal] + 1
    requires forall i :: 0 <= i < |chain| ==> chain[i] in dist && dist[chain[i]] == dist[goal] - i
    requires forall i :: 0 <= i < |chain| - 1 ==> Adjacent(g, chain[i + 1], chain[i])
    ensures ShortestPathResult(g, start, goal, Reverse(chain))
  {
    ReversedChainIsWalk(g, chain, dist, start, goal);
    forall q | IsWalk(g, q, start, goal) ensures |Reverse(chain)| <= |q| { }
  }

  /** Every cell of `s` is in `V`, stated one cell at a time so that the
      loop that grows `V` need not reason about a quantifier. */
  ghost predicate AllIn(s: seq<Pos>, V: set<Pos>)
  {
    |s| == 0 || (s[|s| - 1] in V && AllIn(s[..|s| - 1], V))
  }

  lemma {:induction false} AllInAdd(s: seq<Pos>, V: set<Pos>, n: Pos)
    requires AllIn(s, V)
    ensures AllIn(s + [n], V + {n})
    decreases |s|
  {
    var s' := s + [n];
    assert s'[..|s'| - 1] == s;
    AllInGrow(s, V, V + {n});
  }

  lemma {:induction false} AllInGrow(s: seq<Pos>, V: set<Pos>, W: set<Pos>)
    requires AllIn(s, V) && V <= W
    ensures AllIn(s, W)
    decreases |s|
  {
    if |s| > 0 {
      AllInGrow(s[..|s| - 1], V, W);
    }
  }

  lemma TakeOneMore(s: seq<Pos>, k: nat)
    requires k < |s|
    ensures s[..k + 1] == s[..k] + [s[k]]
  {
  }

  lemma {:induction false} AllInMembers(s: seq<Pos>, V: set<Pos>)
    requires AllIn(s[..|s|], V)
    ensures forall i :: 0 <= i < |s| ==> s[i] in V
    decreases |s|
  {
    assert s[..|s|] == s;
    if |s| > 0 {
      var s' := s[..|s| - 1];
      assert s'[..|s'|] == s';
      AllInMembers(s', V);
    }
  }

  /** The inner loop of BFSAlgorithm.search: every neighbour of `current`
      not yet visited is appended to the queue, marked visited and given
      `current` as its parent. */
  method EnqueueNeighbors(g: Grid, ghost start: Pos, ghost goal: Pos, ghost U: set<Pos>, queue: seq<Pos>, visited: set<Pos>,
                          parent: map<Pos, Option<Pos>>, ghost dist: map<Pos, nat>, ghost d: nat, ghost popped: set<Pos>,
                          current: Pos)
    returns (queue': seq<Pos>, visited': set<Pos>, parent': map<Pos, Option<Pos>>, ghost dist': map<Pos, nat>)
    requires WellFormed(g) && CoversOpen(g, U)
    requires Expanding(g, start, goal, U, queue, visited, parent, dist, d, popped, current)
    ensures Expanding(g, start, goal, U, queue', visited', parent', dist', d, popped, current)
    ensures forall n :: Adjacent(g, current, n) ==> n in visited'
    ensures |U - visited'| + |queue'| == |U - visited| + |queue|
  {
    var neighbors := GetNeighbors(g, current.x, current.y);
    forall i | 0 <= i < |neighbors| ensures Adjacent(g, current, neighbors[i]) {
      NeighborsAreAdjacent(g, current, neighbors[i]);
    }
    queue', visited', parent', dist' := EnqueueAll(g, start, goal, U, queue, visited, parent, dist, d, popped, current, neighbors);
    forall n | Adjacent(g, current, n) ensures n in visited' {
      NeighborsAreAdjacent(g, current, n);
    }
  }

  /** The loop over the neighbour list. */
  method EnqueueAll(g: Grid, ghost start: Pos, ghost goal: Pos, ghost U: set<Pos>, queue: seq<Pos>, visited: set<Pos>,
                    parent: map<Pos, Option<Pos>>, ghost dist: map<Pos, nat>, ghost d: nat, ghost popped: set<Pos>,
                    current: Pos, neighbors: seq<Pos>)
    returns (queue': seq<Pos>, visited': set<Pos>, parent': map<Pos, Option<Pos>>, ghost dist': map<Pos, nat>)
    requires WellFormed(g) && CoversOpen(g, U)
    requires Expanding(g, start, goal, U, queue, visited, parent, dist, d, popped, current)
    requires forall i :: 0 <= i < |neighbors| ==> Adjacent(g, current, neighbors[i])
    ensures Expanding(g, start, goal, U, queue', visited', parent', dist', d, popped, current)
    ensures forall i :: 0 <= i < |neighbors| ==> neighbors[i] in visited'
    ensures |U - visited'| + |queue'| == |U - visited| + |queue|
  {
    queue', visited', parent', dist' := queue, visited, parent, dist;
    for k := 0 to |neighbors|
      invariant Expanding(g, start, goal, U, queue', visited', parent', dist', d, popped, current)
      invariant AllIn(neighbors[..k], visited')
      invariant |U - visited'| + |queue'| == |U - visited| + |queue|
    {
      var neighbor := neighbors[k];
      TakeOneMore(neighbors, k);
      if neighbor !in visited' {
        AllInAdd(neighbors[..k], visited', neighbor);
        queue', visited', parent', dist' := EnqueueOne(g, start, goal, U, queue', visited', parent', dist', d, popped, current, neighbor);
      }
    }
    AllInMembers(neighbors, visited');
  }

  /** One step of the inner loop: append the unvisited neighbour to the
      queue, mark it visited and record its parent. */
  method EnqueueOne(g: Grid, ghost start: Pos, ghost goal: Pos, ghost U: set<Pos>, queue: seq<Pos>, visited: set<Pos>,
                    parent: map<Pos, Option<Pos>>, ghost dist: map<Pos, nat>, ghost d: nat, ghost popped: set<Pos>,
                    current: Pos, neighbor: Pos)
    returns (queue': seq<Pos>, visited': set<Pos>, parent': map<Pos, Option<Pos>>, ghost dist': map<Pos, nat>)
    requires WellFormed(g) && CoversOpen(g, U)
    requires Expanding(g, start, goal, U, queue, visited, parent, dist, d, popped, current)
    requires neighbor !in visited && Adjacent(g, current, neighbor)
    ensures Expanding(g, start, goal, U, queue', visited', parent', dist', d, popped, current)
    ensures visited' == visited + {neighbor}
    ensures |U - visited'| + |queue'| == |U - visited| + |queue|
  {
    EnqueueStep(g, start, goal, U, queue, visited, parent, dist, d, popped, current, neighbor);
    queue' := queue + [neighbor];
    visited' := visited + {neighbor};
    parent' := parent[neighbor := Some(current)];
    dist' := dist[neighbor := dist[current] + 1];
  }

  /** The path reconstruction of BFSAlgorithm.search: follow the parent
      entries from the goal until the start's None entry, collecting cells
      goal first (the caller reverses the list). */
  method ReconstructPath(g: Grid, ghost start: Pos, goal: Pos, parent: map<Pos, Option<Pos>>, ghost dist: map<Pos, nat>)
    returns (chain: seq<Pos>)
    requires WellFormed(g) && Links(g, start, parent.Keys, parent, dist) && goal in parent
    ensures |chain| == dist[goal] + 1 && chain[0] == goal && chain[|chain| - 1] == start
    ensures forall i :: 0 <= i < |chain| ==> chain[i] in dist && dist[chain[i]] == dist[goal] - i
    ensures forall i :: 0 <= i < |chain| - 1 ==> Adjacent(g, chain[i + 1], chain[i])
  {
    chain := [];
    var current: Option<Pos> := Some(goal);
    while current.Some?
      invariant current.Some? ==> current.value in parent && dist[current.value] + |chain| == dist[goal]
      invariant current.None? ==> |chain| == dist[goal] + 1 && chain[|chain| - 1] == start
      invariant |chain| > 0 ==> chain[0] == goal
      invariant |chain| == 0 ==> current == Some(goal)
      invariant |chain| > 0 && current.Some? ==> Adjacent(g, current.value, chain[|chain| - 1])
      invariant DescendingChain(g, dist, goal, chain)
      decreases if current.Some? then dist[current.value] + 1 else 0
    {
      var cell := current.value;
      if cell != start {
        assert ParentLink(g, parent, dist, cell);
      }
      DescendingChainSnoc(g, dist, goal, chain, cell);
      chain := chain + [cell];
      current := parent[cell];
    }
  }

  /** The end of BFSAlgorithm.search: the reversed parent chain when the
      goal was dequeued, the empty list when the queue ran dry. */
  method PathTo(g: Grid, start: Pos, goal: Pos, parent: map<Pos, Option<Pos>>, ghost dist: map<Pos, nat>,
                ghost d: nat, ghost found: bool)
    returns (path: seq<Pos>)
    requires WellFormed(g) && Links(g, start, parent.Keys, parent, dist)
    requires found ==> goal in dist && dist[goal] == d && LowerBound(g, start, parent.Keys, dist, d)
    requires !found ==> goal !in parent && goal != start && !Reachable(g, start, goal)
    ensures ShortestPathResult(g, start, goal, path)
    ensures start == goal ==> path == [start]
  {
    path := [];
    if goal in parent || goal == start {
      var chain := ReconstructPath(g, start, goal, parent, dist);
      FoundStep(g, start, goal, parent.Keys, dist, d, chain);
      path := Reverse(chain);
    }
  }

  /** chain[i] is on level dist[goal] - i and each cell is entered from the next. */
  ghost predicate DescendingChain(g: Grid, dist: map<Pos, nat>, goal: Pos, chain: seq<Pos>)
    requires WellFormed(g) && goal in dist
  {
    (forall i :: 0 <= i < |chain| ==> chain[i] in dist && dist[chain[i]] == dist[goal] - i) &&
    (forall i :: 0 <= i < |chain| - 1 ==> Adjacent(g, chain[i + 1], chain[i]))
  }

  lemma DescendingChainSnoc(g: Grid, dist: map<Pos, nat>, goal: Pos, chain: seq<Pos>, cell: Pos)
    requires WellFormed(g) && goal in dist && DescendingChain(g, dist, goal, chain)
    requires cell in dist && dist[cell] + |chain| == dist[goal]
    requires |chain| > 0 ==> Adjacent(g, cell, chain[|chain| - 1])
    ensures DescendingChain(g, dist, goal, chain + [cell])
  {
    var c := chain + [cell];
    forall i | 0 <= i < |c| - 1 ensures Adjacent(g, c[i + 1], c[i]) {
      if i < |chain| - 1 { assert c[i + 1] == chain[i + 1] && c[i] == chain[i]; }
    }
  }

  class Searcher {
    const strategy: Strategy
    var expandedNodes: nat

    /** SearchAlgorithm.__init__: the counter starts at zero. */
    constructor (strategy: Strategy)
      ensures this.strategy == strategy && expandedNodes == 0
    {
      this.strategy := strategy;
      expandedNodes := 0;
    }

    function GetStats(): Stats
      reads this
    {
      Stats(expandedNodes)
    }

    /** search(start, goal), dispatched on the strategy: breadth-first
        search is implemented, the other three return an empty path and
        the current counters. */
    method Search(g: Grid, start: Pos, goal: Pos) returns (path: seq<Pos>, stats: Stats)
      requires WellFormed(g)
      modifies this
      ensures strategy == BFS ==> ShortestPathResult(g, start, goal, path)
      ensures strategy == BFS ==>
                old(expandedNodes) < expandedNodes <= old(expandedNodes) + |OpenCells(g) + {start}|
      ensures strategy == BFS && start == goal ==> path == [start] && expandedNodes == old(expandedNodes) + 1
      ensures strategy != BFS ==> path == [] && expandedNodes == old(expandedNodes)
      ensures stats == Stats(expandedNodes)
    {
      if strategy == BFS {
        path, stats := BreadthFirst(g, start, goal);
      } else {
        path, stats := [], GetStats();
      }
    }

    /** BFSAlgorithm.search: a FIFO queue, cells marked visited when they
        are enqueued, the goal tested when a cell is dequeued, the path
        rebuilt from the parent map and reversed. The counter grows by one
        per dequeued cell and is never reset. */
    method BreadthFirst(g: Grid, start: Pos, goal: Pos) returns (path: seq<Pos>, stats: Stats)
      requires WellFormed(g)
      modifies this
      ensures ShortestPathResult(g, start, goal, path)
      ensures old(expandedNodes) < expandedNodes <= old(expandedNodes) + |OpenCells(g) + {start}|
      ensures start == goal ==> path == [start] && expandedNodes == old(expandedNodes) + 1
      ensures stats == Stats(expandedNodes)
    {
      ghost var U := OpenCells(g) + {start};
      OpenCellsCover(g, start);
      var queue := [start];
      var visited := {start};
      var parent: map<Pos, Option<Pos>> := map[start := None];
      ghost var dist: map<Pos, nat> := map[start := 0];
      ghost var d: nat := 0;
      ghost var popped: set<Pos> := {};
      ghost var reached := false;
      FrontierInit(g, start, goal);

      while queue != []
        invariant Frontier(g, start, goal, U, queue, visited, parent, dist, d, popped)
        invariant expandedNodes == old(expandedNodes) + |popped|
        decreases |U - visited| + |queue|
      {
        var current := queue[0];
        ghost var before := queue;
        queue := queue[1..];
        expandedNodes := expandedNodes + 1;
        popped := popped + {current};

        if current == goal {
          reached := true;
          assert dist[goal] == d && LowerBound(g, start, visited, dist, d);
          break;
        }

        DequeueStep(g, start, goal, U, before, visited, parent, dist, d, popped - {current});
        assert popped - {current} + {current} == popped;
        queue, visited, parent, dist := EnqueueNeighbors(g, start, goal, U, queue, visited, parent, dist, d, popped, current);
        FinishStep(g, start, goal, U, queue, visited, parent, dist, d, popped, current);
        d := NextLevel(queue, dist, d);
      }

      if !reached {
        ExhaustedStep(g, start, goal, U, visited, parent, dist, d, popped);
      }
      path := PathTo(g, start, goal, parent, dist, d, reached);
      SubsetCard(popped, U);
      stats := GetStats();
    }
  }
}
