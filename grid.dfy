// Grid primitives of the maze: cell tags, the move-validity test, the
// neighbour enumeration, the Manhattan distance, the spawn scan and the
// centring arithmetic of utils/game_utils.py.

module Grid {

  /** Cell tags of the maze layout. */
  const Empty := 0
  const Wall := 1
  const Food := 2
  const GhostSpawn := 4
  const PacmanSpawn := 5

  /** A cell coordinate: column x, row y. */
  datatype Pos = Pos(x: int, y: int)

  /** The maze: a list of rows, indexed grid[y][x]. */
  type Grid = seq<seq<int>>

  /** The four ghosts, in the order their spawn cells are handed out. */
  datatype Ghost = Blue | Pink | Orange | Red

  const GhostOrder: seq<Ghost> := [Blue, Pink, Orange, Red]

  /** Every helper indexes row 0 for the width and every row by it: a
      non-empty, rectangular list of rows. */
  predicate WellFormed(g: Grid) {
    |g| > 0 && forall r :: 0 <= r < |g| ==> |g[r]| == |g[0]|
  }

  function Width(g: Grid): nat requires |g| > 0 { |g[0]| }

  function Height(g: Grid): nat { |g| }

  predicate InBounds(g: Grid, x: int, y: int) requires |g| > 0 {
    0 <= x < Width(g) && 0 <= y < Height(g)
  }

  /** is_valid_move: inside the maze and not a wall. */
  predicate IsValidMove(g: Grid, x: int, y: int)
    requires WellFormed(g)
  {
    InBounds(g, x, y) && g[y][x] != Wall
  }

  predicate IsOpen(g: Grid, p: Pos) requires WellFormed(g) {
    IsValidMove(g, p.x, p.y)
  }

  function Abs(n: int): nat { if n < 0 then -n else n }

  /** manhattan_distance */
  function Manhattan(x1: int, y1: int, x2: int, y2: int): nat {
    Abs(x1 - x2) + Abs(y1 - y2)
  }

  function Dist(a: Pos, b: Pos): nat { Manhattan(a.x, a.y, b.x, b.y) }

  lemma ManhattanIsMetric(a: Pos, b: Pos, c: Pos)
    ensures Dist(a, b) == Dist(b, a)
    ensures Dist(a, b) == 0 <==> a == b
    ensures Dist(a, c) <= Dist(a, b) + Dist(b, c)
  {
  }

  /** A single move between cells: the target is open and one unit away.
      This is the reference relation that the neighbour enumeration is
      proved against. */
  predicate Adjacent(g: Grid, a: Pos, b: Pos) requires WellFormed(g) {
    IsOpen(g, b) && Dist(a, b) == 1
  }

  /** The candidate cells in the fixed order Up, Right, Down, Left. */
  function Around(p: Pos): (r: seq<Pos>)
    ensures |r| == 4
  {
    [Pos(p.x, p.y - 1), Pos(p.x + 1, p.y), Pos(p.x, p.y + 1), Pos(p.x - 1, p.y)]
  }

  /** The open cells of s, in the order of s. */
  function OpenOnly(g: Grid, s: seq<Pos>): seq<Pos>
    requires WellFormed(g)
  {
    if s == [] then []
    else OpenOnly(g, s[..|s| - 1]) + (if IsOpen(g, s[|s| - 1]) then [s[|s| - 1]] else [])
  }

  /** The neighbours get_neighbors returns for p. */
  function Neighbors(g: Grid, p: Pos): seq<Pos>
    requires WellFormed(g)
  {
    OpenOnly(g, Around(p))
  }

  /** get_neighbors: try the four directions in order, keep the valid ones. */
  method GetNeighbors(g: Grid, x: int, y: int) returns (ns: seq<Pos>)
    requires WellFormed(g)
    ensures ns == Neighbors(g, Pos(x, y))
  {
    var directions := [(0, -1), (1, 0), (0, 1), (-1, 0)];
    ghost var cands := Around(Pos(x, y));
    ns := [];
    for i := 0 to 4
      invariant ns == OpenOnly(g, cands[..i])
    {
      var (dx, dy) := directions[i];
      var nx, ny := x + dx, y + dy;
      assert cands[..i + 1][..i] == cands[..i];
      if IsValidMove(g, nx, ny) {
        ns := ns + [Pos(nx, ny)];
      }
    }
    assert cands[..4] == cands;
  }

  /** Position of n among the four candidates of p (4 when it is none of them). */
  function Rank(p: Pos, n: Pos): nat {
    if n == Pos(p.x, p.y - 1) then 0
    else if n == Pos(p.x + 1, p.y) then 1
    else if n == Pos(p.x, p.y + 1) then 2
    else if n == Pos(p.x - 1, p.y) then 3
    else 4
  }

  lemma {:induction false} OpenOnlyMembers(g: Grid, s: seq<Pos>, n: Pos)
    requires WellFormed(g)
    ensures n in OpenOnly(g, s) <==> n in s && IsOpen(g, n)
  {
    if s != [] {
      OpenOnlyMembers(g, s[..|s| - 1], n);
      assert s == s[..|s| - 1] + [s[|s| - 1]];
    }
  }

  lemma AroundIsUnitDistance(p: Pos, n: Pos)
    ensures n in Around(p) <==> Dist(p, n) == 1
  {
  }

  /** Every cell get_neighbors returns is a valid move one step away, and
      every valid move one step away is returned. */
  lemma NeighborsAreAdjacent(g: Grid, p: Pos, n: Pos)
    requires WellFormed(g)
    ensures n in Neighbors(g, p) <==> Adjacent(g, p, n)
  {
    OpenOnlyMembers(g, Around(p), n);
    AroundIsUnitDistance(p, n);
  }

  /** The prefix [..k] of the four candidates, filtered, has each element
      ranked below k and the ranks strictly increase. */
  lemma {:induction false} OpenOnlyPrefixOrdered(g: Grid, p: Pos, k: nat)
    requires WellFormed(g) && k <= 4
    ensures |OpenOnly(g, Around(p)[..k])| <= k
    ensures forall i :: 0 <= i < |OpenOnly(g, Around(p)[..k])| ==>
              Rank(p, OpenOnly(g, Around(p)[..k])[i]) < k
    ensures forall i, j :: 0 <= i < j < |OpenOnly(g, Around(p)[..k])| ==>
              Rank(p, OpenOnly(g, Around(p)[..k])[i]) < Rank(p, OpenOnly(g, Around(p)[..k])[j])
  {
    if k > 0 {
      var s := Around(p)[..k];
      assert s[..|s| - 1] == Around(p)[..k - 1];
      OpenOnlyPrefixOrdered(g, p, k - 1);
      assert Rank(p, s[k - 1]) == k - 1;
    }
  }

  /** get_neighbors returns at most four cells, an order-preserving
      subsequence of Up, Right, Down, Left (so no cell twice). */
  lemma NeighborsInDirectionOrder(g: Grid, p: Pos)
    requires WellFormed(g)
    ensures |Neighbors(g, p)| <= 4
    ensures forall i :: 0 <= i < |Neighbors(g, p)| ==> Rank(p, Neighbors(g, p)[i]) < 4
    ensures forall i :: 0 <= i < |Neighbors(g, p)| ==> Neighbors(g, p)[i] == Around(p)[Rank(p, Neighbors(g, p)[i])]
    ensures forall i, j :: 0 <= i < j < |Neighbors(g, p)| ==>
              Rank(p, Neighbors(g, p)[i]) < Rank(p, Neighbors(g, p)[j])
  {
    OpenOnlyPrefixOrdered(g, p, 4);
    assert Around(p)[..4] == Around(p);
  }

  /** Between two open cells the neighbour relation is symmetric. */
  lemma NeighborsSymmetric(g: Grid, p: Pos, q: Pos)
    requires WellFormed(g) && IsOpen(g, p) && IsOpen(g, q)
    ensures q in Neighbors(g, p) <==> p in Neighbors(g, q)
  {
    NeighborsAreAdjacent(g, p, q);
    NeighborsAreAdjacent(g, q, p);
    ManhattanIsMetric(p, q, q);
  }

  // ---------------------------------------------------------------------
  // Spawn scan (find_initial_positions)

  /** The cells of row y (restricted to the given prefix) tagged t, left to right. */
  function RowTagged(row: seq<int>, y: int, t: int): seq<Pos>
  {
    if row == [] then []
    else RowTagged(row[..|row| - 1], y, t) + (if row[|row| - 1] == t then [Pos(|row| - 1, y)] else [])
  }

  /** The cells of g tagged t, in row-major order. */
  function Tagged(g: Grid, t: int): seq<Pos>
  {
    if g == [] then []
    else Tagged(g[..|g| - 1], t) + RowTagged(g[|g| - 1], |g| - 1, t)
  }

  /** Row-major order on cells. */
  predicate Before(a: Pos, b: Pos) {
    a.y < b.y || (a.y == b.y && a.x < b.x)
  }

  lemma {:induction false} RowTaggedExactly(row: seq<int>, y: int, t: int)
    ensures forall p :: p in RowTagged(row, y, t) <==> p.y == y && 0 <= p.x < |row| && row[p.x] == t
    ensures forall i, j :: 0 <= i < j < |RowTagged(row, y, t)| ==>
              RowTagged(row, y, t)[i].x < RowTagged(row, y, t)[j].x
  {
    if row != [] {
      var init := row[..|row| - 1];
      RowTaggedExactly(init, y, t);
      forall x | 0 <= x < |init| ensures init[x] == row[x] { }
    }
  }

  /** The spawn scan visits exactly the cells tagged t, each once, in
      row-major order. */
  lemma {:induction false} TaggedExactly(g: Grid, t: int)
    ensures forall p :: p in Tagged(g, t) <==>
              0 <= p.y < |g| && 0 <= p.x < |g[p.y]| && g[p.y][p.x] == t
    ensures forall i, j :: 0 <= i < j < |Tagged(g, t)| ==> Before(Tagged(g, t)[i], Tagged(g, t)[j])
  {
    if g != [] {
      var init := g[..|g| - 1];
      TaggedExactly(init, t);
      RowTaggedExactly(g[|g| - 1], |g| - 1, t);
      var a, b := Tagged(init, t), RowTagged(g[|g| - 1], |g| - 1, t);
      assert Tagged(g, t) == a + b;
      forall i, j | 0 <= i < j < |a + b| ensures Before((a + b)[i], (a + b)[j]) {
        if j >= |a| && i < |a| {
          assert a[i] in a && b[j - |a|] in b;
        }
      }
    }
  }

  function LastOrNone(s: seq<Pos>): Option<Pos> {
    if s == [] then None else Some(s[|s| - 1])
  }

  datatype Option<T> = None | Some(value: T)

  /** Spawn of the k-th ghost of GhostOrder: the k-th ghost-spawn cell, if any. */
  function NthOrNone(s: seq<Pos>, k: nat): Option<Pos> {
    if k < |s| then Some(s[k]) else None
  }

  function GhostIndex(c: Ghost): nat {
    match c
    case Blue => 0
    case Pink => 1
    case Orange => 2
    case Red => 3
  }

  /** The ghosts' spawn cells: ghost c takes the ghost-spawn cell of
      index GhostIndex(c) in row-major order, if there is one. */
  function SpawnGhosts(g: Grid): (r: map<Ghost, Option<Pos>>)
    ensures forall c: Ghost :: c in r && r[c] == NthOrNone(Tagged(g, GhostSpawn), GhostIndex(c))
  {
    var s := Tagged(g, GhostSpawn);
    SpawnsByIndex(s);
    map[Blue := NthOrNone(s, 0), Pink := NthOrNone(s, 1), Orange := NthOrNone(s, 2), Red := NthOrNone(s, 3)]
  }

  lemma SpawnsByIndex(s: seq<Pos>)
    ensures var r := map[Blue := NthOrNone(s, 0), Pink := NthOrNone(s, 1), Orange := NthOrNone(s, 2), Red := NthOrNone(s, 3)];
            forall c: Ghost :: c in r && r[c] == NthOrNone(s, GhostIndex(c))
  {
    var r := map[Blue := NthOrNone(s, 0), Pink := NthOrNone(s, 1), Orange := NthOrNone(s, 2), Red := NthOrNone(s, 3)];
    forall c: Ghost ensures c in r && r[c] == NthOrNone(s, GhostIndex(c)) {
      match c
      case Blue =>
      case Pink =>
      case Orange =>
      case Red =>
    }
  }

  /** What the spawn assignment means on the grid: a ghost is placed
      exactly when there are enough ghost-spawn cells for its rank, a
      placed ghost stands on a ghost-spawn cell, no two ghosts share one,
      and a lower rank gets an earlier cell in row-major order. */
  lemma SpawnGhostsMeaning(g: Grid)
    ensures forall c: Ghost :: SpawnGhosts(g)[c].Some? <==> GhostIndex(c) < |Tagged(g, GhostSpawn)|
    ensures forall c: Ghost :: SpawnGhosts(g)[c].Some? ==>
              var p := SpawnGhosts(g)[c].value;
              0 <= p.y < |g| && 0 <= p.x < |g[p.y]| && g[p.y][p.x] == GhostSpawn
    ensures forall c: Ghost, d: Ghost :: GhostIndex(c) < GhostIndex(d) && SpawnGhosts(g)[d].Some? ==>
              SpawnGhosts(g)[c].Some? && Before(SpawnGhosts(g)[c].value, SpawnGhosts(g)[d].value)
    ensures forall c: Ghost, d: Ghost :: c != d && SpawnGhosts(g)[c].Some? && SpawnGhosts(g)[d].Some? ==>
              SpawnGhosts(g)[c] != SpawnGhosts(g)[d]
  {
    var s := Tagged(g, GhostSpawn);
    TaggedExactly(g, GhostSpawn);
    forall c: Ghost | SpawnGhosts(g)[c].Some?
      ensures var p := SpawnGhosts(g)[c].value; 0 <= p.y < |g| && 0 <= p.x < |g[p.y]| && g[p.y][p.x] == GhostSpawn
    {
      assert s[GhostIndex(c)] in s;
    }
    forall c: Ghost, d: Ghost | c != d
      ensures GhostIndex(c) != GhostIndex(d)
    {
      match c
      case Blue =>
      case Pink =>
      case Orange =>
      case Red =>
    }
  }

  /** find_initial_positions: a row-major scan; Pac-Man takes the last
      Pac-Man spawn cell, the ghosts take the first four ghost spawn cells
      in the order blue, pink, orange, red, and later ghost spawns are ignored. */
  method FindInitialPositions(g: Grid) returns (pacman: Option<Pos>, ghosts: map<Ghost, Option<Pos>>)
    ensures pacman == LastOrNone(Tagged(g, PacmanSpawn))
    ensures ghosts == SpawnGhosts(g)
  {
    pacman := None;
    ghosts := map[Blue := None, Pink := None, Orange := None, Red := None];
    var ghostCount := 0;
    assert g[..0] == [];
    forall c: Ghost ensures c in ghosts && ghosts[c] == None {
      match c
      case Blue =>
      case Pink =>
      case Orange =>
      case Red =>
    }
    for y := 0 to |g|
      invariant pacman == LastOrNone(Tagged(g[..y], PacmanSpawn))
      invariant ghostCount == |Tagged(g[..y], GhostSpawn)|
      invariant GhostsAssigned(ghosts, Tagged(g[..y], GhostSpawn))
    {
      assert g[..y + 1][..y] == g[..y] && g[..y + 1][y] == g[y];
      pacman, ghosts, ghostCount := ScanRow(g[y], y, pacman, ghosts, ghostCount, Tagged(g[..y], PacmanSpawn),
                                            Tagged(g[..y], GhostSpawn));
    }
    assert g[..|g|] == g;
    var spawns := SpawnGhosts(g);
    assert ghosts.Keys == spawns.Keys;
  }

  /** The ghosts named so far are the first spawn cells found, in order. */
  ghost predicate GhostsAssigned(ghosts: map<Ghost, Option<Pos>>, spawns: seq<Pos>)
  {
    forall c: Ghost :: c in ghosts && ghosts[c] == NthOrNone(spawns, GhostIndex(c))
  }

  lemma GhostsAssignedSnoc(before: map<Ghost, Option<Pos>>, after: map<Ghost, Option<Pos>>, s: seq<Pos>, p: Pos)
    requires GhostsAssigned(before, s)
    requires after == if |s| == 0 then before[Blue := Some(p)]
                      else if |s| == 1 then before[Pink := Some(p)]
                      else if |s| == 2 then before[Orange := Some(p)]
                      else if |s| == 3 then before[Red := Some(p)]
                      else before
    ensures GhostsAssigned(after, s + [p])
  {
    forall c: Ghost ensures c in after && after[c] == NthOrNone(s + [p], GhostIndex(c)) {
      assert before[c] == NthOrNone(s, GhostIndex(c));
    }
  }

  /** The inner loop of find_initial_positions over one row. */
  method ScanRow(row: seq<int>, y: int, pacman: Option<Pos>, ghosts: map<Ghost, Option<Pos>>, ghostCount: nat,
                 ghost pacBefore: seq<Pos>, ghost ghostBefore: seq<Pos>)
    returns (pacman': Option<Pos>, ghosts': map<Ghost, Option<Pos>>, ghostCount': nat)
    requires pacman == LastOrNone(pacBefore) && ghostCount == |ghostBefore| && GhostsAssigned(ghosts, ghostBefore)
    ensures pacman' == LastOrNone(pacBefore + RowTagged(row, y, PacmanSpawn))
    ensures ghostCount' == |ghostBefore + RowTagged(row, y, GhostSpawn)|
    ensures GhostsAssigned(ghosts', ghostBefore + RowTagged(row, y, GhostSpawn))
  {
    pacman', ghosts', ghostCount' := pacman, ghosts, ghostCount;
    assert row[..0] == [];
    assert pacBefore + [] == pacBefore && ghostBefore + [] == ghostBefore;
    for x := 0 to |row|
      invariant pacman' == LastOrNone(pacBefore + RowTagged(row[..x], y, PacmanSpawn))
      invariant ghostCount' == |ghostBefore + RowTagged(row[..x], y, GhostSpawn)|
      invariant GhostsAssigned(ghosts', ghostBefore + RowTagged(row[..x], y, GhostSpawn))
    {
      var cell := row[x];
      assert row[..x + 1][..x] == row[..x];
      ghost var spawns := ghostBefore + RowTagged(row[..x], y, GhostSpawn);
      assert ghostBefore + RowTagged(row[..x + 1], y, GhostSpawn) ==
             spawns + (if cell == GhostSpawn then [Pos(x, y)] else []);
      assert pacBefore + RowTagged(row[..x + 1], y, PacmanSpawn) ==
             pacBefore + RowTagged(row[..x], y, PacmanSpawn) + (if cell == PacmanSpawn then [Pos(x, y)] else []);
      if cell == PacmanSpawn {
        pacman' := Some(Pos(x, y));
      } else if cell == GhostSpawn {
        ghost var before := ghosts';
        ghostCount' := ghostCount' + 1;
        if ghostCount' == 1 {
          ghosts' := ghosts'[Blue := Some(Pos(x, y))];
        } else if ghostCount' == 2 {
          ghosts' := ghosts'[Pink := Some(Pos(x, y))];
        } else if ghostCount' == 3 {
          ghosts' := ghosts'[Orange := Some(Pos(x, y))];
        } else if ghostCount' == 4 {
          ghosts' := ghosts'[Red := Some(Pos(x, y))];
        }
        GhostsAssignedSnoc(before, ghosts', spawns, Pos(x, y));
      }
    }
    assert row[..|row|] == row;
  }

  /** calculate_maze_offset: Python's floor division of the leftover
      screen space by 2 (Dafny's `/` agrees with it for the divisor 2). */
  function MazeOffset(screenWidth: int, screenHeight: int, cellSize: int, g: Grid): (r: (int, int))
    requires |g| > 0
    ensures var left := r.0; var right := screenWidth - Width(g) * cellSize - left;
            left <= right <= left + 1
    ensures var top := r.1; var bottom := screenHeight - Height(g) * cellSize - top;
            top <= bottom <= top + 1
  {
    ((screenWidth - Width(g) * cellSize) / 2, (screenHeight - Height(g) * cellSize) / 2)
  }

  // ---------------------------------------------------------------------
  // Food

  /** Number of food cells in a row. */
  function RowFood(row: seq<int>): nat {
    if row == [] then 0 else RowFood(row[..|row| - 1]) + (if row[|row| - 1] == Food then 1 else 0)
  }

  /** Number of food cells in the maze. */
  function FoodCount(g: Grid): nat {
    if g == [] then 0 else FoodCount(g[..|g| - 1]) + RowFood(g[|g| - 1])
  }

  predicate HasFood(g: Grid) {
    exists y, x :: 0 <= y < |g| && 0 <= x < |g[y]| && g[y][x] == Food
  }

  lemma {:induction false} RowFoodPositive(row: seq<int>)
    ensures RowFood(row) > 0 <==> Food in row
  {
    if row != [] {
      RowFoodPositive(row[..|row| - 1]);
      assert row == row[..|row| - 1] + [row[|row| - 1]];
    }
  }

  /** Some cell is food exactly when the food count is positive. */
  lemma {:induction false} FoodCountPositive(g: Grid)
    ensures FoodCount(g) > 0 <==> HasFood(g)
  {
    if g != [] {
      var init := g[..|g| - 1];
      FoodCountPositive(init);
      RowFoodPositive(g[|g| - 1]);
      if HasFood(init) {
        var y, x :| 0 <= y < |init| && 0 <= x < |init[y]| && init[y][x] == Food;
        assert g[y][x] == Food;
      }
      if Food in g[|g| - 1] {
        var x :| 0 <= x < |g[|g| - 1]| && g[|g| - 1][x] == Food;
        assert g[|g| - 1][x] == Food;
      }
      if HasFood(g) {
        var y, x :| 0 <= y < |g| && 0 <= x < |g[y]| && g[y][x] == Food;
        if y < |g| - 1 { assert init[y][x] == Food; } else { assert g[|g| - 1][x] == Food; }
      }
    }
  }

  lemma {:induction false} RowFoodEat(row: seq<int>, x: nat)
    requires x < |row| && row[x] == Food
    ensures RowFood(row[x := Empty]) == RowFood(row) - 1
  {
    var row' := row[x := Empty];
    if x < |row| - 1 {
      assert row'[..|row'| - 1] == row[..|row| - 1][x := Empty];
      RowFoodEat(row[..|row| - 1], x);
    } else {
      assert row'[..|row'| - 1] == row[..|row| - 1];
    }
  }

  /** Eating one food cell lowers the food count by exactly one. */
  lemma {:induction false} FoodCountEat(g: Grid, y: nat, x: nat)
    requires y < |g| && x < |g[y]| && g[y][x] == Food
    ensures FoodCount(g[y := g[y][x := Empty]]) == FoodCount(g) - 1
  {
    var g' := g[y := g[y][x := Empty]];
    if y < |g| - 1 {
      assert g'[..|g'| - 1] == g[..|g| - 1][y := g[y][x := Empty]];
      FoodCountEat(g[..|g| - 1], y, x);
    } else {
      assert g'[..|g'| - 1] == g[..|g| - 1];
      RowFoodEat(g[y], x);
    }
  }

  /** The maze is the layout with some food cells emptied and nothing else changed. */
  predicate FoodOnlyEaten(layout: Grid, maze: Grid) {
    |maze| == |layout| &&
    (forall y :: 0 <= y < |layout| ==> |maze[y]| == |layout[y]|) &&
    (forall y, x :: 0 <= y < |layout| && 0 <= x < |layout[y]| ==>
       maze[y][x] == layout[y][x] || (layout[y][x] == Food && maze[y][x] == Empty))
  }

  /** Eating food never changes which cells are walls, so validity read
      from the original layout and from the eaten maze agree. */
  lemma ValidMoveIgnoresFood(layout: Grid, maze: Grid, x: int, y: int)
    requires WellFormed(layout) && FoodOnlyEaten(layout, maze)
    ensures WellFormed(maze)
    ensures IsValidMove(layout, x, y) <==> IsValidMove(maze, x, y)
  {
  }

  /** Eating food keeps the maze a layout with some food eaten. */
  lemma EatKeepsFoodOnlyEaten(layout: Grid, maze: Grid, y: nat, x: nat)
    requires FoodOnlyEaten(layout, maze) && y < |maze| && x < |maze[y]| && maze[y][x] == Food
    ensures FoodOnlyEaten(layout, maze[y := maze[y][x := Empty]])
  {
    var m := maze[y := maze[y][x := Empty]];
    forall y', x' | 0 <= y' < |layout| && 0 <= x' < |layout[y']|
      ensures m[y'][x'] == layout[y'][x'] || (layout[y'][x'] == Food && m[y'][x'] == Empty)
    {
      if y' == y && x' == x {
        assert layout[y][x] == Food;
      } else {
        assert m[y'][x'] == maze[y'][x'];
      }
    }
  }
}
