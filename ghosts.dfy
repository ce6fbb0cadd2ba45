// The ghost-movement parts of update_ghosts in game.py that work on
// values: the paths the ghosts follow, what one search call gives a ghost,
// the ordered proposals of the active ghosts, and the commit of the granted
// moves.

module Ghosts {
  import opened Grid
  import opened Search
  import opened Rules

  /** The strategy behind each ghost: blue BFS, pink DFS, orange UCS, red A*. */
  function StrategyOf(c: Ghost): Strategy {
    match c
    case Blue => BFS
    case Pink => DFS
    case Orange => UCS
    case Red => AStar
  }

  predicate NoDup(s: seq<Ghost>) {
    forall i, j :: 0 <= i < j < |s| ==> s[i] != s[j]
  }

  /** Every path the game keeps is a loop-free walk: each cell is next to
      the one before it, and no cell comes back. */
  ghost predicate LoopFreeWalk(g: Grid, path: seq<Pos>)
    requires WellFormed(g)
    decreases |path|
  {
    |path| <= 1 || (Adjacent(g, path[0], path[1]) && path[0] !in path[1..] && LoopFreeWalk(g, path[1..]))
  }

  /** The walks breadth-first search returns are loop-free walks. */
  lemma {:induction false} WalkIsLoopFree(g: Grid, path: seq<Pos>)
    requires WellFormed(g) && path != [] && IsWalkFrom(g, path, path[0]) && Distinct(path)
    ensures LoopFreeWalk(g, path)
    decreases |path|
  {
    if |path| > 1 {
      var tail := path[1..];
      assert Adjacent(g, path[0], path[1]);
      forall i | 0 <= i < |tail| - 1 ensures Adjacent(g, tail[i], tail[i + 1]) {
        assert Adjacent(g, path[i + 1], path[i + 2]);
      }
      forall i, j | 0 <= i < j < |tail| ensures tail[i] != tail[j] {
        assert path[i + 1] != path[j + 1];
      }
      WalkIsLoopFree(g, tail);
      forall k | 0 <= k < |tail| ensures tail[k] != path[0] {
        assert path[k + 1] != path[0];
      }
    }
  }

  /** A path that belongs to a ghost starts at the ghost's cell. */
  ghost predicate PathFrom(g: Grid, path: seq<Pos>, pos: Option<Pos>)
    requires WellFormed(g)
  {
    path == [] || (pos == Some(path[0]) && LoopFreeWalk(g, path))
  }

  /** What search(ghost, pacman) returns for a strategy: a shortest path
      (or [] when Pac-Man is out of reach) for BFS, [] for the others. */
  ghost predicate Planned(s: Strategy, g: Grid, from: Pos, to: Pos, path: seq<Pos>)
    requires WellFormed(g)
  {
    if s == BFS then ShortestPathResult(g, from, to, path) else path == []
  }

  /** A ghost path is searched again only when it has at most one cell. */
  ghost predicate Replanned(s: Strategy, g: Grid, before: seq<Pos>, after: seq<Pos>, from: Pos, to: Pos)
    requires WellFormed(g)
  {
    if |before| > 1 then after == before else Planned(s, g, from, to, after)
  }

  lemma PlannedPathFrom(s: Strategy, g: Grid, from: Pos, to: Pos, path: seq<Pos>)
    requires WellFormed(g) && Planned(s, g, from, to, path)
    ensures PathFrom(g, path, Some(from))
  {
    if path != [] {
      WalkIsLoopFree(g, path);
    }
  }

  /** Dropping the head of a ghost path (pop(0)) after the ghost stepped
      to its second cell leaves a path from the new cell. */
  lemma PopKeepsPath(g: Grid, path: seq<Pos>)
    requires WellFormed(g) && LoopFreeWalk(g, path) && |path| > 1
    ensures PathFrom(g, path[1..], Some(path[1])) && IsOpen(g, path[1])
  {
  }

  /** The proposals of the active ghosts in order, one entry per ghost
      whose option is present (the insertion order of new_positions). */
  function Pick(act: seq<Ghost>, opts: seq<Option<Pos>>): (r: seq<(Ghost, Pos)>)
    requires |act| == |opts|
    ensures |r| <= |act|
  {
    if |act| == 0 then []
    else Pick(act[..|act| - 1], opts[..|opts| - 1]) +
         (if opts[|opts| - 1].Some? then [(act[|act| - 1], opts[|opts| - 1].value)] else [])
  }

  /** Each picked entry comes from a present option of that ghost. */
  lemma {:induction false} PickSound(act: seq<Ghost>, opts: seq<Option<Pos>>, k: nat)
    requires |act| == |opts| && k < |Pick(act, opts)|
    ensures exists i :: 0 <= i < |act| && act[i] == Pick(act, opts)[k].0 && opts[i] == Some(Pick(act, opts)[k].1)
    decreases |act|
  {
    var a, o := act[..|act| - 1], opts[..|opts| - 1];
    var r, r' := Pick(a, o), Pick(act, opts);
    if k < |r| {
      PickSound(a, o, k);
      var i :| 0 <= i < |a| && a[i] == r[k].0 && o[i] == Some(r[k].1);
      assert act[i] == a[i] && opts[i] == o[i] && r'[k] == r[k];
    } else {
      assert opts[|opts| - 1].Some? && r'[k] == (act[|act| - 1], opts[|opts| - 1].value);
    }
  }

  /** Every present option is picked. */
  lemma {:induction false} PickComplete(act: seq<Ghost>, opts: seq<Option<Pos>>, i: nat)
    requires |act| == |opts| && i < |act| && opts[i].Some?
    ensures exists k :: 0 <= k < |Pick(act, opts)| && Pick(act, opts)[k] == (act[i], opts[i].value)
    decreases |act|
  {
    var a, o := act[..|act| - 1], opts[..|opts| - 1];
    var r, r' := Pick(a, o), Pick(act, opts);
    if i < |a| {
      PickComplete(a, o, i);
      assert act[i] == a[i] && opts[i] == o[i];
      var k :| 0 <= k < |r| && r[k] == (a[i], o[i].value);
      assert r'[k] == r[k];
    } else {
      assert r'[|r'| - 1] == (act[i], opts[i].value);
    }
  }

  /** No ghost is picked twice. */
  lemma {:induction false} PickDistinct(act: seq<Ghost>, opts: seq<Option<Pos>>)
    requires |act| == |opts| && NoDup(act)
    ensures forall k, l :: 0 <= k < l < |Pick(act, opts)| ==> Pick(act, opts)[k].0 != Pick(act, opts)[l].0
    decreases |act|
  {
    if |act| > 0 {
      var a, o := act[..|act| - 1], opts[..|opts| - 1];
      PickDistinct(a, o);
      var r, r' := Pick(a, o), Pick(act, opts);
      forall k, l | 0 <= k < l < |r'| ensures r'[k].0 != r'[l].0 {
        if l >= |r| {
          PickSound(a, o, k);
          var i :| 0 <= i < |a| && a[i] == r[k].0 && o[i] == Some(r[k].1);
          assert r'[k] == r[k] && act[i] == a[i];
        } else {
          assert r'[k] == r[k] && r'[l] == r[l];
        }
      }
    }
  }

  function Cells(moves: seq<(Ghost, Pos)>): (r: seq<Pos>)
    ensures |r| == |moves|
  {
    seq(|moves|, k requires 0 <= k < |moves| => moves[k].1)
  }

  /** The proposal of a ghost with a (re)planned path: its second cell. */
  function Proposal(path: seq<Pos>): Option<Pos> {
    if |path| > 1 then Some(path[1]) else None
  }

  /** The ghosts picked by a list of moves. */
  predicate Picked(moves: seq<(Ghost, Pos)>, c: Ghost) {
    exists k :: 0 <= k < |moves| && moves[k].0 == c
  }

  /** The proposals of the active ghosts in order, from their paths. */
  function Proposals(act: seq<Ghost>, paths: map<Ghost, seq<Pos>>): (r: seq<Option<Pos>>)
    requires forall c: Ghost :: c in paths
    ensures |r| == |act|
  {
    seq(|act|, i requires 0 <= i < |act| => Proposal(paths[act[i]]))
  }

  predicate Keyed(positions: map<Ghost, Option<Pos>>, paths: map<Ghost, seq<Pos>>) {
    forall c: Ghost :: c in positions && c in paths
  }

  /** The search calls of a level-5 or level-6 tick for the first n
      active ghosts: each of them got Replanned from its own cell towards
      Pac-Man, and no other ghost's path changed. */
  ghost predicate ReplannedAll(g: Grid, act: seq<Ghost>, n: nat, positions: map<Ghost, Option<Pos>>, pacman: Pos,
                               before: map<Ghost, seq<Pos>>, after: map<Ghost, seq<Pos>>)
    requires WellFormed(g) && n <= |act| && Keyed(positions, before)
  {
    (forall c: Ghost :: c in after) &&
    (forall i :: 0 <= i < n ==>
       positions[act[i]].Some? &&
       Replanned(StrategyOf(act[i]), g, before[act[i]], after[act[i]], positions[act[i]].value, pacman)) &&
    (forall c: Ghost :: c !in act[..n] ==> after[c] == before[c])
  }

  /** Each move is the second cell of its ghost's path. */
  predicate Backed(moves: seq<(Ghost, Pos)>, paths: map<Ghost, seq<Pos>>) {
    forall k :: 0 <= k < |moves| ==> moves[k].0 in paths && Proposal(paths[moves[k].0]) == Some(moves[k].1)
  }

  /** No ghost has two moves. */
  predicate Unique(moves: seq<(Ghost, Pos)>) {
    forall k, l :: 0 <= k < l < |moves| ==> moves[k].0 != moves[l].0
  }

  /** Ghost c has a granted move among the first n moves. */
  predicate GrantedTo(moves: seq<(Ghost, Pos)>, granted: seq<bool>, n: nat, c: Ghost)
    requires |granted| == |moves| && n <= |moves|
  {
    exists k :: 0 <= k < n && granted[k] && moves[k].0 == c
  }

  /** The end of a level-5 or level-6 tick: every granted move is entered
      (the ghost is on the cell, its path lost its head) and every other
      ghost keeps its cell and its path. */
  ghost predicate Committed(moves: seq<(Ghost, Pos)>, granted: seq<bool>,
                            positions: map<Ghost, Option<Pos>>, paths: map<Ghost, seq<Pos>>,
                            positions': map<Ghost, Option<Pos>>, paths': map<Ghost, seq<Pos>>)
    requires |granted| == |moves| && Keyed(positions, paths) && Backed(moves, paths)
  {
    Keyed(positions', paths') &&
    (forall k :: 0 <= k < |moves| && granted[k] ==>
       positions'[moves[k].0] == Some(moves[k].1) && paths'[moves[k].0] == paths[moves[k].0][1..]) &&
    (forall c: Ghost :: !GrantedTo(moves, granted, |moves|, c) ==> positions'[c] == positions[c] && paths'[c] == paths[c])
  }

  /** The commit loop of levels 5 and 6: for each granted move in order,
      ghost_positions[c] = new_pos and ghost_paths[c].pop(0). */
  method EnterMoves(moves: seq<(Ghost, Pos)>, granted: seq<bool>,
                positions: map<Ghost, Option<Pos>>, paths: map<Ghost, seq<Pos>>)
    returns (positions': map<Ghost, Option<Pos>>, paths': map<Ghost, seq<Pos>>)
    requires |granted| == |moves| && Keyed(positions, paths) && Backed(moves, paths) && Unique(moves)
    ensures Committed(moves, granted, positions, paths, positions', paths')
  {
    positions', paths' := positions, paths;
    for k := 0 to |moves|
      invariant positions' == Moved(moves, granted, positions, k)
      invariant paths' == Popped(moves, granted, paths, k)
    {
      if granted[k] {
        var c := moves[k].0;
        NotYetPopped(moves, granted, paths, k);
        positions' := positions'[c := Some(moves[k].1)];
        paths' := paths'[c := paths'[c][1..]];
      }
    }
    EnteredAll(moves, granted, positions, paths);
  }

  /** A ghost's path is whole until its own move is entered. */
  lemma NotYetPopped(moves: seq<(Ghost, Pos)>, granted: seq<bool>, paths: map<Ghost, seq<Pos>>, n: nat)
    requires |granted| == |moves| && n < |moves| && Backed(moves, paths) && Unique(moves) && forall c: Ghost :: c in paths
    ensures Popped(moves, granted, paths, n)[moves[n].0] == paths[moves[n].0]
  {
    GrantedStep(moves, granted, n);
    PoppedSoFar(moves, granted, paths, n);
  }

  /** Entering every move one by one is Committed. */
  lemma EnteredAll(moves: seq<(Ghost, Pos)>, granted: seq<bool>,
                   positions: map<Ghost, Option<Pos>>, paths: map<Ghost, seq<Pos>>)
    requires |granted| == |moves| && Keyed(positions, paths) && Backed(moves, paths) && Unique(moves)
    ensures Committed(moves, granted, positions, paths,
                      Moved(moves, granted, positions, |moves|), Popped(moves, granted, paths, |moves|))
  {
    MovedSoFar(moves, granted, positions, |moves|);
    PoppedSoFar(moves, granted, paths, |moves|);
  }

  /** The cells of the ghosts after the first n moves are entered. */
  function Moved(moves: seq<(Ghost, Pos)>, granted: seq<bool>, positions: map<Ghost, Option<Pos>>, n: nat)
    : (r: map<Ghost, Option<Pos>>)
    requires |granted| == |moves| && n <= |moves|
    ensures positions.Keys <= r.Keys
  {
    if n == 0 then positions
    else if granted[n - 1] then Moved(moves, granted, positions, n - 1)[moves[n - 1].0 := Some(moves[n - 1].1)]
    else Moved(moves, granted, positions, n - 1)
  }

  /** The paths of the ghosts after the first n moves are entered. */
  function Popped(moves: seq<(Ghost, Pos)>, granted: seq<bool>, paths: map<Ghost, seq<Pos>>, n: nat)
    : (r: map<Ghost, seq<Pos>>)
    requires |granted| == |moves| && n <= |moves| && Backed(moves, paths)
    ensures r.Keys == paths.Keys
  {
    if n == 0 then paths
    else if granted[n - 1] then Popped(moves, granted, paths, n - 1)[moves[n - 1].0 := paths[moves[n - 1].0][1..]]
    else Popped(moves, granted, paths, n - 1)
  }

  lemma GrantedStep(moves: seq<(Ghost, Pos)>, granted: seq<bool>, n: nat)
    requires |granted| == |moves| && n < |moves| && Unique(moves)
    ensures !GrantedTo(moves, granted, n, moves[n].0)
    ensures forall c: Ghost :: GrantedTo(moves, granted, n + 1, c) <==>
              GrantedTo(moves, granted, n, c) || (granted[n] && moves[n].0 == c)
  {
    forall c: Ghost | GrantedTo(moves, granted, n + 1, c) && !(granted[n] && moves[n].0 == c)
      ensures GrantedTo(moves, granted, n, c)
    {
      var k :| 0 <= k < n + 1 && granted[k] && moves[k].0 == c;
    }
  }

  /** Entering the first n moves one by one puts each granted ghost on its
      cell and leaves every other ghost where it was. */
  lemma MovedSoFar(moves: seq<(Ghost, Pos)>, granted: seq<bool>, positions: map<Ghost, Option<Pos>>, n: nat)
    requires |granted| == |moves| && n <= |moves| && Unique(moves) && forall c: Ghost :: c in positions
    ensures forall k :: 0 <= k < n && granted[k] ==> Moved(moves, granted, positions, n)[moves[k].0] == Some(moves[k].1)
    ensures forall c: Ghost :: !GrantedTo(moves, granted, n, c) ==> Moved(moves, granted, positions, n)[c] == positions[c]
  {
    MovedGranted(moves, granted, positions, n);
    MovedOthers(moves, granted, positions, n);
  }

  lemma {:induction false} MovedGranted(moves: seq<(Ghost, Pos)>, granted: seq<bool>,
                                        positions: map<Ghost, Option<Pos>>, n: nat)
    requires |granted| == |moves| && n <= |moves| && Unique(moves) && forall c: Ghost :: c in positions
    ensures forall k :: 0 <= k < n && granted[k] ==> Moved(moves, granted, positions, n)[moves[k].0] == Some(moves[k].1)
  {
    if n > 0 {
      MovedGranted(moves, granted, positions, n - 1);
      var m := Moved(moves, granted, positions, n);
      forall k | 0 <= k < n - 1 && granted[k] ensures m[moves[k].0] == Some(moves[k].1) {
        assert moves[k].0 != moves[n - 1].0;
      }
    }
  }

  lemma {:induction false} MovedOthers(moves: seq<(Ghost, Pos)>, granted: seq<bool>,
                                       positions: map<Ghost, Option<Pos>>, n: nat)
    requires |granted| == |moves| && n <= |moves| && Unique(moves) && forall c: Ghost :: c in positions
    ensures forall c: Ghost :: !GrantedTo(moves, granted, n, c) ==> Moved(moves, granted, positions, n)[c] == positions[c]
  {
    if n > 0 {
      MovedOthers(moves, granted, positions, n - 1);
      GrantedStep(moves, granted, n - 1);
    }
  }

  /** Entering the first n moves one by one drops the head of each granted
      ghost's path and leaves every other path as it was. */
  lemma {:induction false} PoppedSoFar(moves: seq<(Ghost, Pos)>, granted: seq<bool>, paths: map<Ghost, seq<Pos>>, n: nat)
    requires |granted| == |moves| && n <= |moves| && Backed(moves, paths) && Unique(moves) && forall c: Ghost :: c in paths
    ensures forall k :: 0 <= k < n && granted[k] ==> Popped(moves, granted, paths, n)[moves[k].0] == paths[moves[k].0][1..]
    ensures forall c: Ghost :: !GrantedTo(moves, granted, n, c) ==> Popped(moves, granted, paths, n)[c] == paths[c]
  {
    if n > 0 {
      PoppedSoFar(moves, granted, paths, n - 1);
      GrantedStep(moves, granted, n - 1);
      var p := Popped(moves, granted, paths, n);
      forall k | 0 <= k < n - 1 && granted[k] ensures p[moves[k].0] == paths[moves[k].0][1..] {
        assert moves[k].0 != moves[n - 1].0;
      }
      forall c: Ghost | !GrantedTo(moves, granted, n, c) ensures p[c] == paths[c] {
        assert !GrantedTo(moves, granted, n - 1, c);
      }
    }
  }

  /** A ghost that moved took one step to a neighbouring cell. */
  ghost predicate StepOrStay(g: Grid, before: Option<Pos>, after: Option<Pos>)
    requires WellFormed(g)
  {
    after == before || (before.Some? && after.Some? && Adjacent(g, before.value, after.value))
  }

  /** After a commit every ghost is still on its path and on an open cell
      (when its path is not empty) and has stayed or taken one step. */
  lemma CommitKeepsTrack(g: Grid, moves: seq<(Ghost, Pos)>, granted: seq<bool>,
                         positions: map<Ghost, Option<Pos>>, paths: map<Ghost, seq<Pos>>,
                         positions': map<Ghost, Option<Pos>>, paths': map<Ghost, seq<Pos>>)
    requires WellFormed(g) && |granted| == |moves| && Keyed(positions, paths) && Backed(moves, paths)
    requires Committed(moves, granted, positions, paths, positions', paths')
    requires forall c: Ghost :: PathFrom(g, paths[c], positions[c])
    requires forall c: Ghost :: positions[c].Some? ==> IsOpen(g, positions[c].value)
    ensures forall c: Ghost :: PathFrom(g, paths'[c], positions'[c]) && LoopFreeWalk(g, paths'[c])
    ensures forall c: Ghost :: positions'[c].Some? ==> IsOpen(g, positions'[c].value)
    ensures forall c: Ghost :: StepOrStay(g, positions[c], positions'[c])
  {
    forall c: Ghost
      ensures PathFrom(g, paths'[c], positions'[c]) && LoopFreeWalk(g, paths'[c])
      ensures positions'[c].Some? ==> IsOpen(g, positions'[c].value)
      ensures StepOrStay(g, positions[c], positions'[c])
    {
      if GrantedTo(moves, granted, |moves|, c) {
        var k :| 0 <= k < |moves| && granted[k] && moves[k].0 == c;
        var path := paths[c];
        assert |path| > 1 && path[1] == moves[k].1;
        PopKeepsPath(g, path);
      }
    }
  }

  /** One search call of a level-5 or level-6 tick with the ghost's own
      long-lived search object s: a path of more than one cell is kept, a
      shorter one is replaced by what s.Search returns, and the search's
      statistics come back with it. */
  method Replan(s: Searcher, g: Grid, path: seq<Pos>, from: Pos, to: Pos) returns (path': seq<Pos>, stats: Option<Stats>)
    requires WellFormed(g)
    modifies s
    ensures Replanned(s.strategy, g, path, path', from, to)
    ensures |path| > 1 <==> stats.None?
    ensures stats.Some? ==> stats.value == Stats(s.expandedNodes)
    ensures |path| > 1 || s.strategy != BFS ==> s.expandedNodes == old(s.expandedNodes)
  {
    if |path| <= 1 {
      var found;
      path', found := s.Search(g, from, to);
      stats := Some(found);
    } else {
      path', stats := path, None;
    }
  }

  /** A replanned path still starts at the ghost. */
  lemma ReplannedPathFrom(s: Strategy, g: Grid, before: seq<Pos>, after: seq<Pos>, from: Pos, to: Pos)
    requires WellFormed(g) && Replanned(s, g, before, after, from, to) && PathFrom(g, before, Some(from))
    ensures PathFrom(g, after, Some(from))
  {
    if |before| <= 1 {
      PlannedPathFrom(s, g, from, to, after);
    }
  }

  /** What the planning loop of levels 5 and 6 knows after the first i
      active ghosts: they are Replanned, every path still starts at its
      ghost, and props are their proposals. */
  ghost predicate PlannedSoFar(g: Grid, act: seq<Ghost>, i: nat, positions: map<Ghost, Option<Pos>>, pacman: Pos,
                               before: map<Ghost, seq<Pos>>, paths: map<Ghost, seq<Pos>>, props: seq<Option<Pos>>)
    requires WellFormed(g)
  {
    i <= |act| && Keyed(positions, before) &&
    ReplannedAll(g, act, i, positions, pacman, before, paths) &&
    (forall c: Ghost :: PathFrom(g, paths[c], positions[c])) &&
    props == Proposals(act[..i], paths)
  }

  /** One round of the planning loop keeps PlannedSoFar. */
  lemma PlanStep(g: Grid, act: seq<Ghost>, i: nat, positions: map<Ghost, Option<Pos>>, pacman: Pos,
                 before: map<Ghost, seq<Pos>>, paths: map<Ghost, seq<Pos>>, props: seq<Option<Pos>>, path: seq<Pos>)
    requires WellFormed(g) && NoDup(act) && i < |act|
    requires PlannedSoFar(g, act, i, positions, pacman, before, paths, props)
    requires positions[act[i]].Some?
    requires Replanned(StrategyOf(act[i]), g, paths[act[i]], path, positions[act[i]].value, pacman)
    ensures PlannedSoFar(g, act, i + 1, positions, pacman, before, paths[act[i] := path], props + [Proposal(path)])
  {
    var c := act[i];
    var paths' := paths[c := path];
    NotBefore(act, i);
    ReplannedStep(g, act, i, positions, pacman, before, paths, path);
    ReplannedPathFrom(StrategyOf(c), g, paths[c], path, positions[c].value, pacman);
    ProposalsStep(act, i, paths, path);
    forall d: Ghost ensures PathFrom(g, paths'[d], positions[d]) {
      if d != c {
        assert paths'[d] == paths[d];
      }
    }
  }

  lemma PickStep(act: seq<Ghost>, i: nat, props: seq<Option<Pos>>, p: Option<Pos>)
    requires |props| == i < |act|
    ensures Pick(act[..i + 1], props + [p]) == Pick(act[..i], props) + if p.Some? then [(act[i], p.value)] else []
  {
    assert act[..i + 1][..i] == act[..i] && (props + [p])[..i] == props;
  }

  lemma NotBefore(act: seq<Ghost>, i: nat)
    requires NoDup(act) && i < |act|
    ensures act[i] !in act[..i]
  {
    forall j | 0 <= j < i ensures act[..i][j] != act[i] {
      assert act[j] != act[i];
    }
  }

  lemma ReplannedStep(g: Grid, act: seq<Ghost>, i: nat, positions: map<Ghost, Option<Pos>>, pacman: Pos,
                      before: map<Ghost, seq<Pos>>, paths: map<Ghost, seq<Pos>>, path: seq<Pos>)
    requires WellFormed(g) && NoDup(act) && i < |act| && Keyed(positions, before)
    requires ReplannedAll(g, act, i, positions, pacman, before, paths) && positions[act[i]].Some?
    requires Replanned(StrategyOf(act[i]), g, paths[act[i]], path, positions[act[i]].value, pacman)
    ensures ReplannedAll(g, act, i + 1, positions, pacman, before, paths[act[i] := path])
  {
    var c := act[i];
    NotBefore(act, i);
    assert act[..i + 1] == act[..i] + [c];
    forall j | 0 <= j < i ensures act[j] != c {
      assert act[j] != act[i];
    }
  }

  lemma ProposalsStep(act: seq<Ghost>, i: nat, paths: map<Ghost, seq<Pos>>, path: seq<Pos>)
    requires NoDup(act) && i < |act| && forall c: Ghost :: c in paths
    ensures Proposals(act[..i + 1], paths[act[i] := path]) == Proposals(act[..i], paths) + [Proposal(path)]
  {
    forall j | 0 <= j < i ensures act[j] != act[i] {
      assert act[j] != act[i];
    }
  }

  /** The picked proposals of distinct ghosts are backed by their paths
      and name each ghost at most once. */
  lemma PickBacked(act: seq<Ghost>, paths: map<Ghost, seq<Pos>>)
    requires NoDup(act) && forall c: Ghost :: c in paths
    ensures Backed(Pick(act, Proposals(act, paths)), paths) && Unique(Pick(act, Proposals(act, paths)))
  {
    var props := Proposals(act, paths);
    var moves := Pick(act, props);
    PickDistinct(act, props);
    forall k | 0 <= k < |moves| ensures moves[k].0 in paths && Proposal(paths[moves[k].0]) == Some(moves[k].1) {
      PickSound(act, props, k);
    }
  }

  /** The granted moves entered, with what this keeps: every ghost is on
      its path and on an open cell, and has stayed or taken one step. */
  method Enter(g: Grid, moves: seq<(Ghost, Pos)>, granted: seq<bool>,
               positions: map<Ghost, Option<Pos>>, paths: map<Ghost, seq<Pos>>)
    returns (positions': map<Ghost, Option<Pos>>, paths': map<Ghost, seq<Pos>>)
    requires WellFormed(g) && |granted| == |moves| && Keyed(positions, paths) && Backed(moves, paths) && Unique(moves)
    requires forall c: Ghost :: PathFrom(g, paths[c], positions[c])
    requires forall c: Ghost :: positions[c].Some? ==> IsOpen(g, positions[c].value)
    ensures Committed(moves, granted, positions, paths, positions', paths')
    ensures forall c: Ghost :: PathFrom(g, paths'[c], positions'[c]) && LoopFreeWalk(g, paths'[c])
    ensures forall c: Ghost :: positions'[c].Some? ==> IsOpen(g, positions'[c].value)
    ensures forall c: Ghost :: StepOrStay(g, positions[c], positions'[c])
  {
    positions', paths' := EnterMoves(moves, granted, positions, paths);
    CommitKeepsTrack(g, moves, granted, positions, paths, positions', paths');
  }

  // ---------------------------------------------------------------------
  // Level 6: the planning loop scans the proposals as it goes.

  /** The proposals of the ghosts whose verdict is Move (new_positions). */
  function Moving(vs: seq<Verdict>, props: seq<Option<Pos>>): (r: seq<Option<Pos>>)
    requires |vs| == |props|
    ensures |r| == |props|
  {
    seq(|props|, i requires 0 <= i < |props| => if vs[i] == Move then props[i] else None)
  }

  /** The paths after the first i verdicts: a blocked ghost's path is
      cleared, every other path is the planned one. */
  ghost predicate ClearedSoFar(act: seq<Ghost>, i: nat, vs: seq<Verdict>,
                               planned: map<Ghost, seq<Pos>>, paths: map<Ghost, seq<Pos>>)
    requires i <= |act| && i <= |vs|
  {
    (forall c: Ghost :: c in planned && c in paths) &&
    (forall j :: 0 <= j < i ==> paths[act[j]] == if vs[j] == Blocked then [] else planned[act[j]]) &&
    (forall c: Ghost :: c !in act[..i] ==> paths[c] == planned[c])
  }

  /** What the level-6 loop knows after the first i ghosts when none of
      them reached Pac-Man: the verdicts and committed cells are Scan6's,
      moves are the Move proposals in order, and blocked paths are cleared. */
  ghost predicate ScannedSoFar(act: seq<Ghost>, i: nat, pacman: Pos, planned: map<Ghost, seq<Pos>>,
                               props: seq<Option<Pos>>, vs: seq<Verdict>, occupied: set<Pos>,
                               moves: seq<(Ghost, Pos)>, paths: map<Ghost, seq<Pos>>)
  {
    i <= |act| && |props| == i && |vs| == i &&
    Scan6(props, pacman) == Commit(vs, occupied) &&
    moves == Pick(act[..i], Moving(vs, props)) &&
    ClearedSoFar(act, i, vs, planned, paths)
  }

  lemma MovingStep(vs: seq<Verdict>, props: seq<Option<Pos>>, v: Verdict, p: Option<Pos>)
    requires |vs| == |props|
    ensures Moving(vs + [v], props + [p]) == Moving(vs, props) + [if v == Move then p else None]
  {
  }

  lemma ClearedStep(act: seq<Ghost>, i: nat, vs: seq<Verdict>, planned: map<Ghost, seq<Pos>>,
                    paths: map<Ghost, seq<Pos>>, path: seq<Pos>, v: Verdict)
    requires NoDup(act) && i < |act| && |vs| == i && ClearedSoFar(act, i, vs, planned, paths)
    ensures ClearedSoFar(act, i + 1, vs + [v], planned[act[i] := path],
                         paths[act[i] := if v == Blocked then [] else path])
  {
    var c := act[i];
    NotBefore(act, i);
    PrefixMembers(act, i);
    forall j | 0 <= j < i ensures act[j] != c {
      assert act[j] != act[i];
    }
  }

  lemma PrefixMembers(act: seq<Ghost>, i: nat)
    requires i < |act|
    ensures forall c: Ghost :: c in act[..i + 1] <==> c in act[..i] || c == act[i]
  {
    assert act[..i + 1] == act[..i] + [act[i]];
  }

  /** One ghost of the level-6 loop: with no proposal it stays, with a
      proposal already committed it is blocked, with a fresh proposal on
      Pac-Man the scan stops, and otherwise it moves. */
  lemma ScanStep(act: seq<Ghost>, i: nat, pacman: Pos, planned: map<Ghost, seq<Pos>>,
                 props: seq<Option<Pos>>, vs: seq<Verdict>, occupied: set<Pos>,
                 moves: seq<(Ghost, Pos)>, paths: map<Ghost, seq<Pos>>, path: seq<Pos>)
    requires NoDup(act) && i < |act| && ScannedSoFar(act, i, pacman, planned, props, vs, occupied, moves, paths)
    ensures var p := Proposal(path);
            var planned', props' := planned[act[i] := path], props + [p];
            (p.None? ==>
               ScannedSoFar(act, i + 1, pacman, planned', props', vs + [Stay], occupied, moves, paths[act[i] := path])) &&
            (p.Some? && p.value in occupied ==>
               ScannedSoFar(act, i + 1, pacman, planned', props', vs + [Blocked], occupied, moves, paths[act[i] := []])) &&
            (p.Some? && p.value !in occupied && p.value == pacman ==> Scan6(props', pacman) == Caught(i)) &&
            (p.Some? && p.value !in occupied && p.value != pacman ==>
               ScannedSoFar(act, i + 1, pacman, planned', props', vs + [Move], occupied + {p.value},
                            moves + [(act[i], p.value)], paths[act[i] := path]))
  {
    var p := Proposal(path);
    var props' := props + [p];
    assert props'[..|props|] == props;
    var v := if p.None? then Stay else if p.value in occupied then Blocked else Move;
    MovingStep(vs, props, v, p);
    PickStep(act, i, Moving(vs, props), if v == Move then p else None);
    ClearedStep(act, i, vs, planned, paths, path, v);
  }

  // ---------------------------------------------------------------------
  // What a level-5 or level-6 tick does to each ghost.

  /** The verdict of every active ghost, in order. */
  function Verdicts(props: seq<Option<Pos>>): (r: seq<Verdict>)
    ensures |r| == |props|
  {
    seq(|props|, i requires 0 <= i < |props| => VerdictAt(props, i))
  }

  /** The ghosts act after a tick, from their verdicts vs: a moving ghost
      is on the second cell of its path and the path lost its head; a
      blocked ghost stays, its path cleared when clear holds (level 6) and
      kept otherwise (level 5); a staying ghost keeps its cell and path;
      every other ghost is untouched. */
  ghost predicate Settled(act: seq<Ghost>, vs: seq<Verdict>, clear: bool,
                          positions: map<Ghost, Option<Pos>>, paths: map<Ghost, seq<Pos>>,
                          positions': map<Ghost, Option<Pos>>, paths': map<Ghost, seq<Pos>>)
    requires |vs| == |act| && Keyed(positions, paths)
  {
    Keyed(positions', paths') &&
    (forall i :: 0 <= i < |act| && vs[i] == Move ==>
       |paths[act[i]]| > 1 && positions'[act[i]] == Some(paths[act[i]][1]) && paths'[act[i]] == paths[act[i]][1..]) &&
    (forall i :: 0 <= i < |act| && vs[i] == Blocked ==>
       positions'[act[i]] == positions[act[i]] && paths'[act[i]] == if clear then [] else paths[act[i]]) &&
    (forall i :: 0 <= i < |act| && vs[i] == Stay ==>
       positions'[act[i]] == positions[act[i]] && paths'[act[i]] == paths[act[i]]) &&
    (forall c: Ghost :: c !in act ==> positions'[c] == positions[c] && paths'[c] == paths[c])
  }

  /** A commit whose granted ghosts are exactly the moving ones settles
      every ghost as its verdict says. */
  lemma CommitSettles(act: seq<Ghost>, vs: seq<Verdict>, clear: bool, moves: seq<(Ghost, Pos)>, granted: seq<bool>,
                      positions: map<Ghost, Option<Pos>>, planned: map<Ghost, seq<Pos>>, paths: map<Ghost, seq<Pos>>,
                      positions': map<Ghost, Option<Pos>>, paths': map<Ghost, seq<Pos>>)
    requires |vs| == |act| && |granted| == |moves| && Keyed(positions, paths) && Keyed(positions, planned)
    requires Backed(moves, paths) && Committed(moves, granted, positions, paths, positions', paths')
    requires forall i :: 0 <= i < |act| ==> paths[act[i]] == if clear && vs[i] == Blocked then [] else planned[act[i]]
    requires forall c: Ghost :: c !in act ==> paths[c] == planned[c]
    requires forall i :: 0 <= i < |act| ==> (GrantedTo(moves, granted, |moves|, act[i]) <==> vs[i] == Move)
    requires forall c: Ghost :: c !in act ==> !GrantedTo(moves, granted, |moves|, c)
    ensures Settled(act, vs, clear, positions, planned, positions', paths')
  {
    forall i | 0 <= i < |act| && vs[i] == Move
      ensures |planned[act[i]]| > 1 && positions'[act[i]] == Some(planned[act[i]][1])
      ensures paths'[act[i]] == planned[act[i]][1..]
    {
      var k :| 0 <= k < |moves| && granted[k] && moves[k].0 == act[i];
      assert Proposal(paths[moves[k].0]) == Some(moves[k].1);
    }
  }

  /** Picking with every pick granted: a ghost is granted exactly when its
      option is present. */
  lemma PickAllGranted(act: seq<Ghost>, opts: seq<Option<Pos>>, granted: seq<bool>)
    requires |act| == |opts| && NoDup(act) && |granted| == |Pick(act, opts)|
    requires forall k :: 0 <= k < |granted| ==> granted[k]
    ensures forall i :: 0 <= i < |act| ==> (GrantedTo(Pick(act, opts), granted, |granted|, act[i]) <==> opts[i].Some?)
    ensures forall c: Ghost :: c !in act ==> !GrantedTo(Pick(act, opts), granted, |granted|, c)
  {
    var moves := Pick(act, opts);
    forall i | 0 <= i < |act| ensures GrantedTo(moves, granted, |granted|, act[i]) <==> opts[i].Some? {
      if opts[i].Some? {
        PickComplete(act, opts, i);
      } else {
        forall k | 0 <= k < |moves| ensures moves[k].0 != act[i] {
          PickOwner(act, opts, k);
        }
      }
    }
    forall k | 0 <= k < |moves| ensures moves[k].0 in act {
      PickOwner(act, opts, k);
    }
  }

  /** The k-th pick belongs to an active ghost, and it is that ghost's
      option. */
  lemma PickOwner(act: seq<Ghost>, opts: seq<Option<Pos>>, k: nat)
    requires |act| == |opts| && NoDup(act) && k < |Pick(act, opts)|
    ensures Pick(act, opts)[k].0 in act
    ensures forall i :: 0 <= i < |act| && act[i] == Pick(act, opts)[k].0 ==> opts[i] == Some(Pick(act, opts)[k].1)
  {
    PickSound(act, opts, k);
  }

  /** Picking from a prefix gives a prefix of the picks. */
  lemma {:induction false} PickPrefix(act: seq<Ghost>, opts: seq<Option<Pos>>, n: nat)
    requires |act| == |opts| && n <= |act|
    ensures Pick(act[..n], opts[..n]) <= Pick(act, opts)
    decreases |act|
  {
    if n < |act| {
      var a, o := act[..|act| - 1], opts[..|opts| - 1];
      PickPrefix(a, o, n);
      assert a[..n] == act[..n] && o[..n] == opts[..n];
    } else {
      assert act[..n] == act && opts[..n] == opts;
    }
  }

  /** A cell is among the picked cells exactly when some ghost's option
      holds it. */
  lemma PickCells(act: seq<Ghost>, opts: seq<Option<Pos>>, p: Pos)
    requires |act| == |opts|
    ensures p in Cells(Pick(act, opts)) <==> Some(p) in opts
  {
    var moves := Pick(act, opts);
    if p in Cells(moves) {
      var k :| 0 <= k < |moves| && Cells(moves)[k] == p;
      PickSound(act, opts, k);
    }
    if Some(p) in opts {
      var i :| 0 <= i < |opts| && opts[i] == Some(p);
      PickComplete(act, opts, i);
      var k :| 0 <= k < |moves| && moves[k] == (act[i], p);
      assert Cells(moves)[k] == p;
    }
  }

  /** The pick of the ghost at index i, when it has a proposal, sits right
      after the picks of the ghosts before it. */
  lemma PickAt(act: seq<Ghost>, opts: seq<Option<Pos>>, i: nat)
    requires |act| == |opts| && i < |act| && opts[i].Some?
    ensures |Pick(act[..i], opts[..i])| < |Pick(act, opts)|
    ensures Pick(act, opts)[|Pick(act[..i], opts[..i])|] == (act[i], opts[i].value)
    ensures Pick(act, opts)[..|Pick(act[..i], opts[..i])|] == Pick(act[..i], opts[..i])
  {
    var a, o := act[..i + 1], opts[..i + 1];
    assert a[..i] == act[..i] && o[..i] == opts[..i];
    PickPrefix(act, opts, i + 1);
  }

  /** The level-5 rule per ghost: with the moves picked in order and
      granted first-claim-wins, a ghost is granted its move exactly when
      its verdict is Move, and no ghost outside the active ones is. */
  lemma Level5Settles(act: seq<Ghost>, props: seq<Option<Pos>>)
    requires |act| == |props| && NoDup(act)
    ensures forall i :: 0 <= i < |act| ==>
              (GrantedTo(Pick(act, props), Level5Grants(Cells(Pick(act, props))), |Pick(act, props)|, act[i])
               <==> VerdictAt(props, i) == Move)
    ensures forall c: Ghost :: c !in act ==>
              !GrantedTo(Pick(act, props), Level5Grants(Cells(Pick(act, props))), |Pick(act, props)|, c)
  {
    var moves := Pick(act, props);
    var cells := Cells(moves);
    var granted := Level5Grants(cells);
    Level5IsFirstClaim(cells);
    PickDistinct(act, props);
    forall i | 0 <= i < |act|
      ensures GrantedTo(moves, granted, |moves|, act[i]) <==> VerdictAt(props, i) == Move
    {
      if props[i].None? {
        forall k | 0 <= k < |moves| ensures moves[k].0 != act[i] {
          PickOwner(act, props, k);
        }
      } else {
        var pre := Pick(act[..i], props[..i]);
        var k := |pre|;
        PickAt(act, props, i);
        assert cells[..k] == Cells(pre);
        PickCells(act[..i], props[..i], props[i].value);
        assert granted[k] <==> VerdictAt(props, i) == Move;
        if GrantedTo(moves, granted, |moves|, act[i]) {
          var k' :| 0 <= k' < |moves| && granted[k'] && moves[k'].0 == act[i];
          assert k' == k;
        }
      }
    }
    forall k | 0 <= k < |moves| ensures moves[k].0 in act {
      PickOwner(act, props, k);
    }
  }

  /** ScanStep for a ghost without a proposal. */
  lemma ScanStay(act: seq<Ghost>, i: nat, pacman: Pos, planned: map<Ghost, seq<Pos>>,
                 props: seq<Option<Pos>>, vs: seq<Verdict>, occupied: set<Pos>,
                 moves: seq<(Ghost, Pos)>, paths: map<Ghost, seq<Pos>>, path: seq<Pos>)
    requires NoDup(act) && i < |act| && ScannedSoFar(act, i, pacman, planned, props, vs, occupied, moves, paths)
    requires |path| <= 1
    ensures ScannedSoFar(act, i + 1, pacman, planned[act[i] := path], props + [Proposal(path)], vs + [Stay],
                         occupied, moves, paths[act[i] := path])
  {
    ScanStep(act, i, pacman, planned, props, vs, occupied, moves, paths, path);
  }

  /** ScanStep for a ghost whose proposal is already committed. */
  lemma ScanBlocked(act: seq<Ghost>, i: nat, pacman: Pos, planned: map<Ghost, seq<Pos>>,
                    props: seq<Option<Pos>>, vs: seq<Verdict>, occupied: set<Pos>,
                    moves: seq<(Ghost, Pos)>, paths: map<Ghost, seq<Pos>>, path: seq<Pos>)
    requires NoDup(act) && i < |act| && ScannedSoFar(act, i, pacman, planned, props, vs, occupied, moves, paths)
    requires |path| > 1 && path[1] in occupied
    ensures ScannedSoFar(act, i + 1, pacman, planned[act[i] := path], props + [Proposal(path)], vs + [Blocked],
                         occupied, moves, paths[act[i] := []])
  {
    ScanStep(act, i, pacman, planned, props, vs, occupied, moves, paths, path);
  }

  /** ScanStep for a ghost whose fresh proposal is Pac-Man's cell. */
  lemma ScanCaught(act: seq<Ghost>, i: nat, pacman: Pos, planned: map<Ghost, seq<Pos>>,
                   props: seq<Option<Pos>>, vs: seq<Verdict>, occupied: set<Pos>,
                   moves: seq<(Ghost, Pos)>, paths: map<Ghost, seq<Pos>>, path: seq<Pos>)
    requires NoDup(act) && i < |act| && ScannedSoFar(act, i, pacman, planned, props, vs, occupied, moves, paths)
    requires |path| > 1 && path[1] !in occupied && path[1] == pacman
    ensures Scan6(props + [Proposal(path)], pacman) == Caught(i)
  {
    ScanStep(act, i, pacman, planned, props, vs, occupied, moves, paths, path);
  }

  /** ScanStep for a ghost whose fresh proposal is committed. */
  lemma ScanMove(act: seq<Ghost>, i: nat, pacman: Pos, planned: map<Ghost, seq<Pos>>,
                 props: seq<Option<Pos>>, vs: seq<Verdict>, occupied: set<Pos>,
                 moves: seq<(Ghost, Pos)>, paths: map<Ghost, seq<Pos>>, path: seq<Pos>)
    requires NoDup(act) && i < |act| && ScannedSoFar(act, i, pacman, planned, props, vs, occupied, moves, paths)
    requires |path| > 1 && path[1] !in occupied && path[1] != pacman
    ensures ScannedSoFar(act, i + 1, pacman, planned[act[i] := path], props + [Proposal(path)], vs + [Move],
                         occupied + {path[1]}, moves + [(act[i], path[1])], paths[act[i] := path])
  {
    ScanStep(act, i, pacman, planned, props, vs, occupied, moves, paths, path);
  }

  /** The invariant of the level-6 loop after its first i ghosts. */
  ghost predicate Level6SoFar(g: Grid, act: seq<Ghost>, i: nat, positions: map<Ghost, Option<Pos>>, pacman: Pos,
                              before: map<Ghost, seq<Pos>>, planned: map<Ghost, seq<Pos>>, props: seq<Option<Pos>>,
                              vs: seq<Verdict>, occupied: set<Pos>, moves: seq<(Ghost, Pos)>, paths: map<Ghost, seq<Pos>>)
    requires WellFormed(g)
  {
    PlannedSoFar(g, act, i, positions, pacman, before, planned, props) &&
    ScannedSoFar(act, i, pacman, planned, props, vs, occupied, moves, paths)
  }

  /** The ghost the level-6 loop reaches next still has the path it had
      before the tick. */
  lemma Level6Next(g: Grid, act: seq<Ghost>, i: nat, positions: map<Ghost, Option<Pos>>, pacman: Pos,
                   before: map<Ghost, seq<Pos>>, planned: map<Ghost, seq<Pos>>, props: seq<Option<Pos>>,
                   vs: seq<Verdict>, occupied: set<Pos>, moves: seq<(Ghost, Pos)>, paths: map<Ghost, seq<Pos>>)
    requires WellFormed(g) && NoDup(act) && i < |act|
    requires Level6SoFar(g, act, i, positions, pacman, before, planned, props, vs, occupied, moves, paths)
    ensures act[i] in paths && paths[act[i]] == planned[act[i]] == before[act[i]]
  {
    NotBefore(act, i);
  }

  /** The body of the level-6 loop for the ghost at index i, once its
      path has been replanned: with no step to propose it stays; with a
      step onto a cell already committed it is blocked and its path is
      cleared; with a fresh step onto Pac-Man's cell the tick is over
      (hit); with any other fresh step the cell is committed and the move
      recorded. */
  method ScanGhost(ghost g: Grid, act: seq<Ghost>, i: nat, ghost positions: map<Ghost, Option<Pos>>, pacman: Pos,
                   ghost before: map<Ghost, seq<Pos>>, ghost planned: map<Ghost, seq<Pos>>, ghost props: seq<Option<Pos>>,
                   ghost vs: seq<Verdict>, occupied: set<Pos>, moves: seq<(Ghost, Pos)>, paths: map<Ghost, seq<Pos>>,
                   path: seq<Pos>)
    returns (hit: bool, occupied': set<Pos>, moves': seq<(Ghost, Pos)>, paths': map<Ghost, seq<Pos>>, ghost vs': seq<Verdict>)
    requires WellFormed(g) && NoDup(act) && i < |act|
    requires Level6SoFar(g, act, i, positions, pacman, before, planned, props, vs, occupied, moves, paths)
    requires positions[act[i]].Some?
    requires Replanned(StrategyOf(act[i]), g, planned[act[i]], path, positions[act[i]].value, pacman)
    ensures PlannedSoFar(g, act, i + 1, positions, pacman, before, planned[act[i] := path], props + [Proposal(path)])
    ensures hit ==> Scan6(props + [Proposal(path)], pacman) == Caught(i)
    ensures !hit ==> Level6SoFar(g, act, i + 1, positions, pacman, before, planned[act[i] := path], props + [Proposal(path)],
                                 vs', occupied', moves', paths')
  {
    PlanStep(g, act, i, positions, pacman, before, planned, props, path);
    var c := act[i];
    hit, occupied', moves' := false, occupied, moves;
    if |path| <= 1 {
      ScanStay(act, i, pacman, planned, props, vs, occupied, moves, paths, path);
      paths', vs' := paths[c := path], vs + [Stay];
    } else if path[1] in occupied {
      ScanBlocked(act, i, pacman, planned, props, vs, occupied, moves, paths, path);
      paths', vs' := paths[c := []], vs + [Blocked];
    } else if path[1] == pacman {
      ScanCaught(act, i, pacman, planned, props, vs, occupied, moves, paths, path);
      hit, paths', vs' := true, paths[c := path], vs;
    } else {
      ScanMove(act, i, pacman, planned, props, vs, occupied, moves, paths, path);
      occupied', moves', paths', vs' := occupied + {path[1]}, moves + [(c, path[1])], paths[c := path], vs + [Move];
    }
  }

  /** A level-5 commit settles every active ghost by its verdict, the
      blocked ones keeping their paths. */
  lemma Level5Settled(act: seq<Ghost>, positions: map<Ghost, Option<Pos>>, paths: map<Ghost, seq<Pos>>,
                      positions': map<Ghost, Option<Pos>>, paths': map<Ghost, seq<Pos>>)
    requires NoDup(act) && Keyed(positions, paths)
    requires Backed(Pick(act, Proposals(act, paths)), paths)
    requires Committed(Pick(act, Proposals(act, paths)), Level5Grants(Cells(Pick(act, Proposals(act, paths)))),
                       positions, paths, positions', paths')
    ensures Settled(act, Verdicts(Proposals(act, paths)), false, positions, paths, positions', paths')
  {
    var props := Proposals(act, paths);
    var moves := Pick(act, props);
    Level5Settles(act, props);
    CommitSettles(act, Verdicts(props), false, moves, Level5Grants(Cells(moves)), positions, paths, paths, positions', paths');
  }

  /** All moves granted. */
  function AllGranted(n: nat): (r: seq<bool>)
    ensures |r| == n && forall k :: 0 <= k < n ==> r[k]
  {
    seq(n, k => true)
  }

  /** With every step of the level-6 loop granted, exactly the ghosts
      whose verdict is Move own a granted step. */
  lemma MovesGranted(act: seq<Ghost>, vs: seq<Verdict>, props: seq<Option<Pos>>)
    requires |act| == |props| && NoDup(act) && vs == Verdicts(props)
    ensures var moves := Pick(act, Moving(vs, props));
            forall i :: 0 <= i < |act| ==> (GrantedTo(moves, AllGranted(|moves|), |moves|, act[i]) <==> vs[i] == Move)
    ensures var moves := Pick(act, Moving(vs, props));
            forall c: Ghost :: c !in act ==> !GrantedTo(moves, AllGranted(|moves|), |moves|, c)
  {
    var opts := Moving(vs, props);
    PickAllGranted(act, opts, AllGranted(|Pick(act, opts)|));
    forall i | 0 <= i < |act| ensures opts[i].Some? <==> vs[i] == Move {
    }
  }

  /** Once the level-6 loop ran over every active ghost without reaching
      Pac-Man, its moves can be entered: each is the second cell of its
      ghost's (uncleared) path, no ghost has two, every path still starts
      on its ghost, and the verdicts are those of VerdictAt. */
  lemma Level6Ready(g: Grid, act: seq<Ghost>, positions: map<Ghost, Option<Pos>>, pacman: Pos,
                    before: map<Ghost, seq<Pos>>, planned: map<Ghost, seq<Pos>>, props: seq<Option<Pos>>,
                    vs: seq<Verdict>, occupied: set<Pos>, moves: seq<(Ghost, Pos)>, paths: map<Ghost, seq<Pos>>)
    requires WellFormed(g) && NoDup(act)
    requires Level6SoFar(g, act, |act|, positions, pacman, before, planned, props, vs, occupied, moves, paths)
    ensures Keyed(positions, planned) && Keyed(positions, paths) && Backed(moves, paths) && Unique(moves)
    ensures forall c: Ghost :: PathFrom(g, paths[c], positions[c])
    ensures props == Proposals(act, planned) && Scan6(props, pacman).Commit? && vs == Verdicts(props)
  {
    assert act[..|act|] == act;
    Scan6Meaning(props, pacman);
    Level6Moves(act, planned, props, vs, paths);
    Level6Paths(g, act, positions, planned, vs, paths);
  }

  /** The Move proposals of the level-6 loop are backed by the ghosts'
      paths (a moving ghost's path was not cleared) and name each ghost
      at most once. */
  lemma Level6Moves(act: seq<Ghost>, planned: map<Ghost, seq<Pos>>, props: seq<Option<Pos>>, vs: seq<Verdict>,
                    paths: map<Ghost, seq<Pos>>)
    requires NoDup(act) && |vs| == |act| && ClearedSoFar(act, |act|, vs, planned, paths)
    requires props == Proposals(act, planned)
    ensures Backed(Pick(act, Moving(vs, props)), paths) && Unique(Pick(act, Moving(vs, props)))
  {
    var moves := Pick(act, Moving(vs, props));
    PickDistinct(act, Moving(vs, props));
    forall k | 0 <= k < |moves| ensures moves[k].0 in paths && Proposal(paths[moves[k].0]) == Some(moves[k].1) {
      PickSound(act, Moving(vs, props), k);
    }
  }

  /** Clearing blocked paths keeps every path a walk from its ghost. */
  lemma Level6Paths(g: Grid, act: seq<Ghost>, positions: map<Ghost, Option<Pos>>, planned: map<Ghost, seq<Pos>>,
                    vs: seq<Verdict>, paths: map<Ghost, seq<Pos>>)
    requires WellFormed(g) && |vs| == |act| && ClearedSoFar(act, |act|, vs, planned, paths)
    requires forall c: Ghost :: c in positions && PathFrom(g, planned[c], positions[c])
    ensures forall c: Ghost :: PathFrom(g, paths[c], positions[c])
  {
    assert act[..|act|] == act;
    forall c: Ghost ensures PathFrom(g, paths[c], positions[c]) {
      if c in act {
        var j :| 0 <= j < |act| && act[j] == c;
      }
    }
  }

  /** A level-6 commit settles every active ghost by its verdict, the
      blocked ones with their paths cleared. */
  lemma Level6Settled(g: Grid, act: seq<Ghost>, positions: map<Ghost, Option<Pos>>, pacman: Pos,
                      before: map<Ghost, seq<Pos>>, planned: map<Ghost, seq<Pos>>, props: seq<Option<Pos>>,
                      vs: seq<Verdict>, occupied: set<Pos>, moves: seq<(Ghost, Pos)>, paths: map<Ghost, seq<Pos>>,
                      positions': map<Ghost, Option<Pos>>, paths': map<Ghost, seq<Pos>>)
    requires WellFormed(g) && NoDup(act)
    requires Level6SoFar(g, act, |act|, positions, pacman, before, planned, props, vs, occupied, moves, paths)
    requires Keyed(positions, paths) && Backed(moves, paths)
    requires Committed(moves, AllGranted(|moves|), positions, paths, positions', paths')
    ensures Settled(act, Verdicts(props), true, positions, planned, positions', paths')
  {
    Level6Ready(g, act, positions, pacman, before, planned, props, vs, occupied, moves, paths);
    assert act[..|act|] == act;
    MovesGranted(act, vs, props);
    CommitSettles(act, vs, true, moves, AllGranted(|moves|), positions, planned, paths, positions', paths');
  }
}
