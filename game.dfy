// The per-tick state machine of game.py: the game object with its screen,
// level, maze, positions, paths and timers, and the operations the main
// loop drives (reset_game, update_pacman, has_food_left, update_ghosts,
// check_collisions, handle_events). Times are whole milliseconds.

module Game {
  import opened Grid
  import opened Search
  import opened Rules
  import opened Ghosts

  /** ghost_move_delay and pacman_move_delay (0.2 s and 0.15 s). */
  const GhostMoveDelay: nat := 200
  const PacmanMoveDelay: nat := 150

  /** The single chasing ghost of levels 1 to 4. */
  function LevelGhost(level: int): Ghost
    requires 1 <= level <= 4
  {
    if level == 1 then Blue else if level == 2 then Pink else if level == 3 then Orange else Red
  }

  /** Pac-Man and the ghosts stand on open cells. */
  ghost predicate Placement(g: Grid, pacman: Option<Pos>, ghosts: map<Ghost, Option<Pos>>)
    requires WellFormed(g)
  {
    (forall c: Ghost :: c in ghosts) &&
    (pacman.Some? ==> IsOpen(g, pacman.value)) &&
    (forall c: Ghost :: ghosts[c].Some? ==> IsOpen(g, ghosts[c].value))
  }

  /** The chasing path of levels 1 to 4 and every ghost's own path are
      loop-free walks. */
  ghost predicate PathsOk(g: Grid, path: seq<Pos>, paths: map<Ghost, seq<Pos>>)
    requires WellFormed(g)
  {
    LoopFreeWalk(g, path) && forall c: Ghost :: c in paths && LoopFreeWalk(g, paths[c])
  }

  /** While a game is on screen, the chasing ghost's path (levels 1 to 4)
      or every ghost's path (levels 5 and up) starts at that ghost. */
  ghost predicate OnTrack(g: Grid, level: int, path: seq<Pos>, ghosts: map<Ghost, Option<Pos>>,
                          paths: map<Ghost, seq<Pos>>)
    requires WellFormed(g) && (forall c: Ghost :: c in ghosts && c in paths)
  {
    (1 <= level <= 4 ==> PathFrom(g, path, ghosts[LevelGhost(level)])) &&
    (5 <= level ==> forall c: Ghost :: PathFrom(g, paths[c], ghosts[c]))
  }

  /** After a level-5 or level-6 commit, with every ghost on an open cell
      and every path a loop-free walk from its ghost, the ghosts are placed
      and on track. */
  lemma EnteredOnTrack(g: Grid, level: int, pacman: Option<Pos>, path: seq<Pos>,
                       ghosts: map<Ghost, Option<Pos>>, paths: map<Ghost, seq<Pos>>)
    requires WellFormed(g) && 5 <= level && Keyed(ghosts, paths)
    requires (pacman.Some? ==> IsOpen(g, pacman.value)) && LoopFreeWalk(g, path)
    requires forall c: Ghost :: ghosts[c].Some? ==> IsOpen(g, ghosts[c].value)
    requires forall c: Ghost :: PathFrom(g, paths[c], ghosts[c]) && LoopFreeWalk(g, paths[c])
    ensures Placement(g, pacman, ghosts) && PathsOk(g, path, paths) && OnTrack(g, level, path, ghosts, paths)
  {
  }

  /** Where find_initial_positions puts Pac-Man and the ghosts. */
  ghost predicate Spawned(g: Grid, pacman: Option<Pos>, ghosts: map<Ghost, Option<Pos>>) {
    pacman == LastOrNone(Tagged(g, PacmanSpawn)) &&
    ghosts == SpawnGhosts(g)
  }

  /** ghost_paths as reset_game leaves it. */
  const NoPaths: map<Ghost, seq<Pos>> := map[Blue := [], Pink := [], Orange := [], Red := []]

  /** The round reset_game starts on layout g, in the order of Round():
      the maze with all its food, Pac-Man and the ghosts on their spawn
      cells, no paths, no statistics, Pac-Man facing right and the
      completion timer at zero. */
  function FreshRoundOf(g: Grid): (Grid, Option<Pos>, map<Ghost, Option<Pos>>, map<Ghost, seq<Pos>>, seq<Pos>, Stats, Direction, nat)
  {
    (g, LastOrNone(Tagged(g, PacmanSpawn)), SpawnGhosts(g), NoPaths, [], Stats(0), Right, 0)
  }

  /** A fresh round satisfies every invariant of the game state. */
  lemma FreshRoundValid(g: Grid, pacman: Option<Pos>, ghosts: map<Ghost, Option<Pos>>, level: int)
    requires WellFormed(g) && Spawned(g, pacman, ghosts)
    ensures Placement(g, pacman, ghosts) && PathsOk(g, [], NoPaths)
    ensures (forall c: Ghost :: c in NoPaths) && OnTrack(g, level, [], ghosts, NoPaths)
  {
    TaggedExactly(g, PacmanSpawn);
    TaggedExactly(g, GhostSpawn);
    var spawns := Tagged(g, GhostSpawn);
    forall c: Ghost | ghosts[c].Some? ensures IsOpen(g, ghosts[c].value) {
      assert spawns[GhostIndex(c)] in spawns;
    }
    if pacman.Some? {
      var ps := Tagged(g, PacmanSpawn);
      assert ps[|ps| - 1] in ps;
    }
    forall c: Ghost ensures c in NoPaths && NoPaths[c] == [] {
      match c
      case Blue =>
      case Pink =>
      case Orange =>
      case Red =>
    }
  }

  /** The cell Pac-Man tries to enter on a movement tick: one step in
      the chosen direction, or his own cell when no arrow key is pressed. */
  function Target(pos: Pos, pressed: set<Direction>): Pos {
    match ChosenDirection(pressed)
    case None => pos
    case Some(d) => Step(pos, d)
  }

  /** The direction Pac-Man faces after a successful move. */
  function Turned(dir: Direction, pressed: set<Direction>): Direction {
    match ChosenDirection(pressed)
    case None => dir
    case Some(d) => d
  }

  /** The arrow-key loop of update_pacman: the keys are tried in
      KeyPriority order and the first pressed one gives the target cell and
      the new direction. */
  method Steer(pos: Pos, dir: Direction, pressed: set<Direction>) returns (target: Pos, newDir: Direction)
    ensures target == Target(pos, pressed) && newDir == Turned(dir, pressed)
    ensures target == pos <==> pressed == {}
    ensures target != pos ==> Dist(pos, target) == 1
  {
    target, newDir := pos, dir;
    ChosenDirectionIsFirstPressed(pressed);
    for i := 0 to |KeyPriority|
      invariant ChosenDirection(pressed) == FirstPressed(KeyPriority[i..], pressed)
      invariant target == pos && newDir == dir
    {
      assert KeyPriority[i..][0] == KeyPriority[i] && KeyPriority[i..][1..] == KeyPriority[i + 1..];
      var d := KeyPriority[i];
      if d in pressed {
        target, newDir := Step(pos, d), d;
        break;
      }
    }
  }

  /** Pac-Man entering cell t of the maze: a food there is eaten, and the
      level is complete once no food is left; any other cell is left as
      it is. */
  ghost predicate Eats(maze0: Grid, t: Pos, complete0: bool, timer0: nat, maze: Grid, complete: bool, timer: nat)
    requires 0 <= t.y < |maze0| && 0 <= t.x < |maze0[t.y]|
  {
    if maze0[t.y][t.x] == Food then
      maze == maze0[t.y := maze0[t.y][t.x := Empty]] &&
      complete == (complete0 || !HasFood(maze)) && timer == (if HasFood(maze) then timer0 else 0)
    else
      (maze, complete, timer) == (maze0, complete0, timer0)
  }

  /** Whether update_pacman moves Pac-Man on this tick: only on level 6,
      once his timer (at `timer` before the tick) reaches its delay, and
      only into a target cell that is not a wall. */
  predicate PacmanSteps(g: Grid, level: int, timer: nat, dt: nat, pos: Pos, pressed: set<Direction>)
    requires WellFormed(g)
  {
    var t := Target(pos, pressed);
    level == 6 && timer + dt >= PacmanMoveDelay && IsValidMove(g, t.x, t.y)
  }

  /** What update_pacman does to Pac-Man's cell, direction, the maze and
      the completion flag and timer: when he steps (PacmanSteps) he
      enters the target cell, turns that way and eats what is there (Eats);
      otherwise all of them stay. */
  ghost predicate PacmanTicked(g: Grid, level: int, timer: nat, dt: nat, pressed: set<Direction>,
                               pos: Pos, dir: Direction, maze: Grid, complete: bool, ctimer: nat,
                               pos': Pos, dir': Direction, maze': Grid, complete': bool, ctimer': nat)
    requires WellFormed(g)
  {
    if PacmanSteps(g, level, timer, dt, pos, pressed) then
      var t := Target(pos, pressed);
      pos' == t && dir' == Turned(dir, pressed) && 0 <= t.y < |maze| && 0 <= t.x < |maze[t.y]| &&
      Eats(maze, t, complete, ctimer, maze', complete', ctimer')
    else
      (pos', dir', maze', complete', ctimer') == (pos, dir, maze, complete, ctimer)
  }

  /** pacman_move_timer after update_pacman: it gathers dt on level 6 and
      restarts once it reaches its delay; other levels leave it alone. */
  function PacmanTimer(level: int, timer: nat, dt: nat): nat {
    if level != 6 then timer else if timer + dt >= PacmanMoveDelay then 0 else timer + dt
  }

  /** ghost_move_timer after update_ghosts. */
  function GhostTimer(timer: nat, dt: nat): nat {
    if timer + dt >= GhostMoveDelay then 0 else timer + dt
  }

  /** The rule of check_collisions: some ghost of act (the level's
      active ghosts) is placed on Pac-Man's cell. */
  predicate Collides(act: seq<Ghost>, ghosts: map<Ghost, Option<Pos>>, pacman: Option<Pos>)
    requires forall c: Ghost :: c in ghosts
  {
    exists i :: 0 <= i < |act| && ghosts[act[i]].Some? && ghosts[act[i]] == pacman
  }

  /** update_ghosts on levels 1 to 4 for the level's ghost c: c's
      chasing path is Replanned into plan, c steps to plan's second cell
      and the path loses its head (or c stays, on a plan of at most one
      cell), and the shown statistics are a fresh search's when one ran:
      blue's count is bounded by the cells it can reach, and the other
      strategies show zero. */
  ghost predicate ChaseMoved(g: Grid, c: Ghost, pacman: Pos,
                             positions: map<Ghost, Option<Pos>>, path: seq<Pos>, stats: Stats,
                             positions': map<Ghost, Option<Pos>>, path': seq<Pos>, stats': Stats, plan: seq<Pos>)
    requires WellFormed(g) && c in positions
  {
    positions[c].Some? && Replanned(StrategyOf(c), g, path, plan, positions[c].value, pacman) &&
    (if |plan| > 1 then positions' == positions[c := Some(plan[1])] && path' == plan[1..]
     else positions' == positions && path' == plan) &&
    (|path| > 1 ==> stats' == stats) &&
    (|path| <= 1 && c == Blue ==> 1 <= stats'.expandedNodes <= |OpenCells(g) + {positions[c].value}|) &&
    (|path| <= 1 && c != Blue ==> stats' == Stats(0))
  }

  /** update_ghosts on level 5 for the active ghosts act: each is
      Replanned (after) and settles by the level-5 verdict of its
      proposal; blue's statistics are shown when blue searched. */
  ghost predicate Level5Moved(g: Grid, act: seq<Ghost>, pacman: Pos, blue: nat,
                              positions: map<Ghost, Option<Pos>>, paths: map<Ghost, seq<Pos>>, stats: Stats,
                              positions': map<Ghost, Option<Pos>>, paths': map<Ghost, seq<Pos>>, stats': Stats,
                              after: map<Ghost, seq<Pos>>)
    requires WellFormed(g) && Keyed(positions, paths)
  {
    ReplannedAll(g, act, |act|, positions, pacman, paths, after) &&
    Settled(act, Verdicts(Proposals(act, after)), false, positions, after, positions', paths') &&
    stats' == (if Blue in act && |paths[Blue]| <= 1 then Stats(blue) else stats)
  }

  /** update_ghosts on level 6 for the active ghosts act: the first n are
      Replanned and their proposals scanned; either the n-th stepped onto
      Pac-Man and the round starts over (caught), or all were scanned and
      every ghost settles by its verdict, a blocked one losing its path. */
  ghost predicate Level6Moved(g: Grid, act: seq<Ghost>, pacman: Pos, blue: nat,
                              positions: map<Ghost, Option<Pos>>, paths: map<Ghost, seq<Pos>>, path: seq<Pos>,
                              stats: Stats, positions': map<Ghost, Option<Pos>>, paths': map<Ghost, seq<Pos>>,
                              path': seq<Pos>, stats': Stats, after: map<Ghost, seq<Pos>>, caught: bool, n: nat,
                              props: seq<Option<Pos>>)
    requires WellFormed(g) && Keyed(positions, paths)
  {
    n <= |act| && ReplannedAll(g, act, n, positions, pacman, paths, after) &&
    props == Proposals(act[..n], after) &&
    (caught ==> 1 <= n && Scan6(props, pacman) == Caught(n - 1) &&
                (positions', paths', path', stats') == (SpawnGhosts(g), NoPaths, [], Stats(0))) &&
    (!caught ==> n == |act| && path' == path &&
                 Settled(act, Verdicts(props), true, positions, after, positions', paths') &&
                 stats' == (if Blue in act && |paths[Blue]| <= 1 then Stats(blue) else stats))
  }

  /** What update_ghosts does once its timer fired, on layout g and the
      given level with Pac-Man at `pacman`, taking the ghosts' cells,
      paths, chasing path and shown statistics to the primed ones (blue is
      the counter of blue's search object afterwards): the level's branch
      runs, and a level with no active chasing ghost moves nothing. */
  ghost predicate GhostsMoved(g: Grid, act: map<int, seq<Ghost>>, level: int, pacman: Pos, blue: nat,
                              positions: map<Ghost, Option<Pos>>, paths: map<Ghost, seq<Pos>>, path: seq<Pos>, stats: Stats,
                              positions': map<Ghost, Option<Pos>>, paths': map<Ghost, seq<Pos>>, path': seq<Pos>,
                              stats': Stats, plan: seq<Pos>, after: map<Ghost, seq<Pos>>, caught: bool, n: nat,
                              props: seq<Option<Pos>>)
    requires WellFormed(g) && Keyed(positions, paths)
  {
    if 1 <= level <= 4 && level in act && LevelGhost(level) in act[level] then
      !caught && paths' == paths &&
      ChaseMoved(g, LevelGhost(level), pacman, positions, path, stats, positions', path', stats', plan)
    else if level == 5 && 5 in act then
      !caught && path' == path &&
      Level5Moved(g, act[5], pacman, blue, positions, paths, stats, positions', paths', stats', after)
    else if level == 6 && 6 in act then
      Level6Moved(g, act[6], pacman, blue, positions, paths, path, stats, positions', paths', path', stats',
                  after, caught, n, props)
    else
      !caught && (positions', paths', path', stats') == (positions, paths, path, stats)
  }

  class PacmanGame {
    /** MAZE_LAYOUT as utils/game_utils.py sees it: the original layout,
        which move validity, neighbours and spawns are read from. */
    const layout: Grid
    /** ACTIVE_GHOSTS */
    const activeGhosts: map<int, seq<Ghost>>
    /** len(LEVEL_DESCRIPTIONS) */
    const levelCount: int
    /** ghost_algorithms: one long-lived search object per ghost. */
    const searchers: map<Ghost, Searcher>
    const mazeOffsetX: int
    const mazeOffsetY: int

    var gameState: Screen
    var currentLevel: int
    /** game.py's own MAZE_LAYOUT binding: a copy of the layout that
        reset_game restores and Pac-Man eats from. */
    var maze: Grid
    var pacmanPos: Option<Pos>
    var ghostPositions: map<Ghost, Option<Pos>>
    var pacmanDirection: Direction
    var stats: Stats
    var currentPath: seq<Pos>
    var ghostPaths: map<Ghost, seq<Pos>>
    var showPath: bool
    var showStats: bool
    var debugMode: bool
    var ghostMoveTimer: nat
    var pacmanMoveTimer: nat
    var levelComplete: bool
    var levelCompleteTimer: nat

    /** The configuration the game is built from. */
    ghost predicate Config() {
      WellFormed(layout) && 1 <= levelCount &&
      (forall l :: 1 <= l <= levelCount ==> l in activeGhosts && NoDup(activeGhosts[l])) &&
      (forall c: Ghost :: c in searchers && searchers[c].strategy == StrategyOf(c)) &&
      (forall a: Ghost, b: Ghost :: a != b ==> searchers[a] != searchers[b])
    }

    ghost predicate Valid()
      reads this
      requires Config()
    {
      1 <= currentLevel <= levelCount &&
      FoodOnlyEaten(layout, maze) &&
      Placement(layout, pacmanPos, ghostPositions) &&
      PathsOk(layout, currentPath, ghostPaths) &&
      (gameState == Playing ==> OnTrack(layout, currentLevel, currentPath, ghostPositions, ghostPaths))
    }

    /** Positions without which a tick of update_ghosts or update_pacman
        raises: Pac-Man and every ghost active on this level are placed. */
    predicate Placed()
      reads this
      requires Config() && Valid()
    {
      pacmanPos.Some? && forall c :: c in activeGhosts[currentLevel] ==> ghostPositions[c].Some?
    }

    /** The state reset_game leaves behind (other than the two flags it
        clears, which the screen machine tracks). */
    ghost predicate FreshRound()
      reads this
    {
      Round() == FreshRoundOf(layout)
    }

    /** The fields handle_events changes directly. */
    function UiOf(): Ui
      reads this
    {
      Ui(gameState, currentLevel, showPath, showStats, debugMode, levelComplete)
    }

    /** PacmanGame.__init__: the menu screen on level 1, a fresh round,
        Pac-Man facing right, every display off and both timers at zero. */
    constructor (layout: Grid, activeGhosts: map<int, seq<Ghost>>, levelCount: int,
                 screenWidth: int, screenHeight: int, cellSize: int)
      requires WellFormed(layout) && 1 <= levelCount
      requires forall l :: 1 <= l <= levelCount ==> l in activeGhosts && NoDup(activeGhosts[l])
      ensures Config() && Valid() && FreshRound()
      ensures this.layout == layout && this.activeGhosts == activeGhosts && this.levelCount == levelCount
      ensures (mazeOffsetX, mazeOffsetY) == MazeOffset(screenWidth, screenHeight, cellSize, layout)
      ensures gameState == Menu && currentLevel == 1
      ensures !showPath && !showStats && !debugMode && !levelComplete
      ensures ghostMoveTimer == 0 && pacmanMoveTimer == 0
      ensures forall c: Ghost :: searchers[c].expandedNodes == 0
    {
      this.layout := layout;
      this.activeGhosts := activeGhosts;
      this.levelCount := levelCount;
      var offset := MazeOffset(screenWidth, screenHeight, cellSize, layout);
      mazeOffsetX, mazeOffsetY := offset.0, offset.1;
      var algorithms := NewSearchers();
      searchers := algorithms;
      gameState := Menu;
      currentLevel := 1;
      showStats := false;
      debugMode := false;
      ghostMoveTimer := 0;
      pacmanMoveTimer := 0;
      new;
      ResetGame();
    }

    /** ghost_algorithms as __init__ builds it: a fresh search object per
        ghost, of the ghost's strategy, with its counter at zero. */
    static method NewSearchers() returns (r: map<Ghost, Searcher>)
      ensures forall c: Ghost :: c in r && fresh(r[c]) && r[c].strategy == StrategyOf(c) && r[c].expandedNodes == 0
      ensures forall a: Ghost, b: Ghost :: a != b ==> r[a] != r[b]
    {
      var blue := new Searcher(BFS);
      var pink := new Searcher(DFS);
      var orange := new Searcher(UCS);
      var red := new Searcher(AStar);
      r := map[Blue := blue, Pink := pink, Orange := orange, Red := red];
      forall c: Ghost ensures c in r && fresh(r[c]) && r[c].strategy == StrategyOf(c) && r[c].expandedNodes == 0 {
        match c
        case Blue =>
        case Pink =>
        case Orange =>
        case Red =>
      }
    }

    /** reset_game: the maze gets its food back, the spawn scan places
        Pac-Man and the ghosts again, and direction, stats, paths, the
        path display and the completion flag start over. The screen, the
        level, the timers and the search objects are untouched. */
    method ResetGame()
      requires Config() && 1 <= currentLevel <= levelCount
      modifies this
      ensures Valid() && FreshRound() && !showPath && !levelComplete
      ensures (gameState, currentLevel, showStats, debugMode, ghostMoveTimer, pacmanMoveTimer) ==
              old((gameState, currentLevel, showStats, debugMode, ghostMoveTimer, pacmanMoveTimer))
    {
      Respawn();
      showPath, levelComplete := false, false;
      FreshRoundIsValid();
    }

    /** The round part of reset_game: food, spawns, direction, stats,
        paths and the completion timer. */
    method Respawn()
      modifies this
      ensures FreshRound()
      ensures (gameState, currentLevel, showPath, showStats, debugMode, ghostMoveTimer, pacmanMoveTimer, levelComplete) ==
              old((gameState, currentLevel, showPath, showStats, debugMode, ghostMoveTimer, pacmanMoveTimer, levelComplete))
    {
      var pacman, ghosts := FindInitialPositions(layout);
      SetRound(layout, pacman, ghosts, Right, Stats(0), [], NoPaths, 0);
    }

    /** Stores the fields of a round, as Round() lists them. */
    method SetRound(maze': Grid, pacman: Option<Pos>, ghosts: map<Ghost, Option<Pos>>, direction: Direction,
                    stats': Stats, path: seq<Pos>, paths: map<Ghost, seq<Pos>>, timer: nat)
      modifies this
      ensures Round() == (maze', pacman, ghosts, paths, path, stats', direction, timer)
      ensures (gameState, currentLevel, showPath, showStats, debugMode, ghostMoveTimer, pacmanMoveTimer, levelComplete) ==
              old((gameState, currentLevel, showPath, showStats, debugMode, ghostMoveTimer, pacmanMoveTimer, levelComplete))
    {
      maze, pacmanPos, ghostPositions, pacmanDirection, stats, currentPath, ghostPaths, levelCompleteTimer :=
        maze', pacman, ghosts, direction, stats', path, paths, timer;
    }

    lemma FreshRoundIsValid()
      requires Config() && 1 <= currentLevel <= levelCount && FreshRound()
      ensures Valid()
    {
      FreshRoundValid(layout, pacmanPos, ghostPositions, currentLevel);
    }

    /** has_food_left: a scan of the rows of the eaten maze. */
    method HasFoodLeft() returns (left: bool)
      ensures left <==> HasFood(maze)
    {
      for y := 0 to |maze|
        invariant forall y', x :: 0 <= y' < y && 0 <= x < |maze[y']| ==> maze[y'][x] != Food
      {
        if Food in maze[y] {
          return true;
        }
      }
      return false;
    }

    /** The rule of check_collisions for one ghost. */
    predicate Touches(c: Ghost)
      reads this
      requires c in ghostPositions
    {
      ghostPositions[c].Some? && ghostPositions[c] == pacmanPos
    }

    /** check_collisions: a reset as soon as an active ghost shares
        Pac-Man's cell (the source fails when Pac-Man is missing while an
        active ghost is placed). */
    method CheckCollisions() returns (hit: bool)
      requires Config() && Valid()
      requires pacmanPos.Some? || forall c :: c in activeGhosts[currentLevel] ==> ghostPositions[c].None?
      modifies this
      ensures Valid()
      ensures hit <==> Collides(activeGhosts[currentLevel], old(ghostPositions), old(pacmanPos))
      ensures hit ==> FreshRound() && !showPath && !levelComplete && gameState == old(gameState) &&
                      currentLevel == old(currentLevel) && showStats == old(showStats) && debugMode == old(debugMode) &&
                      ghostMoveTimer == old(ghostMoveTimer) && pacmanMoveTimer == old(pacmanMoveTimer)
      ensures !hit ==> unchanged(this)
    {
      var act := activeGhosts[currentLevel];
      for i := 0 to |act|
        invariant forall j :: 0 <= j < i ==> !Touches(act[j])
      {
        var c := act[i];
        if ghostPositions[c].Some? && ghostPositions[c].value == pacmanPos.value {
          ResetGame();
          return true;
        }
      }
      return false;
    }

    /** The fields of a round that key presses leave alone unless they
        reset the game. */
    function Round(): (Grid, Option<Pos>, map<Ghost, Option<Pos>>, map<Ghost, seq<Pos>>, seq<Pos>, Stats, Direction, nat)
      reads this
    {
      (maze, pacmanPos, ghostPositions, ghostPaths, currentPath, stats, pacmanDirection, levelCompleteTimer)
    }

    /** One KEYDOWN event other than Q: the screen machine moves as
        HandleKey says, and the presses that start a game reset it. */
    method HandleKeyPress(key: Key)
      requires Config() && Valid() && key != KeyQ
      modifies this
      ensures Valid()
      ensures UiOf() == HandleKey(old(UiOf()), key, levelCount)
      ensures Resets(old(UiOf()), key) ==> FreshRound()
      ensures !Resets(old(UiOf()), key) ==> Round() == old(Round())
      ensures (ghostMoveTimer, pacmanMoveTimer) == old((ghostMoveTimer, pacmanMoveTimer))
    {
      var u := HandleKey(UiOf(), key, levelCount);
      HandleKeyInvariants(UiOf(), key, levelCount);
      if Resets(UiOf(), key) {
        StartRound(u.level);
      } else {
        SetScreen(u);
      }
    }

    /** RETURN on the level-select screen, or in a completed game (which
        moves on to the next level): the game screen on the given level,
        with a fresh round. */
    method StartRound(level: int)
      requires Config() && Valid() && 1 <= level <= levelCount
      modifies this
      ensures Valid() && FreshRound()
      ensures UiOf() == old(UiOf()).(screen := Playing, level := level, showPath := false, complete := false)
      ensures (ghostMoveTimer, pacmanMoveTimer) == old((ghostMoveTimer, pacmanMoveTimer))
    {
      gameState, currentLevel := Playing, level;
      ResetGame();
    }

    /** The key presses that do not reset the game only change the screen
        fields; a game screen is kept on its level. */
    method SetScreen(u: Ui)
      requires Config() && Valid() && 1 <= u.level <= levelCount && u.complete == levelComplete
      requires u.screen == Playing ==> gameState == Playing && u.level == currentLevel
      modifies this
      ensures Valid() && UiOf() == u
      ensures Round() == old(Round())
      ensures (ghostMoveTimer, pacmanMoveTimer) == old((ghostMoveTimer, pacmanMoveTimer))
    {
      gameState, currentLevel, showPath, showStats, debugMode := u.screen, u.level, u.showPath, u.showStats, u.debug;
    }

    /** handle_events over one batch of events: QUIT or Q stops the
        loop; every key press moves the screen machine (HandleKey), and
        the presses that start a game reset it. */
    method HandleEvents(events: seq<Event>) returns (running: bool)
      requires Config() && Valid()
      modifies this
      ensures Valid()
      ensures running <==> forall i :: 0 <= i < |events| ==> !Stops(events[i])
      ensures UiOf() == HandleAll(old(UiOf()), events, levelCount)
      ensures Round() == old(Round()) || FreshRound()
      ensures (ghostMoveTimer, pacmanMoveTimer) == old((ghostMoveTimer, pacmanMoveTimer))
    {
      for i := 0 to |events|
        invariant Valid()
        invariant HandleAll(old(UiOf()), events, levelCount) == HandleAll(UiOf(), events[i..], levelCount)
        invariant forall j :: 0 <= j < i ==> !Stops(events[j])
        invariant Round() == old(Round()) || FreshRound()
        invariant (ghostMoveTimer, pacmanMoveTimer) == old((ghostMoveTimer, pacmanMoveTimer))
      {
        var event := events[i];
        assert events[i..][0] == event && events[i..][1..] == events[i + 1..];
        if event == Quit {
          return false;
        }
        if event.KeyPress? {
          if event.key == KeyQ {
            return false;
          }
          HandleKeyPress(event.key);
        }
      }
      return true;
    }

    /** What a movement tick of level 6 does: Pac-Man enters the target
        cell of the pressed keys unless it is a wall, turning that way and
        eating what is there; nothing else of the game changes. */
    twostate predicate Stepped(pressed: set<Direction>)
      reads this
      requires Config() && old(Valid()) && old(pacmanPos).Some?
    {
      var t := Target(old(pacmanPos).value, pressed);
      (ghostPositions, ghostPaths, currentPath, stats, ghostMoveTimer) ==
        old((ghostPositions, ghostPaths, currentPath, stats, ghostMoveTimer)) &&
      UiOf() == old(UiOf()).(complete := levelComplete) &&
      if IsValidMove(layout, t.x, t.y) then
        pacmanPos == Some(t) && pacmanDirection == Turned(old(pacmanDirection), pressed) &&
        Eats(old(maze), t, old(levelComplete), old(levelCompleteTimer), maze, levelComplete, levelCompleteTimer)
      else
        (pacmanPos, pacmanDirection, maze, levelComplete, levelCompleteTimer) ==
          old((pacmanPos, pacmanDirection, maze, levelComplete, levelCompleteTimer))
    }

    /** The food rule of update_pacman for the cell p Pac-Man entered:
        food there is eaten (one piece fewer), and the level is complete
        when has_food_left finds none. */
    method EatAt(p: Pos)
      requires Config() && Valid() && IsValidMove(layout, p.x, p.y)
      modifies this
      ensures Valid()
      ensures 0 <= p.y < |old(maze)| && 0 <= p.x < |old(maze)[p.y]|
      ensures Eats(old(maze), p, old(levelComplete), old(levelCompleteTimer), maze, levelComplete, levelCompleteTimer)
      ensures old(maze)[p.y][p.x] == Food ==> FoodCount(maze) == FoodCount(old(maze)) - 1
      ensures (gameState, currentLevel, pacmanPos, ghostPositions, pacmanDirection, stats, currentPath, ghostPaths) ==
              old((gameState, currentLevel, pacmanPos, ghostPositions, pacmanDirection, stats, currentPath, ghostPaths))
      ensures (showPath, showStats, debugMode, ghostMoveTimer, pacmanMoveTimer) ==
              old((showPath, showStats, debugMode, ghostMoveTimer, pacmanMoveTimer))
    {
      ValidMoveIgnoresFood(layout, maze, p.x, p.y);
      if maze[p.y][p.x] == Food {
        FoodCountEat(maze, p.y, p.x);
        EatKeepsFoodOnlyEaten(layout, maze, p.y, p.x);
        SetMaze(maze[p.y := maze[p.y][p.x := Empty]]);
        var left := HasFoodLeft();
        if !left {
          levelComplete, levelCompleteTimer := true, 0;
        }
      }
    }

    /** Stores a maze that differs from the layout only by eaten food. */
    method SetMaze(m: Grid)
      requires Config() && Valid() && FoodOnlyEaten(layout, m)
      modifies this
      ensures Valid() && maze == m
      ensures (gameState, currentLevel, pacmanPos, ghostPositions, pacmanDirection, stats, currentPath, ghostPaths) ==
              old((gameState, currentLevel, pacmanPos, ghostPositions, pacmanDirection, stats, currentPath, ghostPaths))
      ensures (showPath, showStats, debugMode, ghostMoveTimer, pacmanMoveTimer, levelComplete, levelCompleteTimer) ==
              old((showPath, showStats, debugMode, ghostMoveTimer, pacmanMoveTimer, levelComplete, levelCompleteTimer))
    {
      maze := m;
    }

    /** A movement tick of update_pacman, after its timer fired. */
    method MovePacman(pressed: set<Direction>)
      requires Config() && Valid() && pacmanPos.Some?
      modifies this
      ensures Valid() && Stepped(pressed)
      ensures pacmanMoveTimer == old(pacmanMoveTimer)
    {
      var newPos, newDirection := Steer(pacmanPos.value, pacmanDirection, pressed);
      if IsValidMove(layout, newPos.x, newPos.y) {
        pacmanPos, pacmanDirection := Some(newPos), newDirection;
        EatAt(newPos);
      }
    }

    /** update_pacman (level 6 only; the mouth animation is not modelled):
        the movement timer gathers dt, and once it reaches its delay it
        restarts and Pac-Man takes a step (Stepped). */
    method UpdatePacman(dt: nat, pressed: set<Direction>)
      requires Config() && Valid()
      requires currentLevel == 6 ==> pacmanPos.Some?
      modifies this
      ensures Valid()
      ensures old(currentLevel) != 6 ==> unchanged(this)
      ensures old(currentLevel) == 6 && old(pacmanMoveTimer) + dt < PacmanMoveDelay ==>
                pacmanMoveTimer == old(pacmanMoveTimer) + dt && Round() == old(Round()) && UiOf() == old(UiOf()) &&
                ghostMoveTimer == old(ghostMoveTimer)
      ensures old(currentLevel) == 6 && old(pacmanMoveTimer) + dt >= PacmanMoveDelay ==>
                pacmanMoveTimer == 0 && Stepped(pressed)
    {
      if currentLevel == 6 {
        pacmanMoveTimer := pacmanMoveTimer + dt;
        if pacmanMoveTimer >= PacmanMoveDelay {
          pacmanMoveTimer := 0;
          MovePacman(pressed);
        }
      }
    }

    /** update_ghosts on levels 1 to 4, for the level's ghost c when it is
        active: when the chasing path has at most one cell, a fresh search
        object of c's strategy searches from c to Pac-Man and its
        statistics are shown; then c steps to the path's second cell and
        the path loses its head. */
    method Chase(c: Ghost) returns (ghost plan: seq<Pos>)
      requires Config() && Valid() && Placed() && gameState == Playing
      requires 1 <= currentLevel <= 4 && c == LevelGhost(currentLevel) && c in activeGhosts[currentLevel]
      modifies this
      ensures Valid()
      ensures ChaseMoved(layout, c, old(pacmanPos).value, old(ghostPositions), old(currentPath), old(stats),
                         ghostPositions, currentPath, stats, plan)
      ensures StepOrStay(layout, old(ghostPositions[c]), ghostPositions[c])
      ensures (maze, pacmanPos, ghostPaths, pacmanDirection, levelCompleteTimer) ==
              old((maze, pacmanPos, ghostPaths, pacmanDirection, levelCompleteTimer))
      ensures (gameState, currentLevel, showPath, showStats, debugMode, levelComplete, ghostMoveTimer, pacmanMoveTimer) ==
              old((gameState, currentLevel, showPath, showStats, debugMode, levelComplete, ghostMoveTimer, pacmanMoveTimer))
    {
      var path, st := ChasePlan(c);
      plan := path;
      if |path| > 1 {
        PopKeepsPath(layout, path);
        PlaceChaser(c, Some(path[1]), path[1..], st);
      } else {
        PlaceChaser(c, ghostPositions[c], path, st);
      }
    }

    /** Stores the chasing ghost's cell, the chasing path and the shown
        statistics of levels 1 to 4. */
    method PlaceChaser(c: Ghost, position: Option<Pos>, path: seq<Pos>, st: Stats)
      requires Config() && Valid() && gameState == Playing && 1 <= currentLevel <= 4 && c == LevelGhost(currentLevel)
      requires position.Some? ==> IsOpen(layout, position.value)
      requires PathFrom(layout, path, position) && LoopFreeWalk(layout, path)
      modifies this
      ensures Valid()
      ensures (ghostPositions, currentPath, stats) == (old(ghostPositions)[c := position], path, st)
      ensures (maze, pacmanPos, ghostPaths, pacmanDirection, levelCompleteTimer) ==
              old((maze, pacmanPos, ghostPaths, pacmanDirection, levelCompleteTimer))
      ensures (gameState, currentLevel, showPath, showStats, debugMode, levelComplete, ghostMoveTimer, pacmanMoveTimer) ==
              old((gameState, currentLevel, showPath, showStats, debugMode, levelComplete, ghostMoveTimer, pacmanMoveTimer))
    {
      ghostPositions, currentPath, stats := ghostPositions[c := position], path, st;
    }

    /** The search step of Chase: a fresh search object of c's strategy
        replaces a chasing path of at most one cell. */
    method ChasePlan(c: Ghost) returns (path: seq<Pos>, st: Stats)
      requires Config() && c in ghostPositions && ghostPositions[c].Some? && pacmanPos.Some?
      requires PathFrom(layout, currentPath, ghostPositions[c])
      ensures Replanned(StrategyOf(c), layout, currentPath, path, ghostPositions[c].value, pacmanPos.value)
      ensures PathFrom(layout, path, ghostPositions[c])
      ensures |currentPath| > 1 ==> st == stats
      ensures |currentPath| <= 1 && c == Blue ==> 1 <= st.expandedNodes <= |OpenCells(layout) + {ghostPositions[c].value}|
      ensures |currentPath| <= 1 && c != Blue ==> st == Stats(0)
    {
      path, st := currentPath, stats;
      if |path| <= 1 {
        var search := new Searcher(StrategyOf(c));
        path, st := search.Search(layout, ghostPositions[c].value, pacmanPos.value);
        PlannedPathFrom(StrategyOf(c), layout, ghostPositions[c].value, pacmanPos.value, path);
      }
    }

    /** The planning loop of levels 5 and 6 for the ghosts act in order:
        each gets Replanned with its own long-lived search object, blue's
        statistics are the ones shown, and each ghost whose path has more
        than one cell proposes its second cell (new_positions, in
        insertion order). */
    method PlanAll(act: seq<Ghost>) returns (paths: map<Ghost, seq<Pos>>, st: Stats, moves: seq<(Ghost, Pos)>)
      requires Config() && Keyed(ghostPositions, ghostPaths) && pacmanPos.Some? && NoDup(act)
      requires forall i :: 0 <= i < |act| ==> ghostPositions[act[i]].Some?
      requires forall c: Ghost :: PathFrom(layout, ghostPaths[c], ghostPositions[c])
      modifies searchers.Values
      ensures ReplannedAll(layout, act, |act|, ghostPositions, pacmanPos.value, ghostPaths, paths)
      ensures forall c: Ghost :: PathFrom(layout, paths[c], ghostPositions[c])
      ensures moves == Pick(act, Proposals(act, paths))
      ensures st == if Blue in act && |ghostPaths[Blue]| <= 1 then Stats(searchers[Blue].expandedNodes) else stats
    {
      var positions, pacman, before := ghostPositions, pacmanPos.value, ghostPaths;
      paths, st, moves := before, stats, [];
      ghost var props: seq<Option<Pos>> := [];
      for i := 0 to |act|
        invariant PlannedSoFar(layout, act, i, positions, pacman, before, paths, props)
        invariant moves == Pick(act[..i], props)
        invariant st == if Blue in act[..i] && |before[Blue]| <= 1 then Stats(searchers[Blue].expandedNodes) else stats
      {
        var c := act[i];
        var path, found := ReplanGhost(c, paths[c], positions[c].value, pacman);
        PlanStep(layout, act, i, positions, pacman, before, paths, props, path);
        PickStep(act, i, props, Proposal(path));
        paths := paths[c := path];
        if c == Blue && found.Some? {
          st := found.value;
        }
        if |path| > 1 {
          moves := moves + [(c, path[1])];
        }
        props := props + [Proposal(path)];
        PrefixMembers(act, i);
      }
      assert act[..|act|] == act;
    }

    /** search(ghost, pacman) with ghost c's own search object, called
        only when c's path has at most one cell; no other ghost's search
        object changes. */
    method ReplanGhost(c: Ghost, path: seq<Pos>, from: Pos, to: Pos) returns (path': seq<Pos>, found: Option<Stats>)
      requires Config()
      modifies searchers[c]
      ensures Replanned(StrategyOf(c), layout, path, path', from, to)
      ensures |path| > 1 <==> found.None?
      ensures found.Some? ==> found.value == Stats(searchers[c].expandedNodes)
      ensures c != Blue ==> searchers[Blue].expandedNodes == old(searchers[Blue].expandedNodes)
    {
      path', found := Replan(searchers[c], layout, path, from, to);
    }

    /** update_ghosts on level 5: every active ghost is replanned and
        proposes a step (PlanAll); the proposed cells are granted by the
        level-5 rule (Level5Grants), the granted steps are entered in
        proposal order, and each ghost ends as its verdict says. */
    method Level5Tick() returns (ghost after: map<Ghost, seq<Pos>>)
      requires Config() && Valid() && Placed() && gameState == Playing && currentLevel == 5
      modifies this, searchers.Values
      ensures Valid()
      ensures Level5Moved(layout, activeGhosts[5], old(pacmanPos).value, searchers[Blue].expandedNodes,
                          old(ghostPositions), old(ghostPaths), old(stats), ghostPositions, ghostPaths, stats, after)
      ensures forall c: Ghost :: StepOrStay(layout, old(ghostPositions)[c], ghostPositions[c])
      ensures (maze, pacmanPos, currentPath, pacmanDirection, levelCompleteTimer) ==
              old((maze, pacmanPos, currentPath, pacmanDirection, levelCompleteTimer))
      ensures (gameState, currentLevel, showPath, showStats, debugMode, levelComplete, ghostMoveTimer, pacmanMoveTimer) ==
              old((gameState, currentLevel, showPath, showStats, debugMode, levelComplete, ghostMoveTimer, pacmanMoveTimer))
    {
      var act := activeGhosts[5];
      ghost var positions := ghostPositions;
      var paths, st, proposed := PlanAll(act);
      PickBacked(act, paths);
      EnterGranted(paths, st, proposed, Level5Grants(Cells(proposed)));
      Level5Settled(act, positions, paths, ghostPositions, ghostPaths);
      after := paths;
    }

    /** The loop of update_ghosts on level 6: each active ghost in turn is
        replanned with its own search object (blue's statistics are the
        ones shown) and its proposal is scanned as Scan6 does: a cell
        already committed blocks the ghost and clears its path, a fresh
        cell is committed, and a fresh cell on Pac-Man stops the loop
        (caught) after n ghosts. */
    method Level6Plan(act: seq<Ghost>)
      returns (paths: map<Ghost, seq<Pos>>, st: Stats, moves: seq<(Ghost, Pos)>, caught: bool,
               ghost planned: map<Ghost, seq<Pos>>, ghost n: nat, ghost vs: seq<Verdict>, ghost occupied: set<Pos>,
               ghost props: seq<Option<Pos>>)
      requires Config() && Keyed(ghostPositions, ghostPaths) && pacmanPos.Some? && NoDup(act)
      requires forall i :: 0 <= i < |act| ==> ghostPositions[act[i]].Some?
      requires forall c: Ghost :: PathFrom(layout, ghostPaths[c], ghostPositions[c])
      modifies searchers.Values
      ensures n <= |act|
      ensures caught ==> 1 <= n && Scan6(props, old(pacmanPos).value) == Caught(n - 1)
      ensures caught ==> PlannedSoFar(layout, act, n, old(ghostPositions), old(pacmanPos).value, old(ghostPaths), planned, props)
      ensures !caught ==> n == |act|
      ensures !caught ==> Level6SoFar(layout, act, n, old(ghostPositions), old(pacmanPos).value, old(ghostPaths),
                                      planned, props, vs, occupied, moves, paths)
      ensures !caught ==> st == if Blue in act && |old(ghostPaths)[Blue]| <= 1 then Stats(searchers[Blue].expandedNodes) else old(stats)
    {
      var positions, pacman, before := ghostPositions, pacmanPos.value, ghostPaths;
      paths, st, moves, caught := before, stats, [], false;
      planned, vs := before, [];
      var taken: set<Pos> := {};
      props := [];
      var i := 0;
      while i < |act|
        invariant i <= |act|
        invariant Level6SoFar(layout, act, i, positions, pacman, before, planned, props, vs, taken, moves, paths)
        invariant st == if Blue in act[..i] && |before[Blue]| <= 1 then Stats(searchers[Blue].expandedNodes) else stats
      {
        ghost var planned', props';
        var hit;
        hit, taken, moves, paths, st, vs, planned', props' :=
          Level6Round(act, i, positions, pacman, before, planned, props, vs, taken, moves, paths, st, stats);
        planned, props, i := planned', props', i + 1;
        if hit {
          n, occupied, caught := i, taken, true;
          return;
        }
      }
      n, occupied := i, taken;
    }

    /** One round of the level-6 loop, for the ghost at index i: it is
        replanned with its own search object, blue's statistics become the
        shown ones when blue searched, and its proposal is scanned
        (ScanGhost); hit says the ghost stepped onto Pac-Man. */
    method Level6Round(act: seq<Ghost>, i: nat, positions: map<Ghost, Option<Pos>>, pacman: Pos,
                       ghost before: map<Ghost, seq<Pos>>, ghost planned: map<Ghost, seq<Pos>>,
                       ghost props: seq<Option<Pos>>, ghost vs: seq<Verdict>, occupied: set<Pos>,
                       moves: seq<(Ghost, Pos)>, paths: map<Ghost, seq<Pos>>, st: Stats, shown: Stats)
      returns (hit: bool, occupied': set<Pos>, moves': seq<(Ghost, Pos)>, paths': map<Ghost, seq<Pos>>, st': Stats,
               ghost vs': seq<Verdict>, ghost planned': map<Ghost, seq<Pos>>, ghost props': seq<Option<Pos>>)
      requires Config() && NoDup(act) && i < |act|
      requires Level6SoFar(layout, act, i, positions, pacman, before, planned, props, vs, occupied, moves, paths)
      requires positions[act[i]].Some?
      requires st == if Blue in act[..i] && |before[Blue]| <= 1 then Stats(searchers[Blue].expandedNodes) else shown
      modifies searchers[act[i]]
      ensures PlannedSoFar(layout, act, i + 1, positions, pacman, before, planned', props')
      ensures hit ==> Scan6(props', pacman) == Caught(i)
      ensures !hit ==> Level6SoFar(layout, act, i + 1, positions, pacman, before, planned', props', vs', occupied', moves', paths')
      ensures st' == if Blue in act[..i + 1] && |before[Blue]| <= 1 then Stats(searchers[Blue].expandedNodes) else shown
    {
      var c := act[i];
      Level6Next(layout, act, i, positions, pacman, before, planned, props, vs, occupied, moves, paths);
      NotBefore(act, i);
      var path, found := ReplanGhost(c, paths[c], positions[c].value, pacman);
      PrefixMembers(act, i);
      st' := st;
      if c == Blue && found.Some? {
        st' := found.value;
      }
      hit, occupied', moves', paths', vs' := ScanGhost(layout, act, i, positions, pacman, before, planned, props, vs, occupied, moves, paths, path);
      planned', props' := planned[c := path], props + [Proposal(path)];
    }

    /** update_ghosts on level 6: the loop of Level6Plan over the active
        ghosts, then either reset_game (the n-th ghost stepped onto
        Pac-Man) or the commit of every committed step in order, each
        ghost ending as its verdict says. */
    method Level6Tick() returns (caught: bool, ghost after: map<Ghost, seq<Pos>>, ghost n: nat,
                                 ghost props: seq<Option<Pos>>)
      requires Config() && Valid() && Placed() && gameState == Playing && currentLevel == 6
      modifies this, searchers.Values
      ensures Valid()
      ensures Level6Moved(layout, activeGhosts[6], old(pacmanPos).value, searchers[Blue].expandedNodes,
                          old(ghostPositions), old(ghostPaths), old(currentPath), old(stats),
                          ghostPositions, ghostPaths, currentPath, stats, after, caught, n, props)
      ensures caught ==> FreshRound() && !showPath && !levelComplete
      ensures !caught ==> Scan6(props, old(pacmanPos).value).Commit?
      ensures !caught ==> forall c: Ghost :: StepOrStay(layout, old(ghostPositions)[c], ghostPositions[c])
      ensures !caught ==> (maze, pacmanPos, currentPath, pacmanDirection, levelCompleteTimer, showPath, levelComplete) ==
                          old((maze, pacmanPos, currentPath, pacmanDirection, levelCompleteTimer, showPath, levelComplete))
      ensures (gameState, currentLevel, showStats, debugMode, ghostMoveTimer, pacmanMoveTimer) ==
              old((gameState, currentLevel, showStats, debugMode, ghostMoveTimer, pacmanMoveTimer))
    {
      var act := activeGhosts[6];
      var paths, st, moves, hit, planned, m, vs, occupied, scanned := Level6Plan(act);
      caught, after, n, props := hit, planned, m, scanned;
      if caught {
        ResetGame();
      } else {
        Level6Commit(act, planned, props, vs, occupied, moves, paths, st);
      }
    }

    /** The end of a level-6 tick that did not reach Pac-Man: the ghosts
        were planned (planned) and scanned (vs, occupied, moves, paths) by
        the level-6 loop; every committed step is entered in order and the
        shown statistics become st. */
    method Level6Commit(act: seq<Ghost>, ghost planned: map<Ghost, seq<Pos>>, ghost props: seq<Option<Pos>>,
                        ghost vs: seq<Verdict>, ghost occupied: set<Pos>, moves: seq<(Ghost, Pos)>,
                        paths: map<Ghost, seq<Pos>>, st: Stats)
      requires Config() && Valid() && gameState == Playing && currentLevel == 6 && NoDup(act) && pacmanPos.Some?
      requires Level6SoFar(layout, act, |act|, ghostPositions, pacmanPos.value, ghostPaths, planned, props,
                           vs, occupied, moves, paths)
      modifies this
      ensures Valid()
      ensures props == Proposals(act, planned) && Scan6(props, old(pacmanPos).value).Commit?
      ensures Settled(act, Verdicts(props), true, old(ghostPositions), planned, ghostPositions, ghostPaths)
      ensures forall c: Ghost :: StepOrStay(layout, old(ghostPositions)[c], ghostPositions[c])
      ensures stats == st && searchers[Blue].expandedNodes == old(searchers[Blue].expandedNodes)
      ensures (maze, pacmanPos, currentPath, pacmanDirection, levelCompleteTimer) ==
              old((maze, pacmanPos, currentPath, pacmanDirection, levelCompleteTimer))
      ensures (gameState, currentLevel, showPath, showStats, debugMode, levelComplete, ghostMoveTimer, pacmanMoveTimer) ==
              old((gameState, currentLevel, showPath, showStats, debugMode, levelComplete, ghostMoveTimer, pacmanMoveTimer))
    {
      ghost var positions, pacman, before := ghostPositions, pacmanPos.value, ghostPaths;
      Level6Ready(layout, act, positions, pacman, before, planned, props, vs, occupied, moves, paths);
      EnterGranted(paths, st, moves, AllGranted(|moves|));
      Level6Settled(layout, act, positions, pacman, before, planned, props, vs, occupied, moves, paths,
                    ghostPositions, ghostPaths);
    }

    /** The commit of a level-5 or level-6 tick once the ghosts have been
        replanned (paths) and their moves decided: the granted moves are
        entered in order and the shown statistics become st. */
    method EnterGranted(paths: map<Ghost, seq<Pos>>, st: Stats, moves: seq<(Ghost, Pos)>, granted: seq<bool>)
      requires Config() && Valid() && gameState == Playing && 5 <= currentLevel
      requires Keyed(ghostPositions, paths) && forall c: Ghost :: PathFrom(layout, paths[c], ghostPositions[c])
      requires |granted| == |moves| && Backed(moves, paths) && Unique(moves)
      modifies this
      ensures Valid()
      ensures Committed(moves, granted, old(ghostPositions), paths, ghostPositions, ghostPaths)
      ensures forall c: Ghost :: StepOrStay(layout, old(ghostPositions)[c], ghostPositions[c])
      ensures stats == st
      ensures (maze, pacmanPos, currentPath, pacmanDirection, levelCompleteTimer) ==
              old((maze, pacmanPos, currentPath, pacmanDirection, levelCompleteTimer))
      ensures (gameState, currentLevel, showPath, showStats, debugMode, levelComplete, ghostMoveTimer, pacmanMoveTimer) ==
              old((gameState, currentLevel, showPath, showStats, debugMode, levelComplete, ghostMoveTimer, pacmanMoveTimer))
    {
      var positions', paths' := Enter(layout, moves, granted, ghostPositions, paths);
      PlaceGhosts(positions', paths', st);
    }

    /** Stores the ghosts' new cells and paths and the shown statistics. */
    method PlaceGhosts(positions: map<Ghost, Option<Pos>>, paths: map<Ghost, seq<Pos>>, st: Stats)
      requires Config() && Valid() && 5 <= currentLevel && Keyed(positions, paths)
      requires forall c: Ghost :: positions[c].Some? ==> IsOpen(layout, positions[c].value)
      requires forall c: Ghost :: PathFrom(layout, paths[c], positions[c]) && LoopFreeWalk(layout, paths[c])
      modifies this
      ensures Valid()
      ensures (ghostPositions, ghostPaths, stats) == (positions, paths, st)
      ensures (maze, pacmanPos, currentPath, pacmanDirection, levelCompleteTimer) ==
              old((maze, pacmanPos, currentPath, pacmanDirection, levelCompleteTimer))
      ensures (gameState, currentLevel, showPath, showStats, debugMode, levelComplete, ghostMoveTimer, pacmanMoveTimer) ==
              old((gameState, currentLevel, showPath, showStats, debugMode, levelComplete, ghostMoveTimer, pacmanMoveTimer))
    {
      EnteredOnTrack(layout, currentLevel, pacmanPos, currentPath, positions, paths);
      ghostPositions, ghostPaths, stats := positions, paths, st;
    }

    /** The body of update_ghosts once the timer has fired: the branch of
        the current level runs (GhostsMoved), or nothing happens; caught
        says a level-6 ghost stepped onto Pac-Man and the round started
        over. */
    method MoveGhosts()
      returns (caught: bool, ghost plan: seq<Pos>, ghost after: map<Ghost, seq<Pos>>, ghost n: nat,
               ghost props: seq<Option<Pos>>)
      requires Config() && Valid() && Placed() && gameState == Playing
      modifies this, searchers.Values
      ensures Valid() && (gameState, currentLevel) == old((gameState, currentLevel))
      ensures (showStats, debugMode, ghostMoveTimer, pacmanMoveTimer) == old((showStats, debugMode, ghostMoveTimer, pacmanMoveTimer))
      ensures GhostsMoved(layout, activeGhosts, currentLevel, old(pacmanPos).value, searchers[Blue].expandedNodes,
                          old(ghostPositions), old(ghostPaths), old(currentPath), old(stats),
                          ghostPositions, ghostPaths, currentPath, stats, plan, after, caught, n, props)
      ensures caught ==> FreshRound() && !showPath && !levelComplete
      ensures !caught ==> (maze, pacmanPos, pacmanDirection, levelCompleteTimer, showPath, levelComplete) ==
                          old((maze, pacmanPos, pacmanDirection, levelCompleteTimer, showPath, levelComplete))
      ensures FreshRound() || (pacmanPos == old(pacmanPos) && forall c: Ghost :: StepOrStay(layout, old(ghostPositions)[c], ghostPositions[c]))
    {
      caught, plan, after, n, props := false, [], map[], 0, [];
      if 1 <= currentLevel <= 4 && LevelGhost(currentLevel) in activeGhosts[currentLevel] {
        var c := LevelGhost(currentLevel);
        ghost var before := ghostPositions;
        plan := Chase(c);
        assert forall d: Ghost :: d != c ==> ghostPositions[d] == before[d];
      } else if currentLevel == 5 {
        after := Level5Tick();
      } else if currentLevel == 6 {
        caught, after, n, props := Level6Tick();
      }
    }

    /** update_ghosts: the movement timer gathers dt; below
        GhostMoveDelay nothing else changes, and once it reaches the delay
        it restarts and the ghosts of the current level move (MoveGhosts),
        each either taking one step to a neighbouring cell or staying, unless
        a ghost caught Pac-Man and the round started over. */
    method UpdateGhosts(dt: nat)
      returns (caught: bool, ghost plan: seq<Pos>, ghost after: map<Ghost, seq<Pos>>, ghost n: nat,
               ghost props: seq<Option<Pos>>)
      requires Config() && Valid() && Placed() && gameState == Playing
      modifies this, searchers.Values
      ensures Valid() && (gameState, currentLevel) == old((gameState, currentLevel))
      ensures (showStats, debugMode, pacmanMoveTimer) == old((showStats, debugMode, pacmanMoveTimer))
      ensures old(ghostMoveTimer) + dt < GhostMoveDelay ==>
                ghostMoveTimer == old(ghostMoveTimer) + dt && Round() == old(Round()) && UiOf() == old(UiOf()) && !caught
      ensures old(ghostMoveTimer) + dt >= GhostMoveDelay ==>
                ghostMoveTimer == 0 &&
                GhostsMoved(layout, activeGhosts, currentLevel, old(pacmanPos).value, searchers[Blue].expandedNodes,
                            old(ghostPositions), old(ghostPaths), old(currentPath), old(stats),
                            ghostPositions, ghostPaths, currentPath, stats, plan, after, caught, n, props)
      ensures caught ==> FreshRound() && !showPath && !levelComplete
      ensures !caught ==> (maze, pacmanPos, pacmanDirection, levelCompleteTimer, showPath, levelComplete) ==
                          old((maze, pacmanPos, pacmanDirection, levelCompleteTimer, showPath, levelComplete))
      ensures FreshRound() || (pacmanPos == old(pacmanPos) && forall c: Ghost :: StepOrStay(layout, old(ghostPositions)[c], ghostPositions[c]))
    {
      caught, plan, after, n, props := false, [], map[], 0, [];
      ghostMoveTimer := ghostMoveTimer + dt;
      if ghostMoveTimer >= GhostMoveDelay {
        ghostMoveTimer := 0;
        caught, plan, after, n, props := MoveGhosts();
      }
    }

    /** update_pacman as the first step of a tick, with Pac-Man placed:
        he ends on `stepped`, as PacmanTicked says, and the ghosts, the
        paths, the statistics and the screen fields stay. */
    method PacmanPhase(dt: nat, pressed: set<Direction>) returns (ghost stepped: Pos)
      requires Config() && Valid() && pacmanPos.Some?
      modifies this
      ensures Valid() && pacmanPos == Some(stepped)
      ensures PacmanTicked(layout, currentLevel, old(pacmanMoveTimer), dt, pressed,
                           old(pacmanPos).value, old(pacmanDirection), old(maze), old(levelComplete), old(levelCompleteTimer),
                           stepped, pacmanDirection, maze, levelComplete, levelCompleteTimer)
      ensures pacmanMoveTimer == PacmanTimer(currentLevel, old(pacmanMoveTimer), dt)
      ensures (ghostPositions, ghostPaths, currentPath, stats, ghostMoveTimer) ==
              old((ghostPositions, ghostPaths, currentPath, stats, ghostMoveTimer))
      ensures (gameState, currentLevel, showPath, showStats, debugMode) == old((gameState, currentLevel, showPath, showStats, debugMode))
    {
      UpdatePacman(dt, pressed);
      stepped := pacmanPos.value;
    }

    /** update_ghosts and check_collisions as the rest of a tick, after
        Pac-Man's step: the ghosts move as GhostsMoved says once their timer
        fires, ending on `met` (with paths metPaths, chasing path metPath
        and statistics metStats); hit says an active ghost then shares
        Pac-Man's cell, which starts the round over. */
    method GhostPhase(dt: nat)
      returns (hit: bool, ghost met: map<Ghost, Option<Pos>>, ghost metPaths: map<Ghost, seq<Pos>>,
               ghost metPath: seq<Pos>, ghost metStats: Stats, ghost caught: bool, ghost plan: seq<Pos>,
               ghost after: map<Ghost, seq<Pos>>, ghost n: nat, ghost props: seq<Option<Pos>>)
      requires Config() && Valid() && Placed() && gameState == Playing && LastOrNone(Tagged(layout, PacmanSpawn)).Some?
      modifies this, searchers.Values
      ensures Valid() && (gameState, currentLevel, showStats, debugMode) == old((gameState, currentLevel, showStats, debugMode))
      ensures pacmanMoveTimer == old(pacmanMoveTimer) && ghostMoveTimer == GhostTimer(old(ghostMoveTimer), dt)
      ensures forall c: Ghost :: c in met
      ensures old(ghostMoveTimer) + dt >= GhostMoveDelay ==>
                GhostsMoved(layout, activeGhosts, currentLevel, old(pacmanPos).value, searchers[Blue].expandedNodes,
                            old(ghostPositions), old(ghostPaths), old(currentPath), old(stats),
                            met, metPaths, metPath, metStats, plan, after, caught, n, props)
      ensures old(ghostMoveTimer) + dt < GhostMoveDelay ==>
                !caught && (met, metPaths, metPath, metStats) == old((ghostPositions, ghostPaths, currentPath, stats))
      ensures caught ==> (hit <==> Collides(activeGhosts[currentLevel], met, LastOrNone(Tagged(layout, PacmanSpawn))))
      ensures !caught ==> (hit <==> Collides(activeGhosts[currentLevel], met, old(pacmanPos)))
      ensures hit || caught ==> FreshRound() && !showPath && !levelComplete
      ensures !hit ==> (ghostPositions, ghostPaths, currentPath, stats) == (met, metPaths, metPath, metStats)
      ensures !hit && !caught ==> (maze, pacmanPos, pacmanDirection, levelCompleteTimer, showPath, levelComplete) ==
                                  old((maze, pacmanPos, pacmanDirection, levelCompleteTimer, showPath, levelComplete))
    {
      var catches;
      catches, plan, after, n, props := UpdateGhosts(dt);
      caught := catches;
      met, metPaths, metPath, metStats := ghostPositions, ghostPaths, currentPath, stats;
      assert pacmanPos == if caught then LastOrNone(Tagged(layout, PacmanSpawn)) else old(pacmanPos);
      hit := CheckCollisions();
    }

    /** The update part of one pass of run(): on the game screen, with the
        level not complete, update_pacman, update_ghosts and
        check_collisions run in this order with the same dt; on any other
        screen nothing changes. Pac-Man ends his step on `stepped`; the
        ghosts then move from their cells towards `stepped` as GhostsMoved
        says, ending on `met` (with paths metPaths, chasing path metPath
        and statistics metStats); hit says a collision there started the
        round over. */
    method Tick(dt: nat, pressed: set<Direction>)
      returns (hit: bool, ghost stepped: Pos, ghost met: map<Ghost, Option<Pos>>,
               ghost metPaths: map<Ghost, seq<Pos>>, ghost metPath: seq<Pos>, ghost metStats: Stats,
               ghost caught: bool, ghost plan: seq<Pos>, ghost after: map<Ghost, seq<Pos>>, ghost n: nat,
               ghost props: seq<Option<Pos>>)
      requires Config() && Valid() && LastOrNone(Tagged(layout, PacmanSpawn)).Some?
      requires gameState == Playing && !levelComplete ==> Placed()
      modifies this, searchers.Values
      ensures Valid() && (gameState, currentLevel, showStats, debugMode) == old((gameState, currentLevel, showStats, debugMode))
      ensures old(gameState) != Playing || old(levelComplete) ==> unchanged(this) && !hit && !caught
      ensures forall c: Ghost :: c in met
      ensures old(gameState) == Playing && !old(levelComplete) ==>
                pacmanMoveTimer == PacmanTimer(currentLevel, old(pacmanMoveTimer), dt) &&
                ghostMoveTimer == GhostTimer(old(ghostMoveTimer), dt) &&
                stepped == (if PacmanSteps(layout, currentLevel, old(pacmanMoveTimer), dt, old(pacmanPos).value, pressed)
                            then Target(old(pacmanPos).value, pressed) else old(pacmanPos).value)
      ensures old(gameState) == Playing && !old(levelComplete) && old(ghostMoveTimer) + dt >= GhostMoveDelay ==>
                GhostsMoved(layout, activeGhosts, currentLevel, stepped, searchers[Blue].expandedNodes,
                            old(ghostPositions), old(ghostPaths), old(currentPath), old(stats),
                            met, metPaths, metPath, metStats, plan, after, caught, n, props)
      ensures old(ghostMoveTimer) + dt < GhostMoveDelay ==>
                !caught && (met, metPaths, metPath, metStats) == old((ghostPositions, ghostPaths, currentPath, stats))
      ensures old(gameState) == Playing && !old(levelComplete) && caught ==>
                (hit <==> Collides(activeGhosts[currentLevel], met, LastOrNone(Tagged(layout, PacmanSpawn))))
      ensures old(gameState) == Playing && !old(levelComplete) && !caught ==>
                (hit <==> Collides(activeGhosts[currentLevel], met, Some(stepped)))
      ensures hit || caught ==> FreshRound() && !showPath && !levelComplete
      ensures !hit ==> (ghostPositions, ghostPaths, currentPath, stats) == (met, metPaths, metPath, metStats)
      ensures old(gameState) == Playing && !old(levelComplete) && !hit && !caught ==>
                pacmanPos == Some(stepped) && showPath == old(showPath) &&
                PacmanTicked(layout, currentLevel, old(pacmanMoveTimer), dt, pressed,
                             old(pacmanPos).value, old(pacmanDirection), old(maze), old(levelComplete), old(levelCompleteTimer),
                             stepped, pacmanDirection, maze, levelComplete, levelCompleteTimer)
    {
      hit, stepped, caught, plan, after, n, props := false, Pos(0, 0), false, [], map[], 0, [];
      met, metPaths, metPath, metStats := ghostPositions, ghostPaths, currentPath, stats;
      if gameState == Playing && !levelComplete {
        stepped := PacmanPhase(dt, pressed);
        hit, met, metPaths, metPath, metStats, caught, plan, after, n, props := GhostPhase(dt);
      }
    }
  }
}
