# Chase-PacMan core in Dafny

A verified model of the chasing engine of Chase-PacMan, a Pac-Man game in
which ghosts hunt Pac-Man through a grid maze using search algorithms.
The model covers three parts:

- **Grid primitives.** The maze is a grid of integer tags: 0 empty, 1 wall,
  2 food, 4 ghost spawn, 5 Pac-Man spawn. The primitives are move validity,
  the four-way neighbour list (Up, Right, Down, Left), Manhattan distance,
  the spawn scan and the screen-centring offset.
- **Searches.**
  - Breadth-first search keeps a FIFO queue and marks a cell visited when
    it is enqueued. It tests for the goal when a cell is dequeued, and
    rebuilds the path from a parent map. Its expanded-node counter lives
    on the search object and is never reset.
  - The depth-first, uniform-cost and A* searches are still placeholders.
    They return an empty path and the current counters.
- **Per-tick game state machine.** The game object has a menu,
  level-select and game screen. The model covers:
  - the ghost timer, and ghost movement for each level: one chasing ghost
    on levels 1 to 4, and all ghosts with conflict arbitration on levels
    5 and 6;
  - Pac-Man's keyboard steering and food eating on level 6;
  - the food check, the collision check and the reset of a round;
  - the key-press state machine of the screens.

Modules, one per file:

- `grid.dfy` (`Grid`): utils/game_utils.py.
- `search.dfy` (`Search`): algorithms/search_algorithms.py. `Searcher` is
  a class with the `expandedNodes` counter as a field.
- `rules.dfy` (`Rules`): the decision rules inside game.py that do not
  touch the game object. These are the level-5 and level-6 arbitration,
  the arrow-key priority and the screen machine.
- `ghosts.dfy` (`Ghosts`): the value-level steps of update_ghosts. These
  are the paths, one search call per ghost, the ordered proposals and the
  commit of granted moves.
- `game.dfy` (`Game`): the `PacmanGame` class with the fields game.py
  updates in place, and one method per operation.

Two grids are kept apart, as in the program:

- `layout` is the constant layout. Move validity, neighbours, spawns and
  searches read it.
- `maze` is the game's own copy. Pac-Man eats from it, and reset_game
  restores it from the layout.

The invariant `FoodOnlyEaten(layout, maze)` says the two grids differ
only by eaten food. With that invariant, move validity agrees on both
grids (`ValidMoveIgnoresFood`).

The game has two invariants:

- `PacmanGame.Valid()`:
  - the level stays in `[1, levelCount]`;
  - Pac-Man and the ghosts stand on open cells;
  - every path is a loop-free walk, so each step is to an adjacent open
    cell and no cell repeats;
  - while a game is on screen, each ghost's path starts at that ghost.
- `PacmanGame.Config()`: the configuration. Each level's active-ghost list
  has no duplicates, and each ghost has a search object of its own
  strategy.

Three configuration constants are constructor parameters: `ACTIVE_GHOSTS`,
the number of levels `len(LEVEL_DESCRIPTIONS)` and the screen and cell
sizes. The ghost and Pac-Man delays are 0.2 s and 0.15 s in game.py. They
are 200 ms and 150 ms here, and `dt` is a whole number of milliseconds.

## Model

| member | source | states |
|---|---|---|
| Grid.ManhattanIsMetric | utils/game_utils.py:65-67 | Manhattan distance is symmetric, is 0 exactly on equal points, and satisfies the triangle inequality (it is a `nat`, so never negative) |
| Grid.GetNeighbors | utils/game_utils.py:53-63 | the loop over the four directions returns exactly `Neighbors(g, (x, y))`: the candidates Up, Right, Down, Left that are valid moves, in that order |
| Grid.AroundIsUnitDistance | utils/game_utils.py:56-59 | the four direction candidates are exactly the cells at Manhattan distance 1 |
| Grid.OpenOnlyMembers | utils/game_utils.py:58-61 | the filter keeps a candidate exactly when it is a valid move (in bounds and not a wall) |
| Grid.NeighborsAreAdjacent | utils/game_utils.py:53-63 | a cell is in the neighbour list if and only if it is a valid move at Manhattan distance exactly 1 |
| Grid.NeighborsInDirectionOrder | utils/game_utils.py:56-61 | at most four neighbours; each is the candidate of its own direction, and the direction ranks strictly increase, so the list is an order-preserving subsequence of Up, Right, Down, Left with no cell twice |
| Grid.NeighborsSymmetric | utils/game_utils.py:53-63 | between two open cells, q is a neighbour of p exactly when p is a neighbour of q |
| Grid.TaggedExactly | utils/game_utils.py:27-31 | the row-major scan lists exactly the cells carrying a tag, each once, in strictly increasing row-major order |
| Grid.SpawnGhostsMeaning | utils/game_utils.py:26-41 | a ghost is placed exactly when there are enough ghost-spawn cells for its rank (blue first, then pink, orange, red); a placed ghost stands on a tag-4 cell; no two ghosts share a cell; a ghost of lower rank gets the earlier cell in row-major order |
| Grid.ScanRow | utils/game_utils.py:28-41 | scanning one row keeps Pac-Man on the last tag-5 cell seen so far, counts the tag-4 cells, and gives the k-th of them to the k-th ghost (k up to 4) |
| Grid.FindInitialPositions | utils/game_utils.py:16-43 | Pac-Man is on the last tag-5 cell in row-major order (None if there is none); the ghosts are placed as `SpawnGhosts` says, further spawns ignored |
| Grid.MazeOffset | utils/game_utils.py:8-14 | each offset leaves a margin on the far side equal to it or one more, which pins it to the floor of half the free space |
| Grid.FoodCountPositive | game.py:415-420 | the number of food cells is positive exactly when some row contains a food cell |
| Grid.FoodCountEat | game.py:408-409 | turning a food cell into an empty cell lowers the food count by exactly one |
| Grid.ValidMoveIgnoresFood | utils/game_utils.py:45-51 | on a maze that differs from the layout only by eaten food, a move is valid exactly when it is valid on the layout |
| Grid.EatKeepsFoodOnlyEaten | game.py:408-409 | eating a food cell keeps the maze a copy of the layout with only food removed |
| Search.Searcher.constructor | algorithms/search_algorithms.py:23-28 | a new search object has its strategy and an expanded-node counter of zero |
| Search.Searcher.Search | algorithms/search_algorithms.py:63-150 | for BFS the path is a shortest-path result and the counter grows by at least one and at most the number of cells; for DFS, UCS and A* the path is empty and the counter is unchanged; the stats are the counter after the call |
| Search.Searcher.BreadthFirst | algorithms/search_algorithms.py:63-114 | the path is empty exactly when the goal is unreachable; otherwise it is a loop-free walk of adjacent open cells from start to goal, no longer than any other such walk; the counter grows by at least 1 and at most the number of open cells plus the start; start == goal gives `[start]` after one expansion |
| Search.FrontierInit | algorithms/search_algorithms.py:75-77 | the initial queue, visited set and parent map (start with no parent) satisfy the BFS loop invariant |
| Search.DequeueStep | algorithms/search_algorithms.py:80-86 | dequeuing a cell that is not the goal keeps the invariant: the queue stays in distance order and every visited cell has a parent link one level closer |
| Search.EnqueueStep | algorithms/search_algorithms.py:90-93 | enqueuing an unvisited neighbour with the current cell as parent keeps the invariant and shrinks the set of unvisited cells by one, the measure that ends the loop |
| Search.FinishStep | algorithms/search_algorithms.py:89-93 | once every neighbour of the dequeued cell is visited, the invariant holds again for the next cell |
| Search.ExhaustedStep | algorithms/search_algorithms.py:80-100 | when the queue runs dry without the goal, the goal is not in the parent map, differs from the start, and is unreachable |
| Search.FoundStep | algorithms/search_algorithms.py:84-104 | when the goal is dequeued, the reversed parent chain is a shortest path result |
| Search.ReversedChainIsWalk | algorithms/search_algorithms.py:101-104 | a parent chain from goal to start, one level per step, reverses to a walk from start to goal with no repeated cell |
| Search.EnqueueNeighbors | algorithms/search_algorithms.py:88-93 | after the neighbour loop every neighbour of the current cell is visited, the invariant holds, and queue length plus unvisited cells is unchanged |
| Search.EnqueueAll | algorithms/search_algorithms.py:89-93 | the loop over the neighbour list marks every listed cell visited and keeps the invariant |
| Search.EnqueueOne | algorithms/search_algorithms.py:90-93 | one unvisited neighbour is appended, marked visited and given its parent; visited grows by exactly that cell |
| Search.ReconstructPath | algorithms/search_algorithms.py:96-103 | following parent entries from the goal ends at the start after exactly dist(goal) + 1 cells, one level down per step, each cell entered from the next |
| Search.PathTo | algorithms/search_algorithms.py:95-104 | the path returned is a shortest path result, and `[start]` when start == goal |
| Rules.DistinctIffSetSize | game.py:535-536 | the size test `len(positions) == len(set(positions))` holds exactly when the proposed cells are pairwise distinct |
| Rules.Level5IsFirstClaim | game.py:534-545 | on both branches of the level-5 rule a proposing ghost moves exactly when no earlier proposal names its cell |
| Rules.Level5AllMoveIffDistinct | game.py:535-539 | every proposing ghost moves exactly when the proposed cells are pairwise distinct |
| Rules.Level5Exclusive | game.py:540-545 | no two ghosts that move on level 5 move onto the same cell |
| Rules.Level5FirstClaimWins | game.py:540-545 | every proposed cell is taken by the earliest ghost that proposed it |
| Rules.Scan6Meaning | game.py:548-581 | the scan stops exactly when some ghost proposes Pac-Man's cell, at the first such ghost; otherwise the committed cells are exactly the proposed ones and a ghost with a proposal is blocked exactly when an earlier ghost proposed the same cell |
| Rules.Level6Exclusive | game.py:549-574 | no two ghosts are committed to one cell in a level-6 tick, and no committed cell is Pac-Man's |
| Rules.FirstPressedMeaning | game.py:386-400 | the key loop yields no direction exactly when no listed key is pressed, and otherwise the first pressed one in list order |
| Rules.ChosenDirectionIsFirstPressed | game.py:386-400 | Pac-Man tries no direction exactly when no arrow key is pressed; otherwise a pressed one, with every key earlier in Right, Down, Left, Up order not pressed |
| Rules.HandleKeyInvariants | game.py:604-641 | the level stays in [1, levelCount]; the game screen is entered only through a press that resets the game; the level changes only on the level-select screen or when a completed game moves on; a reset press clears the path display and the completion flag |
| Rules.HandleAllKeepsLevel | game.py:600-641 | any batch of events keeps the level in [1, levelCount] |
| Ghosts.WalkIsLoopFree | algorithms/search_algorithms.py:96-104 | a walk with no repeated cell, as breadth-first search returns, is a loop-free walk |
| Ghosts.PlannedPathFrom | game.py:557 | a path a search returns for a ghost starts at the ghost and is a loop-free walk |
| Ghosts.PopKeepsPath | game.py:449-452 | after the ghost steps to the second cell of its path and the head is popped, the path starts at the new cell, which is open |
| Ghosts.PickSound | game.py:519-532 | each entry of new_positions is the proposal of an active ghost |
| Ghosts.PickComplete | game.py:519-532 | every active ghost with a proposal has its entry in new_positions |
| Ghosts.PickDistinct | game.py:519-532 | new_positions names no ghost twice |
| Ghosts.Replan | game.py:523-526 | the ghost's own search object is called only when its path has at most one cell; a longer path is kept and no stats come back; the search's counter moves only for BFS |
| Ghosts.PlanStep | game.py:521-532 | one round of the level-5/6 planning loop keeps what the loop knows: the ghosts so far are replanned, each path starts at its ghost, and the proposals are those of the paths |
| Ghosts.EnterMoves | game.py:537-586 | entering the granted moves in order puts each granted ghost on its cell with its path's head dropped, and leaves every other ghost and path as it was |
| Ghosts.CommitKeepsTrack | game.py:537-586 | after a commit every path still starts at its ghost and is a loop-free walk, every ghost is on an open cell, and each ghost stayed or took one step to an adjacent cell |
| Ghosts.Enter | game.py:537-586 | the commit of EnterMoves with CommitKeepsTrack's guarantees |
| Ghosts.ScanGhost | game.py:561-581 | one ghost of the level-6 loop: no proposal means it stays; a proposal already committed blocks it and clears its path; a fresh proposal on Pac-Man stops the loop; any other proposal is committed and recorded as a move |
| Ghosts.CommitSettles | game.py:583-586 | a commit whose granted ghosts are exactly those with verdict Move settles each ghost by its verdict |
| Ghosts.Level5Settles | game.py:534-545 | with proposals picked in order and granted first-claim-wins, a ghost is granted exactly when no earlier active ghost proposed its cell, and no inactive ghost is granted |
| Ghosts.Level5Settled | game.py:516-545 | after a level-5 commit a moving ghost is on its path's second cell with the head popped, and a blocked or idle ghost keeps its cell and its path |
| Ghosts.MovesGranted | game.py:583-586 | with every committed step entered, exactly the ghosts with verdict Move move |
| Ghosts.Level6Ready | game.py:547-582 | a level-6 loop that never reached Pac-Man gives moves each backed by its ghost's path, no ghost twice, paths starting at their ghosts, and verdicts equal to their per-ghost definition |
| Ghosts.Level6Settled | game.py:547-586 | after a level-6 commit a moving ghost is on its path's second cell with the head popped, a blocked ghost keeps its cell and has its path cleared, and an idle ghost keeps both |
| Game.Steer | game.py:386-400 | the key loop gives the target and direction of the first pressed key; the target is Pac-Man's own cell exactly when no key is pressed, and otherwise at distance 1 |
| Game.FreshRoundValid | game.py:87-127 | the state reset_game builds satisfies the game invariant |
| Game.PacmanGame.constructor | game.py:14-85 | menu screen on level 1, a fresh round, every display off, both timers at zero, the maze offset of `MazeOffset`, one fresh search object per ghost with a counter of zero |
| Game.PacmanGame.NewSearchers | game.py:73-78 | four distinct fresh search objects, BFS, DFS, UCS and A* for blue, pink, orange and red, with counters at zero |
| Game.PacmanGame.ResetGame | game.py:87-127 | the maze is the layout again, Pac-Man and ghosts are on their spawn cells, paths, stats and direction start over, the path display and completion flag are cleared; screen, level, timers and search objects are untouched |
| Game.PacmanGame.HasFoodLeft | game.py:415-420 | the row scan answers true exactly when some cell of the maze is food |
| Game.PacmanGame.CheckCollisions | game.py:588-598 | true exactly when some active ghost stands on Pac-Man's cell, in which case the round is reset; otherwise nothing changes |
| Game.PacmanGame.HandleKeyPress | game.py:604-641 | a key press moves the screen fields as `HandleKey` says; RETURN on level select or in a completed game starts a fresh round; any other press leaves the round alone |
| Game.PacmanGame.StartRound | game.py:616-639 | the game screen on the given level with a fresh round, the path display and completion flag cleared |
| Game.PacmanGame.HandleEvents | game.py:600-641 | the loop keeps running exactly when no event is QUIT or Q; the screen fields end as `HandleAll` says; the round is either unchanged or fresh |
| Game.PacmanGame.EatAt | game.py:407-413 | food on the entered cell becomes empty (the food count drops by one), and the level is complete once no food is left; any other cell leaves maze and flags alone |
| Game.PacmanGame.MovePacman | game.py:377-413 | Pac-Man enters the target of the pressed keys unless it is a wall, turning that way and eating there; a blocked move changes nothing; ghosts, paths and stats are untouched |
| Game.PacmanGame.UpdatePacman | game.py:368-413 | only level 6 moves Pac-Man; its timer gathers dt, and once it reaches 150 ms it restarts and Pac-Man takes the step MovePacman describes; below the delay nothing else changes |
| Game.PacmanGame.ChasePlan | game.py:434-446 | a chasing path of at most one cell is replaced by what a fresh search object of the ghost's strategy returns; blue's shown count is then at least 1 and at most the cells it can reach, and the other strategies show zero; a longer path and the shown stats are kept |
| Game.PacmanGame.Chase | game.py:431-514 | levels 1 to 4 (`ChaseMoved`): the level's ghost is replanned only when its path has at most one cell; with a path of more than one cell it steps to the second cell and the path loses its head, otherwise it stays; after a fresh search blue's shown count is bounded by the cells it can reach and the other strategies show zero; nothing else changes |
| Game.PacmanGame.PlanAll | game.py:519-532 | each active ghost in order is replanned with its own search object, every path still starts at its ghost, the proposals are the second cells of the paths in order, and blue's stats are shown when blue searched |
| Game.PacmanGame.ReplanGhost | game.py:557 | the search call uses ghost c's own search object, and no other ghost's counter changes |
| Game.PacmanGame.Level5Tick | game.py:516-545 | update_ghosts on level 5 (`Level5Moved`): every active ghost is replanned, the level-5 rule decides who moves, each ghost ends as its verdict says and stayed or took one step, and blue's stats are shown when blue searched |
| Game.PacmanGame.Level6Plan | game.py:548-581 | the level-6 loop either stops at the first ghost whose fresh proposal is Pac-Man's cell, or scans every active ghost, with verdicts, committed cells, moves and cleared paths as `Scan6` says |
| Game.PacmanGame.Level6Round | game.py:552-581 | one ghost of the level-6 loop: replanned with its own search object, blue's stats taken when it searched, and its proposal scanned as ScanGhost says |
| Game.PacmanGame.Level6Tick | game.py:547-586 | update_ghosts on level 6 (`Level6Moved`): a ghost stepping onto Pac-Man resets the round and commits nothing; otherwise every ghost ends as its verdict says, blocked ghosts with cleared paths, and each stayed or took one step |
| Game.PacmanGame.Level6Commit | game.py:583-586 | the committed steps of a level-6 loop are entered in order, each ghost settles by its verdict, and the shown stats are the loop's |
| Game.PacmanGame.EnterGranted | game.py:537-586 | the granted moves are entered in order, each ghost stays or takes one step, and the invariant holds |
| Game.PacmanGame.MoveGhosts | game.py:431-586 | the branch of the current level runs as `GhostsMoved` states it: on levels 1 to 4 the level's active ghost chases as `ChaseMoved` says, on level 5 every ghost settles as `Level5Moved` says, on level 6 as `Level6Moved` says, and otherwise nothing moves; `caught` (level 6 only) means the round was reset; without it Pac-Man, the maze and the flags are untouched, and each ghost stayed or took one step |
| Game.PacmanGame.UpdateGhosts | game.py:422-586 | the ghost timer gathers dt; below 200 ms nothing else changes and no ghost catches Pac-Man; once it reaches the delay it restarts at zero and the ghosts move as `GhostsMoved` says, with the round reset exactly in the caught case |
| Game.PacmanGame.PacmanPhase | game.py:368-413 | update_pacman at the start of a tick: Pac-Man ends on `stepped` as `PacmanTicked` says (the target cell, turned and eating, exactly when `PacmanSteps`), his timer is `PacmanTimer`, and ghosts, paths, stats and screen fields stay |
| Game.PacmanGame.GhostPhase | game.py:422-598 | update_ghosts then check_collisions: the ghost timer is `GhostTimer`; once it fires the ghosts move as `GhostsMoved` says onto `met`; a hit happens exactly when an active ghost of `met` is on Pac-Man's cell (his spawn cell after a level-6 catch) and resets the round; without hit or catch Pac-Man, the maze and the flags are untouched |
| Game.PacmanGame.Tick | game.py:660-663 | on the game screen with the level not complete: both timers advance as `PacmanTimer` and `GhostTimer` say; Pac-Man steps to `stepped` as `PacmanSteps` decides; the ghosts then move towards `stepped` as `GhostsMoved` says; a collision with an active ghost, or a level-6 catch, resets the round; otherwise Pac-Man's cell, direction, the maze and the completion flag end as `PacmanTicked` says. The screen, the level and the stats and debug displays stay. On any other screen, or once the level is complete, nothing changes |

## Left out

- Rendering is not modelled: the `draw_*` methods, fonts, the display, the frame clock and the body of `run` apart from its update step. These are user-interface calls into pygame.
- `search_time` and `memory_usage` are not modelled. They sample the wall clock and process memory. `Search.Stats` keeps only `expanded_nodes`.
- `euclidean_distance` is left out. It is floating point and nothing in the core calls it.
- Pac-Man's mouth animation (`pacman_animation_time`) is left out. It is floating-point animation state.
- Keys are inputs. `pygame.key.get_pressed` becomes a set of pressed directions. Polled events become a sequence of `Event` values over an abstract `Key` type.
- `dt` and the two delays are whole milliseconds, not floating-point seconds.
- Searches read the constant layout. The program passes its food-eaten copy to the search objects, but they never read it: they use `get_neighbors`, which reads the constant layout. The rebinding of the maze global by reset_game becomes the separate `maze` field.
- Some states make the program raise an exception. The model turns these into preconditions instead of modelling the exception:
  - Game.PacmanGame.Chase, Level5Tick, Level6Tick: require `Placed()`, meaning Pac-Man and every active ghost have a cell. The program raises when `tuple(None)` is taken.
  - Game.PacmanGame.CheckCollisions: requires Pac-Man to be placed whenever an active ghost is.
  - Game.PacmanGame.Tick, GhostPhase: require the layout to have a Pac-Man spawn, so that Pac-Man is placed again after a reset.
  - Game.PacmanGame.UpdatePacman: requires Pac-Man to be placed on level 6.
- Grid.WellFormed: the layout is assumed non-empty and rectangular. A ragged layout makes is_valid_move index out of range, because utils/game_utils.py takes the width from row 0.
- Game.PacmanGame.Config: each `ACTIVE_GHOSTS` list is assumed to name each ghost at most once. The configuration module that defines the list is not part of this model.
- The constants module (`ACTIVE_GHOSTS`, `LEVEL_DESCRIPTIONS`, screen and cell sizes, `MAZE_LAYOUT`) is not part of this model. Its values are constructor parameters.
- main.py is not part of this model. It only builds the game and calls `run`.
- Search.Searcher.BreadthFirst: the counter is bounded (at least 1, at most the open cells plus the start) rather than given as an exact number. The loop invariant ties it to the number of dequeued cells.
- Search.Searcher.Search: for BFS the shown `expanded_nodes` is bounded as for BreadthFirst, not given as the exact number of dequeued cells.
- Game.PacmanGame.ChasePlan: blue's shown count after a fresh search is bounded as for BreadthFirst, not given as the exact number of dequeued cells.
- Game.PacmanGame.Chase: the same bound on blue's shown count, through `ChaseMoved`.
- Three behaviours of the code that the model keeps as written:
  - On level 5 a blocked ghost keeps its path. Only level 6 clears it.
  - A ghost reaching Pac-Man on level 6 resets the round. It is not reported as a separate capture event.
  - The comment in update_pacman speaks of "last pressed key wins". The code takes the first pressed key in Right, Down, Left, Up order.
