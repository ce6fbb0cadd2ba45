// The decision rules inside game.py that do not touch the game object:
// how ghosts that propose the same cell are arbitrated on levels 5 and 6,
// which pressed arrow key steers Pac-Man, and how a key press moves the
// menu / level-select / game screens.

module Rules {
  import opened Grid
  import opened Search

  // ---------------------------------------------------------------------
  // Level 5: all proposals distinct, or else first claim wins.

  /** The set(...) of a list of cells. */
  function Elems(s: seq<Pos>): set<Pos> {
    set i | 0 <= i < |s| :: s[i]
  }

  /** Which proposing ghosts move on level 5, in proposal order, as
      update_ghosts decides it: when the proposed cells are pairwise
      distinct (the list and its set have the same size) everybody moves;
      otherwise a ghost moves when no earlier proposal names its cell. */
  function Level5Grants(cells: seq<Pos>): (r: seq<bool>)
    ensures |r| == |cells|
  {
    if |Elems(cells)| == |cells| then seq(|cells|, i => true)
    else seq(|cells|, i requires 0 <= i < |cells| => cells[i] !in cells[..i])
  }

  /** The size test of the source is the distinctness of the list. */
  lemma {:induction false} DistinctIffSetSize(s: seq<Pos>)
    ensures |Elems(s)| <= |s|
    ensures |Elems(s)| == |s| <==> Distinct(s)
    decreases |s|
  {
    if |s| > 0 {
      var s', x := s[..|s| - 1], s[|s| - 1];
      DistinctIffSetSize(s');
      assert Elems(s) == Elems(s') + {x} by {
        forall p | p in Elems(s) ensures p in Elems(s') + {x} {
          var i :| 0 <= i < |s| && s[i] == p;
          if i < |s| - 1 { assert s'[i] == p; }
        }
        forall p | p in Elems(s') ensures p in Elems(s) {
          var i :| 0 <= i < |s'| && s'[i] == p;
          assert s[i] == p;
        }
      }
      if x in Elems(s') {
        var i :| 0 <= i < |s'| && s'[i] == x;
        assert s[i] == s[|s| - 1];
      } else if Distinct(s') {
        forall i, j | 0 <= i < j < |s| ensures s[i] != s[j] {
          if j == |s| - 1 { assert s[i] == s'[i]; } else { assert s[i] == s'[i] && s[j] == s'[j]; }
        }
      } else {
        var i, j :| 0 <= i < j < |s'| && s'[i] == s'[j];
        assert s[i] == s[j];
      }
    }
  }

  /** Both branches of the level-5 rule are the first-claim rule. */
  lemma Level5IsFirstClaim(cells: seq<Pos>)
    ensures forall i :: 0 <= i < |cells| ==> (Level5Grants(cells)[i] <==> cells[i] !in cells[..i])
  {
    DistinctIffSetSize(cells);
  }

  /** No two ghosts that move on level 5 move onto the same cell. */
  lemma Level5Exclusive(cells: seq<Pos>)
    ensures forall i, j :: 0 <= i < j < |cells| && Level5Grants(cells)[i] && Level5Grants(cells)[j] ==>
              cells[i] != cells[j]
  {
    var r := Level5Grants(cells);
    Level5IsFirstClaim(cells);
    forall i, j | 0 <= i < j < |cells| && r[i] && r[j] ensures cells[i] != cells[j] {
      assert cells[..j][i] == cells[i];
    }
  }

  /** Every proposed cell on level 5 is taken, by the first ghost that
      proposed it. */
  lemma Level5FirstClaimWins(cells: seq<Pos>, i: nat)
    requires i < |cells|
    ensures exists j :: 0 <= j <= i && Level5Grants(cells)[j] && cells[j] == cells[i]
  {
    Level5IsFirstClaim(cells);
    FirstClaimant(cells, i);
    var j :| 0 <= j <= i && cells[j] !in cells[..j] && cells[j] == cells[i];
    assert Level5Grants(cells)[j];
  }

  /** Everybody moves on level 5 exactly when the proposals are pairwise
      distinct. */
  lemma Level5AllMoveIffDistinct(cells: seq<Pos>)
    ensures (forall i :: 0 <= i < |cells| ==> Level5Grants(cells)[i]) <==> Distinct(cells)
  {
    var r := Level5Grants(cells);
    DistinctIffSetSize(cells);
    if forall i :: 0 <= i < |cells| ==> r[i] {
      Level5IsFirstClaim(cells);
      forall i, j | 0 <= i < j < |cells| ensures cells[i] != cells[j] {
        assert cells[..j][i] == cells[i];
      }
    }
  }

  /** The earliest proposal of a cell is granted. */
  lemma {:induction false} FirstClaimant(cells: seq<Pos>, i: nat)
    requires i < |cells|
    ensures exists j :: 0 <= j <= i && cells[j] !in cells[..j] && cells[j] == cells[i]
    decreases i
  {
    if cells[i] in cells[..i] {
      var k :| 0 <= k < i && cells[..i][k] == cells[i];
      FirstClaimant(cells, k);
    }
  }

  // ---------------------------------------------------------------------
  // Level 6: commit in order, block a cell already committed, reset on
  // reaching Pac-Man.

  /** The fate of one active ghost on a level-6 tick: it had no step to
      propose, its step was committed, or its cell was already taken (its
      path is then cleared). */
  datatype Verdict = Stay | Move | Blocked

  /** A level-6 tick either stops at the first ghost that steps onto
      Pac-Man (the game is reset) or commits the verdicts, with the set of
      committed cells (occupied_positions). */
  datatype Outcome = Caught(at: nat) | Commit(verdicts: seq<Verdict>, occupied: set<Pos>)

  /** The level-6 loop of update_ghosts over the proposals of the active
      ghosts in order (None: no path longer than one cell). */
  function Scan6(props: seq<Option<Pos>>, pacman: Pos): (o: Outcome)
    ensures o.Commit? ==> |o.verdicts| == |props|
    ensures o.Caught? ==> o.at < |props|
  {
    if |props| == 0 then Commit([], {})
    else
      var o := Scan6(props[..|props| - 1], pacman);
      if o.Caught? then o
      else match props[|props| - 1]
        case None => Commit(o.verdicts + [Stay], o.occupied)
        case Some(p) =>
          if p in o.occupied then Commit(o.verdicts + [Blocked], o.occupied)
          else if p == pacman then Caught(|props| - 1)
          else Commit(o.verdicts + [Move], o.occupied + {p})
  }

  /** The verdict of the ghost at index i, stated without the loop: a
      ghost with a proposal is blocked exactly when an earlier ghost
      proposed the same cell. */
  function VerdictAt(props: seq<Option<Pos>>, i: nat): Verdict
    requires i < |props|
  {
    if props[i].None? then Stay
    else if props[i] in props[..i] then Blocked
    else Move
  }

  /** The level-6 loop against its reference: the game is reset exactly
      when some ghost proposes Pac-Man's cell, at the first such ghost;
      otherwise the committed cells are exactly the proposed ones and each
      verdict is VerdictAt. */
  lemma {:induction false} Scan6Meaning(props: seq<Option<Pos>>, pacman: Pos)
    ensures Scan6(props, pacman).Caught? <==> Some(pacman) in props
    ensures Scan6(props, pacman).Caught? ==>
              props[Scan6(props, pacman).at] == Some(pacman) && Some(pacman) !in props[..Scan6(props, pacman).at]
    ensures Scan6(props, pacman).Commit? ==>
              (forall p :: p in Scan6(props, pacman).occupied <==> Some(p) in props) &&
              (forall i :: 0 <= i < |props| ==> Scan6(props, pacman).verdicts[i] == VerdictAt(props, i))
    decreases |props|
  {
    if |props| > 0 {
      var init, last := props[..|props| - 1], props[|props| - 1];
      assert props == init + [last];
      Scan6Meaning(init, pacman);
      var o := Scan6(init, pacman);
      if o.Caught? {
        assert props[..o.at] == init[..o.at];
        assert props[o.at] == init[o.at];
      } else {
        var r := Scan6(props, pacman);
        if r.Commit? {
          forall i | 0 <= i < |props| ensures r.verdicts[i] == VerdictAt(props, i) {
            if i < |init| {
              assert props[..i] == init[..i];
              assert r.verdicts[i] == o.verdicts[i];
            } else {
              assert props[..i] == init;
            }
          }
        } else {
          assert props[..|init|] == init;
        }
      }
    }
  }

  /** No two ghosts are committed to one cell in a level-6 tick, and no
      committed cell is Pac-Man's. */
  lemma Level6Exclusive(props: seq<Option<Pos>>, pacman: Pos)
    requires Scan6(props, pacman).Commit?
    ensures forall i, j ::
              (0 <= i < j < |props| && Scan6(props, pacman).verdicts[i] == Move &&
               Scan6(props, pacman).verdicts[j] == Move) ==> props[i] != props[j]
    ensures forall i :: 0 <= i < |props| && Scan6(props, pacman).verdicts[i] == Move ==> props[i] != Some(pacman)
  {
    Scan6Meaning(props, pacman);
    var vs := Scan6(props, pacman).verdicts;
    forall i, j | 0 <= i < j < |props| && vs[i] == Move && vs[j] == Move ensures props[i] != props[j] {
      assert VerdictAt(props, j) == Move;
      assert props[..j][i] == props[i];
    }
  }

  // ---------------------------------------------------------------------
  // Pac-Man's steering (level 6).

  /** The RIGHT, DOWN, LEFT, UP direction constants. */
  datatype Direction = Right | Down | Left | Up

  /** The order in which update_pacman tests the arrow keys. */
  const KeyPriority: seq<Direction> := [Right, Down, Left, Up]

  /** The (dx, dy) of a direction, y growing downwards. */
  function Delta(d: Direction): Pos {
    match d
    case Right => Pos(1, 0)
    case Down => Pos(0, 1)
    case Left => Pos(-1, 0)
    case Up => Pos(0, -1)
  }

  function Step(p: Pos, d: Direction): Pos {
    Pos(p.x + Delta(d).x, p.y + Delta(d).y)
  }

  /** The first direction of `order` whose key is pressed. */
  function FirstPressed(order: seq<Direction>, pressed: set<Direction>): Option<Direction> {
    if |order| == 0 then None
    else if order[0] in pressed then Some(order[0])
    else FirstPressed(order[1..], pressed)
  }

  /** The direction update_pacman tries on a movement tick. */
  function ChosenDirection(pressed: set<Direction>): Option<Direction> {
    FirstPressed(KeyPriority, pressed)
  }

  lemma {:induction false} FirstPressedMeaning(order: seq<Direction>, pressed: set<Direction>)
    ensures FirstPressed(order, pressed).None? <==> forall i :: 0 <= i < |order| ==> order[i] !in pressed
    ensures FirstPressed(order, pressed).Some? ==>
              exists k :: 0 <= k < |order| && order[k] == FirstPressed(order, pressed).value && order[k] in pressed &&
                          (forall i :: 0 <= i < k ==> order[i] !in pressed)
    decreases |order|
  {
    if |order| > 0 && order[0] !in pressed {
      FirstPressedMeaning(order[1..], pressed);
      var r := FirstPressed(order, pressed);
      if r.Some? {
        var k :| 0 <= k < |order[1..]| && order[1..][k] == r.value && order[1..][k] in pressed &&
                 (forall i :: 0 <= i < k ==> order[1..][i] !in pressed);
        assert order[k + 1] == r.value;
        forall i | 0 <= i < k + 1 ensures order[i] !in pressed {
          if i > 0 { assert order[i] == order[1..][i - 1]; }
        }
      } else {
        forall i | 0 <= i < |order| ensures order[i] !in pressed {
          if i > 0 { assert order[i] == order[1..][i - 1]; }
        }
      }
    }
  }

  /** Pac-Man tries no direction exactly when no arrow key is pressed;
      otherwise the pressed key first in Right, Down, Left, Up order. */
  lemma ChosenDirectionIsFirstPressed(pressed: set<Direction>)
    ensures ChosenDirection(pressed).None? <==> pressed == {}
    ensures ChosenDirection(pressed).Some? ==>
              ChosenDirection(pressed).value in pressed &&
              (ChosenDirection(pressed).value != Right ==> Right !in pressed) &&
              (ChosenDirection(pressed).value == Left || ChosenDirection(pressed).value == Up ==> Down !in pressed) &&
              (ChosenDirection(pressed).value == Up ==> Left !in pressed)
  {
    FirstPressedMeaning(KeyPriority, pressed);
    var r := ChosenDirection(pressed);
    if r.None? {
      assert Right !in pressed && Down !in pressed && Left !in pressed && Up !in pressed by {
        assert KeyPriority[0] == Right && KeyPriority[1] == Down && KeyPriority[2] == Left && KeyPriority[3] == Up;
      }
      forall d: Direction ensures d !in pressed {
        match d
        case Right =>
        case Down =>
        case Left =>
        case Up =>
      }
    } else {
      var k :| 0 <= k < 4 && KeyPriority[k] == r.value && KeyPriority[k] in pressed &&
               (forall i :: 0 <= i < k ==> KeyPriority[i] !in pressed);
      assert k == Rank(r.value);
      if k > 0 { assert KeyPriority[0] !in pressed; }
      if k > 1 { assert KeyPriority[1] !in pressed; }
      if k > 2 { assert KeyPriority[2] !in pressed; }
    }
  }

  function Rank(d: Direction): nat {
    match d
    case Right => 0
    case Down => 1
    case Left => 2
    case Up => 3
  }

  // ---------------------------------------------------------------------
  // The screen machine of handle_events.

  /** MENU, LEVEL_SELECT and GAME. */
  datatype Screen = Menu | LevelSelect | Playing

  datatype Key = KeyQ | KeySpace | KeyEscape | KeyReturn | KeyUp | KeyDown | KeyP | KeyS | KeyD | OtherKey

  /** The events handle_events looks at; every other event is ignored. */
  datatype Event = Quit | KeyPress(key: Key) | OtherEvent

  /** The part of the game state a key press can change directly. */
  datatype Ui = Ui(screen: Screen, level: int, showPath: bool, showStats: bool, debug: bool, complete: bool)

  /** Whether a key press (other than Q) triggers reset_game: RETURN on
      the level-select screen, or RETURN in a completed game. */
  predicate Resets(u: Ui, k: Key) {
    k == KeyReturn && (u.screen == LevelSelect || (u.screen == Playing && u.complete))
  }

  /** One key press other than Q, with levelCount levels (the length of
      LEVEL_DESCRIPTIONS); reset_game clears showPath and complete. */
  function HandleKey(u: Ui, k: Key, levelCount: int): Ui {
    match u.screen
    case Menu => if k == KeySpace then u.(screen := LevelSelect) else u
    case LevelSelect =>
      if k == KeyEscape then u.(screen := Menu)
      else if k == KeyReturn then u.(screen := Playing, showPath := false, complete := false)
      else if k == KeyUp then u.(level := if 1 > u.level - 1 then 1 else u.level - 1)
      else if k == KeyDown then u.(level := if levelCount < u.level + 1 then levelCount else u.level + 1)
      else u
    case Playing =>
      if k == KeyEscape then u.(screen := LevelSelect)
      else if k == KeyP then u.(showPath := !u.showPath)
      else if k == KeyS then u.(showStats := !u.showStats)
      else if k == KeyD then u.(debug := !u.debug)
      else if k == KeyReturn && u.complete then
        u.(level := if levelCount < u.level + 1 then levelCount else u.level + 1, showPath := false, complete := false)
      else u
  }

  /** The level stays within [1, levelCount], the game screen is entered
      only through reset_game, and the level changes only on the
      level-select screen or when a completed game moves on. */
  lemma HandleKeyInvariants(u: Ui, k: Key, levelCount: int)
    requires 1 <= u.level <= levelCount
    ensures 1 <= HandleKey(u, k, levelCount).level <= levelCount
    ensures HandleKey(u, k, levelCount).screen == Playing && u.screen != Playing ==> Resets(u, k)
    ensures HandleKey(u, k, levelCount).level != u.level ==>
              u.screen == LevelSelect || (u.screen == Playing && Resets(u, k))
    ensures Resets(u, k) ==>
              HandleKey(u, k, levelCount) == u.(screen := Playing, level := HandleKey(u, k, levelCount).level,
                                                showPath := false, complete := false)
    ensures !Resets(u, k) ==> HandleKey(u, k, levelCount).complete == u.complete
  {
  }

  /** QUIT and Q end the game loop. */
  predicate Stops(e: Event) {
    e == Quit || e == KeyPress(KeyQ)
  }

  /** A batch of events up to the first one that stops the loop. */
  function HandleAll(u: Ui, events: seq<Event>, levelCount: int): Ui
    decreases |events|
  {
    if |events| == 0 || Stops(events[0]) then u
    else if events[0].KeyPress? then HandleAll(HandleKey(u, events[0].key, levelCount), events[1..], levelCount)
    else HandleAll(u, events[1..], levelCount)
  }

  lemma {:induction false} HandleAllKeepsLevel(u: Ui, events: seq<Event>, levelCount: int)
    requires 1 <= u.level <= levelCount
    ensures 1 <= HandleAll(u, events, levelCount).level <= levelCount
    decreases |events|
  {
    if |events| > 0 && !Stops(events[0]) {
      if events[0].KeyPress? {
        HandleKeyInvariants(u, events[0].key, levelCount);
        HandleAllKeepsLevel(HandleKey(u, events[0].key, levelCount), events[1..], levelCount);
      } else {
        HandleAllKeepsLevel(u, events[1..], levelCount);
      }
    }
  }
}
