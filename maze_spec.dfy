/** The game state of the maze as a value, and the sequential game logic
    (one move, the win check and the keystroke loop) as functions on it.
    The class in maze.dfy is proved against these definitions. */
module MazeSpec {

  datatype Option<T> = None | Some(value: T)

  /** Cell values stored in the grid. */
  const EMPTY := 0
  const WALL := 1
  const VISITED := 2
  const FINISH := 3
  const PLAYER := 4

  /** Direction codes accepted by a move. */
  const LEFT := 1
  const DOWN := 2
  const UP := 3
  const RIGHT := 4

  /** A cell coordinate; x is the column, y the row (both unsigned). */
  datatype Pos = Pos(x: nat, y: nat)

  /** The shared game state: the grid of SIZE_Y rows of SIZE_X cells, the
      player, start and finish coordinates, and the two lifecycle flags. */
  datatype Game = Game(width: nat, height: nat, cells: seq<seq<int>>,
                       player: Pos, start: Pos, finish: Pos,
                       won: bool, quit: bool)

  predicate InGrid(g: Game, p: Pos)
  {
    p.x < g.width && p.y < g.height
  }

  /** The grid has the declared dimensions and the player is on it. */
  predicate Fits(g: Game)
  {
    |g.cells| == g.height &&
    (forall y :: 0 <= y < g.height ==> |g.cells[y]| == g.width) &&
    InGrid(g, g.player)
  }

  function Cell(g: Game, p: Pos): int
    requires Fits(g) && InGrid(g, p)
  {
    g.cells[p.y][p.x]
  }

  /** The grid with the cell at p replaced by v. */
  function Put(cells: seq<seq<int>>, p: Pos, v: int): (r: seq<seq<int>>)
    requires p.y < |cells| && p.x < |cells[p.y]|
    ensures |r| == |cells|
    ensures forall y :: 0 <= y < |r| ==> |r[y]| == |cells[y]|
    ensures forall y, x :: 0 <= y < |r| && 0 <= x < |r[y]| ==>
              r[y][x] == if Pos(x, y) == p then v else cells[y][x]
  {
    cells[p.y := cells[p.y][p.x := v]]
  }

  // ---------------------------------------------------------------------
  // Movement

  /** The cell one step away in direction dir, as the source computes it:
      each direction first tests the edge it would cross (x != 0 for LEFT,
      y != SIZE_Y - 1 for DOWN, y != 0 for UP, x != SIZE_X - 1 for RIGHT).
      None for a step off the grid or a code that is not a direction. */
  function Target(g: Game, dir: int): (r: Option<Pos>)
    ensures r.Some? ==> IsDirection(dir) &&
                        r.value.x == g.player.x + DeltaX(dir) && r.value.y == g.player.y + DeltaY(dir)
    ensures InGrid(g, g.player) ==>
              (r.Some? <==> IsDirection(dir) &&
                            0 <= g.player.x + DeltaX(dir) < g.width &&
                            0 <= g.player.y + DeltaY(dir) < g.height)
  {
    var p := g.player;
    if dir == LEFT then
      (if p.x != 0 then Some(Pos(p.x - 1, p.y)) else None)
    else if dir == DOWN then
      (if p.y != g.height - 1 then Some(Pos(p.x, p.y + 1)) else None)
    else if dir == UP then
      (if p.y != 0 then Some(Pos(p.x, p.y - 1)) else None)
    else if dir == RIGHT then
      (if p.x != g.width - 1 then Some(Pos(p.x + 1, p.y)) else None)
    else None
  }

  /** One call of the movement routine. A refused step returns the state
      unchanged; an accepted one marks the vacated cell (VISITED on the
      start, EMPTY elsewhere), moves the player and writes PLAYER there. */
  function Move(g: Game, dir: int): (r: Game)
    requires Fits(g)
    ensures Fits(r)
    ensures r.(cells := g.cells, player := g.player) == g
    ensures r.player == g.player ==> r == g
  {
    match Target(g, dir)
    case None => g
    case Some(q) =>
      if Cell(g, q) == WALL then g
      else
        var left := if g.player == g.start then VISITED else EMPTY;
        g.(cells := Put(Put(g.cells, g.player, left), q, PLAYER), player := q)
  }

  /** Reference definition of a step: the offset of each direction in
      signed coordinates. */
  function DeltaX(dir: int): int
  {
    if dir == LEFT then -1 else if dir == RIGHT then 1 else 0
  }

  function DeltaY(dir: int): int
  {
    if dir == UP then -1 else if dir == DOWN then 1 else 0
  }

  predicate IsDirection(dir: int)
  {
    LEFT <= dir <= RIGHT
  }

  /** A step that must be refused: not a direction, off the grid, or onto
      a wall. Stated on signed coordinates, independently of Target. */
  predicate Blocked(g: Game, dir: int)
    requires Fits(g)
  {
    var nx := g.player.x + DeltaX(dir);
    var ny := g.player.y + DeltaY(dir);
    !IsDirection(dir) ||
    !(0 <= nx < g.width && 0 <= ny < g.height) ||
    g.cells[ny][nx] == WALL
  }

  /** A refused step changes nothing: neither grid nor player. */
  lemma MoveBlocked(g: Game, dir: int)
    requires Fits(g) && Blocked(g, dir)
    ensures Move(g, dir) == g
  {
  }

  /** An accepted step moves the player by exactly one cell in the given
      direction and writes exactly two cells; all else is unchanged. */
  lemma MoveAccepted(g: Game, dir: int)
    requires Fits(g) && !Blocked(g, dir)
    ensures var r := Move(g, dir);
      r.player.x == g.player.x + DeltaX(dir) &&
      r.player.y == g.player.y + DeltaY(dir) &&
      r.player != g.player &&
      r.start == g.start && r.finish == g.finish &&
      r.won == g.won && r.quit == g.quit &&
      forall y, x :: 0 <= y < g.height && 0 <= x < g.width ==>
        r.cells[y][x] ==
          if Pos(x, y) == r.player then PLAYER
          else if Pos(x, y) == g.player then (if g.player == g.start then VISITED else EMPTY)
          else g.cells[y][x]
  {
  }

  /** The player moved exactly when the step was not blocked. */
  lemma MoveMovesIff(g: Game, dir: int)
    requires Fits(g)
    ensures Move(g, dir).player != g.player <==> !Blocked(g, dir)
  {
    if Blocked(g, dir) {
      MoveBlocked(g, dir);
    } else {
      MoveAccepted(g, dir);
    }
  }

  // ---------------------------------------------------------------------
  // Invariants of play

  /** Exactly one cell holds PLAYER, and it is the cell at the player. */
  predicate SinglePlayer(g: Game)
    requires Fits(g)
  {
    forall y, x :: 0 <= y < g.height && 0 <= x < g.width ==>
      (g.cells[y][x] == PLAYER <==> Pos(x, y) == g.player)
  }

  /** Once the player is off the start cell, that cell shows VISITED. */
  predicate StartMarked(g: Game)
    requires Fits(g)
  {
    InGrid(g, g.start) &&
    (g.player != g.start ==> Cell(g, g.start) == VISITED)
  }

  /** Every cell holds one of the five cell values. */
  predicate Glyphs(g: Game)
    requires Fits(g)
  {
    forall y, x :: 0 <= y < g.height && 0 <= x < g.width ==>
      EMPTY <= g.cells[y][x] <= PLAYER
  }

  predicate Inv(g: Game)
  {
    Fits(g) && SinglePlayer(g) && StartMarked(g) && Glyphs(g)
  }

  /** Every move keeps the single player cell, the start marking and the
      range of cell values. */
  lemma MovePreservesInv(g: Game, dir: int)
    requires Inv(g)
    ensures Inv(Move(g, dir))
  {
    if !Blocked(g, dir) {
      MoveAccepted(g, dir);
    } else {
      MoveBlocked(g, dir);
    }
  }

  /** Number of cells holding v. */
  function CountRow(row: seq<int>, v: int): nat
  {
    if row == [] then 0
    else CountRow(row[..|row| - 1], v) + (if row[|row| - 1] == v then 1 else 0)
  }

  function Count(cells: seq<seq<int>>, v: int): nat
  {
    if cells == [] then 0
    else Count(cells[..|cells| - 1], v) + CountRow(cells[|cells| - 1], v)
  }

  lemma {:induction false} CountRowNone(row: seq<int>, v: int)
    requires forall x :: 0 <= x < |row| ==> row[x] != v
    ensures CountRow(row, v) == 0
  {
    if row != [] {
      CountRowNone(row[..|row| - 1], v);
    }
  }

  lemma {:induction false} CountRowOne(row: seq<int>, v: int, k: nat)
    requires k < |row|
    requires forall x :: 0 <= x < |row| ==> (row[x] == v <==> x == k)
    ensures CountRow(row, v) == 1
  {
    var init := row[..|row| - 1];
    if k == |row| - 1 {
      CountRowNone(init, v);
    } else {
      CountRowOne(init, v, k);
    }
  }

  lemma {:induction false} CountRows(cells: seq<seq<int>>, v: int, p: Pos)
    requires forall y, x :: 0 <= y < |cells| && 0 <= x < |cells[y]| ==>
               (cells[y][x] == v <==> Pos(x, y) == p)
    ensures Count(cells, v) == if p.y < |cells| && p.x < |cells[p.y]| then 1 else 0
  {
    if cells != [] {
      var n := |cells| - 1;
      var init := cells[..n];
      CountRows(init, v, p);
      if p == Pos(p.x, n) && p.x < |cells[n]| {
        CountRowOne(cells[n], v, p.x);
      } else {
        CountRowNone(cells[n], v);
      }
    }
  }

  /** The single-player predicate means the grid holds PLAYER exactly once. */
  lemma SinglePlayerCount(g: Game)
    requires Fits(g) && SinglePlayer(g)
    ensures Count(g.cells, PLAYER) == 1
  {
    CountRows(g.cells, PLAYER, g.player);
  }

  // ---------------------------------------------------------------------
  // Win check

  /** Sets the win flag when the player stands on the finish coordinate;
      never clears it and never reads the grid. */
  function CheckWin(g: Game): (r: Game)
    ensures r.won <==> g.won || g.player == g.finish
    ensures r.(won := g.won) == g
  {
    if g.player == g.finish then g.(won := true) else g
  }

  /** The outcome depends on coordinates only: replacing the grid (for
      instance after the finish cell was overwritten by PLAYER and then by
      EMPTY) does not change it. */
  lemma CheckWinIgnoresCells(g: Game, cells: seq<seq<int>>)
    ensures CheckWin(g.(cells := cells)).won == CheckWin(g).won
  {
  }

  lemma CheckWinPreservesInv(g: Game)
    requires Inv(g)
    ensures Inv(CheckWin(g))
  {
  }

  // ---------------------------------------------------------------------
  // Keystroke loop

  /** The move a key requests: w, a, s, d; None for every other key. */
  function KeyDirection(key: char): Option<int>
  {
    if key == 'w' then Some(UP)
    else if key == 'a' then Some(LEFT)
    else if key == 's' then Some(DOWN)
    else if key == 'd' then Some(RIGHT)
    else None
  }

  /** One non-quit key: dispatch it, then run the win check. */
  function KeyStep(g: Game, key: char): (r: Game)
    requires Fits(g)
    ensures Fits(r)
    ensures r.won <==> g.won || r.player == g.finish
    ensures KeyDirection(key).None? ==> r.(won := g.won) == g
    ensures KeyDirection(key).Some? ==> r.(won := g.won) == Move(g, KeyDirection(key).value)
  {
    var moved := match KeyDirection(key)
      case Some(dir) => Move(g, dir)
      case None => g;
    CheckWin(moved)
  }

  /** The result of feeding keystrokes to the loop: the final state, how
      many keys were read, and whether the loop stopped (on q or on a win)
      rather than running out of keys while still waiting for one. */
  datatype Outcome = Outcome(game: Game, consumed: nat, stopped: bool)

  function Capture(g: Game, keys: seq<char>): (r: Outcome)
    requires Fits(g)
    ensures Fits(r.game)
    ensures r.game.(cells := g.cells, player := g.player, won := g.won, quit := g.quit) == g
    decreases |keys|
  {
    if keys == [] then Outcome(g, 0, false)
    else if keys[0] == 'q' then Outcome(g.(quit := true), 1, true)
    else
      var h := KeyStep(g, keys[0]);
      if h.won then Outcome(h.(quit := true), 1, true)
      else
        var rest := Capture(h, keys[1..]);
        Outcome(rest.game, rest.consumed + 1, rest.stopped)
  }

  /** The loop reads keys one at a time and stops at the first q or right
      after the first key that leaves the win flag set; it sets quit exactly
      when it stops; without stopping it has read every key. */
  lemma {:induction false} CaptureStops(g: Game, keys: seq<char>)
    requires Fits(g)
    ensures var r := Capture(g, keys);
      r.consumed <= |keys| &&
      (!r.stopped ==> r.consumed == |keys| && r.game.quit == g.quit) &&
      (r.stopped ==> r.game.quit && 1 <= r.consumed &&
                     (keys[r.consumed - 1] == 'q' || r.game.won)) &&
      (forall k :: 0 <= k < r.consumed && keys[k] == 'q' ==> r.stopped && k == r.consumed - 1)
    decreases |keys|
  {
    if keys != [] && keys[0] != 'q' {
      var h := KeyStep(g, keys[0]);
      if !h.won {
        CaptureStops(h, keys[1..]);
      }
    }
  }

  /** The win check runs after every key: a loop that is still waiting
      after reading some keys has not won, and the player is not on the
      finish. */
  lemma {:induction false} CaptureChecksWin(g: Game, keys: seq<char>)
    requires Fits(g) && keys != [] && !Capture(g, keys).stopped
    ensures !Capture(g, keys).game.won && Capture(g, keys).game.player != g.finish
    decreases |keys|
  {
    var h := KeyStep(g, keys[0]);
    if keys[1..] != [] {
      CaptureChecksWin(h, keys[1..]);
    }
  }

  /** A q anywhere in the input is enough to stop the loop. */
  lemma QuitKeyStops(g: Game, keys: seq<char>, k: nat)
    requires Fits(g)
    requires k < |keys| && keys[k] == 'q'
    ensures Capture(g, keys).stopped && Capture(g, keys).game.quit
    ensures Capture(g, keys).consumed <= k + 1
  {
    CaptureStops(g, keys);
  }

  /** The q that stops the loop only sets quit: it makes no move and runs
      no win check, and the loop has read exactly the keys up to it. */
  lemma {:induction false} QuitKeyOnlyQuits(g: Game, keys: seq<char>, k: nat)
    requires Fits(g) && k < |keys| && keys[k] == 'q' && !Capture(g, keys[..k]).stopped
    ensures Capture(g, keys) == Outcome(Capture(g, keys[..k]).game.(quit := true), k + 1, true)
    decreases k
  {
    if k > 0 {
      assert keys[..k][0] == keys[0] && keys[..k][1..] == keys[1..][..k - 1];
      QuitKeyOnlyQuits(KeyStep(g, keys[0]), keys[1..], k - 1);
    } else {
      assert keys[..k] == [];
    }
  }

  /** Keys after the one that stopped the loop are never read. */
  lemma {:induction false} CaptureIgnoresRest(g: Game, keys: seq<char>, more: seq<char>)
    requires Fits(g) && Capture(g, keys).stopped
    ensures Capture(g, keys + more) == Capture(g, keys)
    decreases |keys|
  {
    assert keys != [];
    assert (keys + more)[0] == keys[0];
    if keys[0] != 'q' {
      var h := KeyStep(g, keys[0]);
      if !h.won {
        assert (keys + more)[1..] == keys[1..] + more;
        CaptureIgnoresRest(h, keys[1..], more);
      }
    }
  }

  /** The win flag never reverts, and a win the loop sets is a win on the
      finish coordinate, where the player still stands when it stops. */
  lemma {:induction false} CaptureWin(g: Game, keys: seq<char>)
    requires Fits(g)
    ensures g.won ==> Capture(g, keys).game.won
    ensures !g.won && Capture(g, keys).game.won ==>
              Capture(g, keys).stopped && Capture(g, keys).game.player == g.finish
    ensures Capture(g, keys).game.finish == g.finish
    decreases |keys|
  {
    if keys != [] && keys[0] != 'q' {
      var h := KeyStep(g, keys[0]);
      if !h.won {
        CaptureWin(h, keys[1..]);
      }
    }
  }

  /** The loop keeps the invariants of play. */
  lemma {:induction false} CapturePreservesInv(g: Game, keys: seq<char>)
    requires Inv(g)
    ensures Inv(Capture(g, keys).game)
    decreases |keys|
  {
    if keys != [] && keys[0] != 'q' {
      var moved := match KeyDirection(keys[0])
        case Some(dir) => Move(g, dir)
        case None => g;
      if KeyDirection(keys[0]).Some? {
        MovePreservesInv(g, KeyDirection(keys[0]).value);
      }
      assert Inv(moved);
      var h := KeyStep(g, keys[0]);
      CheckWinPreservesInv(moved);
      if !h.won {
        CapturePreservesInv(h, keys[1..]);
      }
    }
  }

  // ---------------------------------------------------------------------
  // Epilogue

  /** The one-line message printed when the game ends. */
  function Epilogue(won: bool): (msg: string)
    ensures won <==> msg == "Congratulations! You have won the game.\n"
    ensures !won ==> msg == "Keyboard interrupt! Quitting now...\n"
  {
    if won then "Congratulations! You have won the game.\n"
    else "Keyboard interrupt! Quitting now...\n"
  }
}
