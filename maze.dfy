/** The maze as the program holds it: a heap grid of SIZE_Y rows of SIZE_X
    cells, the player, start and finish coordinates and the two flags, with
    the routines that load, move, check, read keys and draw. Each routine is
    proved against the value-level definitions of MazeSpec, MapText and
    Picture. */
module MazeGame {
  import opened MazeSpec
  import MapText
  import Picture

  /** Two grids with the same shape and the same cells are equal. */
  lemma SameCells(a: seq<seq<int>>, b: seq<seq<int>>)
    requires |a| == |b|
    requires forall y :: 0 <= y < |a| ==> |a[y]| == |b[y]|
    requires forall y, x :: 0 <= y < |a| && 0 <= x < |a[y]| ==> a[y][x] == b[y][x]
    ensures a == b
  {
    forall y | 0 <= y < |a|
      ensures a[y] == b[y]
    {
    }
  }

  /** The size scan of a map file: the width is the number of characters
      before the first newline, the height the number of newlines. */
  method GetMazeSize(text: string) returns (sizeX: nat, sizeY: nat)
    ensures sizeX <= |text|
    ensures forall k :: 0 <= k < sizeX ==> text[k] != '\n'
    ensures sizeX < |text| ==> text[sizeX] == '\n'
    ensures sizeY == multiset(text)['\n']
  {
    var xCount, yCount := 0, 0;
    var countX := true;
    for i := 0 to |text|
      invariant yCount == multiset(text[..i])['\n']
      invariant xCount <= i
      invariant forall k :: 0 <= k < xCount ==> text[k] != '\n'
      invariant countX ==> xCount == i
      invariant !countX ==> xCount < i && text[xCount] == '\n'
    {
      assert text[..i + 1] == text[..i] + [text[i]];
      if text[i] == '\n' {
        yCount := yCount + 1;
        countX := false;
      } else if countX {
        xCount := xCount + 1;
      }
    }
    assert text[..|text|] == text;
    sizeX, sizeY := xCount, yCount;
  }

  class Maze {
    /** grid[y, x] is the cell in row y, column x; Length0 is SIZE_Y and
        Length1 is SIZE_X. */
    var grid: array2<int>
    var player: Pos
    var start: Pos
    var finish: Pos
    var won: bool
    var quit: bool
    /** The grid's cells as rows of values, kept equal to the grid by every
        routine that writes it. */
    ghost var cells: seq<seq<int>>

    /** cells holds exactly what the grid holds. */
    ghost predicate Mirrors()
      reads this, grid
    {
      |cells| == grid.Length0 &&
      (forall y :: 0 <= y < |cells| ==> |cells[y]| == grid.Length1) &&
      (forall y, x :: 0 <= y < grid.Length0 && 0 <= x < grid.Length1 ==> cells[y][x] == grid[y, x])
    }

    /** The mirror holds and the player is on the grid (so neither
        dimension is zero). */
    ghost predicate Valid()
      reads this, grid
    {
      Mirrors() && player.x < grid.Length1 && player.y < grid.Length0
    }

    /** The whole state as a value. */
    ghost function State(): Game
      reads this
    {
      Game(grid.Length1, grid.Length0, cells, player, start, finish, won, quit)
    }

    /** The buffer allocation: a grid of sizeY rows of sizeX cells, both
        flags clear. The coordinates are set by Load. */
    constructor (sizeX: nat, sizeY: nat)
      ensures fresh(grid) && Mirrors()
      ensures grid.Length1 == sizeX && grid.Length0 == sizeY
      ensures forall y, x :: 0 <= y < sizeY && 0 <= x < sizeX ==> cells[y][x] == EMPTY
      ensures player == Pos(0, 0) && start == Pos(0, 0) && finish == Pos(0, 0)
      ensures !won && !quit
    {
      grid := new int[sizeY, sizeX]((_, _) => EMPTY);
      cells := seq(sizeY, _ => seq(sizeX, _ => EMPTY));
      player, start, finish := Pos(0, 0), Pos(0, 0), Pos(0, 0);
      won, quit := false, false;
    }

    /** The map loader: each character other than a newline is stored as
        ch - '0' (as an unsigned byte) at the current column and row; a
        newline starts the next row. The last '4' becomes both player and
        start, the last '3' the finish; without one the coordinates keep
        their previous values. */
    method Load(text: string, ghost rows: seq<string>)
      requires Mirrors() && text == MapText.Lines(rows)
      requires |rows| == grid.Length0 && MapText.Uniform(rows, grid.Length1)
      modifies this`player, this`start, this`finish, this`cells, grid
      ensures Mirrors()
      ensures forall y, x :: 0 <= y < grid.Length0 && 0 <= x < grid.Length1 ==>
                cells[y][x] == MapText.Digit(rows[y][x])
      ensures MapText.Occurs(rows, '4') ==> player == start && MapText.IsLast(rows, '4', start)
      ensures !MapText.Occurs(rows, '4') ==> player == old(player) && start == old(start)
      ensures MapText.Occurs(rows, '3') ==> MapText.IsLast(rows, '3', finish)
      ensures !MapText.Occurs(rows, '3') ==> finish == old(finish)
    {
      ghost var w := grid.Length1;
      ghost var p0, s0, f0 := player, start, finish;
      var y: nat, x: nat := 0, 0;
      assert rows[..|rows|] == rows;
      for i := 0 to |text|
        invariant Mirrors()
        invariant y <= |rows| && x <= w
        invariant i == |MapText.Lines(rows[..y])| + x
        invariant y == |rows| ==> x == 0
        invariant Scanned(cells, rows, x, y, player, start, finish, p0, s0, f0)
      {
        MapText.RowAt(rows, w, y, x);
        x, y := LoadChar(text[i], x, y, rows, p0, s0, f0);
      }
      if y < |rows| {
        MapText.RowAt(rows, w, y, x);
      }
      MapEnd(cells, rows, player, start, finish, p0, s0, f0);
    }

    /** One turn of the loader on cur, the character at column x of row y
        (the newline ending the row when x is the width): a newline moves to
        the start of the next row; any other character is stored as ch - '0',
        and a '4' sets player and start, a '3' the finish. */
    method LoadChar(cur: char, x: nat, y: nat, ghost rows: seq<string>,
                    ghost p0: Pos, ghost s0: Pos, ghost f0: Pos) returns (x': nat, y': nat)
      requires Mirrors() && |rows| == grid.Length0 && MapText.Uniform(rows, grid.Length1)
      requires y < |rows| && x <= grid.Length1
      requires cur == if x == grid.Length1 then '\n' else rows[y][x]
      requires Scanned(cells, rows, x, y, player, start, finish, p0, s0, f0)
      modifies this`player, this`start, this`finish, this`cells, grid
      ensures Mirrors()
      ensures if x == grid.Length1 then x' == 0 && y' == y + 1 else x' == x + 1 && y' == y
      ensures if x == grid.Length1 then cells == old(cells)
              else cells == Put(old(cells), Pos(x, y), MapText.Digit(cur))
      ensures Scanned(cells, rows, x', y', player, start, finish, p0, s0, f0)
    {
      if cur == '\n' {
        RowEnd(cells, rows, y, player, start, finish, p0, s0, f0);
        x', y' := 0, y + 1;
      } else {
        CellRead(cells, rows, x, y, player, start, finish, p0, s0, f0);
        if cur == '4' {
          player := Pos(x, y);
          start := Pos(x, y);
        } else if cur == '3' {
          finish := Pos(x, y);
        }
        Store(Pos(x, y), MapText.Digit(cur));
        x', y' := x + 1, y;
      }
    }

    /** The movement routine: the edge and wall tests decide, then the
        step is taken or nothing changes. */
    method Move(dir: int)
      requires Valid()
      modifies this`player, this`cells, grid
      ensures Valid()
      ensures State() == MazeSpec.Move(old(State()), dir)
    {
      ghost var g := State();
      var accept, q := Probe(dir);
      if accept {
        MoveTaken(g, dir, q);
        Step(q);
      } else {
        MoveRefused(g, dir);
      }
    }

    /** The tests of the movement routine: each direction checks the edge
        it would cross and then the wall at the target. The step is accepted
        exactly when the target is on the grid and not a wall. */
    method Probe(dir: int) returns (accept: bool, q: Pos)
      requires Valid()
      ensures accept <==> Target(State(), dir).Some? && Cell(State(), Target(State(), dir).value) != WALL
      ensures accept ==> Target(State(), dir) == Some(q) && InGrid(State(), q)
    {
      accept, q := false, player;
      if dir == LEFT {
        if player.x != 0 && grid[player.y, player.x - 1] != WALL {
          accept, q := true, Pos(player.x - 1, player.y);
        }
      } else if dir == DOWN {
        if player.y != grid.Length0 - 1 && grid[player.y + 1, player.x] != WALL {
          accept, q := true, Pos(player.x, player.y + 1);
        }
      } else if dir == UP {
        if player.y != 0 && grid[player.y - 1, player.x] != WALL {
          accept, q := true, Pos(player.x, player.y - 1);
        }
      } else if dir == RIGHT {
        if player.x != grid.Length1 - 1 && grid[player.y, player.x + 1] != WALL {
          accept, q := true, Pos(player.x + 1, player.y);
        }
      }
    }

    /** An accepted step to q: the vacated cell shows VISITED if it is the
        start and EMPTY otherwise, then the player moves and q shows PLAYER. */
    method Step(q: Pos)
      requires Valid() && q.x < grid.Length1 && q.y < grid.Length0
      modifies this`player, this`cells, grid
      ensures Valid() && player == q
      ensures cells == Put(Put(old(cells), old(player), if old(player) == start then VISITED else EMPTY),
                           q, PLAYER)
    {
      if player.x == start.x && player.y == start.y {
        Store(player, VISITED);
      } else {
        Store(player, EMPTY);
      }
      player := q;
      Store(player, PLAYER);
    }

    /** A write of v into the cell at p. */
    method Store(p: Pos, v: int)
      requires Mirrors() && p.x < grid.Length1 && p.y < grid.Length0
      modifies this`cells, grid
      ensures Mirrors() && cells == Put(old(cells), p, v)
    {
      grid[p.y, p.x] := v;
      cells := Put(cells, p, v);
    }

    /** The win check: compares coordinates only. */
    method CheckWin()
      modifies this`won
      ensures State() == MazeSpec.CheckWin(old(State()))
    {
      if player.y == finish.y && player.x == finish.x {
        won := true;
      }
    }

    /** The key-reading loop over a sequence of keystrokes. w, a, s, d move;
        other keys move nothing; the win check runs after every key but q.
        The loop stops at q or as soon as the game is won and then sets
        quit. When the keys run out first the loop is still waiting for a
        key: stopped is false and quit is left as it was. */
    method Capture(keys: seq<char>) returns (consumed: nat, stopped: bool)
      requires Valid()
      modifies this`player, this`won, this`quit, this`cells, grid
      ensures Valid()
      ensures Outcome(State(), consumed, stopped) == MazeSpec.Capture(old(State()), keys)
    {
      ghost var g0 := State();
      ghost var g := g0;
      consumed, stopped := 0, false;
      while consumed < |keys| && !stopped
        invariant Valid() && g == State()
        invariant consumed <= |keys| && g.quit == g0.quit
        invariant !stopped ==> Resumes(g0, keys, g, consumed)
        invariant stopped ==> MazeSpec.Capture(g0, keys) == Outcome(g.(quit := true), consumed, true)
        decreases |keys| - consumed, !stopped
      {
        var ch := keys[consumed];
        ResumeStep(g0, keys, g, consumed);
        consumed := consumed + 1;
        if ch == 'q' {
          stopped := true;
        } else {
          Dispatch(ch);
          CheckWin();
          g := KeyStep(g, ch);
          if won {
            stopped := true;
          }
        }
      }
      if stopped {
        quit := true;
      }
    }

    /** The key switch: w, a, s, d request UP, LEFT, DOWN, RIGHT; any other
        key does nothing. */
    method Dispatch(ch: char)
      requires Valid()
      modifies this`player, this`cells, grid
      ensures Valid()
      ensures State() == match KeyDirection(ch)
                         case Some(dir) => MazeSpec.Move(old(State()), dir)
                         case None => old(State())
    {
      if ch == 'w' {
        Move(UP);
      } else if ch == 'a' {
        Move(LEFT);
      } else if ch == 's' {
        Move(DOWN);
      } else if ch == 'd' {
        Move(RIGHT);
      }
    }

    /** The renderer: the glyph of every cell, a space between the cells of
        a row and a newline between rows. */
    method Render() returns (out: string)
      requires Mirrors() && Picture.GlyphRows(cells)
      ensures out == Picture.Draw(cells)
    {
      var h := grid.Length0;
      out := "";
      for y := 0 to h
        invariant out == Picture.Draw(cells[..y]) + (if 0 < y < h then "\n" else "")
      {
        var line := RenderRow(y);
        assert cells[..y + 1][..y] == cells[..y];
        out := out + line;
        if y < h - 1 {
          out := out + "\n";
        }
      }
      assert cells[..h] == cells;
    }

    /** The inner loop of the renderer: row y's glyphs, space-separated. */
    method RenderRow(y: nat) returns (line: string)
      requires Mirrors() && y < grid.Length0 && Picture.GlyphRow(cells[y])
      ensures line == Picture.RowText(cells[y])
    {
      ghost var row := cells[y];
      var w := grid.Length1;
      line := "";
      for x := 0 to w
        invariant line == Picture.RowText(row[..x]) + (if 0 < x < w then " " else "")
      {
        assert row[..x + 1][..x] == row[..x];
        line := line + [Picture.Sprite(grid[y, x])];
        if x < w - 1 {
          line := line + " ";
        }
      }
      assert row[..w] == row;
    }
  }

  /** Start-up: the size scan, the buffer allocation and the load, for a
      map made of the given rows of width w. The grid then holds the digit of
      every map character, the flags are clear, and the coordinates are those
      of the last '4' and '3'. */
  method Open(text: string, ghost rows: seq<string>, ghost w: nat) returns (m: Maze)
    requires text == MapText.Lines(rows) && MapText.Uniform(rows, w)
    ensures fresh(m) && fresh(m.grid) && m.Mirrors()
    ensures m.grid.Length0 == |rows|
    ensures m.grid.Length1 == if rows == [] then 0 else w
    ensures forall y, x :: 0 <= y < m.grid.Length0 && 0 <= x < m.grid.Length1 ==>
              m.cells[y][x] == MapText.Digit(rows[y][x])
    ensures MapText.Occurs(rows, '4') ==> m.Valid() && m.player == m.start && MapText.IsLast(rows, '4', m.start)
    ensures !MapText.Occurs(rows, '4') ==> m.player == Pos(0, 0) && m.start == Pos(0, 0)
    ensures MapText.Occurs(rows, '3') ==> MapText.IsLast(rows, '3', m.finish)
    ensures !MapText.Occurs(rows, '3') ==> m.finish == Pos(0, 0)
    ensures !m.won && !m.quit
  {
    var sizeX, sizeY := GetMazeSize(text);
    MapText.LinesNewlines(rows, w);
    if rows != [] {
      MapText.MapShape(rows, w);
    }
    m := new Maze(sizeX, sizeY);
    m.Load(text, rows);
  }

  /** After i keys the loop, resumed from g on the remaining keys, gives
      what it gives from g0 on all of them. */
  ghost predicate Resumes(g0: Game, keys: seq<char>, g: Game, i: nat)
  {
    Fits(g0) && Fits(g) && i <= |keys| &&
    var r := MazeSpec.Capture(g, keys[i..]);
    MazeSpec.Capture(g0, keys) == Outcome(r.game, r.consumed + i, r.stopped)
  }

  /** One turn of the key loop: a q stops it; any other key is dispatched
      and checked, and either stops it with a win or leaves it resumable. */
  lemma ResumeStep(g0: Game, keys: seq<char>, g: Game, i: nat)
    requires Resumes(g0, keys, g, i) && i < |keys|
    ensures keys[i] == 'q' ==> MazeSpec.Capture(g0, keys) == Outcome(g.(quit := true), i + 1, true)
    ensures keys[i] != 'q' ==>
              var h := KeyStep(g, keys[i]);
              if h.won then MazeSpec.Capture(g0, keys) == Outcome(h.(quit := true), i + 1, true)
              else Resumes(g0, keys, h, i + 1)
  {
    assert keys[i..][0] == keys[i] && keys[i..][1..] == keys[i + 1..];
  }

  lemma MoveTaken(g: Game, dir: int, q: Pos)
    requires Fits(g) && Target(g, dir) == Some(q) && InGrid(g, q) && Cell(g, q) != WALL
    ensures MazeSpec.Move(g, dir) ==
              g.(cells := Put(Put(g.cells, g.player, if g.player == g.start then VISITED else EMPTY), q, PLAYER),
                 player := q)
  {
  }

  lemma MoveRefused(g: Game, dir: int)
    requires Fits(g)
    requires Target(g, dir).None? || (InGrid(g, Target(g, dir).value) && Cell(g, Target(g, dir).value) == WALL)
    ensures MazeSpec.Move(g, dir) == g
  {
  }

  /** The cells before (x, y) hold the digits of their map characters. */
  ghost predicate Stored(cells: seq<seq<int>>, rows: seq<string>, x: int, y: int)
  {
    forall y', x' :: 0 <= y' < |cells| && 0 <= x' < |cells[y']| &&
                     y' < |rows| && x' < |rows[y']| && MapText.Before(x', y', x, y) ==>
      cells[y'][x'] == MapText.Digit(rows[y'][x'])
  }

  /** The loader's progress as values, before column x of row y: those
      cells are stored; start and finish are the last '4' and '3' read so
      far, or s0 and f0 if there is none; the player is on the start once a
      '4' has been read and is p0 before. */
  ghost predicate Scanned(cells: seq<seq<int>>, rows: seq<string>, x: nat, y: nat,
                          player: Pos, start: Pos, finish: Pos, p0: Pos, s0: Pos, f0: Pos)
  {
    y <= |rows| && x <= (if y < |rows| then |rows[y]| else 0) &&
    Stored(cells, rows, x, y) &&
    var four, three := MapText.LastSeen(rows, '4', x, y), MapText.LastSeen(rows, '3', x, y);
    start == (if four.Some? then four.value else s0) &&
    player == (if four.Some? then start else p0) &&
    finish == (if three.Some? then three.value else f0)
  }

  /** Reading cell (x, y) stores its digit and moves player and start to
      it if it is a '4', the finish if it is a '3'. */
  lemma CellRead(cells: seq<seq<int>>, rows: seq<string>, x: nat, y: nat,
                 player: Pos, start: Pos, finish: Pos, p0: Pos, s0: Pos, f0: Pos)
    requires y < |cells| && x < |cells[y]| && y < |rows| && x < |rows[y]|
    requires Scanned(cells, rows, x, y, player, start, finish, p0, s0, f0)
    ensures var ch := rows[y][x];
      Scanned(Put(cells, Pos(x, y), MapText.Digit(ch)), rows, x + 1, y,
              if ch == '4' then Pos(x, y) else player,
              if ch == '4' then Pos(x, y) else start,
              if ch == '3' then Pos(x, y) else finish, p0, s0, f0)
  {
  }

  /** Past the newline of row y the scan resumes at the start of row y + 1. */
  lemma RowEnd(cells: seq<seq<int>>, rows: seq<string>, y: nat,
               player: Pos, start: Pos, finish: Pos, p0: Pos, s0: Pos, f0: Pos)
    requires y < |rows|
    requires Scanned(cells, rows, |rows[y]|, y, player, start, finish, p0, s0, f0)
    ensures Scanned(cells, rows, 0, y + 1, player, start, finish, p0, s0, f0)
  {
  }

  /** Past the last newline the scan has seen every cell of the map. */
  lemma MapEnd(cells: seq<seq<int>>, rows: seq<string>,
               player: Pos, start: Pos, finish: Pos, p0: Pos, s0: Pos, f0: Pos)
    requires Scanned(cells, rows, 0, |rows|, player, start, finish, p0, s0, f0)
    ensures forall y, x :: 0 <= y < |cells| && 0 <= x < |cells[y]| && y < |rows| && x < |rows[y]| ==>
              cells[y][x] == MapText.Digit(rows[y][x])
    ensures MapText.Occurs(rows, '4') ==> player == start && MapText.IsLast(rows, '4', start)
    ensures !MapText.Occurs(rows, '4') ==> player == p0 && start == s0
    ensures MapText.Occurs(rows, '3') ==> MapText.IsLast(rows, '3', finish)
    ensures !MapText.Occurs(rows, '3') ==> finish == f0
  {
    MapText.LastSeenIsLast(rows, '4');
    MapText.LastSeenIsLast(rows, '3');
  }
}
