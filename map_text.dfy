/** The text of a map file: one line per grid row, each line ended by a
    newline, one character per cell. */
module MapText {
  import opened MazeSpec

  /** The rows joined into map text, each followed by a newline. */
  function Lines(rows: seq<string>): string
  {
    if rows == [] then ""
    else Lines(rows[..|rows| - 1]) + rows[|rows| - 1] + "\n"
  }

  /** Every row is a line of exactly w cells. */
  predicate Uniform(rows: seq<string>, w: nat)
  {
    forall y :: 0 <= y < |rows| ==> |rows[y]| == w && '\n' !in rows[y]
  }

  /** The value the loader stores for a character: ch - '0', truncated to
      an unsigned byte. */
  function Digit(ch: char): (v: int)
    ensures 0 <= v < 256
    ensures '0' <= ch <= '4' ==> v == ch as int - '0' as int
  {
    (ch as int - '0' as int) % 256
  }

  /** The map text of a grid of cell values 0..9. */
  function RowLine(row: seq<int>): (s: string)
    requires forall x :: 0 <= x < |row| ==> 0 <= row[x] <= 9
    ensures |s| == |row|
    ensures forall x :: 0 <= x < |row| ==> Digit(s[x]) == row[x] && s[x] != '\n'
  {
    seq(|row|, x requires 0 <= x < |row| => ('0' as int + row[x]) as char)
  }

  /** Map text is concatenated row by row. */
  lemma {:induction false} LinesAppend(a: seq<string>, b: seq<string>)
    ensures Lines(a + b) == Lines(a) + Lines(b)
    decreases |b|
  {
    if b != [] {
      var n := |b| - 1;
      assert (a + b)[..|a + b| - 1] == a + b[..n];
      assert (a + b)[|a + b| - 1] == b[n];
      LinesAppend(a, b[..n]);
      calc {
        Lines(a + b);
        Lines(a + b[..n]) + b[n] + "\n";
        Lines(a) + Lines(b[..n]) + b[n] + "\n";
        Lines(a) + (Lines(b[..n]) + b[n] + "\n");
        Lines(a) + Lines(b);
      }
    } else {
      assert a + b == a;
    }
  }

  /** Row y of a uniform map starts right after the text of the rows above
      it: its cell x sits x characters in, and its newline w characters in. */
  lemma RowAt(rows: seq<string>, w: nat, y: nat, x: nat)
    requires Uniform(rows, w)
    requires y < |rows| && x <= w
    ensures |Lines(rows[..y])| + x < |Lines(rows)|
    ensures Lines(rows)[|Lines(rows[..y])| + x] == if x == w then '\n' else rows[y][x]
    ensures |Lines(rows[..y + 1])| == |Lines(rows[..y])| + w + 1
  {
    var above, rest := rows[..y], rows[y + 1..];
    assert rows == above + [rows[y]] + rest;
    LinesAppend(above + [rows[y]], rest);
    LinesAppend(above, [rows[y]]);
    assert Lines([rows[y]]) == rows[y] + "\n" by {
      assert [rows[y]][..0] == [];
    }
    assert rows[..y + 1] == above + [rows[y]];
    var text := Lines(above) + (rows[y] + "\n") + Lines(rest);
    assert Lines(rows) == text;
    assert text[|Lines(above)| + x] == (rows[y] + "\n")[x];
  }

  /** Cell (x, y) of a uniform map of width w sits at offset y * (w + 1) + x
      of its text, and the newline ending row y at offset y * (w + 1) + w. */
  lemma LinesAt(rows: seq<string>, w: nat, y: nat, x: nat)
    requires Uniform(rows, w)
    requires y < |rows| && x <= w
    ensures y * (w + 1) + x < |Lines(rows)|
    ensures Lines(rows)[y * (w + 1) + x] == if x == w then '\n' else rows[y][x]
  {
    RowAt(rows, w, y, x);
    assert Uniform(rows[..y], w);
    LinesLength(rows[..y], w);
    assert |rows[..y]| == y;
  }

  lemma {:induction false} LinesLength(rows: seq<string>, w: nat)
    requires Uniform(rows, w)
    ensures |Lines(rows)| == |rows| * (w + 1)
    decreases |rows|
  {
    if rows != [] {
      var n := |rows| - 1;
      assert Uniform(rows[..n], w);
      LinesLength(rows[..n], w);
      assert |Lines(rows)| == |Lines(rows[..n])| + w + 1;
      assert |rows| * (w + 1) == n * (w + 1) + (w + 1);
    }
  }

  /** The newlines of a map are exactly the row ends. */
  lemma {:induction false} LinesNewlines(rows: seq<string>, w: nat)
    requires Uniform(rows, w)
    ensures multiset(Lines(rows))['\n'] == |rows|
    decreases |rows|
  {
    if rows != [] {
      var n := |rows| - 1;
      assert Uniform(rows[..n], w);
      LinesNewlines(rows[..n], w);
      assert '\n' !in rows[n];
      assert multiset(rows[n])['\n'] == 0;
      assert Lines(rows) == Lines(rows[..n]) + rows[n] + "\n";
    }
  }

  /** What the size scan of a map reports: the first row's length as the
      width and the number of rows as the height. */
  lemma MapShape(rows: seq<string>, w: nat)
    requires Uniform(rows, w) && rows != []
    ensures |Lines(rows)| > w && Lines(rows)[w] == '\n'
    ensures forall k :: 0 <= k < w ==> Lines(rows)[k] != '\n'
    ensures multiset(Lines(rows))['\n'] == |rows|
  {
    LinesNewlines(rows, w);
    LinesAt(rows, w, 0, w);
    forall k | 0 <= k < w
      ensures Lines(rows)[k] != '\n'
    {
      LinesAt(rows, w, 0, k);
    }
  }

  /** Row-major order: (x1, y1) comes strictly before (x2, y2). */
  predicate Before(x1: int, y1: int, x2: int, y2: int)
  {
    y1 < y2 || (y1 == y2 && x1 < x2)
  }

  /** Some cell of the map holds ch. */
  predicate Occurs(rows: seq<string>, ch: char)
  {
    exists y, x :: 0 <= y < |rows| && 0 <= x < |rows[y]| && rows[y][x] == ch
  }

  /** p is the last cell holding ch in row-major order. */
  predicate IsLast(rows: seq<string>, ch: char, p: Pos)
  {
    p.y < |rows| && p.x < |rows[p.y]| && rows[p.y][p.x] == ch &&
    forall y, x :: 0 <= y < |rows| && 0 <= x < |rows[y]| && Before(p.x, p.y, x, y) ==>
      rows[y][x] != ch
  }

  /** The last of the first x cells of row y that holds ch, scanning
      left to right. */
  function LastInRow(row: string, ch: char, x: nat, y: nat): (r: Option<Pos>)
    requires x <= |row|
    ensures r.Some? ==> r.value.y == y && r.value.x < x && row[r.value.x] == ch
    decreases x
  {
    if x == 0 then None
    else if row[x - 1] == ch then Some(Pos(x - 1, y))
    else LastInRow(row, ch, x - 1, y)
  }

  /** The last cell holding ch in the rows above row y. */
  function LastAbove(rows: seq<string>, ch: char, y: nat): (r: Option<Pos>)
    requires y <= |rows|
    ensures r.Some? ==> r.value.y < y && r.value.x < |rows[r.value.y]| && rows[r.value.y][r.value.x] == ch
    decreases y
  {
    if y == 0 then None
    else
      match LastInRow(rows[y - 1], ch, |rows[y - 1]|, y - 1)
      case Some(p) => Some(p)
      case None => LastAbove(rows, ch, y - 1)
  }

  /** The last cell holding ch among the cells read before column x of
      row y, in the order the loader reads them. */
  function LastSeen(rows: seq<string>, ch: char, x: nat, y: nat): (r: Option<Pos>)
    requires y <= |rows| && x <= (if y < |rows| then |rows[y]| else 0)
    ensures r.Some? ==> Before(r.value.x, r.value.y, x, y) && r.value.y < |rows| &&
                        r.value.x < |rows[r.value.y]| && rows[r.value.y][r.value.x] == ch
  {
    if y < |rows| && LastInRow(rows[y], ch, x, y).Some? then LastInRow(rows[y], ch, x, y)
    else LastAbove(rows, ch, y)
  }

  /** The row scan finds the last ch before column x, and nothing exactly
      when no such cell holds ch. */
  lemma {:induction false} LastInRowIsLast(row: string, ch: char, x: nat, y: nat)
    requires x <= |row|
    ensures LastInRow(row, ch, x, y).None? <==> forall i :: 0 <= i < x ==> row[i] != ch
    ensures LastInRow(row, ch, x, y).Some? ==>
              forall i :: LastInRow(row, ch, x, y).value.x < i < x ==> row[i] != ch
    decreases x
  {
    if x > 0 && row[x - 1] != ch {
      LastInRowIsLast(row, ch, x - 1, y);
    }
  }

  /** The scan of the rows above y finds the last ch there, and nothing
      exactly when none of those rows holds ch. */
  lemma {:induction false} LastAboveIsLast(rows: seq<string>, ch: char, y: nat)
    requires y <= |rows|
    ensures LastAbove(rows, ch, y).None? <==>
              forall y', x' :: 0 <= y' < y && 0 <= x' < |rows[y']| ==> rows[y'][x'] != ch
    ensures LastAbove(rows, ch, y).Some? ==>
              var p := LastAbove(rows, ch, y).value;
              forall y', x' :: 0 <= y' < y && 0 <= x' < |rows[y']| && Before(p.x, p.y, x', y') ==>
                rows[y'][x'] != ch
    decreases y
  {
    if y > 0 {
      var row := rows[y - 1];
      LastInRowIsLast(row, ch, |row|, y - 1);
      LastAboveIsLast(rows, ch, y - 1);
    }
  }

  /** Once every row is read, the scan's result is the last ch of the map,
      and there is a result exactly when ch occurs. */
  lemma LastSeenIsLast(rows: seq<string>, ch: char)
    ensures LastSeen(rows, ch, 0, |rows|).Some? <==> Occurs(rows, ch)
    ensures LastSeen(rows, ch, 0, |rows|).Some? ==> IsLast(rows, ch, LastSeen(rows, ch, 0, |rows|).value)
  {
    LastAboveIsLast(rows, ch, |rows|);
  }

  /** Writing a grid of digits out as map text gives rows the loader reads
      back as the same grid. */
  lemma RowLinesRoundTrip(cells: seq<seq<int>>, w: nat)
    requires forall y :: 0 <= y < |cells| ==> |cells[y]| == w
    requires forall y, x :: 0 <= y < |cells| && 0 <= x < w ==> 0 <= cells[y][x] <= 9
    ensures var rows := seq(|cells|, y requires 0 <= y < |cells| => RowLine(cells[y]));
      Uniform(rows, w) &&
      forall y, x :: 0 <= y < |cells| && 0 <= x < w ==> Digit(rows[y][x]) == cells[y][x]
  {
    var rows := seq(|cells|, y requires 0 <= y < |cells| => RowLine(cells[y]));
    forall y | 0 <= y < |rows|
      ensures |rows[y]| == w && '\n' !in rows[y]
    {
      assert rows[y] == RowLine(cells[y]);
    }
  }

  /** A map of the digits 0..4 with a single '4', loaded with player and
      start on that '4', satisfies the invariants of play. */
  lemma LoadedInv(g: Game, rows: seq<string>)
    requires Fits(g) && |rows| == g.height && Uniform(rows, g.width)
    requires forall y, x :: 0 <= y < g.height && 0 <= x < g.width ==>
               '0' <= rows[y][x] <= '4' && g.cells[y][x] == Digit(rows[y][x])
    requires forall y, x :: 0 <= y < g.height && 0 <= x < g.width ==>
               (rows[y][x] == '4' <==> Pos(x, y) == g.start)
    requires g.player == g.start
    ensures Inv(g)
  {
  }
}
