/** The text drawn for a grid: one glyph per cell, cells of a row separated
    by a space, rows separated by a newline, nothing after the last cell. */
module Picture {

  /** The glyph table, indexed by cell value: the five glyphs of the cell
      values 0..4 and the terminating NUL of the C string, which value 5
      reaches without leaving the array. */
  const SPRITES := " H*XO\0"

  predicate GlyphRow(row: seq<int>)
  {
    forall x :: 0 <= x < |row| ==> 0 <= row[x] < |SPRITES|
  }

  predicate GlyphRows(rows: seq<seq<int>>)
  {
    forall y :: 0 <= y < |rows| ==> GlyphRow(rows[y])
  }

  /** The glyph of a cell value: a blank exactly for EMPTY, never a
      character of the layout (newline), and distinct for distinct values
      (SpriteInjective). */
  function Sprite(v: int): (c: char)
    requires 0 <= v < |SPRITES|
    ensures c != '\n'
    ensures c == ' ' <==> v == 0
  {
    SPRITES[v]
  }

  lemma SpriteInjective(u: int, v: int)
    requires 0 <= u < |SPRITES| && 0 <= v < |SPRITES|
    ensures Sprite(u) == Sprite(v) ==> u == v
  {
  }

  /** One row of glyphs separated by single spaces. */
  function RowText(row: seq<int>): string
    requires GlyphRow(row)
  {
    if |row| == 0 then ""
    else if |row| == 1 then [Sprite(row[0])]
    else RowText(row[..|row| - 1]) + [' ', Sprite(row[|row| - 1])]
  }

  /** The rows' texts separated by single newlines. */
  function Draw(rows: seq<seq<int>>): string
    requires GlyphRows(rows)
  {
    if |rows| == 0 then ""
    else if |rows| == 1 then RowText(rows[0])
    else Draw(rows[..|rows| - 1]) + "\n" + RowText(rows[|rows| - 1])
  }

  /** A row of w >= 1 cells is 2w - 1 characters long. */
  lemma {:induction false} RowTextLength(row: seq<int>)
    requires GlyphRow(row) && |row| >= 1
    ensures |RowText(row)| == 2 * |row| - 1
    decreases |row|
  {
    if |row| > 1 {
      RowTextLength(row[..|row| - 1]);
    }
  }

  /** The glyph of cell x sits at offset 2x of its row's text, and a space
      follows it unless x is the last cell. */
  lemma {:induction false} RowTextAt(row: seq<int>, x: nat)
    requires GlyphRow(row) && x < |row|
    ensures |RowText(row)| == 2 * |row| - 1
    ensures RowText(row)[2 * x] == Sprite(row[x])
    ensures x < |row| - 1 ==> RowText(row)[2 * x + 1] == ' '
    decreases |row|
  {
    RowTextLength(row);
    if |row| > 1 {
      var init := row[..|row| - 1];
      RowTextLength(init);
      assert RowText(row) == RowText(init) + [' ', Sprite(row[|row| - 1])];
      if x < |init| {
        RowTextAt(init, x);
      }
    }
  }

  /** Where row y of a picture of width w starts: each row before it
      takes its 2w - 1 characters and one newline. */
  function RowOffset(w: nat, y: nat): nat
  {
    if y == 0 then 0 else RowOffset(w, y - 1) + 2 * w
  }

  lemma {:induction false} RowOffsetIs(w: nat, y: nat)
    ensures RowOffset(w, y) == 2 * w * y
  {
    if y > 0 {
      RowOffsetIs(w, y - 1);
      assert 2 * w * y == 2 * w * (y - 1) + 2 * w;
    }
  }

  /** A picture of h >= 1 rows of w >= 1 cells is h * (2w - 1) + (h - 1)
      characters long. */
  lemma DrawLength(rows: seq<seq<int>>, w: nat)
    requires GlyphRows(rows) && |rows| >= 1 && w >= 1
    requires forall y :: 0 <= y < |rows| ==> |rows[y]| == w
    ensures |Draw(rows)| == |rows| * (2 * w - 1) + (|rows| - 1)
  {
    DrawSize(rows, w);
    var h := |rows|;
    RowOffsetIs(w, h);
    assert h * (2 * w - 1) == 2 * w * h - h;
  }

  lemma {:induction false} DrawSize(rows: seq<seq<int>>, w: nat)
    requires GlyphRows(rows) && |rows| >= 1 && w >= 1
    requires forall y :: 0 <= y < |rows| ==> |rows[y]| == w
    ensures |Draw(rows)| == RowOffset(w, |rows|) - 1
    decreases |rows|
  {
    var n := |rows| - 1;
    RowTextLength(rows[n]);
    if n > 0 {
      DrawSize(rows[..n], w);
    }
  }

  /** Two pictures stacked are joined by one newline. */
  lemma {:induction false} DrawConcat(a: seq<seq<int>>, b: seq<seq<int>>)
    requires GlyphRows(a) && GlyphRows(b) && a != [] && b != []
    ensures GlyphRows(a + b)
    ensures Draw(a + b) == Draw(a) + "\n" + Draw(b)
    decreases |b|
  {
    var ab := a + b;
    var n := |b| - 1;
    assert ab[..|ab| - 1] == a + b[..n];
    assert ab[|ab| - 1] == b[n];
    if n == 0 {
      assert ab[..|ab| - 1] == a;
    } else {
      DrawConcat(a, b[..n]);
      calc {
        Draw(ab);
        Draw(a + b[..n]) + "\n" + RowText(b[n]);
        Draw(a) + "\n" + Draw(b[..n]) + "\n" + RowText(b[n]);
        Draw(a) + "\n" + (Draw(b[..n]) + "\n" + RowText(b[n]));
        Draw(a) + "\n" + Draw(b);
      }
    }
  }

  /** Where each character of the picture comes from: row y starts at
      RowOffset(w, y), which is 2wy (RowOffsetIs); the glyph of cell (x, y)
      sits 2x further on; after it comes a space inside a row, and a
      newline after the last cell of every row but the last one. */
  lemma {:induction false} DrawLayout(rows: seq<seq<int>>, w: nat, y: nat, x: nat)
    requires GlyphRows(rows) && w >= 1
    requires forall j :: 0 <= j < |rows| ==> |rows[j]| == w
    requires y < |rows| && x < w
    ensures RowOffset(w, y) + 2 * w <= |Draw(rows)| + 1
    ensures Draw(rows)[RowOffset(w, y) + 2 * x] == Sprite(rows[y][x])
    ensures x < w - 1 ==> Draw(rows)[RowOffset(w, y) + 2 * x + 1] == ' '
    ensures y < |rows| - 1 ==> RowOffset(w, y) + 2 * w < |Draw(rows)| &&
                               Draw(rows)[RowOffset(w, y) + 2 * w - 1] == '\n'
    decreases |rows|
  {
    var n := |rows| - 1;
    if y == n {
      LastRowLayout(rows, w, y, x);
    } else {
      var init := rows[..n];
      DrawLayout(init, w, y, x);
      DrawSize(init, w);
      RowTextLength(rows[n]);
      assert Draw(rows) == Draw(init) + "\n" + RowText(rows[n]);
    }
  }

  /** The last row of the picture starts where its row offset says and
      runs to the end. */
  lemma LastRowLayout(rows: seq<seq<int>>, w: nat, y: nat, x: nat)
    requires GlyphRows(rows) && w >= 1 && |rows| == y + 1
    requires forall j :: 0 <= j < |rows| ==> |rows[j]| == w
    requires x < w
    ensures |Draw(rows)| == RowOffset(w, y) + 2 * w - 1
    ensures Draw(rows)[RowOffset(w, y) + 2 * x] == Sprite(rows[y][x])
    ensures x < w - 1 ==> Draw(rows)[RowOffset(w, y) + 2 * x + 1] == ' '
  {
    var last := rows[y];
    RowTextAt(last, x);
    if y > 0 {
      var init := rows[..y];
      DrawSize(init, w);
      assert Draw(rows) == Draw(init) + "\n" + RowText(last);
    }
  }

  /** The picture determines the grid: two grids of the same shape with
      the same picture hold the same cells. */
  lemma DrawInjective(a: seq<seq<int>>, b: seq<seq<int>>, w: nat)
    requires GlyphRows(a) && GlyphRows(b) && w >= 1 && |a| == |b|
    requires forall j :: 0 <= j < |a| ==> |a[j]| == w
    requires forall j :: 0 <= j < |b| ==> |b[j]| == w
    requires Draw(a) == Draw(b)
    ensures a == b
  {
    forall y, x | 0 <= y < |a| && 0 <= x < w
      ensures a[y][x] == b[y][x]
    {
      DrawLayout(a, w, y, x);
      DrawLayout(b, w, y, x);
      SpriteInjective(a[y][x], b[y][x]);
    }
    forall y | 0 <= y < |a|
      ensures a[y] == b[y]
    {
    }
  }
}
