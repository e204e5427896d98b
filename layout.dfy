/**
 * How the view lays text out on the screen: vertical scrolling of the top
 * line, the cursor's tab-expanded column, horizontal scrolling, and the
 * grid of cells one refresh draws together with the cell of the caret.
 * Both the current display and the older single-file editor use these.
 */
module Layout {
  import opened Text
  import Utility

  /*------------------------------------------------------------------------
   * Columns measured from a row start
   *------------------------------------------------------------------------*/

  /** Columns grow by at least one per character. */
  lemma {:induction false} ColMono(s: seq<char>, p: nat, q: nat, r: nat)
    requires p <= q <= r <= |s|
    ensures Col(s, p, q) + (r - q) <= Col(s, p, r)
    decreases r
  {
    if q < r {
      ColMono(s, p, q, r - 1);
    }
  }

  /** The cells that the character at q occupies in Expansion(s, p, e)
      start at its column and are the cells it draws there. */
  lemma ColCells(s: seq<char>, p: nat, q: nat, e: nat)
    requires p <= q < e <= |s|
    ensures Col(s, p, q + 1) == Advance(Col(s, p, q), s[q])
    ensures Col(s, p, q + 1) <= Col(s, p, e) == |Expansion(s, p, e)|
    ensures forall k :: 0 <= k < Col(s, p, q + 1) - Col(s, p, q) ==>
      Expansion(s, p, e)[Col(s, p, q) + k] == Cells(Col(s, p, q), s[q])[k]
  {
    ExpansionPrefix(s, p, q + 1, e);
    var x := Expansion(s, p, e);
    var a := Expansion(s, p, q);
    var b := Cells(Col(s, p, q), s[q]);
    var n := Col(s, p, q + 1);
    assert Expansion(s, p, q + 1) == a + b;
    PrefixParts(x, a, b, n);
  }

  /** When the first n elements of x are a followed by b, b sits in x right after a. */
  lemma PrefixParts(x: seq<char>, a: seq<char>, b: seq<char>, n: nat)
    requires n <= |x| && x[..n] == a + b
    ensures forall k :: 0 <= k < |b| ==> x[|a| + k] == b[k]
  {
    forall k | 0 <= k < |b|
      ensures x[|a| + k] == b[k]
    {
      assert x[..n][|a| + k] == (a + b)[|a| + k];
    }
  }

  /*------------------------------------------------------------------------
   * Vertical scrolling
   *------------------------------------------------------------------------*/

  /** The top line reframe settles on, given the start cl of the cursor's line,
      the old top line and the view height:
      - if cl is at or above the top line, the top line becomes cl;
      - if fewer than h line breaks lie between top and cl, nothing changes;
      - if the cursor line is less than a screenful below the bottom, the view
        scrolls so that the cursor line becomes the last row;
      - otherwise the cursor line becomes the top line. */
  method ScrollTop(s: seq<char>, cl: nat, top: nat, h: int) returns (t: nat)
    requires IsLineStart(s, cl)
    requires cl <= top || IsLineStart(s, top)
    ensures t <= cl && IsLineStart(s, t)
    ensures cl <= top ==> t == cl
    ensures top < cl ==> var d := Newlines(s, top, cl); var rows := if h < 1 then 1 else h;
      && (d < h ==> t == top)
      && (h <= d <= 2 * rows - 1 ==> Newlines(s, t, cl) == rows - 1)
      && (d > 2 * rows - 1 ==> t == cl)
    ensures Newlines(s, t, cl) < if h < 1 then 1 else h
  {
    if cl <= top {
      return cl;
    }
    var rows := 1;
    var line: nat := cl;
    while rows < h
      invariant 1 <= rows && (rows <= h || rows == 1)
      invariant IsLineStart(s, line) && top < line <= cl
      invariant Newlines(s, line, cl) == rows - 1
      decreases h - rows
    {
      var previous := Utility.FindBackward(s, 0, line - 1, Newline);
      PreviousLineOneNewline(s, line);
      LineStartAtLeast(s, top, line - 1);
      NewlinesAdd(s, previous, line, cl);
      line := previous;
      if line == top {
        return top;
      }
      rows := rows + 1;
    }
    NewlinesAdd(s, top, line - 1, line);
    NewlinesAdd(s, top, line, cl);
    var found;
    t, found := SkipLines(s, top, line, rows);
    if !found {
      t := cl;
    }
  }

  /** Move down from line start top, one line at a time, at most rows times,
      looking for line start line further down. */
  method SkipLines(s: seq<char>, top: nat, line: nat, rows: nat) returns (t: nat, found: bool)
    requires IsLineStart(s, top) && IsLineStart(s, line) && top < line && rows >= 1
    ensures found <==> Newlines(s, top, line) <= rows
    ensures found ==> t == line
  {
    NewlinesAdd(s, top, line - 1, line);
    var left := rows;
    t := top;
    while true
      invariant 1 <= left <= rows
      invariant IsLineStart(s, t) && top <= t < line
      invariant Newlines(s, t, line) + (rows - left) == Newlines(s, top, line)
      invariant Newlines(s, t, line) >= 1
      decreases left
    {
      var e := Find(s, t, |s|, Newline);
      NextLineOneNewline(s, t);
      NewlinesAdd(s, t, e + 1, line);
      t := e + 1;
      if t == line {
        return t, true;
      }
      left := left - 1;
      if left <= 0 {
        break;
      }
      NewlinesAdd(s, t, line - 1, line);
    }
    found := false;
  }

  /*------------------------------------------------------------------------
   * Horizontal scrolling
   *------------------------------------------------------------------------*/

  /** The tab-expanded column of position cur on the line starting at cl. */
  method LineColumn(s: seq<char>, cl: nat, cur: nat) returns (column: nat)
    requires cl <= cur <= |s|
    ensures column == Col(s, cl, cur)
  {
    column := 0;
    var q := cl;
    while q != cur
      invariant cl <= q <= cur && column == Col(s, cl, q)
      decreases cur - q
    {
      if s[q] == Tab {
        column := column + (TabStop - column % TabStop);
      } else {
        column := column + 1;
      }
      q := q + 1;
    }
  }

  function Distance(a: int, b: int): nat
  {
    if a <= b then b - a else a - b
  }

  /** The first visible column after reframe, for cursor column `column`:
      a cursor left of the view becomes its first column, one right of it
      its last column, and one inside it leaves it alone. */
  function HorizontalScroll(fc: int, w: int, column: int): (r: int)
    ensures w >= 1 ==> r <= column < r + w
    ensures fc <= column < fc + w ==> r == fc
    ensures w >= 1 ==> forall r' :: r' <= column < r' + w ==> Distance(r, fc) <= Distance(r', fc)
  {
    if column < fc then column
    else if fc + w <= column then column - w + 1
    else fc
  }

  /*------------------------------------------------------------------------
   * The screen grid
   *------------------------------------------------------------------------*/

  /** Where drawing of the row starting at p begins: the first position whose
      column reaches the first visible column fc, or the end of the line. */
  function SkipFrom(s: seq<char>, p: nat, q: nat, fc: int): (r: nat)
    requires p <= q <= |s|
    ensures q <= r <= |s|
    ensures forall i :: q <= i < r ==> s[i] != Newline
    decreases |s| - q
  {
    if q == |s| || s[q] == Newline || Col(s, p, q) >= fc then q
    else SkipFrom(s, p, q + 1, fc)
  }

  function RowFirst(s: seq<char>, p: nat, fc: int): (q0: nat)
    requires p <= |s|
    ensures p <= q0 <= LineEnd(s, p)
  {
    SkipFrom(s, p, p, fc)
  }

  /** The expanded column at which drawing of the row starting at p begins. */
  function RowColumn(s: seq<char>, p: nat, fc: int): (c: nat)
    requires p <= |s|
    ensures c <= Col(s, p, LineEnd(s, p))
  {
    ColMono(s, p, RowFirst(s, p, fc), LineEnd(s, p));
    Col(s, p, RowFirst(s, p, fc))
  }

  /** The first w cells of t, padded with blanks. */
  function Fit(t: seq<char>, w: nat): (r: seq<char>)
    ensures |r| == w
  {
    if |t| >= w then t[..w] else t + Blanks(w - |t|)
  }

  lemma FitAt(t: seq<char>, w: nat, k: nat)
    requires k < w
    ensures Fit(t, w)[k] == if k < |t| then t[k] else ' '
  {
  }

  function Blanks(n: nat): (r: seq<char>)
    ensures |r| == n
  {
    seq(n, _ => ' ')
  }

  /** The w cells of the row starting at p: its line, tab-expanded, from the
      column where drawing begins, cut or padded to the width. */
  function RowCells(s: seq<char>, p: nat, fc: int, w: nat): (r: seq<char>)
    requires p <= |s|
    ensures |r| == w
  {
    Fit(Expansion(s, p, LineEnd(s, p))[RowColumn(s, p, fc)..], w)
  }

  /** Position q is met while the row starting at p is drawn: it lies on the
      row's line, at or after where drawing begins, and its column is still
      inside the width. */
  predicate Visited(s: seq<char>, p: nat, fc: int, w: int, q: nat)
    requires p <= |s|
  {
    RowFirst(s, p, fc) <= q <= LineEnd(s, p) && Col(s, p, q) - RowColumn(s, p, fc) < w
  }

  /** Drawing stops for good in this row: it meets the end of the text. */
  predicate Ends(s: seq<char>, p: nat, fc: int, w: int)
    requires p <= |s|
  {
    LineEnd(s, p) == |s| && Visited(s, p, fc, w, |s|)
  }

  /** Where the next row starts: after the line's newline, or at the end. */
  function NextRow(s: seq<char>, p: nat): (r: nat)
    requires p <= |s|
    ensures p <= r <= |s|
  {
    if LineEnd(s, p) < |s| then LineEnd(s, p) + 1 else |s|
  }

  /** The number of cells in m rows of width w. */
  function Area(m: nat, w: nat): (n: nat)
    decreases m
  {
    if m == 0 then 0 else w + Area(m - 1, w)
  }

  lemma {:induction false} AreaIsProduct(m: nat, w: nat)
    ensures Area(m, w) == m * w
    decreases m
  {
    if m > 0 {
      AreaIsProduct(m - 1, w);
      assert m * w == w + (m - 1) * w;
    }
  }

  /** The cells of m rows of width w drawn from row start p: one line per row,
      and all blanks after the row that meets the end of the text. */
  function Rows(s: seq<char>, p: nat, fc: int, w: nat, m: nat): (r: seq<char>)
    requires p <= |s|
    ensures |r| == Area(m, w)
    decreases m
  {
    if m == 0 then []
    else
      var rest := if Ends(s, p, fc, w) then Blanks(Area(m - 1, w)) else Rows(s, NextRow(s, p), fc, w, m - 1);
      RowCells(s, p, fc, w) + rest
  }

  /** A screen position: row and column. */
  datatype Caret = Caret(row: int, column: int)

  /** The caret after drawing m rows numbered from r, starting at row start p,
      when it was acc before: the last row that meets cur places it at the
      cell where cur is drawn. */
  function CaretFrom(s: seq<char>, p: nat, fc: int, w: int, cur: nat, r: int, m: nat, acc: Caret): Caret
    requires p <= |s|
    decreases m
  {
    if m == 0 then acc
    else
      var here := if Visited(s, p, fc, w, cur) then Caret(r, Col(s, p, cur) - RowColumn(s, p, fc)) else acc;
      if Ends(s, p, fc, w) then here else CaretFrom(s, NextRow(s, p), fc, w, cur, r + 1, m - 1, here)
  }

  /** What the cell of the caret shows: the character at cur, or a blank for
      a tab, a newline or the end of the text. */
  function Glyph(s: seq<char>, cur: nat): char
  {
    if cur < |s| && s[cur] != Newline && s[cur] != Tab then s[cur] else ' '
  }

  /** Position cur is met in one of m rows from row start p. */
  predicate Shown(s: seq<char>, p: nat, fc: int, w: int, cur: nat, m: nat)
    requires p <= |s|
    decreases m
  {
    m > 0 && (Visited(s, p, fc, w, cur) || (!Ends(s, p, fc, w) && Shown(s, NextRow(s, p), fc, w, cur, m - 1)))
  }

  /** Cell k of the first w cells of x from c on. */
  lemma FitFrom(x: seq<char>, c: nat, w: nat, k: nat)
    requires c <= |x| && k < w
    ensures Fit(x[c..], w)[k] == if c + k < |x| then x[c + k] else ' '
  {
    FitAt(x[c..], w, k);
  }

  /** Every character of the row's line past where drawing begins is drawn
      in the columns it occupies, as far as the width allows: a tab as blanks
      up to the next tab stop, any other character as itself. */
  lemma RowShowsCharacter(s: seq<char>, p: nat, fc: int, w: nat, q: nat)
    requires p <= |s| && RowFirst(s, p, fc) <= q < LineEnd(s, p)
    ensures RowColumn(s, p, fc) <= Col(s, p, q) < Col(s, p, q + 1) == Advance(Col(s, p, q), s[q])
    ensures ShowsCells(RowCells(s, p, fc, w), Col(s, p, q) - RowColumn(s, p, fc), Cells(Col(s, p, q), s[q]))
  {
    var e := LineEnd(s, p);
    var c := RowColumn(s, p, fc);
    var col := Col(s, p, q);
    var x := Expansion(s, p, e);
    var cells := Cells(col, s[q]);
    assert c <= col by {
      ColMono(s, p, RowFirst(s, p, fc), q);
    }
    assert col + |cells| <= |x| && forall k :: 0 <= k < |cells| ==> x[col + k] == cells[k] by {
      ColCells(s, p, q, e);
    }
    assert RowCells(s, p, fc, w) == Fit(x[c..], w);
    FitShows(x, c, w, col, cells);
  }

  /** Cells found in x at col are shown at col - c in the first w cells of x from c on. */
  lemma FitShows(x: seq<char>, c: nat, w: nat, col: nat, cells: seq<char>)
    requires c <= col && col + |cells| <= |x|
    requires forall k :: 0 <= k < |cells| ==> x[col + k] == cells[k]
    ensures ShowsCells(Fit(x[c..], w), col - c, cells)
  {
    forall j | 0 <= j < |cells| && 0 <= col - c + j < w
      ensures Fit(x[c..], w)[col - c + j] == cells[j]
    {
      FitFrom(x, c, w, col - c + j);
    }
  }

  /** The cells shown from index at of row on are cells, as far as they fit. */
  predicate ShowsCells(row: seq<char>, at: int, cells: seq<char>)
  {
    forall j :: 0 <= j < |cells| && 0 <= at + j < |row| ==> row[at + j] == cells[j]
  }

  /** A visited position is drawn inside the row, and its cell shows its glyph. */
  lemma RowGlyph(s: seq<char>, p: nat, fc: int, w: nat, cur: nat)
    requires p <= |s| && Visited(s, p, fc, w, cur)
    ensures 0 <= Col(s, p, cur) - RowColumn(s, p, fc) < w
    ensures RowCells(s, p, fc, w)[Col(s, p, cur) - RowColumn(s, p, fc)] == Glyph(s, cur)
  {
    var e := LineEnd(s, p);
    var x := Expansion(s, p, e);
    var c := RowColumn(s, p, fc);
    var col := Col(s, p, cur);
    assert c <= col by {
      ColMono(s, p, RowFirst(s, p, fc), cur);
    }
    assert col <= |x| && (if col < |x| then x[col] else ' ') == Glyph(s, cur) by {
      if cur < e {
        if s[cur] == Tab {
          TabBlanks(s, p, cur, e);
        } else {
          PlainCell(s, p, cur, e);
        }
      }
    }
    assert RowCells(s, p, fc, w) == Fit(x[c..], w);
    FitFrom(x, c, w, col - c);
  }

  /** With a positive width, the caret always lies on the grid. */
  lemma {:induction false} CaretInBounds(s: seq<char>, p: nat, fc: int, w: nat, cur: nat, r: int, m: nat, acc: Caret)
    requires p <= |s| && w >= 1 && m >= 1
    requires 0 <= acc.row <= r && 0 <= acc.column < w
    ensures var k := CaretFrom(s, p, fc, w, cur, r, m, acc); 0 <= k.row < r + m && 0 <= k.column < w
    decreases m
  {
    var n: nat := m - 1;
    CaretStep(s, p, fc, w, cur, r, m, n, acc);
    if Visited(s, p, fc, w, cur) {
      ColMono(s, p, RowFirst(s, p, fc), cur);
    }
    var here := if Visited(s, p, fc, w, cur) then Caret(r, Col(s, p, cur) - RowColumn(s, p, fc)) else acc;
    if !Ends(s, p, fc, w) && n >= 1 {
      CaretInBounds(s, NextRow(s, p), fc, w, cur, r + 1, n, here);
    }
  }

  /** Rows starting after cur never meet it, so they leave the caret alone. */
  lemma {:induction false} CaretPast(s: seq<char>, p: nat, fc: int, w: int, cur: nat, r: int, m: nat, acc: Caret)
    requires p <= |s| && cur < p
    ensures CaretFrom(s, p, fc, w, cur, r, m, acc) == acc
    decreases m
  {
    if m > 0 && !Ends(s, p, fc, w) {
      CaretPast(s, NextRow(s, p), fc, w, cur, r + 1, m - 1, acc);
    }
  }

  /** A cursor that no row meets leaves the caret where it was. */
  lemma {:induction false} CaretUnshown(s: seq<char>, p: nat, fc: int, w: int, cur: nat, r: int, m: nat, acc: Caret)
    requires p <= |s| && !Shown(s, p, fc, w, cur, m)
    ensures CaretFrom(s, p, fc, w, cur, r, m, acc) == acc
    decreases m
  {
    if m > 0 && !Ends(s, p, fc, w) {
      CaretUnshown(s, NextRow(s, p), fc, w, cur, r + 1, m - 1, acc);
    }
  }

  /** The index of cell (a, b) in a grid of rows of width w. */
  function Cell(a: nat, b: nat, w: nat): nat
  {
    Area(a, w) + b
  }

  /** Cell (a, b) of a grid of m rows of width w exists. */
  lemma {:induction false} GridIndex(a: nat, b: nat, m: nat, w: nat)
    requires a < m && b < w
    ensures Cell(a, b, w) < Area(m, w)
    decreases m
  {
    if a + 1 < m {
      GridIndex(a, b, m - 1, w);
    }
  }

  lemma RowsHead(s: seq<char>, p: nat, fc: int, w: nat, m: nat, i: nat)
    requires p <= |s| && m >= 1 && i < w
    ensures i < |Rows(s, p, fc, w, m)| && Rows(s, p, fc, w, m)[i] == RowCells(s, p, fc, w)[i]
  {
  }

  lemma RowsTail(s: seq<char>, p: nat, fc: int, w: nat, m: nat, i: nat)
    requires p <= |s| && m >= 1 && !Ends(s, p, fc, w) && i < |Rows(s, NextRow(s, p), fc, w, m - 1)|
    ensures w + i < |Rows(s, p, fc, w, m)| && Rows(s, p, fc, w, m)[w + i] == Rows(s, NextRow(s, p), fc, w, m - 1)[i]
  {
  }

  /** The row that meets the cursor is the one the caret ends on. */
  lemma CaretHere(s: seq<char>, p: nat, fc: int, w: int, cur: nat, r: int, m: nat, acc: Caret)
    requires p <= |s| && m >= 1 && Visited(s, p, fc, w, cur)
    ensures CaretFrom(s, p, fc, w, cur, r, m, acc) == Caret(r, Col(s, p, cur) - RowColumn(s, p, fc))
  {
    var here := Caret(r, Col(s, p, cur) - RowColumn(s, p, fc));
    if !Ends(s, p, fc, w) {
      assert cur < NextRow(s, p);
      CaretPast(s, NextRow(s, p), fc, w, cur, r + 1, m - 1, here);
    }
  }

  /** Cell (a, b) of a grid of rows of width w exists and shows g. */
  predicate GlyphAt(cells: seq<char>, a: int, b: int, w: nat, g: char)
  {
    0 <= a && 0 <= b < w && Cell(a, b, w) < |cells| && cells[Cell(a, b, w)] == g
  }

  lemma GlyphAtHead(head: seq<char>, rest: seq<char>, b: nat, w: nat, g: char)
    requires |head| == w && b < w && head[b] == g
    ensures GlyphAt(head + rest, 0, b, w, g)
  {
    assert Cell(0, b, w) == b;
  }

  lemma GlyphAtNext(head: seq<char>, rest: seq<char>, a: int, b: int, w: nat, g: char)
    requires |head| == w && GlyphAt(rest, a - 1, b, w, g)
    ensures GlyphAt(head + rest, a, b, w, g)
  {
    assert Cell(a, b, w) == w + Cell(a - 1, b, w);
  }

  /** Caret k lies on one of m rows numbered from r and inside the width,
      and the cell of the grid it names shows the glyph of cur. */
  predicate ShowsGlyph(s: seq<char>, p: nat, fc: int, w: nat, cur: nat, r: int, m: nat, k: Caret)
    requires p <= |s|
  {
    r <= k.row < r + m && GlyphAt(Rows(s, p, fc, w, m), k.row - r, k.column, w, Glyph(s, cur))
  }

  lemma ShowsGlyphHere(s: seq<char>, p: nat, fc: int, w: nat, cur: nat, r: int, m: nat, k: Caret)
    requires p <= |s| && m >= 1 && Visited(s, p, fc, w, cur)
    requires k == Caret(r, Col(s, p, cur) - RowColumn(s, p, fc))
    ensures ShowsGlyph(s, p, fc, w, cur, r, m, k)
  {
    RowGlyph(s, p, fc, w, cur);
    var head := RowCells(s, p, fc, w);
    if Ends(s, p, fc, w) {
      var rest := Blanks(Area(m - 1, w));
      assert Rows(s, p, fc, w, m) == head + rest;
      GlyphAtHead(head, rest, k.column, w, Glyph(s, cur));
    } else {
      var rest := Rows(s, NextRow(s, p), fc, w, m - 1);
      assert Rows(s, p, fc, w, m) == head + rest;
      GlyphAtHead(head, rest, k.column, w, Glyph(s, cur));
    }
  }

  lemma ShowsGlyphNext(s: seq<char>, p: nat, fc: int, w: nat, cur: nat, r: int, m: nat, k: Caret)
    requires p <= |s| && m >= 1 && !Ends(s, p, fc, w)
    requires ShowsGlyph(s, NextRow(s, p), fc, w, cur, r + 1, m - 1, k)
    ensures ShowsGlyph(s, p, fc, w, cur, r, m, k)
  {
    var head := RowCells(s, p, fc, w);
    var rest := Rows(s, NextRow(s, p), fc, w, m - 1);
    assert Rows(s, p, fc, w, m) == head + rest;
    GlyphAtNext(head, rest, k.row - r, k.column, w, Glyph(s, cur));
  }

  /** A cursor that some row meets places the caret on that row, at the cell
      the cursor is drawn in, and that cell of the grid shows its glyph. */
  lemma {:induction false} CaretShowsCursor(s: seq<char>, p: nat, fc: int, w: nat, cur: nat, r: int, m: nat, acc: Caret)
    requires p <= |s| && Shown(s, p, fc, w, cur, m)
    ensures ShowsGlyph(s, p, fc, w, cur, r, m, CaretFrom(s, p, fc, w, cur, r, m, acc))
    decreases m
  {
    if Visited(s, p, fc, w, cur) {
      CaretHere(s, p, fc, w, cur, r, m, acc);
      ShowsGlyphHere(s, p, fc, w, cur, r, m, CaretFrom(s, p, fc, w, cur, r, m, acc));
    } else {
      var k := CaretFrom(s, NextRow(s, p), fc, w, cur, r + 1, m - 1, acc);
      assert CaretFrom(s, p, fc, w, cur, r, m, acc) == k;
      CaretShowsCursor(s, NextRow(s, p), fc, w, cur, r + 1, m - 1, acc);
      ShowsGlyphNext(s, p, fc, w, cur, r, m, k);
    }
  }

  /*------------------------------------------------------------------------
   * Drawing
   *------------------------------------------------------------------------*/

  /** Walk from row start p until the column reaches fc or the line ends. */
  method SkipColumns(s: seq<char>, p: nat, fc: int) returns (q: nat, column: nat)
    requires p <= |s|
    ensures q == RowFirst(s, p, fc) && column == Col(s, p, q)
  {
    q, column := p, 0;
    while column < fc
      invariant p <= q <= |s| && column == Col(s, p, q)
      invariant SkipFrom(s, p, q, fc) == SkipFrom(s, p, p, fc)
      decreases |s| - q
    {
      if q == |s| {
        break;
      }
      if s[q] == Newline {
        break;
      }
      if s[q] == Tab {
        column := column + (TabStop - column % TabStop);
      } else {
        column := column + 1;
      }
      q := q + 1;
    }
  }

  /** Draw up to n blanks of a tab into grid[base + width..], stopping at the
      row edge base + w. */
  method FillTab(grid: array<char>, base: nat, w: nat, width: nat, n: nat) returns (width': nat)
    requires base + w <= grid.Length && width < w
    modifies grid
    ensures width' == if width + n < w then width + n else w
    ensures forall i :: 0 <= i < grid.Length ==>
      grid[i] == if base + width <= i < base + width' then ' ' else old(grid[i])
  {
    width' := width;
    var k := n;
    while k > 0 && width' < w
      invariant width <= width' <= w && width' - width + k == n
      invariant forall i :: 0 <= i < grid.Length ==>
        grid[i] == if base + width <= i < base + width' then ' ' else old(grid[i])
      decreases k
    {
      grid[base + width'] := ' ';
      k := k - 1;
      width' := width' + 1;
    }
  }

  /** A tab at q expands to blanks up to the next tab stop. */
  lemma TabBlanks(s: seq<char>, p: nat, q: nat, e: nat)
    requires p <= q < e <= |s| && s[q] == Tab
    ensures Col(s, p, q + 1) == Col(s, p, q) + (TabStop - Col(s, p, q) % TabStop) <= Col(s, p, e) == |Expansion(s, p, e)|
    ensures forall i :: Col(s, p, q) <= i < Col(s, p, q + 1) ==> Expansion(s, p, e)[i] == ' '
  {
    ColCells(s, p, q, e);
    var col := Col(s, p, q);
    assert Advance(col, s[q]) == col + (TabStop - col % TabStop);
    var cells := Cells(col, s[q]);
    assert cells == seq(TabStop - col % TabStop, _ => ' ');
    forall i | col <= i < Col(s, p, q + 1)
      ensures Expansion(s, p, e)[i] == ' '
    {
      assert Expansion(s, p, e)[col + (i - col)] == cells[i - col];
    }
  }

  /** Any other character at q expands to itself. */
  lemma PlainCell(s: seq<char>, p: nat, q: nat, e: nat)
    requires p <= q < e <= |s| && s[q] != Tab
    ensures Col(s, p, q + 1) == Col(s, p, q) + 1 <= Col(s, p, e) == |Expansion(s, p, e)|
    ensures Expansion(s, p, e)[Col(s, p, q)] == s[q]
  {
    ColCells(s, p, q, e);
    assert Cells(Col(s, p, q), s[q])[0] == s[q];
  }

  /** Draw the character at q, which starts at column Col(s, p, q), into the
      row: a tab as blanks up to the next tab stop, anything else as itself,
      never past the row edge.  Afterwards the row holds the expansion x of
      the line from column c up to the new width. */
  method DrawCharacter(s: seq<char>, grid: array<char>, base: nat, w: nat, p: nat, q: nat, ghost e: nat,
                       ghost x: seq<char>, ghost g: seq<char>, ghost c: nat, width: nat, column: nat)
      returns (width': nat, column': nat)
    requires p <= q < e <= |s| && s[q] != Newline && base + w <= grid.Length == |g|
    requires x == Expansion(s, p, e)
    requires width < w && column == c + width && column == Col(s, p, q) <= Col(s, p, e) == |x|
    requires forall i :: 0 <= i < grid.Length ==>
      grid[i] == if base <= i < base + width then x[c + (i - base)] else g[i]
    modifies grid
    ensures width < width' <= w && column' == c + width'
    ensures width' < w ==> column' == Col(s, p, q + 1)
    ensures column' <= Col(s, p, q + 1) <= Col(s, p, e) == |x|
    ensures forall i :: 0 <= i < grid.Length ==>
      grid[i] == if base <= i < base + width' then x[c + (i - base)] else g[i]
  {
    hide Col, Expansion;
    if s[q] == Tab {
      TabBlanks(s, p, q, e);
      var n := TabStop - column % TabStop;
      width' := FillTab(grid, base, w, width, n);
      column' := column + (width' - width);
      forall i | 0 <= i < grid.Length
        ensures grid[i] == if base <= i < base + width' then x[c + (i - base)] else g[i]
      {
        if base + width <= i < base + width' {
          assert Col(s, p, q) <= c + (i - base) < Col(s, p, q + 1);
        }
      }
    } else {
      PlainCell(s, p, q, e);
      grid[base + width] := s[q];
      column' := column + 1;
      width' := width + 1;
    }
  }

  /** Copy the characters of the line from q0, whose column is c, into
      grid[base..base + w], expanding tabs, until the width is full, the line
      ends or the text ends.  Returns where drawing stopped, the width drawn,
      whether the end of the text was met, and the caret, moved to the
      cursor's cell if drawing met it. */
  method DrawLine(s: seq<char>, grid: array<char>, base: nat, w: nat, p: nat, q0: nat, c: nat,
                  ghost e: nat, ghost x: seq<char>, cur: nat, ghost k: int, row: int, caret: Caret)
      returns (q: nat, width: nat, ended: bool, caret': Caret, ghost last: nat)
    requires p <= q0 <= e <= |s| && (e < |s| ==> s[e] == Newline) && x == Expansion(s, p, e)
    requires base + w <= grid.Length
    requires c == Col(s, p, q0)
    requires q0 <= cur <= e ==> k == Col(s, p, cur) - c
    modifies grid
    ensures q0 <= q <= e && width <= w && c + width <= Col(s, p, q) <= Col(s, p, e) == |x|
    ensures width < w ==> Col(s, p, q) == c + width && (q == |s| || s[q] == Newline)
    ensures q0 < q ==> q == last + 1 && Col(s, p, last) - c < w
    ensures ended <==> width < w && q == |s|
    ensures forall i :: 0 <= i < grid.Length ==>
      grid[i] == if base <= i < base + width then x[c + (i - base)] else old(grid[i])
    ensures caret' == if q0 <= cur < q || (cur == q && width < w) then Caret(row, k) else caret
  {
    ghost var g := grid[..];
    ColMono(s, p, q0, e);
    q, width, caret', last := q0, 0, caret, q0;
    var column := c;
    // The drawing loop; its last round, which meets the text end or the
    // newline while the row still has room, is the check after it.
    while width < w && q < |s| && s[q] != Newline
      invariant q0 <= q <= e && 0 <= width <= w && column == c + width
      invariant width < w ==> column == Col(s, p, q)
      invariant column <= Col(s, p, q) <= |x|
      invariant forall i :: 0 <= i < grid.Length ==>
        grid[i] == if base <= i < base + width then x[c + (i - base)] else g[i]
      invariant q0 < q ==> q == last + 1 && Col(s, p, last) - c < w
      invariant caret' == if q0 <= cur < q then Caret(row, k) else caret
      decreases w - width
    {
      caret' := MoveCaret(q0, q, cur, row, width, k, caret, caret');
      q, width, column, last := DrawStep(s, grid, base, w, p, q0, c, e, x, g, cur, k, q, width, column, last);
    }
    if width < w && q == cur {
      caret' := Caret(row, width);
    }
    ended := width < w && q == |s|;
  }

  /** The caret of the drawing loop after it passed position q: the cell
      of q, at width, if q is the cursor (then k is that width). */
  method MoveCaret(q0: nat, q: nat, cur: nat, row: int, width: nat, ghost k: int, ghost caret: Caret, caret': Caret)
      returns (caret'': Caret)
    requires q0 <= q && (q == cur ==> k == width)
    requires caret' == if q0 <= cur < q then Caret(row, k) else caret
    ensures caret'' == if q0 <= cur < q + 1 then Caret(row, k) else caret
  {
    caret'' := caret';
    if q == cur {
      caret'' := Caret(row, width);
    }
  }

  /** When the loop meets the cursor, k, the cursor's column from c, is the width drawn. */
  lemma CursorWidth(s: seq<char>, p: nat, q0: nat, e: nat, c: nat, cur: nat, k: int, q: nat, width: nat)
    requires p <= q0 <= q <= e <= |s|
    requires q0 <= cur <= e ==> k == Col(s, p, cur) - c
    requires c + width == Col(s, p, q)
    ensures q == cur ==> k == width
  {
  }

  /** One round of the drawing loop of DrawLine after the caret step: draw
      the character at q and move on to q + 1. */
  method DrawStep(s: seq<char>, grid: array<char>, base: nat, w: nat, p: nat, q0: nat, c: nat,
                  ghost e: nat, ghost x: seq<char>, ghost g: seq<char>, ghost cur: nat, ghost k: int,
                  q: nat, width: nat, column: nat, ghost last: nat)
      returns (q': nat, width': nat, column': nat, ghost last': nat)
    requires p <= q0 <= e <= |s| && (e < |s| ==> s[e] == Newline) && x == Expansion(s, p, e)
    requires base + w <= grid.Length == |g|
    requires c == Col(s, p, q0)
    requires q0 <= cur <= e ==> k == Col(s, p, cur) - c
    requires width < w && q < |s| && s[q] != Newline
    requires q0 <= q <= e && 0 <= width <= w && column == c + width
    requires width < w ==> column == Col(s, p, q)
    requires column <= Col(s, p, q) <= |x|
    requires forall i :: 0 <= i < grid.Length ==>
      grid[i] == if base <= i < base + width then x[c + (i - base)] else g[i]
    requires q0 < q ==> q == last + 1 && Col(s, p, last) - c < w
    modifies grid
    ensures q0 <= q' <= e && 0 <= width' <= w && column' == c + width'
    ensures width' < w ==> column' == Col(s, p, q')
    ensures column' <= Col(s, p, q') <= |x|
    ensures forall i :: 0 <= i < grid.Length ==>
      grid[i] == if base <= i < base + width' then x[c + (i - base)] else g[i]
    ensures q0 < q' ==> q' == last' + 1 && Col(s, p, last') - c < w
    ensures q' == q + 1 && (q == cur ==> k == width)
    ensures w - width' < w - width
  {
    hide Col, Expansion;
    CursorWidth(s, p, q0, e, c, cur, k, q, width);
    last' := q;
    width', column' := DrawCharacter(s, grid, base, w, p, q, e, x, g, c, width, column);
    q' := q + 1;
  }

  /** Draw the row starting at p into grid[base..base + w]: skip to the first
      visible column, then copy characters, expanding tabs, until the width is
      full, the line ends or the text ends.  Returns the start of the next
      row, whether the end of the text was met, and the caret, moved to this
      row if the cursor was met. */
  method RenderRow(s: seq<char>, grid: array<char>, base: nat, w: nat, p: nat, fc: int, cur: nat, row: int, caret: Caret)
      returns (next: nat, ended: bool, caret': Caret)
    requires p <= |s| && base + w <= grid.Length
    requires forall i :: base <= i < base + w ==> grid[i] == ' '
    modifies grid
    ensures forall i :: 0 <= i < |grid[..]| ==>
      grid[..][i] == if base <= i < base + w then RowCells(s, p, fc, w)[i - base] else old(grid[..])[i]
    ensures ended == Ends(s, p, fc, w)
    ensures next == NextRow(s, p)
    ensures caret' == if Visited(s, p, fc, w, cur) then Caret(row, Col(s, p, cur) - RowColumn(s, p, fc)) else caret
  {
    ghost var e := LineEnd(s, p);
    ghost var x := Expansion(s, p, e);
    var q0, c := SkipColumns(s, p, fc);
    var q, width;
    ghost var last;
    ghost var k := if q0 <= cur <= e then Col(s, p, cur) - c else 0;
    q, width, ended, caret', last := DrawLine(s, grid, base, w, p, q0, c, e, x, cur, k, row, caret);
    RowEnd(s, p, fc, w, q, last, width, ended);
    assert RowCells(s, p, fc, w) == Fit(x[c..], w);
    forall i | base <= i < base + w
      ensures grid[i] == Fit(x[c..], w)[i - base]
    {
      FitFrom(x, c, w, i - base);
      if width <= i - base {
        assert q == e && c + width == |x|;
      }
    }
    if ended {
      next := q;
    } else {
      FindOnLine(s, p, q);
      next := Find(s, q, |s|, Newline);
      if next != |s| {
        next := next + 1;
      }
    }
  }

  /** Searching for the newline from any position of a line finds the line's end. */
  lemma FindOnLine(s: seq<char>, p: nat, q: nat)
    requires p <= |s| && p <= q <= LineEnd(s, p)
    ensures Find(s, q, |s|, Newline) == LineEnd(s, p)
  {
  }

  /** How the drawing loop of a row can stop, and what that says about the
      row: either the width is full at q, or q is the end of the line and
      the width is not full.  Then the row meets the end of the text exactly
      when the loop did, and it meets exactly the positions the loop did. */
  lemma RowEnd(s: seq<char>, p: nat, fc: int, w: nat, q: nat, last: nat, width: nat, ended: bool)
    requires p <= |s| && RowFirst(s, p, fc) <= q <= LineEnd(s, p) && width <= w
    requires width == w ==> RowColumn(s, p, fc) + w <= Col(s, p, q)
    requires width < w ==> Col(s, p, q) == RowColumn(s, p, fc) + width && (q == |s| || s[q] == Newline)
    requires RowFirst(s, p, fc) < q ==> q == last + 1 && Col(s, p, last) - RowColumn(s, p, fc) < w
    requires ended <==> width < w && q == |s|
    ensures width < w ==> q == LineEnd(s, p)
    ensures ended == Ends(s, p, fc, w)
    ensures forall i: nat :: Visited(s, p, fc, w, i) <==> RowFirst(s, p, fc) <= i && (i < q || (i == q && width < w))
  {
    var e := LineEnd(s, p);
    var c := RowColumn(s, p, fc);
    forall i | RowFirst(s, p, fc) <= i < q
      ensures Col(s, p, i) - c < w
    {
      ColMono(s, p, i, last);
    }
    forall i | q < i <= e
      ensures Col(s, p, i) > Col(s, p, q)
    {
      ColMono(s, p, q, i);
    }
  }

  /** Draw h rows of width w from top line top, with drawing starting at
      column fc, into a grid of blanks, and find the caret: the screen cell
      of the cursor cur, or row 0, column 0 when no row meets it. Drawing
      stops for good at the row that meets the end of the text. */
  method RenderRows(s: seq<char>, top: nat, fc: int, w: nat, h: nat, cur: nat) returns (cells: seq<char>, caret: Caret)
    requires top <= |s|
    ensures cells == Rows(s, top, fc, w, h)
    ensures caret == CaretFrom(s, top, fc, w, cur, 0, h, Caret(0, 0))
  {
    // Area(h, w) is the w * h cells of the screen (AreaIsProduct).
    var grid := new char[Area(h, w)](_ => ' ');
    assert grid[..] == [] + Blanks(Area(h, w));
    assert [] + Rows(s, top, fc, w, h) == Rows(s, top, fc, w, h);
    caret := RenderLoop(s, grid, top, fc, w, h, cur, Rows(s, top, fc, w, h), CaretFrom(s, top, fc, w, cur, 0, h, Caret(0, 0)));
    cells := grid[..];
  }

  /** The row loop of RenderRows, from the first row on: it leaves all, the
      cells of the h rows, in the grid and final, their caret, in caret. */
  method RenderLoop(s: seq<char>, grid: array<char>, top: nat, fc: int, w: nat, h: nat, cur: nat, ghost all: seq<char>, ghost final: Caret)
      returns (caret: Caret)
    requires top <= |s|
    requires [] + Rows(s, top, fc, w, h) == all
    requires grid[..] == [] + Blanks(Area(h, w))
    requires CaretFrom(s, top, fc, w, cur, 0, h, Caret(0, 0)) == final
    modifies grid
    ensures grid[..] == all && caret == final
  {
    ghost var done: seq<char> := [];
    var p: nat, row: nat, base: nat := top, 0, 0;
    ghost var m: nat := h;
    caret := Caret(0, 0);
    while row < h
      invariant p <= |s| && row + m == h && base == |done|
      invariant done + Rows(s, p, fc, w, m) == all
      invariant grid[..] == done + Blanks(Area(m, w))
      invariant CaretFrom(s, p, fc, w, cur, row, m, caret) == final
      decreases m
    {
      var ended;
      p, ended, caret, done, m := RenderNext(s, grid, base, w, p, fc, cur, row, caret, done, m, all);
      if ended {
        return;
      }
      row, base := row + 1, base + w;
    }
    RowsNone(s, p, fc, w, cur, row, caret, done, all, grid[..]);
  }

  /** No rows are left to draw: the grid is complete and the caret stays. */
  lemma RowsNone(s: seq<char>, p: nat, fc: int, w: nat, cur: nat, row: int, caret: Caret, done: seq<char>, all: seq<char>, g: seq<char>)
    requires p <= |s| && done + Rows(s, p, fc, w, 0) == all && g == done + Blanks(Area(0, w))
    ensures g == all && CaretFrom(s, p, fc, w, cur, row, 0, caret) == caret
  {
    assert Rows(s, p, fc, w, 0) == Blanks(Area(0, w));
  }

  /** One round of RenderRows: draw the row starting at p, the first of the m
      rows still to draw, after the cells done above it. */
  method RenderNext(s: seq<char>, grid: array<char>, base: nat, w: nat, p: nat, fc: int, cur: nat, row: int, caret: Caret,
                    ghost done: seq<char>, ghost m: nat, ghost all: seq<char>)
      returns (next: nat, ended: bool, caret': Caret, ghost done': seq<char>, ghost m': nat)
    requires p <= |s| && m >= 1 && base == |done|
    requires done + Rows(s, p, fc, w, m) == all
    requires grid[..] == done + Blanks(Area(m, w))
    modifies grid
    ensures next <= |s|
    ensures ended ==> grid[..] == all && caret' == CaretFrom(s, p, fc, w, cur, row, m, caret)
    ensures !ended ==> m' == m - 1 && |done'| == base + w && done' + Rows(s, next, fc, w, m') == all
    ensures !ended ==> grid[..] == done' + Blanks(Area(m', w))
    ensures !ended ==> CaretFrom(s, next, fc, w, cur, row + 1, m', caret') == CaretFrom(s, p, fc, w, cur, row, m, caret)
  {
    ghost var drawn := grid[..];
    m' := m - 1;
    next, ended, caret' := RenderRow(s, grid, base, w, p, fc, cur, row, caret);
    CaretStep(s, p, fc, w, cur, row, m, m', caret);
    done' := done + RowCells(s, p, fc, w);
    DrawnRow(drawn, grid[..], base, w, RowCells(s, p, fc, w), done, Area(m', w));
    RowsSplit(s, p, fc, w, m, m', done);
  }

  /** One row of CaretFrom: the caret moves to the row if it meets the cursor. */
  lemma CaretStep(s: seq<char>, p: nat, fc: int, w: int, cur: nat, r: int, m: nat, n: nat, acc: Caret)
    requires p <= |s| && m == n + 1
    ensures var here := if Visited(s, p, fc, w, cur) then Caret(r, Col(s, p, cur) - RowColumn(s, p, fc)) else acc;
      CaretFrom(s, p, fc, w, cur, r, m, acc) == if Ends(s, p, fc, w) then here else CaretFrom(s, NextRow(s, p), fc, w, cur, r + 1, n, here)
  {
  }

  /** The first of m rows, after what is already drawn, followed by the rest. */
  lemma RowsSplit(s: seq<char>, p: nat, fc: int, w: nat, m: nat, n: nat, done: seq<char>)
    requires p <= |s| && m == n + 1
    ensures var below := if Ends(s, p, fc, w) then Blanks(Area(n, w)) else Rows(s, NextRow(s, p), fc, w, n);
      done + Rows(s, p, fc, w, m) == (done + RowCells(s, p, fc, w)) + below
  {
    var below := if Ends(s, p, fc, w) then Blanks(Area(n, w)) else Rows(s, NextRow(s, p), fc, w, n);
    RowsUnfold(s, p, fc, w, n);
    AppendAssoc(done, RowCells(s, p, fc, w), below);
  }

  /** The first of m rows is drawn first and the rest follow it. */
  lemma RowsUnfold(s: seq<char>, p: nat, fc: int, w: nat, n: nat)
    requires p <= |s|
    ensures Rows(s, p, fc, w, n + 1) == RowCells(s, p, fc, w) + if Ends(s, p, fc, w) then Blanks(Area(n, w)) else Rows(s, NextRow(s, p), fc, w, n)
  {
  }

  lemma AppendAssoc(a: seq<char>, b: seq<char>, c: seq<char>)
    ensures (a + b) + c == a + (b + c)
  {
  }

  /** Writing row over the first blanks after done leaves done, row and the
      remaining blanks. */
  lemma DrawnRow(g0: seq<char>, g1: seq<char>, base: nat, w: nat, row: seq<char>, done: seq<char>, n: nat)
    requires |row| == w && base == |done| && g0 == done + Blanks(w + n) && |g1| == |g0|
    requires forall i :: 0 <= i < |g1| ==> g1[i] == if base <= i < base + w then row[i - base] else g0[i]
    ensures g1 == (done + row) + Blanks(n)
  {
  }
}
