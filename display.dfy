/**
 * The view onto a document: the cursor, the first line and column shown,
 * and the sticky column of vertical motion.  A refresh first reframes the
 * view so that the cursor is on screen and then draws the grid of cells.
 */
module Display {
  import opened Text
  import opened Layout
  import Utility
  import opened Documents

  class View {
    var buffer: Document
    var width: int
    var height: int
    var cursor: nat
    var topLine: nat
    var firstColumn: int
    /** The column vertical motion aims for; -1 when it is to be taken
        from the cursor. */
    var columnDesired: int

    /** editor_initialize: a view of the whole screen but its last row,
        which holds the status line, with the cursor and the top line at the
        start of the document and nothing scrolled. */
    constructor (buffer: Document, screenWidth: nat, screenHeight: nat)
      requires buffer.Valid() && 1 <= screenHeight
      ensures Valid() && Framed()
      ensures this.buffer == buffer && width == screenWidth && height == screenHeight - 1
      ensures cursor == 0 && topLine == 0 && firstColumn == 0 && columnDesired == 0
    {
      this.buffer := buffer;
      width := screenWidth;
      height := screenHeight - 1;
      cursor := buffer.Begin();
      topLine := buffer.Begin();
      firstColumn := 0;
      columnDesired := 0;
    }

    ghost predicate Valid()
      reads this, buffer, buffer.contents, buffer.contents.data
    {
      buffer.Valid() && cursor <= |buffer.Text()| && 0 <= width && 0 <= height && -1 <= columnDesired
    }

    /** What reframe needs of the top line: it is a line start, unless the
        cursor's line starts at or above it anyway, in which case reframe
        moves the top line there. */
    ghost predicate Reframeable()
      reads this, buffer, buffer.contents, buffer.contents.data
      requires Valid()
    {
      var s := buffer.Text();
      LineStart(s, cursor) <= topLine || IsLineStart(s, topLine)
    }

    /** The top line is a line start at or above the cursor's line. */
    ghost predicate Placed()
      reads this, buffer, buffer.contents, buffer.contents.data
      requires Valid()
    {
      var s := buffer.Text();
      IsLineStart(s, topLine) && topLine <= LineStart(s, cursor)
    }

    /** After a reframe: the top line is placed, and fewer than height line
        breaks lie between it and the cursor's line. */
    ghost predicate Framed()
      reads this, buffer, buffer.contents, buffer.contents.data
      requires Valid()
    {
      var s := buffer.Text();
      Placed() && Newlines(s, topLine, LineStart(s, cursor)) < if height < 1 then 1 else height
    }

    /** reframe: scroll vertically so that the cursor's line is on screen,
        then horizontally so that the cursor's column is.
        - a cursor line at or above the top line becomes the top line;
        - a cursor line fewer than height lines below it leaves it alone;
        - the first column moves only when the cursor's column is outside
          the width, and then just far enough. */
    method Reframe()
      requires Valid() && Reframeable()
      modifies this
      ensures Valid() && Framed()
      ensures buffer == old(buffer) && cursor == old(cursor) && width == old(width) && height == old(height)
      ensures columnDesired == old(columnDesired)
      ensures var s := buffer.Text(); var cl := LineStart(s, cursor);
        && (cl <= old(topLine) ==> topLine == cl)
        && (old(topLine) < cl && Newlines(s, old(topLine), cl) < height ==> topLine == old(topLine))
        && (old(topLine) < cl && height <= Newlines(s, old(topLine), cl) <= 2 * (if height < 1 then 1 else height) - 1 ==>
              Newlines(s, topLine, cl) == (if height < 1 then 1 else height) - 1)
        && (old(topLine) < cl && Newlines(s, old(topLine), cl) > 2 * (if height < 1 then 1 else height) - 1 ==> topLine == cl)
        && firstColumn == HorizontalScroll(old(firstColumn), width, Col(s, cl, cursor))
    {
      var s := buffer.contents.Elements();
      var cl := Utility.FindBackward(s, 0, cursor, Newline);
      topLine := ScrollTop(s, cl, topLine, height);
      var column := LineColumn(s, cl, cursor);
      firstColumn := HorizontalScroll(firstColumn, width, column);
    }

    /** display_refresh: reframe, then draw height rows of width cells from
        the top line, and find the cell of the cursor. */
    method Refresh() returns (cells: seq<char>, caret: Caret)
      requires Valid() && Reframeable()
      modifies this
      ensures Valid() && Framed()
      ensures buffer == old(buffer) && cursor == old(cursor) && width == old(width) && height == old(height)
      ensures columnDesired == old(columnDesired)
      ensures var s := buffer.Text(); var cl := LineStart(s, cursor);
        && (cl <= old(topLine) ==> topLine == cl)
        && (old(topLine) < cl && Newlines(s, old(topLine), cl) < height ==> topLine == old(topLine))
        && (old(topLine) < cl && height <= Newlines(s, old(topLine), cl) <= 2 * (if height < 1 then 1 else height) - 1 ==>
              Newlines(s, topLine, cl) == (if height < 1 then 1 else height) - 1)
        && (old(topLine) < cl && Newlines(s, old(topLine), cl) > 2 * (if height < 1 then 1 else height) - 1 ==> topLine == cl)
        && firstColumn == HorizontalScroll(old(firstColumn), width, Col(s, cl, cursor))
      ensures cells == Rows(buffer.Text(), topLine, firstColumn, width, height)
      ensures caret == CaretFrom(buffer.Text(), topLine, firstColumn, width, cursor, 0, height, Caret(0, 0))
      ensures 1 <= width && 1 <= height ==> ShowsGlyph(buffer.Text(), topLine, firstColumn, width, cursor, 0, height, caret)
    {
      Reframe();
      cells, caret := RenderRows(buffer.contents.Elements(), topLine, firstColumn, width, height, cursor);
      if 1 <= width && 1 <= height {
        FramedShowsCursor(buffer.Text(), topLine, firstColumn, width, height, cursor);
      }
    }
  }

  /*------------------------------------------------------------------------
   * A reframed view shows its cursor
   *------------------------------------------------------------------------*/

  /** Skipping from q towards a column fc that position cur reaches, on a
      stretch without newlines, stops at or before cur, at a column that
      reaches fc. */
  lemma {:induction false} SkipFromReaches(s: seq<char>, p: nat, q: nat, fc: int, cur: nat)
    requires p <= q <= cur <= |s|
    requires forall i :: q <= i < cur ==> s[i] != Newline
    requires fc <= Col(s, p, cur)
    ensures SkipFrom(s, p, q, fc) <= cur && fc <= Col(s, p, SkipFrom(s, p, q, fc))
    decreases cur - q
  {
    if q < cur && Col(s, p, q) < fc {
      SkipFromReaches(s, p, q + 1, fc, cur);
    }
  }

  /** The row of the cursor's line meets the cursor when the cursor's column
      lies inside the visible columns. */
  lemma VisitedOnCursorLine(s: seq<char>, fc: int, w: int, cur: nat)
    requires cur <= |s|
    requires fc <= Col(s, LineStart(s, cur), cur) < fc + w
    ensures Visited(s, LineStart(s, cur), fc, w, cur)
  {
    var cl := LineStart(s, cur);
    SkipFromReaches(s, cl, cl, fc, cur);
  }

  /** Drawing m rows from line start t meets the cursor when its line is
      fewer than m lines below t and its column is inside the visible
      columns. */
  lemma {:induction false} ShownFrom(s: seq<char>, t: nat, fc: int, w: int, cur: nat, m: nat)
    requires cur <= |s| && IsLineStart(s, t) && t <= LineStart(s, cur)
    requires Newlines(s, t, LineStart(s, cur)) < m
    requires fc <= Col(s, LineStart(s, cur), cur) < fc + w
    ensures Shown(s, t, fc, w, cur, m)
    decreases m
  {
    var cl := LineStart(s, cur);
    if t == cl {
      VisitedOnCursorLine(s, fc, w, cur);
    } else {
      var e := LineEnd(s, t);
      NextLineOneNewline(s, t);
      NewlinesAdd(s, t, e + 1, cl);
      ShownFrom(s, e + 1, fc, w, cur, m - 1);
    }
  }

  /** The top line and first column reframe chooses put the cursor on
      screen: some row of the grid meets it, and the caret names the cell of
      the grid that shows its glyph. */
  lemma FramedShowsCursor(s: seq<char>, top: nat, fc: int, w: nat, h: nat, cur: nat)
    requires cur <= |s| && IsLineStart(s, top) && top <= LineStart(s, cur)
    requires Newlines(s, top, LineStart(s, cur)) < h
    requires fc <= Col(s, LineStart(s, cur), cur) < fc + w
    ensures Shown(s, top, fc, w, cur, h)
    ensures ShowsGlyph(s, top, fc, w, cur, 0, h, CaretFrom(s, top, fc, w, cur, 0, h, Caret(0, 0)))
  {
    ShownFrom(s, top, fc, w, cur, h);
    CaretShowsCursor(s, top, fc, w, cur, 0, h, Caret(0, 0));
  }

  /*------------------------------------------------------------------------
   * The column loop of reframe as the current display writes it
   *------------------------------------------------------------------------*/

  /** What `*view.cursor` reads: the character under the cursor, or, with the
      cursor at the end of the text, the byte one past the storage, which
      the model takes as the parameter beyond. */
  function Under(s: seq<char>, cur: nat, beyond: char): (c: char)
    requires cur <= |s|
    ensures cur < |s| ==> c == s[cur]
  {
    if cur < |s| then s[cur] else beyond
  }

  /** The column the current reframe computes: every step of its loop tests
      the character under the cursor rather than the character it passes,
      so each step adds a whole tab stop when the cursor is on a tab and one
      column otherwise.  With the cursor at the end of a line that ends the
      text, that test reads past the text. */
  function AsWrittenColumn(s: seq<char>, cl: nat, cur: nat, beyond: char): (column: nat)
    requires cl <= cur <= |s|
    ensures cl == cur ==> column == 0
  {
    if cl < cur && Under(s, cur, beyond) == Tab then TabStop * (cur - cl) else cur - cl
  }

  /** The column loop of the current reframe, as written. */
  method ReframeColumnAsWritten(s: seq<char>, cl: nat, cur: nat, beyond: char) returns (column: nat)
    requires cl <= cur <= |s|
    ensures column == AsWrittenColumn(s, cl, cur, beyond)
  {
    column := 0;
    var q := cl;
    while q != cur
      invariant cl <= q <= cur
      invariant column == if cl < cur && Under(s, cur, beyond) == Tab then TabStop * (q - cl) else q - cl
      decreases cur - q
    {
      if Under(s, cur, beyond) == Tab {
        column := column + (TabStop - column % TabStop);
      } else {
        column := column + 1;
      }
      q := q + 1;
    }
  }

  /** On "\tx" with the cursor on the x, the loop as written finds column 1
      where the x is drawn in column 8; on "a\t" with the cursor on the tab
      it finds 8 where the tab starts in column 1. */
  lemma AsWrittenColumnDiffers(beyond: char)
    ensures AsWrittenColumn("\tx", 0, 1, beyond) == 1 && Col("\tx", 0, 1) == 8
    ensures AsWrittenColumn("a\t", 0, 1, beyond) == 8 && Col("a\t", 0, 1) == 1
  {
  }

  /** With the cursor at the end of the text, the column the loop as
      written computes depends on the byte past the text: after "a" it is 8
      when that byte is a tab and 1 otherwise. */
  lemma AsWrittenColumnReadsPastEnd()
    ensures AsWrittenColumn("a", 0, 1, Tab) == 8 && AsWrittenColumn("a", 0, 1, 'x') == 1
    ensures Col("a", 0, 1) == 1
  {
  }

  /** With the column as written, a refresh can scroll the cursor out of
      the window: on "\t\tx" with the cursor on the x and a window four
      columns wide, the first column stays 0 while the cursor's glyph is in
      column 16. */
  lemma AsWrittenColumnHidesCursor(beyond: char)
    ensures HorizontalScroll(0, 4, AsWrittenColumn("\t\tx", 0, 2, beyond)) == 0
    ensures Col("\t\tx", 0, 2) == 16 && !(0 <= Col("\t\tx", 0, 2) < 0 + 4)
  {
  }

  /** Without a tab on the line up to and under the cursor (nor past the
      end, when the cursor is there), the loop as written finds the right
      column. */
  lemma AsWrittenColumnWithoutTabs(s: seq<char>, cl: nat, cur: nat, beyond: char)
    requires cl <= cur <= |s|
    requires forall i :: cl <= i <= cur && i < |s| ==> s[i] != Tab
    requires cl < cur && cur == |s| ==> beyond != Tab
    ensures AsWrittenColumn(s, cl, cur, beyond) == Col(s, cl, cur)
  {
    NoTabs(s, cl, cur);
  }
}
