/**
 * The first generation of the editor, kept in a single file: the text is a
 * plain string with a cursor that also tracks its column by counting
 * characters, the view is reframed and drawn as in the current display
 * with a status row added below the text, and the command tables bind a
 * smaller set of keys.
 */
module LegacyEditor {
  import opened Text
  import opened Keys
  import opened Layout
  import Utility
  import Documents
  import Commands
  import Display

  type Command = Commands.Command

  /** The smaller of two integers. */
  function Min(a: int, b: int): (r: int)
    ensures r <= a && r <= b && (r == a || r == b)
  {
    if a < b then a else b
  }

  /** The length of the line starting at p, up to its newline or the end. */
  function LineLength(s: seq<char>, p: nat): nat
    requires p <= |s|
  {
    LineEnd(s, p) - p
  }

  /** The fields of the text buffer, as one value. */
  datatype BufferState = BufferState(contents: string, filename: string, cursor: nat, column: int, columnDesired: int)

  /** What the text buffer keeps between commands: the cursor in the text
      and both columns at least 0. */
  predicate Sound(b: BufferState)
  {
    b.cursor <= |b.contents| && 0 <= b.column && 0 <= b.columnDesired
  }

  /** move_left on state b. */
  function Left(b: BufferState): BufferState
    requires Sound(b)
  {
    if b.cursor == 0 then b
    else
      var p := b.cursor - 1;
      var column := if b.column == 0 then p - LineStart(b.contents, p) else b.column - 1;
      b.(cursor := p, column := column, columnDesired := column)
  }

  /** move_right on state b. */
  function Right(b: BufferState): BufferState
    requires Sound(b)
  {
    if b.cursor == |b.contents| then b
    else
      var column := if b.contents[b.cursor] == Newline then 0 else b.column + 1;
      b.(cursor := b.cursor + 1, column := column, columnDesired := column)
  }

  /** move_down on state b. */
  function Down(b: BufferState): BufferState
    requires Sound(b)
  {
    var e := LineEnd(b.contents, b.cursor);
    if e == |b.contents| then b
    else
      var column := Min(b.columnDesired, LineLength(b.contents, e + 1));
      b.(cursor := e + 1 + column, column := column)
  }

  /** move_up on state b. */
  function Up(b: BufferState): BufferState
    requires Sound(b)
  {
    var ls := LineStart(b.contents, b.cursor);
    if ls == 0 then b
    else
      var previous := LineStart(b.contents, ls - 1);
      var column := Min(b.columnDesired, LineLength(b.contents, previous));
      b.(cursor := previous + column, column := column)
  }

  /** c inserted at the cursor of b, which moves past it; neither column
      changes. */
  function Typed(b: BufferState, c: char): BufferState
    requires Sound(b)
  {
    b.(contents := Inserted(b.contents, b.cursor, c), cursor := b.cursor + 1)
  }

  /** erase on state b: at 0 nothing changes; otherwise the character before
      the cursor goes and the cursor takes its place. */
  function ErasedBefore(b: BufferState): BufferState
    requires Sound(b)
  {
    if b.cursor == 0 then b else b.(contents := Erased(b.contents, b.cursor - 1), cursor := b.cursor - 1)
  }

  /** What each command of the first generation makes of the text buffer,
      with c the key's character. */
  function Step(cmd: Command, c: char, b: BufferState): BufferState
    requires Sound(b)
  {
    match cmd
    case ForwardChar => Right(b)
    case BackwardChar => Left(b)
    case ForwardLine => Down(b)
    case BackwardLine => Up(b)
    case SelfInsert => if Utility.IsPrint(c) then Typed(b, c) else b
    case InsertNewline => Typed(b, Newline)
    case Backspace => ErasedBefore(b)
    case _ => b
  }

  class TextBuffer {
    var contents: string
    var filename: string
    var cursor: nat
    /** The cursor's column as a count of characters since its line start. */
    var column: int
    var columnDesired: int

    ghost predicate Valid()
      reads this
    {
      cursor <= |contents| && 0 <= column && 0 <= columnDesired
    }

    /** The fields as one value. */
    function State(): BufferState
      reads this
    {
      BufferState(contents, filename, cursor, column, columnDesired)
    }

    /** The column field is where the cursor is in its line: motion keeps it
        so, while inserting does not update it. */
    ghost predicate Tracks()
      reads this
      requires Valid()
    {
      column == cursor - LineStart(contents, cursor)
    }

    /** The zero-initialised text buffer the editor starts with. */
    constructor ()
      ensures Valid() && Tracks()
      ensures contents == [] && filename == [] && cursor == 0 && column == 0 && columnDesired == 0
    {
      contents := [];
      filename := [];
      cursor := 0;
      column := 0;
      columnDesired := 0;
    }

    /** find_backward: step back from p to just after the nearest c before
        it, or to 0. */
    method FindBackward(p: nat, c: char) returns (r: nat)
      requires p <= |contents|
      ensures r == Text.FindBackward(contents, 0, p, c)
      ensures c == Newline ==> r == LineStart(contents, p)
    {
      r := p;
      while r != 0
        invariant r <= p
        invariant Text.FindBackward(contents, 0, r, c) == Text.FindBackward(contents, 0, p, c)
        decreases r
      {
        if contents[r - 1] == c {
          break;
        }
        r := r - 1;
      }
    }

    /** find_forward: step forward from p to the nearest c at or after it,
        or to the end. */
    method FindForward(p: nat, c: char) returns (r: nat)
      requires p <= |contents|
      ensures r == Find(contents, p, |contents|, c)
      ensures c == Newline ==> r == LineEnd(contents, p)
    {
      r := p;
      while r != |contents| && contents[r] != c
        invariant p <= r <= |contents|
        invariant Find(contents, r, |contents|, c) == Find(contents, p, |contents|, c)
        decreases |contents| - r
      {
        r := r + 1;
      }
    }

    /** file_open after a successful read: the text is what was read, under
        the given name, with the cursor and both columns at 0. */
    method Load(name: string, read: string)
      modifies this
      ensures Valid() && Tracks()
      ensures contents == read && filename == name && cursor == 0 && column == 0 && columnDesired == 0
    {
      contents := read;
      filename := name;
      cursor := 0;
      column := 0;
      columnDesired := 0;
    }

    /** move_left: at 0 nothing changes; otherwise the cursor steps back.
        Stepping back over a line start recomputes the column from the
        previous line's start; otherwise the column goes down by one.  The
        sticky column becomes the column. */
    method MoveLeft()
      requires Valid()
      modifies this
      ensures State() == Left(old(State()))
      ensures Valid() && contents == old(contents) && filename == old(filename)
      ensures old(cursor) == 0 ==> cursor == 0 && column == old(column) && columnDesired == old(columnDesired)
      ensures old(cursor) > 0 ==>
        && cursor == old(cursor) - 1
        && column == (if old(column) == 0 then cursor - LineStart(contents, cursor) else old(column) - 1)
        && columnDesired == column
      ensures old(Tracks()) ==> Tracks()
    {
      hide LineStart;
      if cursor > 0 {
        cursor := cursor - 1;
        if column == 0 {
          var lineStart := FindBackward(cursor, Newline);
          column := cursor - lineStart;
        } else {
          column := column - 1;
          if old(Tracks()) {
            assert contents[cursor] != Newline;
            LineStartOf(contents, LineStart(contents, cursor + 1), cursor);
          }
        }
        columnDesired := column;
      }
    }

    /** move_right: at the end nothing changes; otherwise the cursor steps
        forward, the column going to 0 past a newline and up by one
        otherwise.  The sticky column becomes the column. */
    method MoveRight()
      requires Valid()
      modifies this
      ensures State() == Right(old(State()))
      ensures Valid() && contents == old(contents) && filename == old(filename)
      ensures old(cursor) == |contents| ==> cursor == old(cursor) && column == old(column) && columnDesired == old(columnDesired)
      ensures old(cursor) < |contents| ==>
        && cursor == old(cursor) + 1
        && column == (if contents[old(cursor)] == Newline then 0 else old(column) + 1)
        && columnDesired == column
      ensures old(Tracks()) ==> Tracks()
    {
      hide LineStart;
      if cursor != |contents| {
        if contents[cursor] == Newline {
          column := 0;
        } else {
          column := column + 1;
          if old(Tracks()) {
            LineStartOf(contents, LineStart(contents, cursor), cursor + 1);
          }
        }
        cursor := cursor + 1;
        columnDesired := column;
      }
    }

    /** move_down: on the last line nothing changes; otherwise the cursor goes
        to the next line, as far along it as the sticky column or the line's
        length allows, and the column is tracked again. */
    method MoveDown()
      requires Valid()
      modifies this
      ensures State() == Down(old(State()))
      ensures Valid() && contents == old(contents) && filename == old(filename) && columnDesired == old(columnDesired)
      ensures LineEnd(contents, old(cursor)) == |contents| ==> cursor == old(cursor) && column == old(column)
      ensures LineEnd(contents, old(cursor)) < |contents| ==>
        var next := LineEnd(contents, old(cursor)) + 1;
        && column == Min(columnDesired, LineLength(contents, next))
        && cursor == next + column
        && LineStart(contents, cursor) == next
        && Tracks()
    {
      hide Down, LineStart, LineEnd;
      var p := FindForward(cursor, Newline);
      if p != |contents| {
        var c := p + 1;
        var col := 0;
        while c != |contents| && contents[c] != Newline && col < columnDesired
          invariant p + 1 <= c <= |contents| && col == c - (p + 1)
          invariant forall i :: p + 1 <= i < c ==> contents[i] != Newline
          invariant col <= columnDesired
          decreases |contents| - c
        {
          c := c + 1;
          col := col + 1;
        }
        LineStartOf(contents, p + 1, c);
        LineEndAfter(contents, p + 1, c, columnDesired);
        cursor := c;
        column := col;
      }
      DownState(old(State()), State());
    }

    /** move_up: on the first line nothing changes; otherwise the cursor goes
        to the previous line, as far along it as the sticky column or the
        line's length allows, and the column is tracked again. */
    method MoveUp()
      requires Valid()
      modifies this
      ensures State() == Up(old(State()))
      ensures Valid() && contents == old(contents) && filename == old(filename) && columnDesired == old(columnDesired)
      ensures LineStart(contents, old(cursor)) == 0 ==> cursor == old(cursor) && column == old(column)
      ensures LineStart(contents, old(cursor)) > 0 ==>
        var previous := LineStart(contents, LineStart(contents, old(cursor)) - 1);
        && column == Min(columnDesired, LineLength(contents, previous))
        && cursor == previous + column
        && LineStart(contents, cursor) == previous
        && Tracks()
    {
      hide Up, LineStart, LineEnd;
      var p := FindBackward(cursor, Newline);
      if p != 0 {
        var lineStart := FindBackward(p - 1, Newline);
        UpLands(contents, p, columnDesired);
        column := Min(columnDesired, p - 1 - lineStart);
        cursor := lineStart + column;
      }
      UpState(old(State()), State());
    }

    /** insert: put c in at the cursor; neither the cursor nor the column
        moves. */
    method Insert(c: char)
      requires Valid()
      modifies this
      ensures Valid() && filename == old(filename) && cursor == old(cursor)
      ensures column == old(column) && columnDesired == old(columnDesired)
      ensures contents == Inserted(old(contents), cursor, c)
    {
      contents := contents[..cursor] + [c] + contents[cursor..];
    }

    /** erase: at 0 nothing changes; otherwise the character before the
        cursor is removed and the cursor takes its place. */
    method Erase()
      requires Valid()
      modifies this
      ensures Valid() && filename == old(filename) && column == old(column) && columnDesired == old(columnDesired)
      ensures old(cursor) == 0 ==> cursor == 0 && contents == old(contents)
      ensures old(cursor) > 0 ==> cursor == old(cursor) - 1 && contents == Erased(old(contents), cursor)
      ensures State() == ErasedBefore(old(State()))
    {
      if cursor > 0 {
        cursor := cursor - 1;
        contents := contents[..cursor] + contents[cursor + 1..];
      }
    }
  }

  /** Where move_up lands from line start p > 0: on the previous line, at the
      sticky column or that line's end, whichever comes first. */
  lemma UpLands(s: seq<char>, p: nat, desired: int)
    requires 0 < p <= |s| && IsLineStart(s, p) && 0 <= desired
    ensures var previous := LineStart(s, p - 1); var column := Min(desired, p - 1 - previous);
      && column == Min(desired, LineLength(s, previous))
      && previous + column <= |s| && LineStart(s, previous + column) == previous
  {
    var previous := LineStart(s, p - 1);
    LineStartOf(s, previous, p - 1);
    LineEndAt(s, previous, p - 1);
    LineStartOf(s, previous, previous + Min(desired, p - 1 - previous));
  }

  /** The fields move_up leaves, as a state. */
  lemma UpState(b: BufferState, a: BufferState)
    requires Sound(b)
    requires a.contents == b.contents && a.filename == b.filename && a.columnDesired == b.columnDesired
    requires LineStart(b.contents, b.cursor) == 0 ==> a.cursor == b.cursor && a.column == b.column
    requires LineStart(b.contents, b.cursor) > 0 ==>
      var previous := LineStart(b.contents, LineStart(b.contents, b.cursor) - 1);
      a.column == Min(b.columnDesired, LineLength(b.contents, previous)) && a.cursor == previous + a.column
    ensures a == Up(b)
  {
  }

  /** The fields move_down leaves, as a state. */
  lemma DownState(b: BufferState, a: BufferState)
    requires Sound(b)
    requires a.contents == b.contents && a.filename == b.filename && a.columnDesired == b.columnDesired
    requires LineEnd(b.contents, b.cursor) == |b.contents| ==> a.cursor == b.cursor && a.column == b.column
    requires LineEnd(b.contents, b.cursor) < |b.contents| ==>
      var next := LineEnd(b.contents, b.cursor) + 1;
      a.column == Min(b.columnDesired, LineLength(b.contents, next)) && a.cursor == next + a.column
    ensures a == Down(b)
  {
  }

  /** A position holding a newline, or the end of the text, reached from
      line start p without crossing a newline, is the end of that line. */
  lemma LineEndAt(s: seq<char>, p: nat, q: nat)
    requires p <= q <= |s| && (q == |s| || s[q] == Newline)
    requires forall i :: p <= i < q ==> s[i] != Newline
    ensures LineEnd(s, p) == q
  {
  }

  /** Where move_down's walk stops: at the end of the line, or after c
      characters. */
  lemma LineEndAfter(s: seq<char>, p: nat, q: nat, c: int)
    requires p <= q <= |s| && q - p <= c
    requires forall i :: p <= i < q ==> s[i] != Newline
    requires q == |s| || s[q] == Newline || q - p == c
    ensures q - p == Min(c, LineLength(s, p))
  {
    if q == |s| || s[q] == Newline {
      LineEndAt(s, p, q);
    }
  }

  /** Insertion leaves the column field stale: typing a character at the
      start of an empty text leaves the column at 0 with the cursor after
      it. */
  lemma InsertionBreaksTracking()
    ensures var s := Inserted([], 0, 'a'); 0 != 1 - LineStart(s, 1)
  {
    var s := Inserted([], 0, 'a');
    assert s == ['a'];
  }

  /*------------------------------------------------------------------------
   * The view
   *------------------------------------------------------------------------*/

  class View {
    var buffer: TextBuffer
    var width: int
    var height: int
    var topLine: nat
    var firstColumn: int

    ghost predicate Valid()
      reads this, buffer
    {
      buffer.Valid() && 0 <= width && 0 <= height
    }

    /** What reframe needs of the top line. */
    ghost predicate Reframeable()
      reads this, buffer
      requires Valid()
    {
      var s := buffer.contents;
      LineStart(s, buffer.cursor) <= topLine || IsLineStart(s, topLine)
    }

    /** The top line is a line start at or above the cursor's line. */
    ghost predicate Placed()
      reads this, buffer
      requires Valid()
    {
      var s := buffer.contents;
      IsLineStart(s, topLine) && topLine <= LineStart(s, buffer.cursor)
    }

    /** After a reframe: placed, with fewer than height line breaks between
        the top line and the cursor's line. */
    ghost predicate Framed()
      reads this, buffer
      requires Valid()
    {
      var s := buffer.contents;
      Placed() && Newlines(s, topLine, LineStart(s, buffer.cursor)) < if height < 1 then 1 else height
    }

    /** editor_initialize: the screen but its last row, which holds the
        status line, from the first line and column. */
    constructor (buffer: TextBuffer, screenWidth: nat, screenHeight: nat)
      requires buffer.Valid() && buffer.cursor == 0 && 1 <= screenHeight
      ensures Valid() && Framed()
      ensures this.buffer == buffer && width == screenWidth && height == screenHeight - 1
      ensures topLine == 0 && firstColumn == 0
    {
      this.buffer := buffer;
      width := screenWidth;
      height := screenHeight - 1;
      topLine := 0;
      firstColumn := 0;
    }

    /** reframe: as in the current display, with the cursor's column counted
        over the characters of its line. */
    method Reframe()
      requires Valid() && Reframeable()
      modifies this
      ensures Valid() && Framed()
      ensures buffer == old(buffer) && width == old(width) && height == old(height)
      ensures var s := buffer.contents; var cl := LineStart(s, buffer.cursor);
        && (cl <= old(topLine) ==> topLine == cl)
        && (old(topLine) < cl && Newlines(s, old(topLine), cl) < height ==> topLine == old(topLine))
        && (old(topLine) < cl && height <= Newlines(s, old(topLine), cl) <= 2 * (if height < 1 then 1 else height) - 1 ==>
              Newlines(s, topLine, cl) == (if height < 1 then 1 else height) - 1)
        && (old(topLine) < cl && Newlines(s, old(topLine), cl) > 2 * (if height < 1 then 1 else height) - 1 ==> topLine == cl)
        && firstColumn == HorizontalScroll(old(firstColumn), width, Col(s, cl, buffer.cursor))
    {
      var cursorLine := buffer.FindBackward(buffer.cursor, Newline);
      topLine := ScrollTop(buffer.contents, cursorLine, topLine, height);
      var column := LineColumn(buffer.contents, cursorLine, buffer.cursor);
      firstColumn := HorizontalScroll(firstColumn, width, column);
    }

    /** display_refresh: reframe, draw height rows of text, then the status
        row: the first width characters of the status line, padded with
        blanks. */
    method Refresh(status: string) returns (grid: seq<char>, caret: Caret)
      requires Valid() && Reframeable()
      modifies this
      ensures Valid() && Framed()
      ensures buffer == old(buffer) && width == old(width) && height == old(height)
      ensures var s := buffer.contents; var cl := LineStart(s, buffer.cursor);
        && (cl <= old(topLine) ==> topLine == cl)
        && (old(topLine) < cl && Newlines(s, old(topLine), cl) < height ==> topLine == old(topLine))
        && (old(topLine) < cl && height <= Newlines(s, old(topLine), cl) <= 2 * (if height < 1 then 1 else height) - 1 ==>
              Newlines(s, topLine, cl) == (if height < 1 then 1 else height) - 1)
        && (old(topLine) < cl && Newlines(s, old(topLine), cl) > 2 * (if height < 1 then 1 else height) - 1 ==> topLine == cl)
        && firstColumn == HorizontalScroll(old(firstColumn), width, Col(s, cl, buffer.cursor))
      ensures grid == Rows(buffer.contents, topLine, firstColumn, width, height) + Fit(status, width)
      ensures |grid| == width * (height + 1)
      ensures caret == CaretFrom(buffer.contents, topLine, firstColumn, width, buffer.cursor, 0, height, Caret(0, 0))
      ensures 1 <= width && 1 <= height ==>
        ShowsGlyph(buffer.contents, topLine, firstColumn, width, buffer.cursor, 0, height, caret)
    {
      hide Rows, CaretFrom, ShowsGlyph, Fit;
      Reframe();
      grid, caret := Render(buffer.contents, topLine, firstColumn, width, height, buffer.cursor, status);
    }
  }

  /** The drawing half of display_refresh: height rows of text from line
      start top, then the status row, and the cell of the cursor; on a
      framed view the caret is on the cursor's glyph. */
  method Render(s: seq<char>, top: nat, fc: int, w: nat, h: nat, cur: nat, status: string) returns (grid: seq<char>, caret: Caret)
    requires top <= |s| && cur <= |s|
    ensures grid == Rows(s, top, fc, w, h) + Fit(status, w)
    ensures |grid| == w * (h + 1)
    ensures caret == CaretFrom(s, top, fc, w, cur, 0, h, Caret(0, 0))
    ensures (&& 1 <= w && 1 <= h && IsLineStart(s, top) && top <= LineStart(s, cur)
             && Newlines(s, top, LineStart(s, cur)) < h
             && fc <= Col(s, LineStart(s, cur), cur) < fc + w)
      ==> ShowsGlyph(s, top, fc, w, cur, 0, h, caret)
  {
    var cells;
    cells, caret := RenderRows(s, top, fc, w, h, cur);
    var row := StatusRow(status, w);
    grid := cells + row;
    AreaIsProduct(h, w);
    assert w * (h + 1) == w * h + w;
    if 1 <= w && 1 <= h && IsLineStart(s, top) && top <= LineStart(s, cur)
      && Newlines(s, top, LineStart(s, cur)) < h && fc <= Col(s, LineStart(s, cur), cur) < fc + w {
      Display.FramedShowsCursor(s, top, fc, w, h, cur);
    }
  }

  /** The status row of display_refresh: min(|status|, w) characters of the
      status line over a row of blanks. */
  method StatusRow(status: string, w: nat) returns (row: seq<char>)
    ensures row == Fit(status, w)
  {
    var a := new char[w](_ => ' ');
    var n := if |status| < w then |status| else w;
    for i := 0 to n
      invariant forall k :: 0 <= k < w ==> a[k] == if k < i then status[k] else ' '
    {
      a[i] := status[i];
    }
    row := a[..];
    forall k | 0 <= k < w
      ensures row[k] == Fit(status, w)[k]
    {
      FitAt(status, w, k);
    }
  }

  /*------------------------------------------------------------------------
   * Key tables and the editor
   *------------------------------------------------------------------------*/

  /** The normal-mode entry for key index i: H, J, K, L, I, and control
      with S or Q. */
  function NormalBinding(i: nat): Command
  {
    if i == 'H' as nat then Commands.BackwardChar
    else if i == 'J' as nat then Commands.ForwardLine
    else if i == 'K' as nat then Commands.BackwardLine
    else if i == 'L' as nat then Commands.ForwardChar
    else if i == 'I' as nat then Commands.StartInsertMode
    else if i == Control('S' as nat) then Commands.Save
    else if i == Control('Q' as nat) then Commands.Quit
    else Commands.CommandNone
  }

  /** The insert-mode entry for key index i: escape, return and back, and
      every other key inserts. */
  function InsertBinding(i: nat): Command
  {
    if i == VkEscape then Commands.LeaveInsertMode
    else if i == VkReturn then Commands.InsertNewline
    else if i == VkBack then Commands.Backspace
    else Commands.SelfInsert
  }

  /** The normal-mode command of a key press, stated on the key. */
  function NormalKey(k: Key): Command
  {
    if k.alt || k.shift then Commands.CommandNone
    else if !k.ctrl then
      (if k.code == 'H' as nat then Commands.BackwardChar
       else if k.code == 'J' as nat then Commands.ForwardLine
       else if k.code == 'K' as nat then Commands.BackwardLine
       else if k.code == 'L' as nat then Commands.ForwardChar
       else if k.code == 'I' as nat then Commands.StartInsertMode
       else Commands.CommandNone)
    else
      (if k.code == 'S' as nat then Commands.Save
       else if k.code == 'Q' as nat then Commands.Quit
       else Commands.CommandNone)
  }

  /** The insert-mode command of a key press: with no modifier, escape
      leaves, return breaks the line and back deletes; everything else,
      including control with '[', inserts. */
  function InsertKey(k: Key): Command
  {
    if !k.ctrl && !k.alt && !k.shift && k.code == VkEscape then Commands.LeaveInsertMode
    else if !k.ctrl && !k.alt && !k.shift && k.code == VkReturn then Commands.InsertNewline
    else if !k.ctrl && !k.alt && !k.shift && k.code == VkBack then Commands.Backspace
    else Commands.SelfInsert
  }

  lemma NormalTableMatches(k: Key)
    requires k.code < 256
    ensures NormalBinding(KeyIndex(k)) == NormalKey(k)
  {
    KeyIndexDecodes(k);
  }

  lemma InsertTableMatches(k: Key)
    requires k.code < 256
    ensures InsertBinding(KeyIndex(k)) == InsertKey(k)
  {
    KeyIndexDecodes(k);
  }

  /** normal_mode_initialize of the first generation. */
  method InitializeNormalMode(table: array<Command>)
    requires table.Length == MaxKeys
    modifies table
    ensures forall i :: 0 <= i < MaxKeys ==> table[i] == NormalBinding(i)
  {
    for i := 0 to MaxKeys
      invariant forall j :: 0 <= j < i ==> table[j] == Commands.CommandNone
    {
      table[i] := Commands.CommandNone;
    }
    table['H' as nat] := Commands.BackwardChar;
    table['J' as nat] := Commands.ForwardLine;
    table['K' as nat] := Commands.BackwardLine;
    table['L' as nat] := Commands.ForwardChar;
    table['I' as nat] := Commands.StartInsertMode;
    table[Control('S' as nat)] := Commands.Save;
    table[Control('Q' as nat)] := Commands.Quit;
  }

  /** insert_mode_initialize of the first generation. */
  method InitializeInsertMode(table: array<Command>)
    requires table.Length == MaxKeys
    modifies table
    ensures forall i :: 0 <= i < MaxKeys ==> table[i] == InsertBinding(i)
  {
    for i := 0 to MaxKeys
      invariant forall j :: 0 <= j < i ==> table[j] == Commands.SelfInsert
    {
      table[i] := Commands.SelfInsert;
    }
    table[VkEscape] := Commands.LeaveInsertMode;
    table[VkReturn] := Commands.InsertNewline;
    table[VkBack] := Commands.Backspace;
  }

  class Editor {
    var buffer: TextBuffer
    var view: View
    var statusLine: string
    /** Cleared by quit; the event loop runs while it is set. */
    var running: bool
    var normalMode: array<Command>
    var insertMode: array<Command>
    var commands: array<Command>

    ghost predicate Tables()
      reads this, normalMode, insertMode
    {
      && normalMode.Length == MaxKeys && insertMode.Length == MaxKeys && normalMode != insertMode
      && (forall i :: 0 <= i < MaxKeys ==> normalMode[i] == NormalBinding(i))
      && (forall i :: 0 <= i < MaxKeys ==> insertMode[i] == InsertBinding(i))
      && (commands == normalMode || commands == insertMode)
    }

    ghost predicate Wired()
      reads this, view, buffer, normalMode, insertMode
    {
      view.buffer == buffer && view.Valid() && Tables()
    }

    ghost predicate Valid()
      reads this, view, buffer, normalMode, insertMode
    {
      Wired() && view.Placed()
    }

    ghost predicate Done()
      reads this, view, buffer, normalMode, insertMode
    {
      Wired() && view.Reframeable()
    }

    ghost predicate InNormalMode()
      reads this
    {
      commands == normalMode
    }

    /** editor_initialize and the table set-up of main, with the file loaded
        and the event loop about to run. */
    constructor (screenWidth: nat, screenHeight: nat, name: string, read: string)
      requires 1 <= screenHeight
      ensures Valid() && InNormalMode() && running && statusLine == []
      ensures buffer.contents == read && buffer.filename == name && buffer.cursor == 0 && buffer.Tracks()
      ensures view.width == screenWidth && view.height == screenHeight - 1
      ensures view.topLine == 0 && view.firstColumn == 0
    {
      var b := new TextBuffer();
      b.Load(name, read);
      buffer := b;
      view := new View(b, screenWidth, screenHeight);
      statusLine := [];
      running := true;
      var normal := new Command[MaxKeys];
      var insert := new Command[MaxKeys];
      normalMode := normal;
      insertMode := insert;
      commands := normal;
      new;
      InitializeNormalMode(normal);
      InitializeInsertMode(insert);
    }

    /** forward_char, backward_char, forward_line and backward_line: the
        moves of the text buffer, which leave the text alone. */
    method Move(cmd: Command)
      requires Valid()
      requires cmd == Commands.ForwardChar || cmd == Commands.BackwardChar || cmd == Commands.ForwardLine || cmd == Commands.BackwardLine
      modifies buffer
      ensures Done() && view.topLine == old(view.topLine) && buffer.contents == old(buffer.contents)
      ensures old(buffer.Tracks()) ==> buffer.Tracks()
      ensures cmd == Commands.ForwardChar ==> buffer.State() == Right(old(buffer.State()))
      ensures cmd == Commands.BackwardChar ==> buffer.State() == Left(old(buffer.State()))
      ensures cmd == Commands.ForwardLine ==> buffer.State() == Down(old(buffer.State()))
      ensures cmd == Commands.BackwardLine ==> buffer.State() == Up(old(buffer.State()))
    {
      hide Right, Left, Down, Up, LineStart, LineEnd;
      match cmd
      case ForwardChar => buffer.MoveRight();
      case BackwardChar => buffer.MoveLeft();
      case ForwardLine => buffer.MoveDown();
      case BackwardLine => buffer.MoveUp();
    }

    /** command_self_insert: a printable character goes in at the cursor,
        and the cursor moves past it; any other key changes nothing. */
    method SelfInsert(c: char)
      requires Valid()
      modifies buffer
      ensures Done() && view.topLine == old(view.topLine)
      ensures Utility.IsPrint(c) ==> buffer.contents == Inserted(old(buffer.contents), old(buffer.cursor), c) && buffer.cursor == old(buffer.cursor) + 1
      ensures !Utility.IsPrint(c) ==> buffer.contents == old(buffer.contents) && buffer.cursor == old(buffer.cursor)
      ensures buffer.filename == old(buffer.filename) && buffer.column == old(buffer.column) && buffer.columnDesired == old(buffer.columnDesired)
      ensures buffer.State() == if Utility.IsPrint(c) then Typed(old(buffer.State()), c) else old(buffer.State())
    {
      if Utility.IsPrint(c) {
        InsertAtCursor(c);
      }
    }

    /** command_newline: a newline goes in at the cursor, which moves past it. */
    method InsertNewline()
      requires Valid()
      modifies buffer
      ensures Done() && view.topLine == old(view.topLine)
      ensures buffer.contents == Inserted(old(buffer.contents), old(buffer.cursor), Newline) && buffer.cursor == old(buffer.cursor) + 1
      ensures buffer.filename == old(buffer.filename) && buffer.column == old(buffer.column) && buffer.columnDesired == old(buffer.columnDesired)
      ensures buffer.State() == Typed(old(buffer.State()), Newline)
    {
      InsertAtCursor(Newline);
    }

    method InsertAtCursor(c: char)
      requires Valid()
      modifies buffer
      ensures Done() && view.topLine == old(view.topLine)
      ensures buffer.contents == Inserted(old(buffer.contents), old(buffer.cursor), c) && buffer.cursor == old(buffer.cursor) + 1
      ensures buffer.filename == old(buffer.filename) && buffer.column == old(buffer.column) && buffer.columnDesired == old(buffer.columnDesired)
    {
      ghost var s := buffer.contents;
      assert view.topLine <= LineStart(s, buffer.cursor) <= buffer.cursor;
      buffer.Insert(c);
      buffer.cursor := buffer.cursor + 1;
      ghost var t := buffer.contents;
      assert view.topLine == 0 || t[view.topLine - 1] == s[view.topLine - 1];
    }

    /** command_backspace: erase the character before the cursor. */
    method Backspace()
      requires Valid()
      modifies buffer
      ensures Done() && view.topLine == old(view.topLine)
      ensures old(buffer.cursor) == 0 ==> buffer.contents == old(buffer.contents) && buffer.cursor == 0
      ensures old(buffer.cursor) > 0 ==> buffer.contents == Erased(old(buffer.contents), old(buffer.cursor) - 1) && buffer.cursor == old(buffer.cursor) - 1
      ensures buffer.filename == old(buffer.filename) && buffer.column == old(buffer.column) && buffer.columnDesired == old(buffer.columnDesired)
      ensures buffer.State() == ErasedBefore(old(buffer.State()))
    {
      hide ErasedBefore, Erased, LineStart;
      if buffer.cursor > 0 {
        EraseKeepsTop(buffer.contents, buffer.cursor, view.topLine);
      }
      buffer.Erase();
    }

    /** save: the bytes handed to the write call, the whole text with its
        length cut to 32 bits; errors are not checked and nothing in the
        editor changes. */
    method Save() returns (request: seq<char>)
      requires Valid()
      ensures request == Documents.Request(buffer.contents)
    {
      request := buffer.contents[..|buffer.contents| % Documents.DwordModulus];
    }

    /** start_insert_mode: the insert table and the "--INSERT--" status. */
    method StartInsertMode()
      requires Valid()
      modifies this
      ensures Valid() && !InNormalMode() && statusLine == "--INSERT--"
      ensures buffer == old(buffer) && view == old(view) && running == old(running)
      ensures normalMode == old(normalMode) && insertMode == old(insertMode)
    {
      commands := insertMode;
      statusLine := "--INSERT--";
    }

    /** leave_insert_mode: the normal table and an empty status. */
    method LeaveInsertMode()
      requires Valid()
      modifies this
      ensures Valid() && InNormalMode() && statusLine == []
      ensures buffer == old(buffer) && view == old(view) && running == old(running)
      ensures normalMode == old(normalMode) && insertMode == old(insertMode)
    {
      commands := normalMode;
      statusLine := [];
    }

    /** The commands that edit the text at the cursor. */
    method Edit(cmd: Command, c: char)
      requires Valid()
      requires cmd == Commands.SelfInsert || cmd == Commands.InsertNewline || cmd == Commands.Backspace
      modifies buffer
      ensures Done() && view.topLine == old(view.topLine)
      ensures buffer.State() == Step(cmd, c, old(buffer.State()))
    {
      hide Typed, ErasedBefore, Done, Valid;
      match cmd
      case SelfInsert => SelfInsert(c);
      case InsertNewline => InsertNewline();
      case Backspace => Backspace();
    }

    /** The commands that leave the text buffer alone: none, save, quit, and
        the two mode switches. */
    method Control(cmd: Command)
      requires Valid()
      requires cmd != Commands.ForwardChar && cmd != Commands.BackwardChar && cmd != Commands.ForwardLine
            && cmd != Commands.BackwardLine && cmd != Commands.SelfInsert && cmd != Commands.InsertNewline
            && cmd != Commands.Backspace
      modifies this
      ensures Valid() && Done() && view == old(view) && buffer == old(buffer)
      ensures running == (old(running) && cmd != Commands.Quit)
      ensures InNormalMode() <==>
        if cmd == Commands.StartInsertMode then false else if cmd == Commands.LeaveInsertMode then true else old(InNormalMode())
      ensures statusLine == if cmd == Commands.StartInsertMode then "--INSERT--" else if cmd == Commands.LeaveInsertMode then [] else old(statusLine)
    {
      match cmd
      case StartInsertMode => StartInsertMode();
      case LeaveInsertMode => LeaveInsertMode();
      case Save => var request := Save();
      case Quit => running := false;
      case _ =>
    }

    /** Run one command of the first generation. */
    method Execute(cmd: Command, key: Key)
      requires Valid()
      modifies this, buffer
      ensures Done() && view == old(view) && buffer == old(buffer)
      ensures running == (old(running) && cmd != Commands.Quit)
      ensures InNormalMode() <==>
        if cmd == Commands.StartInsertMode then false else if cmd == Commands.LeaveInsertMode then true else old(InNormalMode())
      ensures cmd == Commands.CommandNone || cmd == Commands.Save ==>
        buffer.contents == old(buffer.contents) && buffer.cursor == old(buffer.cursor)
      ensures buffer.State() == Step(cmd, key.ascii, old(buffer.State()))
      ensures statusLine == if cmd == Commands.StartInsertMode then "--INSERT--" else if cmd == Commands.LeaveInsertMode then [] else old(statusLine)
    {
      hide Right, Left, Down, Up, Typed, ErasedBefore, Done, Valid;
      if cmd == Commands.ForwardChar || cmd == Commands.BackwardChar || cmd == Commands.ForwardLine || cmd == Commands.BackwardLine {
        Move(cmd);
      } else if cmd == Commands.SelfInsert || cmd == Commands.InsertNewline || cmd == Commands.Backspace {
        Edit(cmd, key.ascii);
      } else {
        Control(cmd);
      }
    }

    /** handle_key_event for a key press: run the command the table in force
        binds to the key's index, then refresh the view with the status row. */
    method HandleKey(key: Key) returns (grid: seq<char>, caret: Caret)
      requires Valid() && key.code < 256
      modifies this, view, buffer
      ensures Valid() && view == old(view) && buffer == old(buffer)
      ensures var cmd := if old(InNormalMode()) then NormalKey(key) else InsertKey(key);
        && running == (old(running) && cmd != Commands.Quit)
        && (InNormalMode() <==> if cmd == Commands.StartInsertMode then false else if cmd == Commands.LeaveInsertMode then true else old(InNormalMode()))
        && (cmd == Commands.CommandNone ==> buffer.contents == old(buffer.contents) && buffer.cursor == old(buffer.cursor))
        && buffer.State() == Step(cmd, key.ascii, old(buffer.State()))
        && statusLine == if cmd == Commands.StartInsertMode then "--INSERT--" else if cmd == Commands.LeaveInsertMode then [] else old(statusLine)
      ensures grid == Rows(buffer.contents, view.topLine, view.firstColumn, view.width, view.height) + Fit(statusLine, view.width)
      ensures caret == CaretFrom(buffer.contents, view.topLine, view.firstColumn, view.width, buffer.cursor, 0, view.height, Caret(0, 0))
      ensures 1 <= view.width && 1 <= view.height ==>
        ShowsGlyph(buffer.contents, view.topLine, view.firstColumn, view.width, buffer.cursor, 0, view.height, caret)
    {
      hide Step, Rows, CaretFrom, ShowsGlyph, Fit;
      var index := KeyIndex(key);
      NormalTableMatches(key);
      InsertTableMatches(key);
      var cmd := commands[index];
      Execute(cmd, key);
      grid, caret := view.Refresh(statusLine);
    }
  }
}
