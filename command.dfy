/**
 * The command engine: a table per mode maps each key state to a command,
 * and evaluating a key press runs the command its table entry names and
 * then refreshes the view.  Commands move the cursor, edit the document at
 * the cursor, switch modes, save, open, search and quit.  What the user
 * types into a prompt and what the file system reports are inputs.
 */
module Commands {
  import opened Text
  import opened Keys
  import opened Layout
  import Utility
  import opened Documents
  import opened GapBuffers
  import opened Display
  import opened Prompts

  /** The command functions a table entry can name. */
  datatype Command =
    | CommandNone
    | BackwardChar | ForwardChar | ForwardLine | BackwardLine
    | StartInsertMode | LeaveInsertMode
    | Save | Quit | Open | Search
    | SelfInsert | InsertNewline | Backspace

  /*------------------------------------------------------------------------
   * The tables
   *------------------------------------------------------------------------*/

  /** The normal-mode entry for key index i. */
  function NormalBinding(i: nat): Command
  {
    if i == 'H' as nat then BackwardChar
    else if i == 'J' as nat then ForwardLine
    else if i == 'K' as nat then BackwardLine
    else if i == 'L' as nat then ForwardChar
    else if i == 'I' as nat then StartInsertMode
    else if i == Control('S' as nat) then Save
    else if i == Control('Q' as nat) then Quit
    else if i == Control('O' as nat) then Open
    else if i == Control('F' as nat) then Search
    else CommandNone
  }

  /** The insert-mode entry for key index i. */
  function InsertBinding(i: nat): Command
  {
    if i == VkEscape then LeaveInsertMode
    else if i == VkReturn then InsertNewline
    else if i == VkBack then Backspace
    else if i == Control(VkOem4) then LeaveInsertMode
    else SelfInsert
  }

  /** The command normal mode runs for a key press, stated on the key itself:
      the letters H, J, K, L and I with no modifier, and S, Q, O and F with
      control alone. */
  function NormalKey(k: Key): Command
  {
    if k.alt || k.shift then CommandNone
    else if !k.ctrl then
      (if k.code == 'H' as nat then BackwardChar
       else if k.code == 'J' as nat then ForwardLine
       else if k.code == 'K' as nat then BackwardLine
       else if k.code == 'L' as nat then ForwardChar
       else if k.code == 'I' as nat then StartInsertMode
       else CommandNone)
    else
      (if k.code == 'S' as nat then Save
       else if k.code == 'Q' as nat then Quit
       else if k.code == 'O' as nat then Open
       else if k.code == 'F' as nat then Search
       else CommandNone)
  }

  /** The command insert mode runs for a key press: escape, or control with
      '[', leaves the mode; return and back with no modifier break the line
      and delete; every other key inserts its character. */
  function InsertKey(k: Key): Command
  {
    if !k.ctrl && !k.alt && !k.shift && k.code == VkEscape then LeaveInsertMode
    else if !k.ctrl && !k.alt && !k.shift && k.code == VkReturn then InsertNewline
    else if !k.ctrl && !k.alt && !k.shift && k.code == VkBack then Backspace
    else if k.ctrl && !k.alt && !k.shift && k.code == VkOem4 then LeaveInsertMode
    else SelfInsert
  }

  /** The normal table's entry for a key press is the command NormalKey
      names. */
  lemma NormalTableMatches(k: Key)
    requires k.code < 256
    ensures NormalBinding(KeyIndex(k)) == NormalKey(k)
  {
    KeyIndexDecodes(k);
  }

  /** The insert table's entry for a key press is the command InsertKey
      names. */
  lemma InsertTableMatches(k: Key)
    requires k.code < 256
    ensures InsertBinding(KeyIndex(k)) == InsertKey(k)
  {
    KeyIndexDecodes(k);
  }

  /** normal_mode_initialize: every entry does nothing, then the nine bound
      keys get their commands. */
  method InitializeNormalMode(table: array<Command>)
    requires table.Length == MaxKeys
    modifies table
    ensures forall i :: 0 <= i < MaxKeys ==> table[i] == NormalBinding(i)
  {
    for i := 0 to MaxKeys
      invariant forall j :: 0 <= j < i ==> table[j] == CommandNone
    {
      table[i] := CommandNone;
    }
    table['H' as nat] := BackwardChar;
    table['J' as nat] := ForwardLine;
    table['K' as nat] := BackwardLine;
    table['L' as nat] := ForwardChar;
    table['I' as nat] := StartInsertMode;
    table[Control('S' as nat)] := Save;
    table[Control('Q' as nat)] := Quit;
    table[Control('O' as nat)] := Open;
    table[Control('F' as nat)] := Search;
  }

  /** insert_mode_initialize: every entry inserts its character, then
      escape, return, back and control-'[' get their commands. */
  method InitializeInsertMode(table: array<Command>)
    requires table.Length == MaxKeys
    modifies table
    ensures forall i :: 0 <= i < MaxKeys ==> table[i] == InsertBinding(i)
  {
    for i := 0 to MaxKeys
      invariant forall j :: 0 <= j < i ==> table[j] == SelfInsert
    {
      table[i] := SelfInsert;
    }
    table[VkEscape] := LeaveInsertMode;
    table[VkReturn] := InsertNewline;
    table[VkBack] := Backspace;
    table[Control(VkOem4)] := LeaveInsertMode;
  }

  /*------------------------------------------------------------------------
   * Columns and vertical motion
   *------------------------------------------------------------------------*/

  /** get_column: the tab-expanded column of position p in its line. */
  method GetColumn(s: seq<char>, p: nat) returns (column: nat)
    requires p <= |s|
    ensures column == Col(s, LineStart(s, p), p)
  {
    var first := Utility.FindBackward(s, 0, p, Newline);
    column := LineColumn(s, first, p);
  }

  /** set_column: walk from first until a newline, the end of the text or a
      position whose tab-expanded column reaches column. */
  method SetColumn(s: seq<char>, first: nat, column: int) returns (r: nat)
    requires first <= |s|
    ensures r == RowFirst(s, first, column)
  {
    var reached;
    r, reached := SkipColumns(s, first, column);
  }

  /** A position reached from p without crossing a newline that is the end
      of the text or holds a newline is the end of p's line. */
  lemma LineEndAt(s: seq<char>, p: nat, q: nat)
    requires p <= q <= |s| && (q == |s| || s[q] == Newline)
    requires forall i :: p <= i < q ==> s[i] != Newline
    ensures LineEnd(s, p) == q
  {
  }

  /** Walking from q in the line starting at p, past positions whose column
      is below c, stops at the end of the line or at a column reaching c. */
  lemma {:induction false} SkipFromStops(s: seq<char>, p: nat, q: nat, c: int)
    requires p <= q <= |s|
    requires forall i :: p <= i < q ==> s[i] != Newline
    requires forall i :: p <= i < q ==> Col(s, p, i) < c
    ensures var r := SkipFrom(s, p, q, c); r == LineEnd(s, p) || c <= Col(s, p, r)
    ensures var r := SkipFrom(s, p, q, c); forall i :: p <= i < r ==> Col(s, p, i) < c
    decreases |s| - q
  {
    if q == |s| || s[q] == Newline {
      LineEndAt(s, p, q);
    } else if Col(s, p, q) < c {
      SkipFromStops(s, p, q + 1, c);
    }
  }

  /** set_column from a line start stays on that line and stops at the first
      position whose column reaches c, or at the end of the line when none
      does. */
  lemma SetColumnLands(s: seq<char>, p: nat, c: int)
    requires IsLineStart(s, p)
    ensures var r := RowFirst(s, p, c);
      && p <= r <= LineEnd(s, p) && LineStart(s, r) == p
      && (r == LineEnd(s, p) || c <= Col(s, p, r))
      && forall i :: p <= i < r ==> Col(s, p, i) < c
  {
    SkipFromStops(s, p, p, c);
    LineStartOf(s, p, RowFirst(s, p, c));
  }

  /** Where forward_line puts a cursor at p aiming for column c. */
  function LineBelow(s: seq<char>, p: nat, c: int): (r: nat)
    requires p <= |s|
    ensures r <= |s|
  {
    if LineEnd(s, p) < |s| then RowFirst(s, LineEnd(s, p) + 1, c) else p
  }

  /** Where backward_line puts a cursor at p aiming for column c. */
  function LineAbove(s: seq<char>, p: nat, c: int): (r: nat)
    requires p <= |s|
    ensures r <= |s|
  {
    var ls := LineStart(s, p);
    if ls == 0 then 0 else RowFirst(s, LineStart(s, ls - 1), c)
  }

  /** The motion of forward_line: find the end of the cursor's line and,
      unless it is the end of the text, set the column on the next line. */
  method NextLine(s: seq<char>, cursor: nat, column: int) returns (r: nat)
    requires cursor <= |s|
    ensures r == LineBelow(s, cursor, column)
  {
    r := cursor;
    var endOfLine := LineEnd(s, cursor);
    if endOfLine != |s| {
      r := SetColumn(s, endOfLine + 1, column);
    }
  }

  /** The motion of backward_line: go to the start of the cursor's line and,
      unless it is the first line, set the column on the line before. */
  method PreviousLine(s: seq<char>, cursor: nat, column: int) returns (r: nat)
    requires cursor <= |s|
    ensures r == LineAbove(s, cursor, column)
  {
    r := Utility.FindBackward(s, 0, cursor, Newline);
    if r != 0 {
      var startOfLine := Utility.FindBackward(s, 0, r - 1, Newline);
      r := SetColumn(s, startOfLine, column);
    }
  }

  /** forward_line lands on the line after the cursor's, at the column
      set_column finds there; on the last line it stays put. */
  lemma LineBelowLands(s: seq<char>, p: nat, c: int)
    requires p <= |s|
    ensures LineEnd(s, p) == |s| ==> LineBelow(s, p, c) == p
    ensures LineEnd(s, p) < |s| ==>
      var t := LineBelow(s, p, c);
      && t <= |s| && LineStart(s, t) == LineEnd(s, p) + 1
      && Newlines(s, LineStart(s, p), LineStart(s, t)) == 1
  {
    var e := LineEnd(s, p);
    if e < |s| {
      var ls := LineStart(s, p);
      NextLineOneNewline(s, ls);
      LineStartOf(s, ls, p);
      assert LineEnd(s, ls) == e by {
        assert forall i :: ls <= i < e ==> s[i] != Newline;
      }
      SetColumnLands(s, e + 1, c);
    }
  }

  /** backward_line on the first line goes to the start of the text, and
      elsewhere lands on the line before the cursor's, at the column
      set_column finds there. */
  lemma LineAboveLands(s: seq<char>, p: nat, c: int)
    requires p <= |s|
    ensures LineStart(s, p) == 0 ==> LineAbove(s, p, c) == 0
    ensures LineStart(s, p) > 0 ==>
      var t := LineAbove(s, p, c);
      && t < LineStart(s, p) && LineStart(s, t) == LineStart(s, LineStart(s, p) - 1)
      && Newlines(s, LineStart(s, t), LineStart(s, p)) == 1
  {
    var ls := LineStart(s, p);
    if ls > 0 {
      var prev := LineStart(s, ls - 1);
      SetColumnLands(s, prev, c);
      PreviousLineOneNewline(s, ls);
      assert LineEnd(s, prev) == ls - 1 by {
        LineStartOf(s, prev, ls - 1);
      }
    }
  }

  /** Down then up with the same sticky column comes back to the cursor's
      line, at the position set_column finds there. */
  lemma LineMotionRoundTrip(s: seq<char>, p: nat, c: int)
    requires p <= |s| && LineEnd(s, p) < |s|
    ensures LineAbove(s, LineBelow(s, p, c), c) == RowFirst(s, LineStart(s, p), c)
  {
    hide RowFirst, Col;
    LineBelowLands(s, p, c);
    var ls, e := LineStart(s, p), LineEnd(s, p);
    var t := LineBelow(s, p, c);
    assert LineStart(s, t) - 1 == e;
    LineStartOf(s, ls, e);
  }

  /*------------------------------------------------------------------------
   * Search
   *------------------------------------------------------------------------*/

  /** The query occurs in s at i. */
  predicate Matches(s: seq<char>, i: nat, q: seq<char>)
  {
    i + |q| <= |s| && s[i..i + |q|] == q
  }

  /** std::search from position from: the first position at or after it
      where the query occurs, or the end of the text when there is none. */
  function SearchFrom(s: seq<char>, from: nat, q: seq<char>): (r: nat)
    requires from <= |s|
    ensures from <= r <= |s|
    ensures r < |s| ==> Matches(s, r, q)
    ensures forall i :: from <= i < r ==> !Matches(s, i, q)
    decreases |s| - from
  {
    if from == |s| || Matches(s, from, q) then from else SearchFrom(s, from + 1, q)
  }

  /*------------------------------------------------------------------------
   * The editor
   *------------------------------------------------------------------------*/

  /** What saving meets outside the editor: whether the temporary file could
      be named and created, what the two writes report, and whether moving
      the temporary file over the named file succeeded. */
  datatype SaveOutcome = SaveOutcome(tempReady: bool, first: WriteOutcome, second: WriteOutcome, moved: bool)

  /** What a command meets outside the editor: the text typed at the line
      prompt (the file to open, or the query), the file name typed when an
      unnamed document is saved, the answer to the yes/no question, what
      saving meets, and the storage loading the file yields (None when
      loading fails). */
  datatype Replies = Replies(line: string, saveAs: string, answer: Response,
                             save: SaveOutcome, file: Utility.Option<GapBuffer>)

  /** The state of the editor a command acts on: the document's text as the
      two segments around its gap (which saving writes one after the other),
      its name and modified flag, the cursor and the sticky column. */
  datatype Snapshot = Snapshot(front: seq<char>, back: seq<char>, name: string, modified: bool,
                               cursor: nat, columnDesired: int)
  {
    function Text(): seq<char>
    {
      front + back
    }
  }

  /** Saving writes both segments of the snapshot completely. */
  predicate Written(o: SaveOutcome, b: Snapshot)
  {
    o.tempReady && Completed(o.first, Request(b.front)) && Completed(o.second, Request(b.back))
  }

  /** The state save_buffer leaves: nothing changes when the document has no
      name and none is typed; otherwise it takes the typed name if it had
      none, and stays modified unless both writes completed. */
  function Saved(saveAs: string, o: SaveOutcome, b: Snapshot): Snapshot
  {
    if b.name == [] && saveAs == [] then b
    else b.(name := if b.name == [] then saveAs else b.name, modified := b.modified && !Written(o, b))
  }

  /** The status message save_buffer sets. */
  function SaveStatus(saveAs: string, o: SaveOutcome, b: Snapshot): string
  {
    if b.name == [] && saveAs == [] then "buffer not saved"
    else if Written(o, b) && o.moved then "Saved buffer"
    else "Error saving buffer"
  }

  /** The column vertical motion aims for from b: the sticky column, or the
      cursor's column when it is unset. */
  function Aim(b: Snapshot): int
    requires b.cursor <= |b.Text()|
  {
    var s := b.Text();
    if b.columnDesired == -1 then Col(s, LineStart(s, b.cursor), b.cursor) else b.columnDesired
  }

  /** c went in at the cursor of b, which moved past it; the document is
      modified, its name, and the sticky column, are kept. */
  predicate Typed(b: Snapshot, c: char, a: Snapshot)
    requires b.cursor <= |b.Text()|
  {
    && a.Text() == Inserted(b.Text(), b.cursor, c) && a.cursor == b.cursor + 1
    && a.modified && a.name == b.name && a.columnDesired == b.columnDesired
  }

  /** open goes as far as loading a file: a name was typed, and the question
      about a modified document was not cancelled. */
  predicate Loads(r: Replies, modified: bool)
  {
    r.line != [] && !(modified && r.answer == Cancel)
  }

  /** What each command makes of state b, with c the key's character and r
      what the command meets outside the editor; a is the state it leaves. */
  ghost predicate Effect(cmd: Command, c: char, r: Replies, b: Snapshot, a: Snapshot)
    requires b.cursor <= |b.Text()|
    reads if r.file.Some? then {r.file.value} else {}
  {
    var s := b.Text();
    match cmd
    case CommandNone => a == b
    case Quit => a == b
    case StartInsertMode => a == b
    case LeaveInsertMode => a == b.(columnDesired := -1)
    case ForwardChar => a == if b.cursor < |s| then b.(cursor := b.cursor + 1, columnDesired := -1) else b
    case BackwardChar => a == if 0 < b.cursor then b.(cursor := b.cursor - 1, columnDesired := -1) else b
    case ForwardLine => a == b.(cursor := LineBelow(s, b.cursor, Aim(b)), columnDesired := Aim(b))
    case BackwardLine => a == b.(cursor := LineAbove(s, b.cursor, Aim(b)), columnDesired := Aim(b))
    case Search =>
      var found := SearchFrom(s, b.cursor, r.line);
      a == b.(cursor := if found != |s| then found else b.cursor)
    case SelfInsert => if Utility.IsPrint(c) then Typed(b, c, a) else a == b
    case InsertNewline => Typed(b, Newline, a)
    case Backspace =>
      if b.cursor == 0 then a == b
      else && a.Text() == Erased(s, b.cursor - 1) && a.cursor == b.cursor - 1
           && a.modified && a.name == b.name && a.columnDesired == b.columnDesired
    case Save => a == Saved(r.saveAs, r.save, b)
    case Open =>
      if !Loads(r, b.modified) then a == b
      else if r.file.None? then a == if b.modified && r.answer == Yes then Saved(r.saveAs, r.save, b) else b
      else a.Text() == r.file.value.Contents && a.name == r.line && !a.modified && a.cursor == 0 && a.columnDesired == 0
  }

  class Editor {
    var buffer: Document
    var view: View
    var normalMode: array<Command>
    var insertMode: array<Command>
    /** The table in force: normalMode or insertMode. */
    var commands: array<Command>

    /** Both tables hold their bindings, and one of them is in force. */
    ghost predicate Tables()
      reads this, normalMode, insertMode
    {
      && normalMode.Length == MaxKeys && insertMode.Length == MaxKeys && normalMode != insertMode
      && (forall i :: 0 <= i < MaxKeys ==> normalMode[i] == NormalBinding(i))
      && (forall i :: 0 <= i < MaxKeys ==> insertMode[i] == InsertBinding(i))
      && (commands == normalMode || commands == insertMode)
    }

    /** The view shows the document, and the tables are set up. */
    ghost predicate Wired()
      reads this, view, buffer, buffer.contents, buffer.contents.data, normalMode, insertMode
    {
      view.buffer == buffer && view.Valid() && Tables()
    }

    /** Between key presses the view is also placed over the document. */
    ghost predicate Valid()
      reads this, view, buffer, buffer.contents, buffer.contents.data, normalMode, insertMode
    {
      Wired() && view.Placed()
    }

    /** What a command leaves for the refresh that follows it. */
    ghost predicate Done()
      reads this, view, buffer, buffer.contents, buffer.contents.data, normalMode, insertMode
    {
      Wired() && view.Reframeable()
    }

    ghost function Text(): seq<char>
      reads this, buffer, buffer.contents
    {
      buffer.Text()
    }

    /** The state commands act on. */
    ghost function Snap(): Snapshot
      reads this, view, buffer, buffer.contents, buffer.contents.data
      requires buffer.Valid()
    {
      Snapshot(buffer.contents.Segment0(), buffer.contents.Segment1(), buffer.name, buffer.modified,
               view.cursor, view.columnDesired)
    }

    /** Normal mode is in force. */
    ghost predicate InNormalMode()
      reads this
    {
      commands == normalMode
    }

    /** editor_initialize and commands_initialize: an empty unnamed document,
        a view of the screen but its status row, both tables filled, and
        normal mode in force. */
    constructor (screenWidth: nat, screenHeight: nat)
      requires 1 <= screenHeight
      ensures Valid() && InNormalMode()
      ensures Text() == [] && buffer.name == [] && !buffer.modified
      ensures view.width == screenWidth && view.height == screenHeight - 1
      ensures view.cursor == 0 && view.topLine == 0 && view.firstColumn == 0 && view.columnDesired == 0
    {
      var d := new Document.Default();
      buffer := d;
      view := new View(d, screenWidth, screenHeight);
      var normal := new Command[MaxKeys];
      var insert := new Command[MaxKeys];
      normalMode := normal;
      insertMode := insert;
      commands := normal;
      new;
      InitializeNormalMode(normal);
      InitializeInsertMode(insert);
    }

    /** forward_char: at the end of the text nothing changes; otherwise the
        cursor moves one position right and the sticky column is dropped. */
    method ForwardChar()
      requires Valid()
      modifies view
      ensures Done() && Text() == old(Text()) && view.topLine == old(view.topLine) && view.firstColumn == old(view.firstColumn)
      ensures Snap() == old(Snap()).(cursor := view.cursor, columnDesired := view.columnDesired)
      ensures old(view.cursor) == |Text()| ==> view.cursor == old(view.cursor) && view.columnDesired == old(view.columnDesired)
      ensures old(view.cursor) < |Text()| ==> view.cursor == old(view.cursor) + 1 && view.columnDesired == -1
    {
      if view.cursor != buffer.End() {
        view.cursor := view.cursor + 1;
        view.columnDesired := -1;
      }
    }

    /** backward_char: at the start of the text nothing changes; otherwise the
        cursor moves one position left and the sticky column is dropped. */
    method BackwardChar()
      requires Valid()
      modifies view
      ensures Done() && Text() == old(Text()) && view.topLine == old(view.topLine) && view.firstColumn == old(view.firstColumn)
      ensures Snap() == old(Snap()).(cursor := view.cursor, columnDesired := view.columnDesired)
      ensures old(view.cursor) == 0 ==> view.cursor == 0 && view.columnDesired == old(view.columnDesired)
      ensures old(view.cursor) > 0 ==> view.cursor == old(view.cursor) - 1 && view.columnDesired == -1
    {
      if view.cursor != buffer.Begin() {
        view.cursor := view.cursor - 1;
        view.columnDesired := -1;
      }
    }

    /** The sticky column: when unset it becomes the cursor's column. */
    method DesireColumn()
      requires Valid()
      modifies view
      ensures Valid() && Text() == old(Text()) && view.cursor == old(view.cursor) && view.topLine == old(view.topLine)
      ensures view.firstColumn == old(view.firstColumn)
      ensures view.columnDesired == if old(view.columnDesired) == -1 then Col(Text(), LineStart(Text(), view.cursor), view.cursor) else old(view.columnDesired)
    {
      if view.columnDesired == -1 {
        var column := GetColumn(buffer.contents.Elements(), view.cursor);
        view.columnDesired := column;
      }
    }

    /** forward_line: fix the sticky column, then move to the next line at
        that column; on the last line the cursor stays. */
    method ForwardLine()
      requires Valid()
      modifies view
      ensures Done() && Text() == old(Text()) && view.topLine == old(view.topLine) && view.firstColumn == old(view.firstColumn)
      ensures Snap() == old(Snap()).(cursor := view.cursor, columnDesired := view.columnDesired)
      ensures view.columnDesired == if old(view.columnDesired) == -1 then Col(Text(), LineStart(Text(), old(view.cursor)), old(view.cursor)) else old(view.columnDesired)
      ensures view.cursor == LineBelow(Text(), old(view.cursor), view.columnDesired)
    {
      DesireColumn();
      var s := buffer.contents.Elements();
      view.cursor := NextLine(s, view.cursor, view.columnDesired);
    }

    /** backward_line: fix the sticky column, go to the start of the line,
        and from there, unless it is the first line, to the previous line at
        that column. */
    method BackwardLine()
      requires Valid()
      modifies view
      ensures Done() && Text() == old(Text()) && view.topLine == old(view.topLine) && view.firstColumn == old(view.firstColumn)
      ensures Snap() == old(Snap()).(cursor := view.cursor, columnDesired := view.columnDesired)
      ensures view.columnDesired == if old(view.columnDesired) == -1 then Col(Text(), LineStart(Text(), old(view.cursor)), old(view.cursor)) else old(view.columnDesired)
      ensures view.cursor == LineAbove(Text(), old(view.cursor), view.columnDesired)
    {
      DesireColumn();
      var s := buffer.contents.Elements();
      view.cursor := PreviousLine(s, view.cursor, view.columnDesired);
    }

    /** quit: exit when the document is unmodified, and otherwise only when
        the answer to "quit (y/n)" is yes. */
    method Quit(answer: Response) returns (shouldExit: bool)
      requires Valid()
      ensures shouldExit <==> !buffer.modified || answer == Yes
    {
      if buffer.Modified() {
        shouldExit := answer == Yes;
      } else {
        shouldExit := true;
      }
    }

    /** command_self_insert: a printable character goes in at the cursor,
        which moves past it; any other key changes nothing. */
    method SelfInsert(c: char)
      requires Valid()
      modifies view, buffer, buffer.contents, buffer.contents.data
      ensures Done() && buffer.name == old(buffer.name) && view.topLine == old(view.topLine) && view.firstColumn == old(view.firstColumn)
      ensures view.columnDesired == old(view.columnDesired)
      ensures Utility.IsPrint(c) ==> Text() == Inserted(old(Text()), old(view.cursor), c) && view.cursor == old(view.cursor) + 1 && buffer.modified
      ensures !Utility.IsPrint(c) ==> Text() == old(Text()) && view.cursor == old(view.cursor) && buffer.modified == old(buffer.modified)
      ensures !Utility.IsPrint(c) ==> Snap() == old(Snap())
    {
      if Utility.IsPrint(c) {
        InsertAtCursor(c);
      }
    }

    /** command_newline: a newline goes in at the cursor, which moves past it. */
    method InsertNewline()
      requires Valid()
      modifies view, buffer, buffer.contents, buffer.contents.data
      ensures Done() && buffer.name == old(buffer.name) && view.topLine == old(view.topLine) && view.firstColumn == old(view.firstColumn)
      ensures view.columnDesired == old(view.columnDesired)
      ensures Text() == Inserted(old(Text()), old(view.cursor), Newline) && view.cursor == old(view.cursor) + 1 && buffer.modified
    {
      InsertAtCursor(Newline);
    }

    /** Insert c at the cursor and step past it.  The text before the cursor
        is untouched, so the top line stays a line start. */
    method InsertAtCursor(c: char)
      requires Valid()
      modifies view, buffer, buffer.contents, buffer.contents.data
      ensures Done() && buffer.name == old(buffer.name) && view.topLine == old(view.topLine) && view.firstColumn == old(view.firstColumn)
      ensures view.columnDesired == old(view.columnDesired)
      ensures Text() == Inserted(old(Text()), old(view.cursor), c) && view.cursor == old(view.cursor) + 1 && buffer.modified
    {
      ghost var s := Text();
      buffer.Insert(view.cursor, c);
      view.cursor := view.cursor + 1;
      ghost var t := Text();
      assert view.topLine <= LineStart(s, view.cursor - 1) <= view.cursor - 1;
      assert view.topLine == 0 || t[view.topLine - 1] == s[view.topLine - 1];
    }

    /** command_backspace: at the start of the text nothing changes; otherwise
        the character before the cursor is removed and the cursor takes its
        place. */
    method Backspace()
      requires Valid()
      modifies view, buffer, buffer.contents, buffer.contents.data
      ensures Done() && buffer.name == old(buffer.name) && view.topLine == old(view.topLine) && view.firstColumn == old(view.firstColumn)
      ensures view.columnDesired == old(view.columnDesired)
      ensures old(view.cursor) == 0 ==> Text() == old(Text()) && view.cursor == 0 && buffer.modified == old(buffer.modified)
      ensures old(view.cursor) == 0 ==> Snap() == old(Snap())
      ensures old(view.cursor) > 0 ==> Text() == Erased(old(Text()), old(view.cursor) - 1) && view.cursor == old(view.cursor) - 1 && buffer.modified
    {
      hide Erased, LineStart;
      if view.cursor != buffer.Begin() {
        EraseKeepsTop(Text(), view.cursor, view.topLine);
        view.cursor := view.cursor - 1;
        buffer.Erase(view.cursor);
      }
    }

    /** start_insert_mode: the insert table comes into force. */
    method StartInsertMode()
      requires Valid()
      modifies this
      ensures Valid() && !InNormalMode()
      ensures buffer == old(buffer) && view == old(view) && normalMode == old(normalMode) && insertMode == old(insertMode)
    {
      commands := insertMode;
    }

    /** leave_insert_mode: the normal table comes into force and the sticky
        column is dropped. */
    method LeaveInsertMode()
      requires Valid()
      modifies this, view
      ensures Valid() && InNormalMode()
      ensures buffer == old(buffer) && view == old(view) && normalMode == old(normalMode) && insertMode == old(insertMode)
      ensures view.cursor == old(view.cursor) && view.topLine == old(view.topLine) && view.columnDesired == -1
      ensures view.firstColumn == old(view.firstColumn)
    {
      commands := normalMode;
      view.columnDesired := -1;
    }

    /** search: move the cursor to the first occurrence of the query at or
        after it; when there is none it stays. */
    method Search(query: string)
      requires Valid()
      modifies view
      ensures Done() && Text() == old(Text()) && view.topLine == old(view.topLine) && view.firstColumn == old(view.firstColumn)
      ensures Snap() == old(Snap()).(cursor := view.cursor, columnDesired := view.columnDesired)
      ensures view.columnDesired == old(view.columnDesired)
      ensures var r := SearchFrom(Text(), old(view.cursor), query);
        view.cursor == if r != |Text()| then r else old(view.cursor)
    {
      var s := buffer.contents.Elements();
      var found := SearchFrom(s, view.cursor, query);
      if found != |s| {
        view.cursor := found;
        LineStartAtLeast(s, view.topLine, found);
      }
    }

    /** save_buffer: an unnamed document takes the name typed at the prompt,
        and when that is empty nothing is saved.  Saving writes the document
        to a temporary file (which clears the modified flag when both writes
        complete) and moves that over the named file.  The status message
        reports the result. */
    method SaveBuffer(saveAs: string, outcome: SaveOutcome) returns (status: string)
      requires Valid()
      modifies buffer
      ensures Valid() && Text() == old(Text())
      ensures old(buffer.name) == [] && saveAs == [] ==>
        buffer.name == [] && buffer.modified == old(buffer.modified) && status == "buffer not saved"
      ensures old(buffer.name) != [] || saveAs != [] ==>
        && buffer.name == (if old(buffer.name) == [] then saveAs else old(buffer.name))
        && var written := outcome.tempReady
             && Completed(outcome.first, Request(buffer.contents.Segment0()))
             && Completed(outcome.second, Request(buffer.contents.Segment1()));
           && buffer.modified == (old(buffer.modified) && !written)
           && status == if written && outcome.moved then "Saved buffer" else "Error saving buffer"
      ensures Snap() == Saved(saveAs, outcome, old(Snap())) && status == SaveStatus(saveAs, outcome, old(Snap()))
    {
      if buffer.name == [] {
        if saveAs == [] {
          return "buffer not saved";
        }
        buffer.name := saveAs;
      }
      var written := false;
      if outcome.tempReady {
        var requests;
        written, requests := buffer.WriteFile(outcome.first, outcome.second);
      }
      if written && outcome.moved {
        status := "Saved buffer";
      } else {
        status := "Error saving buffer";
      }
    }

    /** open: ask for a file name, and do nothing when it is empty; for a
        modified document ask whether to save first, and do nothing on
        cancel.  A yes saves the document, and `saved` is the status that
        save sets.  When the file then loads, the document becomes it,
        unmodified, with the view back at its start; when loading fails the
        document is as the save (if any) left it. */
    method Open(replies: Replies) returns (saved: Utility.Option<string>)
      requires Valid()
      requires replies.file.Some? ==> replies.file.value.Valid()
      modifies buffer, view
      ensures Valid() && view == old(view)
      ensures replies.line == [] || (old(buffer.modified) && replies.answer == Cancel) ==>
        Text() == old(Text()) && buffer.name == old(buffer.name) && buffer.modified == old(buffer.modified)
        && view.cursor == old(view.cursor) && view.topLine == old(view.topLine) && view.columnDesired == old(view.columnDesired)
        && view.firstColumn == old(view.firstColumn) && Snap() == old(Snap())
      ensures replies.line != [] && !(old(buffer.modified) && replies.answer == Cancel) && replies.file.Some? ==>
        && buffer.name == replies.line && buffer.contents == replies.file.value && !buffer.modified
        && view.cursor == 0 && view.topLine == 0 && view.firstColumn == 0 && view.columnDesired == 0
      ensures saved.Some? <==> Loads(replies, old(buffer.modified)) && old(buffer.modified) && replies.answer == Yes
      ensures saved.Some? ==> saved.value == SaveStatus(replies.saveAs, replies.save, old(Snap()))
      ensures Loads(replies, old(buffer.modified)) && replies.file.None? ==>
        && Snap() == (if saved.Some? then Saved(replies.saveAs, replies.save, old(Snap())) else old(Snap()))
        && view.topLine == old(view.topLine) && view.firstColumn == old(view.firstColumn)
    {
      saved := Utility.None;
      if replies.line == [] {
        return;
      }
      if buffer.Modified() {
        if replies.answer == Cancel {
          return;
        }
        if replies.answer == Yes {
          var status := SaveBuffer(replies.saveAs, replies.save);
          saved := Utility.Some(status);
        }
      }
      Load(replies.line, replies.file);
    }

    /** The end of open: when loading failed nothing changes; otherwise the
        document becomes the loaded file under the given name, unmodified,
        and the view goes back to its start with the sticky column at 0. */
    method Load(name: string, file: Utility.Option<GapBuffer>)
      requires Valid()
      requires file.Some? ==> file.value.Valid()
      modifies buffer, view
      ensures Valid() && view == old(view)
      ensures file.None? ==>
        Text() == old(Text()) && buffer.name == old(buffer.name) && buffer.modified == old(buffer.modified)
        && view.cursor == old(view.cursor) && view.topLine == old(view.topLine) && view.columnDesired == old(view.columnDesired)
        && view.firstColumn == old(view.firstColumn) && Snap() == old(Snap())
      ensures file.Some? ==>
        && buffer.name == name && buffer.contents == file.value && !buffer.modified
        && view.cursor == 0 && view.topLine == 0 && view.firstColumn == 0 && view.columnDesired == 0
    {
      if file.None? {
        return;
      }
      buffer.Reset(name, file.value);
      view.cursor := buffer.Begin();
      view.topLine := buffer.Begin();
      view.firstColumn := 0;
      view.columnDesired := 0;
    }

    /** Commands that only move the cursor: the character and line motions
        and search. */
    method RunMotion(cmd: Command, c: char, replies: Replies)
      requires Valid()
      requires cmd == Command.ForwardChar || cmd == Command.BackwardChar || cmd == Command.ForwardLine
            || cmd == Command.BackwardLine || cmd == Command.Search
      modifies view
      ensures Done() && Text() == old(Text()) && view.topLine == old(view.topLine) && view.firstColumn == old(view.firstColumn)
      ensures Snap() == old(Snap()).(cursor := view.cursor, columnDesired := view.columnDesired)
      ensures Effect(cmd, c, replies, old(Snap()), Snap())
    {
      match cmd
      case ForwardChar => ForwardChar();
      case BackwardChar => BackwardChar();
      case ForwardLine => ForwardLine();
      case BackwardLine => BackwardLine();
      case Search => Search(replies.line);
    }

    /** Commands that edit the text at the cursor. */
    method RunEdit(cmd: Command, c: char, replies: Replies)
      requires Valid()
      requires cmd == Command.SelfInsert || cmd == Command.InsertNewline || cmd == Command.Backspace
      modifies view, buffer, buffer.contents, buffer.contents.data
      ensures Done() && view.topLine == old(view.topLine) && view.firstColumn == old(view.firstColumn)
      ensures Effect(cmd, c, replies, old(Snap()), Snap())
    {
      ghost var b := Snap();
      match cmd
      case SelfInsert =>
        SelfInsert(c);
        assert Text() == Snap().Text();
      case InsertNewline =>
        InsertNewline();
        assert Text() == Snap().Text();
      case Backspace =>
        Backspace();
        assert Text() == Snap().Text();
    }

    /** Commands that save or open a file. */
    method RunFile(cmd: Command, c: char, replies: Replies)
      requires Valid()
      requires replies.file.Some? ==> replies.file.value.Valid()
      requires cmd == Command.Save || cmd == Command.Open
      modifies buffer, view
      ensures Valid() && Done() && view == old(view)
      ensures Effect(cmd, c, replies, old(Snap()), Snap())
      ensures cmd == Command.Open && Loads(replies, old(buffer.modified)) && replies.file.Some? ==>
        buffer.contents == replies.file.value && view.topLine == 0 && view.firstColumn == 0
      ensures !(cmd == Command.Open && Loads(replies, old(buffer.modified)) && replies.file.Some?) ==>
        view.topLine == old(view.topLine) && view.firstColumn == old(view.firstColumn)
    {
      match cmd
      case Save => var status := SaveBuffer(replies.saveAs, replies.save);
      case Open => var saved := Open(replies);
    }

    /** The commands that change no text: none, quit, and the two mode
        switches. */
    method RunMode(cmd: Command, c: char, replies: Replies) returns (shouldExit: bool)
      requires Valid()
      requires cmd == Command.CommandNone || cmd == Command.Quit || cmd == Command.StartInsertMode || cmd == Command.LeaveInsertMode
      modifies this, view
      ensures Valid() && Done() && buffer == old(buffer) && view == old(view)
      ensures cmd == Command.CommandNone ==>
        Text() == old(Text()) && buffer.modified == old(buffer.modified) && view.cursor == old(view.cursor)
      ensures view.topLine == old(view.topLine) && view.firstColumn == old(view.firstColumn)
      ensures shouldExit <==> cmd == Command.Quit && (old(buffer.modified) ==> replies.answer == Yes)
      ensures InNormalMode() <==>
        if cmd == Command.StartInsertMode then false else if cmd == Command.LeaveInsertMode then true else old(InNormalMode())
      ensures Effect(cmd, c, replies, old(Snap()), Snap())
    {
      shouldExit := false;
      match cmd
      case CommandNone =>
      case Quit => shouldExit := Quit(replies.answer);
      case StartInsertMode => StartInsertMode();
      case LeaveInsertMode => LeaveInsertMode();
    }

    /** Run one command with what it meets outside the editor. */
    method Execute(cmd: Command, key: Key, replies: Replies) returns (shouldExit: bool)
      requires Valid()
      requires replies.file.Some? ==> replies.file.value.Valid()
      modifies this, view, buffer, buffer.contents, buffer.contents.data
      ensures Done() && view == old(view)
      ensures shouldExit <==> cmd == Command.Quit && (old(buffer.modified) ==> replies.answer == Yes)
      ensures InNormalMode() <==>
        if cmd == Command.StartInsertMode then false else if cmd == Command.LeaveInsertMode then true else old(InNormalMode())
      ensures cmd == CommandNone ==>
        Text() == old(Text()) && buffer.modified == old(buffer.modified) && view.cursor == old(view.cursor)
      ensures Effect(cmd, key.ascii, replies, old(Snap()), Snap())
      ensures cmd == Command.Open && Loads(replies, old(buffer.modified)) && replies.file.Some? ==>
        buffer.contents == replies.file.value && view.topLine == 0 && view.firstColumn == 0
      ensures !(cmd == Command.Open && Loads(replies, old(buffer.modified)) && replies.file.Some?) ==>
        view.topLine == old(view.topLine) && view.firstColumn == old(view.firstColumn)
    {
      hide Effect, Snap, Done, Valid;
      shouldExit := false;
      if cmd == Command.CommandNone || cmd == Command.Quit || cmd == Command.StartInsertMode || cmd == Command.LeaveInsertMode {
        shouldExit := RunMode(cmd, key.ascii, replies);
      } else if cmd == Command.SelfInsert || cmd == Command.InsertNewline || cmd == Command.Backspace {
        RunEdit(cmd, key.ascii, replies);
      } else if cmd == Command.Save || cmd == Command.Open {
        RunFile(cmd, key.ascii, replies);
      } else {
        RunMotion(cmd, key.ascii, replies);
      }
    }

    /** The command the table in force binds to the key's index, run. */
    method RunKey(key: Key, replies: Replies) returns (shouldExit: bool)
      requires Valid() && key.code < 256
      requires replies.file.Some? ==> replies.file.value.Valid()
      modifies this, view, buffer, buffer.contents, buffer.contents.data
      ensures Done() && view == old(view)
      ensures var cmd := if old(InNormalMode()) then NormalKey(key) else InsertKey(key);
        && (shouldExit <==> cmd == Command.Quit && (old(buffer.modified) ==> replies.answer == Yes))
        && (InNormalMode() <==> if cmd == Command.StartInsertMode then false else if cmd == Command.LeaveInsertMode then true else old(InNormalMode()))
        && (cmd == CommandNone ==> Text() == old(Text()) && buffer.modified == old(buffer.modified) && view.cursor == old(view.cursor))
        && Effect(cmd, key.ascii, replies, old(Snap()), Snap())
    {
      hide Effect;
      var index := KeyIndex(key);
      NormalTableMatches(key);
      InsertTableMatches(key);
      var cmd := commands[index];
      shouldExit := Execute(cmd, key, replies);
    }

    /** evaluate: run the command the table in force binds to the key's
        index, then refresh the view.  The result says whether the editor
        should exit, which only quit can ask for. */
    method Evaluate(key: Key, replies: Replies) returns (shouldExit: bool, cells: seq<char>, caret: Caret)
      requires Valid() && key.code < 256
      requires replies.file.Some? ==> replies.file.value.Valid()
      modifies this, view, buffer, buffer.contents, buffer.contents.data
      ensures Valid() && view == old(view)
      ensures var cmd := if old(InNormalMode()) then NormalKey(key) else InsertKey(key);
        && (shouldExit <==> cmd == Command.Quit && (old(buffer.modified) ==> replies.answer == Yes))
        && (InNormalMode() <==> if cmd == Command.StartInsertMode then false else if cmd == Command.LeaveInsertMode then true else old(InNormalMode()))
        && (cmd == CommandNone ==> Text() == old(Text()) && buffer.modified == old(buffer.modified) && view.cursor == old(view.cursor))
        && Effect(cmd, key.ascii, replies, old(Snap()), Snap())
      ensures cells == Rows(Text(), view.topLine, view.firstColumn, view.width, view.height)
      ensures caret == CaretFrom(Text(), view.topLine, view.firstColumn, view.width, view.cursor, 0, view.height, Caret(0, 0))
      ensures 1 <= view.width && 1 <= view.height ==>
        ShowsGlyph(Text(), view.topLine, view.firstColumn, view.width, view.cursor, 0, view.height, caret)
    {
      hide Effect, Rows, CaretFrom, ShowsGlyph;
      shouldExit := RunKey(key, replies);
      ghost var after := Snap();
      ghost var text := Text();
      ghost var normal := InNormalMode();
      cells, caret := view.Refresh();
      assert Snap() == after && Text() == text && InNormalMode() == normal;
    }
  }
}
