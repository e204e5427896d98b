# red: a verified model of the editor core

red is a small modal console text editor for Windows. The text lives in a gap
buffer: one array of characters split into segment 0, an unused gap, and
segment 1. A document wraps the gap buffer with a file name and a modified flag.
A view onto the document holds the cursor, the top line, the first visible
column and a sticky column for vertical motion. Every key press is packed into
an index into the command table of the current mode (normal or insert). The
command runs, and then the view is reframed so that the cursor is visible and
is drawn into a grid of cells.

This project models that core in Dafny and proves its properties:

- `GapBuffers`: the gap buffer (`src/gap_buffer.cpp`) as a class over an
  `array<char>`, with `gapBegin` and `gapEnd` and a ghost `Contents`. The class
  invariant says the contents are segment 0 followed by segment 1. Every
  operation is specified against sequence operations on `Contents`. The older
  `gap_buffer.cpp` at the repository root has the same code for everything it
  contains (lines 11-159), so the same members model it. Positions are logical
  indices (the iterator holds a buffer and an index).
- `Documents`: the document of `src/buffer.cpp`, with its modified flag and
  its two-segment `write_file`.
- `Iterators`: the indexed iterator of `src/iterator.cpp`.
- `StringBuffers`: the older string-backed document and iterator of
  `buffer.cpp`.
- `Utility`, `Text` and `Keys`:
  - `is_print` and `find_backward` (`include/utility.h`);
  - the pure sequence functions used as specifications: line starts and ends,
    newline counts, tab-expanded columns (tab stops every 8 columns);
  - key-index packing.
- `Layout` and `Display`: `reframe` and `display_refresh` (`src/display.cpp`).
  The screen grid is specified by functions (`Rows`, `CaretFrom`). The
  imperative row, tab and character loops are proved to fill exactly those
  cells. The central theorem is that after a refresh the caret names the cell
  showing the cursor's glyph. This holds for the reframe that counts the column
  over the characters it passes, which is how `Display.View.Reframe` is
  modelled. The loop at src/display.cpp:32-40, as written, can scroll the
  cursor out of the window (see "## Findings").
- `Commands`: the command engine of `src/command.cpp`, as an `Editor` class.
  `src/main.cpp` holds an earlier copy of the same command set (lines 32-284)
  with identical behaviour, and the same members model it. This covers the two
  key tables, motion, sticky-column vertical motion, editing, search, save,
  open, quit, mode changes, and `evaluate`.
- `Prompts`: the status-line prompt and the yes/no question
  (`src/prompt.cpp`), driven by a sequence of keys.
- `LegacyEditor`: the first generation in the root `main.cpp`, which has a
  `std::string` text, a cursor that tracks its column, a status row below the
  text and smaller key tables.

## Model

| member | source | states |
|---|---|---|
| Utility.IsPrint | include/utility.h:9-13 | true exactly for tab, 0x20..0x7E and 0x80..0xFE, reading the character as an unsigned byte |
| Utility.IsPrintExamples | include/utility.h:9-13 | newline, carriage return, DEL and 0xFF are rejected; tab, blank, '~', 0x80 and 0xFE are accepted |
| Utility.FindBackward | include/utility.h:17-25 | the backward scan returns Text.FindBackward: a position in [f, l] just after an x, with no x from it to l, and f when there is no x in [f, l) |
| Text.FindBackward | include/utility.h:17-25 | reference for find_backward: result in [f, l]; the element before it is x unless it is f; no x in [result, l); f when x is absent |
| Text.Find | src/display.cpp:105-107 | std::find on a range: result in [f, l]; it holds x when below l; no x before it |
| Text.Inserted | src/buffer.cpp:48-52 | one longer; the prefix before i is kept, c is at i, and the rest follows shifted by one |
| Text.Erased | buffer.cpp:132-136 | one shorter with the character at i gone; nothing changes at the end |
| Text.ErasedInserted | src/command.cpp:210-232 | erasing the character just inserted gives the text back |
| Text.LineStart | src/display.cpp:7 | a line start at or before p, with no newline between it and p |
| Text.LineStartOf | src/display.cpp:7 | every position reached from a line start without crossing a newline has that line start |
| Text.EraseKeepsTop | src/command.cpp:225-232 | after erasing the character before the cursor, the top line is at or below the new cursor's line start or is still a line start, so reframe can use it |
| Text.LineEnd | src/command.cpp:183 | the newline at or after p, or the end, with no newline before it |
| Text.Newlines | src/display.cpp:11-29 | counts the line breaks in a range, at most its length |
| Text.NewlinesAdd | src/display.cpp:11-29 | line-break counts add over adjacent ranges |
| Text.NewlinesNone | src/display.cpp:11-29 | a range without newlines holds no line breaks |
| Text.NextLineOneNewline | src/display.cpp:20-22 | just past the end of a line is a line start, exactly one line break further |
| Text.PreviousLineOneNewline | src/display.cpp:14 | the line before a line start begins exactly one line break earlier |
| Text.LineStartAtLeast | src/command.cpp:124-131 | a position at or after a line start has its line start at or after it |
| Text.Advance | src/display.cpp:35 | a tab advances to the next multiple of 8, anything else by one column |
| Text.Cells | src/display.cpp:89-101 | a character drawn at a column fills exactly the columns up to where it advances to |
| Text.Expansion | src/display.cpp:85-101 | the cells of a stretch of text are as many as its expanded width |
| Text.NoTabs | src/display.cpp:85-101 | text without tabs is as wide as it is long and is drawn as itself |
| Text.ExpansionPrefix | src/display.cpp:85-101 | drawing further never moves the column back, and earlier cells are a prefix of later ones |
| Keys.KeyIndex | src/command.cpp:52-59 | the index is code + 256·ctrl + 512·alt + 1024·shift and lies below MaxKeys = 2048 |
| Keys.Control | include/command.h:22-25 | control(code) is code + 256, the index of that key with ctrl alone |
| Keys.KeyIndexDecodes | src/command.cpp:55-58 | the code and each of the three flags can be read back from the index |
| Keys.KeyIndexInjective | src/command.cpp:55-58 | distinct key states get distinct indices |
| Keys.BitOrDisjoint | src/command.cpp:55-58 | or-ing bits above the code is addition |
| GapBuffers.MoveN | src/gap_buffer.cpp:309-316 | the destination holds the n source elements at f1 and is unchanged elsewhere; returns both ends |
| GapBuffers.MoveBackwardN | src/gap_buffer.cpp:299-306 | the destination holds the n source elements ending at l1 and is unchanged elsewhere; returns both starts |
| GapBuffers.FillN | src/gap_buffer.cpp:49-55 | n copies of c from f on, the rest unchanged |
| GapBuffers.CopySegments | src/gap_buffer.cpp:12-30 | segment 0 goes to the front of the destination and segment 1 to its end, so the content is copied |
| GapBuffers.CopyFront | src/gap_buffer.cpp:12-30 | segment 0 is copied to the front, and segment 1 of the source is untouched |
| GapBuffers.CopyBack | src/gap_buffer.cpp:12-30 | segment 1 is copied flush to the end, and the front is untouched |
| GapBuffers.GapBuffer.Empty | include/gap_buffer.h:14-22 | the default buffer is empty and owns no storage |
| GapBuffers.GapBuffer.Fill | src/gap_buffer.cpp:49-55 | n copies of c, capacity n, empty gap at the end |
| GapBuffers.GapBuffer.Copy | src/gap_buffer.cpp:12-18 | same content as x, capacity equal to the size, empty gap after x's segment 0 |
| GapBuffers.GapBuffer.Assign | src/gap_buffer.cpp:20-30 | the content becomes x's; the storage is reused when large enough and replaced by one of exactly the size otherwise |
| GapBuffers.GapBuffer.AssignInPlace | src/gap_buffer.cpp:22-25 | with enough capacity, the content becomes x's in the same storage |
| GapBuffers.GapBuffer.Capacity | src/gap_buffer.cpp:160-163 | the size plus the gap length |
| GapBuffers.GapBuffer.Size | src/gap_buffer.cpp:165-168 | the length of the logical content, which is the capacity minus the gap |
| GapBuffers.GapBuffer.Get | src/gap_buffer.cpp:170-176 | operator[] reads logical element i |
| GapBuffers.GapBuffer.At | src/gap_buffer.cpp:170-176 | logical element i is at i before the gap and at i plus the gap length after it |
| GapBuffers.GapBuffer.SuffixAt | src/gap_buffer.cpp:188-196 | the storage after the gap, from a position at or after the gap on, holds the rest of the content |
| GapBuffers.GapBuffer.Set | src/gap_buffer.cpp:170-176 | writing through operator[] changes logical element i only, and the storage and gap stay put |
| GapBuffers.GapBuffer.Segment0 | src/gap_buffer.cpp:178-186 | the content before the gap |
| GapBuffers.GapBuffer.Segment1 | src/gap_buffer.cpp:188-196 | the content after the gap; the two segments make up the content |
| GapBuffers.GapBuffer.Elements | src/gap_buffer.cpp:270-278 | walking from begin to end meets exactly the logical content |
| GapBuffers.GapBuffer.Begin | src/gap_buffer.cpp:270-273 | an iterator at logical position 0 of this buffer |
| GapBuffers.GapBuffer.End | src/gap_buffer.cpp:275-278 | an iterator at logical position size() of this buffer |
| GapBuffers.GapBuffer.Reserve | src/gap_buffer.cpp:280-296 | no change when n fits; otherwise the capacity is exactly n, the content is unchanged, segment 0 stays at the front and segment 1 is flush with the end |
| GapBuffers.GapBuffer.GapMove | src/gap_buffer.cpp:318-326 | the content, the storage and the gap length are unchanged, and the gap starts at logical position i |
| GapBuffers.GapBuffer.GapBackward | src/gap_buffer.cpp:318-322 | the same, for a position before the gap |
| GapBuffers.GapBuffer.GapForward | src/gap_buffer.cpp:322-325 | the same, for a position at or after the gap |
| GapBuffers.GapBuffer.Insert | src/gap_buffer.cpp:328-334 | the content becomes old[..i] + n copies of c + old[i..]; new storage of exactly size+n only when the gap is too small; the gap ends up after the insertion |
| GapBuffers.GapBuffer.Erase | src/gap_buffer.cpp:336-340 | the content becomes old[..i] + old[i+n..] and the storage is kept |
| GapBuffers.GapBuffer.EraseRange | src/gap_buffer.cpp:342-346 | the content becomes old[..f] + old[l..] and the storage is kept |
| GapBuffers.GapIterator.constructor | src/gap_buffer.cpp:198-202 | a position in a buffer held as a logical index |
| GapBuffers.GapIterator.Deref | src/gap_buffer.cpp:234-237 | the buffer's logical element at the index |
| GapBuffers.GapIterator.Increment | src/gap_buffer.cpp:244-248 | the index goes up by one |
| GapBuffers.GapIterator.PostIncrement | src/gap_buffer.cpp:250-255 | returns the old position and the index goes up by one |
| GapBuffers.GapIterator.Decrement | src/gap_buffer.cpp:257-261 | the index goes down by one |
| GapBuffers.GapIterator.PostDecrement | src/gap_buffer.cpp:263-268 | returns the old position and the index goes down by one |
| GapBuffers.GapIterator.Plus | include/gap_buffer.h:79-80 | it + n is the position n further on, in the same buffer |
| GapBuffers.GapIterator.Minus | include/gap_buffer.h:86-87 | it - n is the position n further back, in the same buffer |
| GapBuffers.GapIterator.Difference | include/gap_buffer.h:88 | it - y is the signed distance from y to it |
| GapBuffers.IteratorOrder | src/gap_buffer.cpp:204-232 | exactly one of <, == and > holds, and !=, <= and >= are the matching combinations |
| GapBuffers.Lettered | src/gap_buffer.test.cpp:6-10 | sixteen blanks inserted and overwritten give "abcdefghijklmnop" |
| GapBuffers.EraseAtGapScenario | src/gap_buffer.test.cpp:27-99 | erasing 8 at offset 8 leaves "abcdefgh"; begin()+8 is end(); (end()-1) - (begin()+1) is 6 |
| GapBuffers.Equal | src/gap_buffer.cpp:57-93 | x == y exactly when the logical contents are equal, wherever the gaps are |
| GapBuffers.EqualAfterFirstGap | src/gap_buffer.cpp:66-86 | once one side's walk reaches its gap, the rest of the walk decides equality of the whole contents |
| GapBuffers.Less | src/gap_buffer.cpp:100-143 | x < y exactly when the contents compare lexicographically (char signed) |
| GapBuffers.LessAfterFirstGapOfX | src/gap_buffer.cpp:106-119 | once x's walk reaches its gap first, the rest of the walk decides the lexicographic order of the whole contents |
| GapBuffers.LessAfterFirstGapOfY | src/gap_buffer.cpp:121-134 | once y's walk reaches its gap first, the rest of the walk decides the lexicographic order of the whole contents |
| GapBuffers.NotEqual | src/gap_buffer.cpp:95-98 | x != y exactly when the contents differ |
| GapBuffers.Greater | src/gap_buffer.cpp:145-148 | x > y exactly when y's content is lexicographically smaller, and then they differ |
| GapBuffers.LessEq | src/gap_buffer.cpp:150-153 | x <= y exactly when x is smaller or equal |
| GapBuffers.GreaterEq | src/gap_buffer.cpp:155-158 | x >= y exactly when y is smaller or equal |
| GapBuffers.Signed | src/gap_buffer.cpp:136-139 | characters compare as signed bytes: 128..255 read as -128..-1 |
| GapBuffers.CharLessTotal | src/gap_buffer.cpp:136-139 | distinct characters are ordered one way or the other |
| GapBuffers.LexLessIrreflexive | src/gap_buffer.cpp:100-143 | no content is smaller than itself |
| GapBuffers.LexLessTrichotomy | src/gap_buffer.cpp:100-158 | exactly one of smaller, equal and greater holds |
| GapBuffers.LexLessTransitive | src/gap_buffer.cpp:100-143 | the order is transitive |
| GapBuffers.LexLessAfterPrefix | src/gap_buffer.cpp:100-143 | after a common prefix, the order is decided by what follows |
| GapBuffers.SameAfterPrefix | src/gap_buffer.cpp:57-93 | after a common prefix, equal-length contents are equal exactly when what follows is equal |
| Documents.Request | src/buffer.cpp:33-37 | the bytes handed to WriteFile: the segment with its length cut to 32 bits |
| Documents.Document.Default | include/buffer.h:21-27 | a default document is unnamed, empty and not modified |
| Documents.Document.constructor | src/buffer.cpp:3-7 | a named document over the given storage, not modified |
| Documents.Document.Modified | src/buffer.cpp:24-27 | reports the flag that edits set and a complete write clears |
| Documents.Document.Begin | src/buffer.cpp:14-17 | the first position, 0 |
| Documents.Document.End | src/buffer.cpp:19-22 | the position after the last character, the text's length |
| Documents.Document.Insert | src/buffer.cpp:48-52 | c is inserted at i and the document is modified |
| Documents.Document.Erase | src/buffer.cpp:54-58 | the character at i is removed and the document is modified |
| Documents.Document.Reset | src/file.cpp:19-35 | after a read the document is the named, unmodified document over the storage read |
| Documents.Document.WriteFile | src/buffer.cpp:29-46 | writes segment 0 and, only when that completed, segment 1; returns true and clears the flag exactly when both completed, and otherwise leaves the flag |
| Documents.WrittenIsText | src/buffer.cpp:29-46 | below 4 GiB per segment, the two writes are the whole text in order |
| Documents.HugeSegmentRequestsNothing | src/buffer.cpp:33 | a segment of exactly 2^32 bytes is written as zero bytes and still counts as complete |
| Iterators.IndexedIterator.constructor | src/iterator.cpp:4-8 | a position over a gap buffer held as an index |
| Iterators.IndexedIterator.Deref | src/iterator.cpp:42-45 | the buffer's logical element at the index |
| Iterators.IndexedIterator.Increment | src/iterator.cpp:52-56 | the index goes up by one |
| Iterators.IndexedIterator.PostIncrement | src/iterator.cpp:58-63 | returns the old position and the index goes up by one |
| Iterators.IndexedIterator.Decrement | src/iterator.cpp:65-69 | the index goes down by one |
| Iterators.IndexedIterator.PostDecrement | src/iterator.cpp:71-76 | returns the old position and the index goes down by one |
| Iterators.IndexedOrder | src/iterator.cpp:10-40 | on one buffer, comparisons are those of the indices, and exactly one of <, ==, > holds |
| StringBuffers.StringBuffer.Default | buffer.hpp:19-25 | a default buffer is unnamed, empty and not modified |
| StringBuffers.StringBuffer.constructor | buffer.cpp:4-8 | a named buffer over the given text, not modified |
| StringBuffers.StringBuffer.Data | buffer.cpp:16-19 | the text |
| StringBuffers.StringBuffer.Filename | buffer.cpp:21-24 | the name |
| StringBuffers.StringBuffer.Size | buffer.cpp:26-29 | the length of the text |
| StringBuffers.StringBuffer.Modified | buffer.cpp:109-112 | reports the flag edits set and a complete write clears |
| StringBuffers.StringBuffer.Begin | buffer.cpp:99-102 | an iterator at 0 over this buffer |
| StringBuffers.StringBuffer.End | buffer.cpp:104-107 | an iterator at the text's length over this buffer |
| StringBuffers.StringBuffer.WriteFile | buffer.cpp:114-124 | writes the whole text; returns true and clears the flag exactly when every byte was written, and otherwise leaves it |
| StringBuffers.StringBuffer.Insert | buffer.cpp:126-130 | c is inserted at the iterator's index and the buffer is modified |
| StringBuffers.StringBuffer.Erase | buffer.cpp:132-136 | the character at the index is removed (none at the end) and the buffer is modified |
| StringBuffers.StringIterator.constructor | buffer.cpp:10-14 | a position in a string buffer held as an index |
| StringBuffers.StringIterator.Deref | buffer.cpp:63-66 | the character at the index |
| StringBuffers.StringIterator.Increment | buffer.cpp:73-77 | the index goes up by one |
| StringBuffers.StringIterator.PostIncrement | buffer.cpp:79-84 | returns the old position and the index goes up by one |
| StringBuffers.StringIterator.Decrement | buffer.cpp:86-90 | the index goes down by one |
| StringBuffers.StringIterator.PostDecrement | buffer.cpp:92-97 | returns the old position and the index goes down by one |
| StringBuffers.StringIteratorOrder | buffer.cpp:31-61 | on one string, comparisons are those of the indices, and exactly one of <, ==, > holds |
| Layout.ScrollTop | src/display.cpp:7-29 | the new top line is a line start at or above the cursor line, fewer than height line breaks (at least one row) above it; a cursor line at or above the old top becomes the top; a cursor line fewer than height breaks below leaves the top alone; up to 2·height-1 breaks below, the cursor line ends up on the last row; further, it becomes the top line |
| Layout.SkipLines | src/display.cpp:11-18 | walking up from a line start towards the top line, at most rows lines, reaches it exactly when it lies at most rows line breaks above |
| Layout.LineColumn | src/display.cpp:32-40 | the tab-expanded column of the cursor in its line, counting the characters passed |
| Layout.HorizontalScroll | src/display.cpp:41-45 | with a positive width the cursor column lies in the visible columns; the first column is kept when it already does; otherwise it moves as little as possible |
| Layout.SkipColumns | src/display.cpp:63-74 | the skip loop stops where drawing of the row begins (RowFirst: the first position whose column reaches the first visible column, or the line end) and returns that position's column |
| Layout.RowFirst | src/display.cpp:63-74 | drawing begins on the row's own line, at or before its end |
| Layout.RowColumn | src/display.cpp:63-74 | the column where drawing begins is at most the line's width |
| Layout.SkipFrom | src/display.cpp:63-74 | the skip never crosses a newline |
| Layout.Fit | main.cpp:335-338 | exactly w cells |
| Layout.FitAt | main.cpp:335-338 | cell k is the k-th character when there is one, and a blank otherwise |
| Layout.RowCells | src/display.cpp:76-103 | a row has exactly w cells |
| Layout.Rows | src/display.cpp:54-108 | the grid of m rows has m·w cells |
| Layout.AreaIsProduct | src/display.cpp:55 | the grid has width·height cells |
| Layout.GridIndex | src/display.cpp:92 | cell row·width + column lies inside the grid |
| Layout.RowShowsCharacter | src/display.cpp:85-101 | every character of the row past where drawing begins is drawn in its own columns: a tab as blanks to the next tab stop, anything else as itself, clipped at the width |
| Layout.RowGlyph | src/display.cpp:77-80 | a position the row meets is drawn inside the row, and its cell shows its glyph |
| Layout.CaretInBounds | src/display.cpp:57-80 | with a positive width the caret lies on the grid |
| Layout.CaretPast | src/display.cpp:77-80 | rows below the cursor leave the caret alone |
| Layout.CaretUnshown | src/display.cpp:57-59 | a cursor no row meets leaves the caret at row 0, column 0 |
| Layout.CaretHere | src/display.cpp:77-80 | the row that meets the cursor puts the caret at the cursor's cell |
| Layout.CaretShowsCursor | src/display.cpp:57-108 | when some row meets the cursor, the caret is on that row and the grid cell it names shows the cursor's glyph |
| Layout.FillTab | src/display.cpp:89-96 | a tab writes blanks up to the next tab stop or the row edge, and nothing else |
| Layout.TabBlanks | src/display.cpp:89-96 | a tab moves to the next tab stop, and the columns it covers are blank |
| Layout.PlainCell | src/display.cpp:97-101 | any other character takes one column and is drawn as itself |
| Layout.DrawCharacter | src/display.cpp:85-102 | after one character the row holds the expanded line up to the new width, which grew and stays within the row |
| Layout.DrawLine | src/display.cpp:76-103 | copies the expanded line from the first visible column until the width is full, the line ends or the text ends; reports which, and the caret if the cursor was met |
| Layout.DrawStep | src/display.cpp:76-103 | one round of the drawing loop keeps its invariant and makes progress |
| Layout.MoveCaret | src/display.cpp:77-80 | the caret moves to the current cell exactly when it is the cursor |
| Layout.RenderRow | src/display.cpp:60-107 | one row: its cells are RowCells, the rest of the grid is unchanged, it reports whether the text ended and where the next row starts, and moves the caret if the row meets the cursor |
| Layout.RowEnd | src/display.cpp:76-107 | the ways the row loop stops match the row's specification, including exactly which positions it met |
| Layout.RenderRows | src/display.cpp:50-108 | the grid is Rows and the caret is CaretFrom: all cells of the height rows, blank after the end of the text |
| Layout.RenderLoop | src/display.cpp:61-108 | the row loop leaves the whole grid and the caret |
| Layout.RenderNext | src/display.cpp:61-108 | one round of the row loop: either the text ended and the grid is complete, or one more row is drawn |
| Layout.RowsUnfold | src/display.cpp:82-83 | n+1 rows are the first row followed by blank rows when the text ends on it, and by the n rows from the next line otherwise |
| Display.View.constructor | src/main.cpp:17-27 | a view of the screen minus its status row, at the document's start, with nothing scrolled |
| Display.View.Reframe | src/display.cpp:5-46 | the top line is a line start at or above the cursor's line, with fewer than height breaks between them; a cursor line at or above the old top line becomes the top; within height breaks the top stays; up to 2·height−1 breaks scroll so that the cursor line is the last row; more put the cursor line on top; the first column follows HorizontalScroll on the cursor's tab-expanded column |
| Display.View.Refresh | src/display.cpp:50-116 | reframes by the same vertical and horizontal rules, returns the grid and the caret, and with a positive width and height the caret is on the cell showing the cursor's glyph |
| Display.FramedShowsCursor | src/display.cpp:50-108 | a reframed view meets the cursor in one of its rows and the caret shows its glyph |
| Display.ShownFrom | src/display.cpp:61-108 | drawing from the top line meets the cursor when its line is fewer than height lines below and its column is visible |
| Display.VisitedOnCursorLine | src/display.cpp:63-103 | the row of the cursor's line meets the cursor when its column is visible |
| Display.SkipFromReaches | src/display.cpp:63-74 | skipping to the first visible column stops at or before the cursor of a visible column |
| Display.Under | src/display.cpp:34 | `*view.cursor` is the character under the cursor when there is one; at the end of the text it is the byte past the storage, a parameter |
| Display.AsWrittenColumn | src/display.cpp:32-40 | the column the loop as written computes: 0 at the line start; otherwise 8 per character when `*view.cursor` is a tab and 1 per character otherwise, the cursor at the end of the text included |
| Display.ReframeColumnAsWritten | src/display.cpp:32-40 | the column loop as written, testing `*view.cursor` on every step (past the text when the cursor is at its end), computes AsWrittenColumn |
| Display.AsWrittenColumnDiffers | src/display.cpp:34 | on "\tx" it gives 1 where the true column is 8, and on "a\t" it gives 8 where the true column is 1 |
| Display.AsWrittenColumnWithoutTabs | src/display.cpp:32-40 | without tabs on the line up to and under the cursor (and, at the end of the text, in the byte past it), the loop as written is right |
| Display.AsWrittenColumnReadsPastEnd | src/display.cpp:34 | with the cursor at the end of "a", the column is 8 when the byte past the text is a tab and 1 otherwise; the true column is 1 |
| Display.AsWrittenColumnHidesCursor | src/display.cpp:32-45 | on "\t\tx" with the cursor on the x and a window 4 wide from column 0, the first column stays 0 while the cursor's glyph is in column 16, outside the window |
| Commands.NormalTableMatches | src/command.cpp:13-28 | the normal-table entry at a key's index is the command bound to that key by code and modifiers |
| Commands.InsertTableMatches | src/command.cpp:32-42 | the insert-table entry at a key's index is the bound command: escape, return, back, control with '['; self-insert otherwise |
| Commands.InitializeNormalMode | src/command.cpp:13-28 | every entry of the table is NormalBinding |
| Commands.InitializeInsertMode | src/command.cpp:32-42 | every entry of the table is InsertBinding |
| Commands.GetColumn | src/command.cpp:151-163 | the tab-expanded column of p from its line start |
| Commands.SetColumn | src/command.cpp:165-176 | the first position of the line whose column reaches the target, or the end of the line |
| Commands.SetColumnLands | src/command.cpp:165-176 | set_column stays on its line; it stops at the line end or where the column reaches c, and every position before it is left of c |
| Commands.SkipFromStops | src/command.cpp:168-174 | the walk stops at the line end or where the column reaches c |
| Commands.LineEndAt | src/command.cpp:168 | a newline or the end reached without crossing a newline is the end of the line |
| Commands.NextLine | src/command.cpp:183-185 | the cursor after forward_line's move is LineBelow |
| Commands.PreviousLine | src/command.cpp:193-197 | the cursor after backward_line's move is LineAbove |
| Commands.LineBelowLands | src/command.cpp:183-185 | on the last line the cursor stays; otherwise it lands on the next line, one line break down |
| Commands.LineAboveLands | src/command.cpp:193-197 | on the first line the cursor goes to 0; otherwise it lands on the previous line, one line break up |
| Commands.LineMotionRoundTrip | src/command.cpp:178-198 | down then up with the same sticky column returns to where that column lands on the original line |
| Commands.SearchFrom | src/command.cpp:124-131 | std::search: the first match at or after the position, or the end when there is none |
| Commands.Editor.constructor | src/main.cpp:17-27 | an unnamed, empty, unmodified document, normal mode, and a view at the start |
| Commands.Editor.ForwardChar | src/command.cpp:133-140 | at the end nothing changes; otherwise the cursor moves one on and the sticky column is unset; text, top line and first column are kept |
| Commands.Editor.BackwardChar | src/command.cpp:142-149 | at 0 nothing changes; otherwise the cursor moves one back and the sticky column is unset; text, top line and first column are kept |
| Commands.Editor.DesireColumn | src/command.cpp:181-182 | an unset sticky column becomes the cursor's column; a set one is kept |
| Commands.Editor.ForwardLine | src/command.cpp:178-186 | the sticky column is derived when unset, and the cursor becomes LineBelow of it |
| Commands.Editor.BackwardLine | src/command.cpp:188-198 | the sticky column is derived when unset, and the cursor becomes LineAbove of it |
| Commands.Editor.Quit | src/command.cpp:200-208 | exit exactly when the document is unmodified or the answer is yes |
| Commands.Editor.SelfInsert | src/command.cpp:210-217 | a printable key is inserted at the cursor, which moves past it, and the document is modified; any other key changes nothing at all; name, sticky column, top line and first column are kept |
| Commands.Editor.InsertNewline | src/command.cpp:219-223 | a newline is inserted at the cursor, which moves past it |
| Commands.Editor.InsertAtCursor | src/command.cpp:213-215 | the character is inserted at the cursor, which moves past it, and the top line stays usable for reframe |
| Commands.Editor.Backspace | src/command.cpp:225-232 | at 0 nothing changes at all; otherwise the character before the cursor is removed, the cursor moves back and the document is modified; name, sticky column, top line and first column are kept |
| Commands.Editor.StartInsertMode | src/command.cpp:234-239 | the insert table is selected |
| Commands.Editor.LeaveInsertMode | src/command.cpp:241-247 | the normal table is selected and the sticky column is unset |
| Commands.Editor.Search | src/command.cpp:124-131 | the cursor goes to the first match at or after it, and stays when there is none |
| Commands.Editor.SaveBuffer | src/command.cpp:73-90 | unnamed with no name given: "buffer not saved" and nothing changes; otherwise the name is kept or set, the flag is cleared exactly when both temp-file writes completed, and the status says whether the move also succeeded; the new state is Saved of the old and the status SaveStatus of it |
| Commands.Editor.Open | src/command.cpp:97-122 | an empty name, or cancel on a modified document, changes nothing; a yes on a modified document runs the save first and returns its status; a file read then replaces the document, unmodified, and resets the view; a failed read leaves the document as the save (if any) left it and the view as it was |
| Commands.Editor.Load | src/command.cpp:111-121 | a failed read changes nothing, the first column included; a successful one installs the document and puts the view at its start |
| Commands.Editor.RunMotion | src/command.cpp:124-198 | the motions and search keep the text, top line and first column, and change the state as Effect says for that command |
| Commands.Editor.RunEdit | src/command.cpp:210-232 | the edits keep the top line and first column and change the state as Effect says |
| Commands.Editor.RunFile | src/command.cpp:73-122 | save and open change the state as Effect says; only an open that loads moves the view to the start |
| Commands.Editor.RunMode | src/command.cpp:200-247 | none, quit and the mode switches: exit as Quit says, the table switch, and the state as Effect says |
| Commands.Editor.Execute | src/command.cpp:61-64 | runs the command: exit only for quit as Quit says; the mode commands switch tables; the document, cursor and sticky column change exactly as Effect says for the command (motions, edits, search, save, open; none changes nothing); top line and first column are kept except by an open that loads |
| Commands.Editor.RunKey | src/command.cpp:52-63 | runs the command the table in force binds to the key, with Execute's effects |
| Commands.Editor.Evaluate | src/command.cpp:52-67 | looks up the key's index in the table in force, runs that command with exactly the effect Effect gives, refreshes; with a positive screen the caret shows the cursor's glyph |
| Prompts.Step | src/prompt.cpp:53-75 | one key: text is inserted at the position, left and right move it inside the line, back deletes before it, return ends with the line, escape or control-'[' ends with nothing; the position stays inside the line |
| Prompts.Prompt | src/prompt.cpp:46-79 | the loop returns what Run returns on the keys, and the position stays inside the line before every key |
| Prompts.Typed | src/prompt.cpp:56-58 | the characters a key sequence types |
| Prompts.TypedThenReturn | src/prompt.cpp:56-60 | typing keys at the end of a line and then return gives the line followed by what was typed |
| Prompts.CancelDiscards | src/prompt.cpp:72-75 | a cancel key after keys that do not end the prompt returns nothing, whatever was typed |
| Prompts.BackUndoesTyping | src/prompt.cpp:56-71 | back right after a text key restores the line |
| Prompts.LeftRightInverse | src/prompt.cpp:61-66 | left and right undo each other away from the line ends and do nothing at them |
| Prompts.Answer | src/prompt.cpp:15-28 | y or Y is yes, n or N is no, escape is cancel, and any other key gives no answer |
| Prompts.FirstAnswer | src/prompt.cpp:11-29 | the first key that answers, with none before it |
| Prompts.PromptYesNo | src/prompt.cpp:8-33 | the loop returns the answer of the first key that answers |
| LegacyEditor.TextBuffer.constructor | main.cpp:112-119 | an empty, unnamed buffer with the cursor and both columns at 0 |
| LegacyEditor.TextBuffer.FindBackward | main.cpp:181-189 | the loop returns the position after the nearest c before p, or 0; for a newline that is the start of p's line |
| LegacyEditor.TextBuffer.FindForward | main.cpp:191-196 | the loop returns the first c at or after p, or the end |
| LegacyEditor.TextBuffer.Load | main.cpp:136-141 | a successful read installs the text and name, with the cursor and both columns at 0 |
| LegacyEditor.TextBuffer.MoveLeft | main.cpp:343-355 | at 0 nothing changes; otherwise the cursor moves back, the column is recomputed from the line start at a line start and decremented otherwise, the sticky column becomes the column, and column tracking is preserved; as a whole the new state is Left of the old |
| LegacyEditor.TextBuffer.MoveRight | main.cpp:382-393 | at the end nothing changes; otherwise the cursor moves on, the column is 0 past a newline and incremented otherwise, the sticky column becomes the column, and column tracking is preserved; as a whole the new state is Right of the old |
| LegacyEditor.TextBuffer.MoveDown | main.cpp:357-370 | on the last line nothing changes; otherwise the column is min(sticky column, next line's length), the cursor is the next line's start plus it, and the column tracks the cursor; as a whole the new state is Down of the old |
| LegacyEditor.TextBuffer.MoveUp | main.cpp:372-380 | on the first line nothing changes; otherwise the column is min(sticky column, previous line's length), the cursor is that line's start plus it, and the column tracks the cursor; as a whole the new state is Up of the old |
| LegacyEditor.UpLands | main.cpp:372-380 | from a line start after the first line, the previous line's start plus min(sticky column, its length) is on that line and within the text |
| LegacyEditor.UpState | main.cpp:372-380 | the fields move_up leaves make up the state Up gives |
| LegacyEditor.DownState | main.cpp:357-370 | the fields move_down leaves make up the state Down gives |
| LegacyEditor.TextBuffer.Insert | main.cpp:395-398 | c is inserted at the cursor and neither the cursor nor the columns move |
| LegacyEditor.TextBuffer.Erase | main.cpp:400-406 | at 0 nothing changes; otherwise the character before the cursor is removed and the cursor moves back; as a whole the new state is ErasedBefore of the old |
| LegacyEditor.InsertionBreaksTracking | main.cpp:7-10 | typing at the cursor leaves the column stale: after typing "a" into an empty text the column is 0 with the cursor at 1 |
| LegacyEditor.LineEndAfter | main.cpp:363-368 | move_down's walk stops after min(sticky column, line length) characters |
| LegacyEditor.View.constructor | main.cpp:262-270 | a view of the screen minus its status row, from the first line and column |
| LegacyEditor.View.Reframe | main.cpp:206-246 | the same vertical rules as the current reframe (top stays within height breaks, scrolls the cursor line to the last row up to 2·height−1 breaks, jumps to it beyond), and HorizontalScroll on the column counted over the characters passed |
| LegacyEditor.View.Refresh | main.cpp:274-341 | reframes by the same rules, then returns the text rows followed by the status row (width·(height+1) cells) and the caret, which shows the cursor's glyph on a positive screen |
| LegacyEditor.Render | main.cpp:276-338 | the text rows, then the first min(length, width) characters of the status line padded with blanks, and the caret |
| LegacyEditor.StatusRow | main.cpp:335-338 | the status row: the status line cut or padded to the width |
| LegacyEditor.NormalTableMatches | main.cpp:464-477 | the first normal table binds H, J, K, L, I and control with S and Q only |
| LegacyEditor.InsertTableMatches | main.cpp:514-523 | the first insert table binds escape, return and back only; every other key inserts |
| LegacyEditor.InitializeNormalMode | main.cpp:464-477 | every entry of the table is the legacy normal binding |
| LegacyEditor.InitializeInsertMode | main.cpp:514-523 | every entry of the table is the legacy insert binding |
| LegacyEditor.Editor.constructor | main.cpp:586-601 | after start-up and a successful load: normal mode, running, empty status, the file's text at the cursor's start |
| LegacyEditor.Editor.Move | main.cpp:414-432 | each motion command changes the text buffer exactly as Right, Left, Down or Up (move_right, move_left, move_down, move_up) say; the text is kept and column tracking is preserved |
| LegacyEditor.Editor.SelfInsert | main.cpp:490-497 | a printable key is inserted at the cursor, which moves past it; any other key changes nothing; the file name and both columns are kept either way |
| LegacyEditor.Editor.InsertNewline | main.cpp:499-503 | a newline is inserted at the cursor, which moves past it; the file name and both columns are kept |
| LegacyEditor.Editor.InsertAtCursor | main.cpp:493-494 | the character is inserted at the cursor, which moves past it, the file name and both columns are kept, and the top line stays usable for reframe |
| LegacyEditor.Editor.Backspace | main.cpp:505-508 | at 0 nothing changes; otherwise the character before the cursor is removed and the cursor moves back; the file name and both columns are kept |
| LegacyEditor.Editor.Save | main.cpp:155-179 | the bytes written are the whole text with its length cut to 32 bits, and the editor is unchanged |
| LegacyEditor.Editor.StartInsertMode | main.cpp:527-532 | the insert table and the status "--INSERT--" |
| LegacyEditor.Editor.LeaveInsertMode | main.cpp:534-539 | the normal table and an empty status; the sticky column is not touched |
| LegacyEditor.Editor.Edit | main.cpp:490-508 | the three edit commands change the text buffer as Step says |
| LegacyEditor.Editor.Control | main.cpp:408-440 | none, save, quit and the mode switches leave the text buffer alone; quit clears running; the mode switches set the table and status |
| LegacyEditor.Editor.Execute | main.cpp:408-440 | runs the command: quit clears running and nothing else does; the mode commands switch tables and set the status; the text buffer becomes Step of the command on its old state |
| LegacyEditor.Editor.HandleKey | main.cpp:541-559 | looks up the key's index in the table in force, runs that command (the text buffer becomes Step of it, the status as the mode commands set it), refreshes; with a positive screen the caret shows the cursor's glyph |

## Left out

- Console output (src/screen.cpp, the screen calls at the end of both `display_refresh`s) and console input (src/input.cpp, the event loops in both `main`s) are left out. The model returns the grid and the caret and takes each key as a `Key` value.
- `handle_window_buffer_size_event` changes width and height from a console query and then refreshes; it is not modelled.
- File I/O (src/file.cpp, `file_open` and `file_save` in main.cpp) is left out. What a read returned and how each write ended are parameters (`Replies.file`, `SaveOutcome`, `WriteOutcome`).
- The blocking `prompt` and `prompt_yesno` calls inside commands are left out. Their results arrive as parameters (`Replies.line`, `Replies.saveAs`, `Replies.answer`). The prompt itself is modelled separately in `Prompts`, driven by a key sequence.
- Status-line and cursor-style side effects of the current commands (`set_status_line`, `screen_cursor_style`, "Error loading file") are left out. `Commands.Editor.SaveBuffer` returns its status text instead of storing it.
- Move constructors and move assignments of both gap buffers are left out: they only transfer ownership of the storage.
- Key-up events are left out: `handle_key_event` ignores them, and the model only sees key presses.
- Commands.Editor.Evaluate and LegacyEditor.Editor.HandleKey require a key code below 256. The current `evaluate` asserts this. The first-generation `handle_key_event` does not check it, but virtual-key codes are always below 256.
- Commands.Editor.constructor, Display.View.constructor, LegacyEditor.View.constructor and LegacyEditor.Editor.constructor require a screen height of at least 1, so that the view height, which is the screen height minus the status row, is not negative.
- LegacyEditor.Editor.constructor models start-up only on the path where the file is read successfully. The failure paths end the program.
- LegacyEditor.View.Refresh builds the status row in its own array and returns the text rows followed by it. The source writes both into one grid of width·(height+1) cells.
- LegacyEditor.Editor.Save returns only the bytes it writes. The first-generation `save` ignores what `file_save` reports (main.cpp:258), so no outcome is modelled.
- Commands.Editor.SaveBuffer: the status is modelled as the source's branch on `file_save`'s result, with any failed step reported as an error. A write that returns true but writes fewer bytes than asked leaves `GetLastError()` at whatever an earlier call set. It may be 0, and then the source reports "Saved buffer" although the file is incomplete. The model does not track `GetLastError()`, so it does not capture that case.
- GapBuffers.GapIterator.Decrement, GapBuffers.GapIterator.PostDecrement, Iterators.IndexedIterator.Decrement, Iterators.IndexedIterator.PostDecrement, StringBuffers.StringIterator.Decrement and StringBuffers.StringIterator.PostDecrement require an index above 0. In the source, `--index` on the `size_t` index at 0 wraps to the largest value. The model leaves that wrap-around out, because every decrement of an iterator in the source comes after a check that it is not at the beginning (`backward_char`, `command_backspace`, `find_backward`).
- Characters are Dafny `char` values standing for 8-bit `char`. IsPrint reads them modulo 256, and GapBuffers.Signed reads 128..255 as negative. Values of 256 and above do not occur in the editor.
- Text edits do not reset the sticky column, in either generation. This follows the code; the TODO at main.cpp:9 says the first generation should respect it after insertion.

## Findings

| source | as written | input that shows it | evidently intended | confidence | as-written member | corrected member |
|---|---|---|---|---|---|---|
| src/display.cpp:34 | the column loop of `reframe` tests `*view.cursor`, the character under the cursor, on every step | text "\tx" with the cursor on the x: column 1 instead of 8; text "a\t" with the cursor on the tab: column 8 instead of 1; "\t\tx" with the cursor on the x and width 4 scrolls the cursor out of view | test `*cursor_line`, the character being passed, as the first generation does at main.cpp:234 | not executed | Display.AsWrittenColumnHidesCursor | Display.View.Reframe |
| src/display.cpp:34 | with the cursor at the end of the text and not at a line start, `*view.cursor` dereferences `end()`, which reads the storage one past its last element | text "a" with the cursor after the a: the column is 8 or 1 depending on the byte past the storage | never read under the cursor; read the character passed instead | not executed | Display.AsWrittenColumnReadsPastEnd | Display.View.Reframe |
