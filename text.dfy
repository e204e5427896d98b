/**
 * Pure functions over the editor's text, a sequence of 8-bit characters.
 * They are the specifications that the searching loops, the column loops
 * and the screen loops of the editor are proved against.
 */
module Text {

  const Newline: char := '\n'
  const Tab: char := '\t'
  /** Tab stops are at the multiples of this many columns. */
  const TabStop: nat := 8

  /*------------------------------------------------------------------------
   * Searching
   *------------------------------------------------------------------------*/

  /** The result of scanning s[f..l] backward for x: the position just
      after the last x in that range, or f when there is none. */
  function FindBackward(s: seq<char>, f: nat, l: nat, x: char): (r: nat)
    requires f <= l <= |s|
    ensures f <= r <= l
    ensures r != f ==> s[r - 1] == x
    ensures forall i :: r <= i < l ==> s[i] != x
    ensures (forall i :: f <= i < l ==> s[i] != x) ==> r == f
    decreases l
  {
    if l == f then f
    else if s[l - 1] == x then l
    else FindBackward(s, f, l - 1, x)
  }

  /** The result of scanning s[f..l] forward for x: the first position
      holding x, or l when there is none. */
  function Find(s: seq<char>, f: nat, l: nat, x: char): (r: nat)
    requires f <= l <= |s|
    ensures f <= r <= l
    ensures r < l ==> s[r] == x
    ensures forall i :: f <= i < r ==> s[i] != x
    decreases l - f
  {
    if f == l then l
    else if s[f] == x then f
    else Find(s, f + 1, l, x)
  }

  /*------------------------------------------------------------------------
   * Editing
   *------------------------------------------------------------------------*/

  /** s with c inserted before position i. */
  function Inserted(s: seq<char>, i: nat, c: char): (r: seq<char>)
    requires i <= |s|
    ensures |r| == |s| + 1 && r[i] == c
    ensures r[..i] == s[..i] && r[i + 1..] == s[i..]
  {
    s[..i] + [c] + s[i..]
  }

  /** s without the character at position i; at the end nothing is removed. */
  function Erased(s: seq<char>, i: nat): (r: seq<char>)
    requires i <= |s|
    ensures i < |s| ==> |r| == |s| - 1 && r[..i] == s[..i] && r[i..] == s[i + 1..]
    ensures i == |s| ==> r == s
  {
    if i < |s| then s[..i] + s[i + 1..] else s
  }

  /** Erasing what was just inserted gives the text back. */
  lemma ErasedInserted(s: seq<char>, i: nat, c: char)
    requires i <= |s|
    ensures Erased(Inserted(s, i, c), i) == s
  {
    var r := Inserted(s, i, c);
    assert r[..i] + r[i + 1..] == s[..i] + s[i..];
    assert s[..i] + s[i..] == s;
  }

  /*------------------------------------------------------------------------
   * Lines
   *------------------------------------------------------------------------*/

  /** A line starts at the beginning of the text and after each newline. */
  predicate IsLineStart(s: seq<char>, p: nat)
  {
    p <= |s| && (p == 0 || s[p - 1] == Newline)
  }

  /** The start of the line holding position p. */
  function LineStart(s: seq<char>, p: nat): (r: nat)
    requires p <= |s|
    ensures r <= p && IsLineStart(s, r)
    ensures forall i :: r <= i < p ==> s[i] != Newline
  {
    FindBackward(s, 0, p, Newline)
  }

  /** A position reached from line start p without crossing a newline lies
      on the line starting at p. */
  lemma LineStartOf(s: seq<char>, p: nat, r: nat)
    requires IsLineStart(s, p) && p <= r <= |s|
    requires forall i :: p <= i < r ==> s[i] != Newline
    ensures LineStart(s, r) == p
  {
  }

  /** Erasing the character before position c > 0 keeps a top line at or
      above c's line usable: either c - 1 lands at or above it, or it is
      still a line start. */
  lemma EraseKeepsTop(s: seq<char>, c: nat, top: nat)
    requires 0 < c <= |s| && IsLineStart(s, top) && top <= LineStart(s, c)
    ensures var t := Erased(s, c - 1); LineStart(t, c - 1) <= top || IsLineStart(t, top)
  {
    var t := Erased(s, c - 1);
    if c - 1 < top {
      assert LineStart(t, c - 1) <= top;
    } else {
      assert top == 0 || t[top - 1] == s[top - 1];
    }
  }

  /** The end of the line holding position p: its newline, or the end of the text. */
  function LineEnd(s: seq<char>, p: nat): (r: nat)
    requires p <= |s|
    ensures p <= r <= |s|
    ensures r < |s| ==> s[r] == Newline
    ensures forall i :: p <= i < r ==> s[i] != Newline
  {
    Find(s, p, |s|, Newline)
  }

  /** The number of newlines in s[a..b]. */
  function Newlines(s: seq<char>, a: nat, b: nat): (n: nat)
    requires a <= b <= |s|
    ensures n <= b - a
    decreases b - a
  {
    if a == b then 0
    else (if s[b - 1] == Newline then 1 else 0) + Newlines(s, a, b - 1)
  }

  lemma {:induction false} NewlinesAdd(s: seq<char>, a: nat, b: nat, c: nat)
    requires a <= b <= c <= |s|
    ensures Newlines(s, a, c) == Newlines(s, a, b) + Newlines(s, b, c)
    decreases c - b
  {
    if b < c {
      NewlinesAdd(s, a, b, c - 1);
    }
  }

  lemma {:induction false} NewlinesNone(s: seq<char>, a: nat, b: nat)
    requires a <= b <= |s|
    requires forall i :: a <= i < b ==> s[i] != Newline
    ensures Newlines(s, a, b) == 0
    decreases b - a
  {
    if a < b {
      NewlinesNone(s, a, b - 1);
    }
  }

  /** From a line start to the start of the next line there is exactly one newline. */
  lemma NextLineOneNewline(s: seq<char>, t: nat)
    requires t <= |s| && LineEnd(s, t) < |s|
    ensures IsLineStart(s, LineEnd(s, t) + 1)
    ensures Newlines(s, t, LineEnd(s, t) + 1) == 1
  {
    var e := LineEnd(s, t);
    NewlinesNone(s, t, e);
  }

  /** Every position after a newline lies at or after that line start. */
  lemma LineStartAtLeast(s: seq<char>, t: nat, p: nat)
    requires IsLineStart(s, t) && t <= p <= |s|
    ensures t <= LineStart(s, p)
  {
    var r := LineStart(s, p);
    if r < t {
      assert s[t - 1] == Newline;
    }
  }

  /** The line before line start b (b > 0) starts exactly one newline earlier. */
  lemma PreviousLineOneNewline(s: seq<char>, b: nat)
    requires IsLineStart(s, b) && b > 0
    ensures Newlines(s, LineStart(s, b - 1), b) == 1
  {
    var c := LineStart(s, b - 1);
    NewlinesNone(s, c, b - 1);
  }

  /*------------------------------------------------------------------------
   * Tab-expanded columns
   *------------------------------------------------------------------------*/

  /** The column after drawing ch at column col: a tab moves to the next tab stop. */
  function Advance(col: nat, ch: char): (r: nat)
    ensures col < r <= col + TabStop
    ensures ch == Tab ==> r % TabStop == 0
    ensures ch != Tab ==> r == col + 1
  {
    if ch == Tab then col + (TabStop - col % TabStop) else col + 1
  }

  /** The expanded column of position q of s when drawing starts at p in
      column 0: each character from p on advances it, a tab to the next stop. */
  function Col(s: seq<char>, p: nat, q: nat): nat
    requires p <= q <= |s|
    decreases q
  {
    if q == p then 0 else Advance(Col(s, p, q - 1), s[q - 1])
  }

  /** The screen cells that ch occupies when drawn at column col. */
  function Cells(col: nat, ch: char): (c: seq<char>)
    ensures |c| == Advance(col, ch) - col
  {
    if ch == Tab then seq(TabStop - col % TabStop, _ => ' ') else [ch]
  }

  /** The screen cells of s[p..q] drawn from column 0: tabs become blanks up
      to the next stop, every other character stands for itself. */
  function Expansion(s: seq<char>, p: nat, q: nat): (e: seq<char>)
    requires p <= q <= |s|
    ensures |e| == Col(s, p, q)
    decreases q
  {
    if q == p then [] else Expansion(s, p, q - 1) + Cells(Col(s, p, q - 1), s[q - 1])
  }

  /** Text without tabs is as wide as it is long and is drawn as itself. */
  lemma {:induction false} NoTabs(s: seq<char>, p: nat, q: nat)
    requires p <= q <= |s|
    requires forall i :: p <= i < q ==> s[i] != Tab
    ensures Col(s, p, q) == q - p && Expansion(s, p, q) == s[p..q]
    decreases q
  {
    if p < q {
      NoTabs(s, p, q - 1);
      assert s[p..q] == s[p..q - 1] + [s[q - 1]];
    }
  }

  /** Drawing further never moves the column back, and the cells drawn up to q
      are a prefix of the cells drawn up to any later r. */
  lemma {:induction false} ExpansionPrefix(s: seq<char>, p: nat, q: nat, r: nat)
    requires p <= q <= r <= |s|
    ensures Col(s, p, q) + (r - q) <= Col(s, p, r)
    ensures Expansion(s, p, r)[..Col(s, p, q)] == Expansion(s, p, q)
    decreases r
  {
    if q < r {
      ExpansionPrefix(s, p, q, r - 1);
      var a := Expansion(s, p, r - 1);
      assert (a + Cells(Col(s, p, r - 1), s[r - 1]))[..Col(s, p, q)] == a[..Col(s, p, q)];
    }
  }
}
