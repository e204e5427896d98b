/**
 * The gap buffer that stores a document's text: one array of characters
 * split into segment 0 (data[..gapBegin]) and segment 1 (data[gapEnd..]),
 * with an unused gap between them.  Its logical content is segment 0
 * followed by segment 1; every operation is specified against that
 * sequence.
 */
module GapBuffers {

  /*------------------------------------------------------------------------
   * Element moves: move_n, move_backward_n and std::fill_n.
   * std::copy and std::copy_backward, which reserve and the copy operations
   * call, move the same elements as move_n and move_backward_n do over the
   * same range, so they are modelled by these two loops.
   *------------------------------------------------------------------------*/

  /** Moves n elements forward from src[f0..] to dst[f1..]; when both are the
      same array the destination must not lie after the source. */
  method MoveN(src: array<char>, f0: nat, n: nat, dst: array<char>, f1: nat) returns (e0: nat, e1: nat)
    requires f0 + n <= src.Length && f1 + n <= dst.Length
    requires src == dst ==> f1 <= f0
    modifies dst
    ensures e0 == f0 + n && e1 == f1 + n
    ensures dst[..] == old(dst[..f1]) + old(src[f0..f0 + n]) + old(dst[f1 + n..])
  {
    ghost var s, d := src[..], dst[..];
    var k: nat := n;
    e0, e1 := f0, f1;
    while k != 0
      decreases k
      invariant k <= n && e0 == f0 + (n - k) && e1 == f1 + (n - k)
      invariant forall j :: 0 <= j < dst.Length ==> dst[j] == if f1 <= j < e1 then s[j - f1 + f0] else d[j]
      invariant forall j :: e0 <= j < f0 + n ==> src[j] == s[j]
    {
      dst[e1] := src[e0];
      e0, e1 := e0 + 1, e1 + 1;
      k := k - 1;
    }
    Moved(dst[..], d, s, f0, f1, n);
  }

  /** A sequence that holds s[f0..f0 + n] from f1 on and d elsewhere. */
  lemma Moved(g: seq<char>, d: seq<char>, s: seq<char>, f0: nat, f1: nat, n: nat)
    requires |g| == |d| && f1 + n <= |d| && f0 + n <= |s|
    requires forall j :: 0 <= j < |g| ==> g[j] == if f1 <= j < f1 + n then s[j - f1 + f0] else d[j]
    ensures g == d[..f1] + s[f0..f0 + n] + d[f1 + n..]
  {
  }

  /** Moves the n elements ending at src[l0] backward so that they end at
      dst[l1]; when both are the same array the destination must not lie
      before the source. */
  method MoveBackwardN(src: array<char>, l0: nat, n: nat, dst: array<char>, l1: nat) returns (b0: nat, b1: nat)
    requires n <= l0 <= src.Length && n <= l1 <= dst.Length
    requires src == dst ==> l0 <= l1
    modifies dst
    ensures b0 == l0 - n && b1 == l1 - n
    ensures dst[..] == old(dst[..l1 - n]) + old(src[l0 - n..l0]) + old(dst[l1..])
  {
    ghost var s, d := src[..], dst[..];
    var k: nat := n;
    b0, b1 := l0, l1;
    while k != 0
      decreases k
      invariant k <= n && b0 == l0 - (n - k) && b1 == l1 - (n - k)
      invariant forall j :: 0 <= j < dst.Length ==> dst[j] == if b1 <= j < l1 then s[j - l1 + l0] else d[j]
      invariant forall j :: l0 - n <= j < b0 ==> src[j] == s[j]
    {
      b1, b0 := b1 - 1, b0 - 1;
      dst[b1] := src[b0];
      k := k - 1;
    }
    MovedBack(dst[..], d, s, l0, l1, n);
  }

  /** A sequence that holds s[l0 - n..l0] just before l1 and d elsewhere. */
  lemma MovedBack(g: seq<char>, d: seq<char>, s: seq<char>, l0: nat, l1: nat, n: nat)
    requires |g| == |d| && n <= l1 <= |d| && n <= l0 <= |s|
    requires forall j :: 0 <= j < |g| ==> g[j] == if l1 - n <= j < l1 then s[j - l1 + l0] else d[j]
    ensures g == d[..l1 - n] + s[l0 - n..l0] + d[l1..]
  {
  }

  /** std::fill_n: writes n copies of c from a[f] on and returns the end of the run. */
  method FillN(a: array<char>, f: nat, n: nat, c: char) returns (e: nat)
    requires f + n <= a.Length
    modifies a
    ensures e == f + n
    ensures a[..] == old(a[..f]) + seq(n, _ => c) + old(a[f + n..])
  {
    ghost var d := a[..];
    e := f;
    while e != f + n
      invariant f <= e <= f + n
      invariant forall j :: 0 <= j < a.Length ==> a[j] == if f <= j < e then c else d[j]
    {
      a[e] := c;
      e := e + 1;
    }
    assert a[..] == d[..f] + seq(n, _ => c) + d[f + n..];
  }

  /*------------------------------------------------------------------------
   * Character and content order
   *------------------------------------------------------------------------*/

  /** `char` is signed on the platform the editor targets, so bytes 128..255
      order below the ASCII characters. */
  function Signed(c: char): (v: int)
    ensures (c as int < 128 || c as int >= 256) ==> v == c as int
    ensures 128 <= c as int < 256 ==> v == c as int - 256
  {
    if 128 <= c as int < 256 then c as int - 256 else c as int
  }

  predicate CharLess(a: char, b: char)
  {
    Signed(a) < Signed(b)
  }

  /** Distinct characters are ordered one way or the other. */
  lemma CharLessTotal(a: char, b: char)
    ensures CharLess(a, b) || a == b || CharLess(b, a)
  {
  }

  /** Lexicographic order on character sequences (std::lexicographical_compare). */
  function LexLess(x: seq<char>, y: seq<char>): bool
    decreases |x|
  {
    if |x| == 0 then |y| > 0
    else if |y| == 0 then false
    else if CharLess(x[0], y[0]) then true
    else if CharLess(y[0], x[0]) then false
    else LexLess(x[1..], y[1..])
  }

  lemma {:induction false} LexLessIrreflexive(x: seq<char>)
    ensures !LexLess(x, x)
    decreases |x|
  {
    if |x| > 0 {
      LexLessIrreflexive(x[1..]);
    }
  }

  /** Exactly one of x < y, x == y and y < x holds. */
  lemma {:induction false} LexLessTrichotomy(x: seq<char>, y: seq<char>)
    ensures LexLess(x, y) || x == y || LexLess(y, x)
    ensures !(LexLess(x, y) && LexLess(y, x))
    ensures LexLess(x, y) ==> x != y
    decreases |x|
  {
    if |x| > 0 && |y| > 0 {
      CharLessTotal(x[0], y[0]);
      LexLessTrichotomy(x[1..], y[1..]);
      if x[0] == y[0] && x[1..] == y[1..] {
        assert x == [x[0]] + x[1..] && y == [y[0]] + y[1..];
      }
    }
    if LexLess(x, y) {
      LexLessIrreflexive(x);
    }
  }

  lemma {:induction false} LexLessTransitive(x: seq<char>, y: seq<char>, z: seq<char>)
    requires LexLess(x, y) && LexLess(y, z)
    ensures LexLess(x, z)
    decreases |x|
  {
    if |x| > 0 && !CharLess(x[0], y[0]) && !CharLess(y[0], z[0]) {
      CharLessTotal(x[0], y[0]);
      CharLessTotal(y[0], z[0]);
      LexLessTransitive(x[1..], y[1..], z[1..]);
    }
  }

  /** After a common prefix of length k, the order is decided by what follows. */
  lemma {:induction false} LexLessAfterPrefix(x: seq<char>, y: seq<char>, k: nat)
    requires k <= |x| && k <= |y|
    requires forall j :: 0 <= j < k ==> x[j] == y[j]
    ensures LexLess(x, y) == LexLess(x[k..], y[k..])
    decreases k
  {
    if k > 0 {
      assert x[0] == y[0];
      LexLessAfterPrefix(x[1..], y[1..], k - 1);
      assert x[1..][k - 1..] == x[k..] && y[1..][k - 1..] == y[k..];
    }
  }

  /** After a common prefix of length k, equal-length sequences are equal
      exactly when what follows is equal. */
  lemma SameAfterPrefix(x: seq<char>, y: seq<char>, k: nat)
    requires k <= |x| == |y|
    requires forall j :: 0 <= j < k ==> x[j] == y[j]
    ensures x == y <==> x[k..] == y[k..]
  {
    if x[k..] == y[k..] {
      assert x == x[..k] + x[k..] && y == y[..k] + y[k..];
      assert x[..k] == y[..k];
    }
  }

  /** The content after a backward gap move of n - i characters: segment 0
      ends at i and the moved characters head segment 1. */
  lemma SpliceBackward(d: seq<char>, e: seq<char>, b: nat, n: nat, g: nat, f: nat)
    requires b <= n <= g <= |d| && f == g - (n - b)
    requires e == d[..f] + d[b..n] + d[g..]
    ensures e[..b] + e[f..] == d[..n] + d[g..]
  {
    assert e[..b] == d[..b];
    assert e[f..] == d[b..n] + d[g..];
    assert d[..n] == d[..b] + d[b..n];
  }

  /** The content after a forward gap move of b - n characters: the moved
      characters end segment 0 and segment 1 starts after them. */
  lemma SpliceForward(d: seq<char>, e: seq<char>, b: nat, n: nat, g: nat, f: nat)
    requires n <= b && n <= g && f == g + (b - n) <= |d|
    requires e == d[..n] + d[g..f] + d[b..]
    ensures e[..b] + e[f..] == d[..n] + d[g..]
  {
    assert e[..b] == d[..n] + d[g..f];
    assert e[f..] == d[f..];
    assert d[g..] == d[g..f] + d[f..];
  }

  /** Copies segment 0 of src, src[..b], to the front of dst and its
      segment 1, src[g..], to the end of dst; src may be dst itself.  Returns the
      new gap of dst. */
  method CopySegments(src: array<char>, b: nat, g: nat, dst: array<char>) returns (b': nat, g': nat)
    requires b <= g <= src.Length && b + (src.Length - g) <= dst.Length
    requires src == dst ==> src.Length == dst.Length
    modifies dst
    ensures b' == b && g' == dst.Length - (src.Length - g)
    ensures dst[..b'] + dst[g'..] == old(src[..b]) + old(src[g..])
  {
    b' := CopyFront(src, b, g, dst);
    g' := CopyBack(src, g, dst, b);
  }

  /** The first half of CopySegments: src[..b] is copied to the front of dst,
      and src[g..] is still as it was. */
  method CopyFront(src: array<char>, b: nat, g: nat, dst: array<char>) returns (b': nat)
    requires b <= g <= src.Length && b <= dst.Length
    requires src == dst ==> src.Length == dst.Length
    modifies dst
    ensures b' == b && dst[..b] == old(src[..b]) && src[g..] == old(src[g..])
  {
    ghost var s0, d0 := src[..], dst[..];
    var _, gb := MoveN(src, 0, b, dst, 0);
    FrontCopied(d0, s0, dst[..], b, if src == dst then g else b);
    b' := gb;
  }

  /** The second half of CopySegments: src[g..] is copied to the end of dst,
      whose first b characters are left as they were. */
  method CopyBack(src: array<char>, g: nat, dst: array<char>, b: nat) returns (g': nat)
    requires g <= src.Length && b + (src.Length - g) <= dst.Length
    modifies dst
    ensures g' == dst.Length - (src.Length - g) && dst[g'..] == old(src[g..]) && dst[..b] == old(dst[..b])
  {
    ghost var s0, d0 := src[..], dst[..];
    var _, ge := MoveBackwardN(src, src.Length, src.Length - g, dst, dst.Length);
    BackCopied(d0, s0, dst[..], b, g);
    g' := ge;
  }

  /** Copying xd[..b] to the front of d0 leaves it in front and the rest of d0
      after it. */
  lemma FrontCopied(d0: seq<char>, xd: seq<char>, d1: seq<char>, b: nat, g: nat)
    requires b <= |xd| && b <= g <= |d0|
    requires d1 == d0[..0] + xd[0..b] + d0[b..]
    ensures d1[..b] == xd[..b] && d1[g..] == d0[g..]
  {
    assert d1[..b] == xd[0..b];
  }

  /** Copying xd[g..] to the end of d0 leaves it at the end and the first b
      characters of d0 in front. */
  lemma BackCopied(d0: seq<char>, xd: seq<char>, d1: seq<char>, b: nat, g: nat)
    requires g <= |xd| && b + (|xd| - g) <= |d0|
    requires d1 == d0[..|d0| - (|xd| - g)] + xd[|xd| - (|xd| - g)..|xd|] + d0[|d0|..]
    ensures d1[|d0| - (|xd| - g)..] == xd[g..] && d1[..b] == d0[..b]
  {
    assert d1[..b] == d0[..b];
  }

  /*------------------------------------------------------------------------
   * The buffer
   *------------------------------------------------------------------------*/

  class GapBuffer {
    var data: array<char>
    var gapBegin: nat
    var gapEnd: nat
    /** The logical content: segment 0 followed by segment 1. */
    ghost var Contents: seq<char>

    ghost predicate Valid()
      reads this, data
    {
      gapBegin <= gapEnd <= data.Length &&
      Contents == data[..gapBegin] + data[gapEnd..]
    }

    /** The default buffer owns no storage. */
    constructor Empty()
      ensures Valid() && fresh(data)
      ensures Contents == [] && data.Length == 0
    {
      data := new char[0];
      gapBegin, gapEnd := 0, 0;
      Contents := [];
    }

    /** n copies of c, with the empty gap at the end. */
    constructor Fill(n: nat, c: char)
      ensures Valid() && fresh(data)
      ensures Contents == seq(n, _ => c)
      ensures data.Length == n && gapBegin == gapEnd == n
    {
      var d := new char[n];
      var e := FillN(d, 0, n, c);
      data := d;
      gapBegin, gapEnd := e, e;
      assert d[..] == seq(n, _ => c);
      Contents := seq(n, _ => c);
    }

    /** The copy holds x's content in storage of exactly that size, with the
        empty gap just after x's segment 0. */
    constructor Copy(x: GapBuffer)
      requires x.Valid()
      ensures Valid() && fresh(data)
      ensures Contents == x.Contents
      ensures data.Length == |Contents| && gapBegin == gapEnd == x.gapBegin
    {
      var d := new char[x.Size()];
      var _, gb := MoveN(x.data, 0, x.gapBegin, d, 0);
      var _, de := MoveN(x.data, x.gapEnd, x.data.Length - x.gapEnd, d, gb);
      assert de == d.Length;
      data := d;
      gapBegin, gapEnd := gb, gb;
      Contents := x.Contents;
      assert d[..gb] == x.data[..x.gapBegin];
      assert d[gb..] == x.data[x.gapEnd..];
    }

    /** Copy assignment: copies into the existing storage when it is large
        enough, and otherwise takes a fresh copy of x.  Assigning a buffer to
        itself leaves it as it is. */
    method Assign(x: GapBuffer)
      requires Valid() && x.Valid()
      requires x == this || x.data != data
      modifies this, data
      ensures Valid() && Contents == old(x.Contents)
      ensures old(data.Length) >= old(|x.Contents|) ==> data == old(data)
      ensures old(data.Length) < old(|x.Contents|) ==> fresh(data) && data.Length == |Contents|
    {
      if data.Length < x.Size() {
        var tmp := new GapBuffer.Copy(x);
        data, gapBegin, gapEnd := tmp.data, tmp.gapBegin, tmp.gapEnd;
        Contents := tmp.Contents;
      } else {
        AssignInPlace(x);
      }
    }

    /** The branch of copy assignment that reuses the storage. */
    method AssignInPlace(x: GapBuffer)
      requires Valid() && x.Valid() && |x.Contents| <= data.Length
      requires x == this || x.data != data
      modifies this, data
      ensures Valid() && Contents == old(x.Contents) && data == old(data)
    {
      ghost var xc := x.Contents;
      var gb, ge := CopySegments(x.data, x.gapBegin, x.gapEnd, data);
      gapBegin, gapEnd := gb, ge;
      Contents := xc;
    }

    /** The size of the storage: the content plus the gap. */
    function Capacity(): (r: nat)
      reads this, data
      requires Valid()
      ensures r == |Contents| + (gapEnd - gapBegin)
    {
      data.Length
    }

    /** The length of the logical content. */
    function Size(): (r: nat)
      reads this, data
      requires Valid()
      ensures r == |Contents|
      ensures r == data.Length - (gapEnd - gapBegin)
    {
      gapBegin + (data.Length - gapEnd)
    }

    /** Logical element i: positions from the gap on are shifted past it. */
    function Get(i: nat): (c: char)
      reads this, data
      requires Valid() && i < |Contents|
      ensures c == Contents[i]
    {
      if i >= gapBegin then data[i + (gapEnd - gapBegin)] else data[i]
    }

    /** Where logical element p sits in the storage. */
    lemma At(p: nat)
      requires Valid() && p < |Contents|
      ensures Contents[p] == if p < gapBegin then data[p] else data[p + (gapEnd - gapBegin)]
    {
    }

    /** The logical content from p on, for p at or after the gap, is the
        storage from p plus the gap length on. */
    lemma SuffixAt(p: nat)
      requires Valid() && gapBegin <= p <= |Contents|
      ensures data[p + (gapEnd - gapBegin)..] == Contents[p..]
    {
      assert Contents[p..] == data[gapEnd..][p - gapBegin..];
    }

    /** Writing through operator[]: logical element i becomes c. */
    method Set(i: nat, c: char)
      requires Valid() && i < |Contents|
      modifies this, data
      ensures Valid() && data == old(data)
      ensures gapBegin == old(gapBegin) && gapEnd == old(gapEnd)
      ensures Contents == old(Contents)[i := c]
    {
      var p := if i >= gapBegin then i + (gapEnd - gapBegin) else i;
      data[p] := c;
      Contents := Contents[i := c];
      assert data[..gapBegin] + data[gapEnd..] == Contents;
    }

    /** begin0()..end0(): the characters before the gap. */
    function Segment0(): (s: seq<char>)
      reads this, data
      requires Valid()
      ensures s == Contents[..gapBegin]
    {
      data[..gapBegin]
    }

    /** begin1()..end1(): the characters after the gap. */
    function Segment1(): (s: seq<char>)
      reads this, data
      requires Valid()
      ensures s == Contents[gapBegin..]
      ensures Segment0() + s == Contents
    {
      data[gapEnd..]
    }

    /** The characters met walking from begin() to end(): segment 0, then segment 1. */
    function Elements(): (s: seq<char>)
      reads this, data
      requires Valid()
      ensures s == Contents
    {
      Segment0() + Segment1()
    }

    /** An iterator at logical position 0. */
    method Begin() returns (it: GapIterator)
      requires Valid()
      ensures fresh(it) && it.buffer == this && it.index == 0
    {
      it := new GapIterator(this, 0);
    }

    /** An iterator one past the last logical position. */
    method End() returns (it: GapIterator)
      requires Valid()
      ensures fresh(it) && it.buffer == this && it.index == |Contents|
    {
      it := new GapIterator(this, Size());
    }

    /** Grows the storage to exactly n when it is smaller, keeping segment 0
        at the front and moving segment 1 flush to the end. */
    method Reserve(n: nat)
      requires Valid()
      modifies this
      ensures Valid() && Contents == old(Contents)
      ensures n <= old(data.Length) ==> data == old(data) && gapBegin == old(gapBegin) && gapEnd == old(gapEnd)
      ensures n > old(data.Length) ==>
        fresh(data) && data.Length == n && gapBegin == old(gapBegin) &&
        data.Length - gapEnd == old(data.Length - gapEnd)
    {
      if n <= data.Length {
        return;
      }
      var nd := new char[n];
      var ngb, nge := CopySegments(data, gapBegin, gapEnd, nd);
      data, gapBegin, gapEnd := nd, ngb, nge;
    }

    /** Moves the gap so that it starts at logical position i. */
    method GapMove(i: nat)
      requires Valid() && i <= |Contents|
      modifies this, data
      ensures Valid() && Contents == old(Contents)
      ensures data == old(data) && gapBegin == i
      ensures gapEnd - gapBegin == old(gapEnd - gapBegin)
    {
      if i < gapBegin {
        GapBackward(i);
      } else {
        GapForward(i);
      }
    }

    /** GapMove to a position before the gap: the characters between it and
        the gap move to the end of the gap. */
    method GapBackward(i: nat)
      requires Valid() && i < gapBegin
      modifies this, data
      ensures Valid() && Contents == old(Contents)
      ensures data == old(data) && gapBegin == i
      ensures gapEnd - gapBegin == old(gapEnd - gapBegin)
    {
      ghost var d := data[..];
      var n, g := gapBegin, gapEnd;
      var b: nat, f: nat := MoveBackwardN(data, n, n - i, data, g);
      SpliceBackward(d, data[..], b, n, g, f);
      gapBegin, gapEnd := b, f;
    }

    /** GapMove to a position at or after the gap: the characters after the
        gap up to it move to the start of the gap. */
    method GapForward(i: nat)
      requires Valid() && gapBegin <= i <= |Contents|
      modifies this, data
      ensures Valid() && Contents == old(Contents)
      ensures data == old(data) && gapBegin == i
      ensures gapEnd - gapBegin == old(gapEnd - gapBegin)
    {
      ghost var d := data[..];
      var n, g := gapBegin, gapEnd;
      var f: nat, b: nat := MoveN(data, g, i - n, data, n);
      SpliceForward(d, data[..], b, n, g, f);
      gapBegin, gapEnd := b, f;
    }

    /** Inserts n copies of c at logical position i, growing the storage to
        exactly the new size only when the gap is too small. */
    method Insert(i: nat, n: nat, c: char)
      requires Valid() && i <= |Contents|
      modifies this, data
      ensures Valid()
      ensures Contents == old(Contents[..i]) + seq(n, _ => c) + old(Contents[i..])
      ensures old(gapEnd - gapBegin) < n ==> fresh(data) && data.Length == old(|Contents|) + n
      ensures old(gapEnd - gapBegin) >= n ==> data == old(data)
      ensures gapBegin == i + n
    {
      if gapEnd - gapBegin < n {
        Reserve(Size() + n);
      }
      GapMove(i);
      ghost var before := Contents;
      ghost var d := data[..];
      gapBegin := FillN(data, gapBegin, n, c);
      Contents := before[..i] + seq(n, _ => c) + before[i..];
      assert data[..gapBegin] == d[..i] + seq(n, _ => c);
      assert data[gapEnd..] == d[gapEnd..];
    }

    /** Removes the n characters from logical position i; the storage is kept. */
    method Erase(i: nat, n: nat)
      requires Valid() && i + n <= |Contents|
      modifies this, data
      ensures Valid()
      ensures Contents == old(Contents[..i]) + old(Contents[i + n..])
      ensures data == old(data)
      ensures gapBegin == i
    {
      GapMove(i);
      ghost var before := Contents;
      gapEnd := gapEnd + n;
      Contents := before[..i] + before[i + n..];
      assert data[old(gapEnd) + (gapEnd - old(gapEnd))..] == data[gapEnd..];
    }

    /** Removes the characters between logical positions f and l. */
    method EraseRange(f: nat, l: nat)
      requires Valid() && f <= l <= |Contents|
      modifies this, data
      ensures Valid()
      ensures Contents == old(Contents[..f]) + old(Contents[l..])
      ensures data == old(data)
      ensures gapBegin == f
    {
      GapMove(f);
      ghost var before := Contents;
      gapEnd := gapEnd + (l - f);
      Contents := before[..f] + before[l..];
    }
  }

  /** A position in a gap buffer, held as a logical index so that it stays
      put when the gap moves. */
  class GapIterator {
    const buffer: GapBuffer
    var index: nat

    constructor (buffer: GapBuffer, index: nat)
      ensures this.buffer == buffer && this.index == index
    {
      this.buffer := buffer;
      this.index := index;
    }

    predicate Equal(y: GapIterator)
      reads this, y
    {
      index == y.index
    }

    predicate NotEqual(y: GapIterator)
      reads this, y
    {
      !Equal(y)
    }

    predicate Less(y: GapIterator)
      reads this, y
    {
      index < y.index
    }

    predicate Greater(y: GapIterator)
      reads this, y
    {
      y.Less(this)
    }

    predicate LessEq(y: GapIterator)
      reads this, y
    {
      !y.Less(this)
    }

    predicate GreaterEq(y: GapIterator)
      reads this, y
    {
      !Less(y)
    }

    /** *it: the buffer's logical element at the index. */
    function Deref(): (c: char)
      reads this, buffer, buffer.data
      requires buffer.Valid() && index < |buffer.Contents|
      ensures c == buffer.Contents[index]
    {
      buffer.Get(index)
    }

    /** Prefix ++: one position on. */
    method Increment()
      modifies this
      ensures index == old(index) + 1
    {
      index := index + 1;
    }

    /** Postfix ++: returns the old position and advances this one. */
    method PostIncrement() returns (tmp: GapIterator)
      modifies this
      ensures fresh(tmp) && tmp.buffer == buffer && tmp.index == old(index)
      ensures index == old(index) + 1
    {
      tmp := new GapIterator(buffer, index);
      Increment();
    }

    /** Prefix --: one position back. */
    method Decrement()
      requires index > 0
      modifies this
      ensures index == old(index) - 1
    {
      index := index - 1;
    }

    /** Postfix --: returns the old position and moves this one back. */
    method PostDecrement() returns (tmp: GapIterator)
      requires index > 0
      modifies this
      ensures fresh(tmp) && tmp.buffer == buffer && tmp.index == old(index)
      ensures index == old(index) - 1
    {
      tmp := new GapIterator(buffer, index);
      Decrement();
    }

    /** it + n: the position n further on (n may be negative). */
    method Plus(n: int) returns (r: GapIterator)
      requires index + n >= 0
      ensures fresh(r) && r.buffer == buffer && r.index == index + n
    {
      r := new GapIterator(buffer, index + n);
    }

    /** it - n: the position n further back (n may be negative). */
    method Minus(n: int) returns (r: GapIterator)
      requires index - n >= 0
      ensures fresh(r) && r.buffer == buffer && r.index == index - n
    {
      r := new GapIterator(buffer, index - n);
    }

    /** it - y: the signed distance from y to this position. */
    function Difference(y: GapIterator): (d: int)
      reads this, y
      ensures y.index + d == index
    {
      index - y.index
    }
  }

  /** Iterators are ordered as the positions they denote: exactly one of <, ==
      and > holds, and <=, >= and != are the matching combinations. */
  lemma IteratorOrder(x: GapIterator, y: GapIterator)
    ensures x.Less(y) || x.Equal(y) || x.Greater(y)
    ensures !(x.Less(y) && x.Equal(y)) && !(x.Less(y) && x.Greater(y)) && !(x.Equal(y) && x.Greater(y))
    ensures x.LessEq(y) <==> x.Less(y) || x.Equal(y)
    ensures x.GreaterEq(y) <==> x.Greater(y) || x.Equal(y)
    ensures x.NotEqual(y) <==> x.Less(y) || x.Greater(y)
  {
  }

  /** A new buffer holding "a".."p": sixteen blanks inserted at the end of an
      empty buffer, then overwritten one by one. */
  method Lettered() returns (x: GapBuffer)
    ensures fresh(x) && fresh(x.data) && x.Valid()
    ensures x.Contents == "abcdefghijklmnop"
  {
    x := new GapBuffer.Empty();
    var e := x.End();
    x.Insert(e.index, 16, ' ');
    for k := 0 to 16
      invariant x.Valid() && fresh(x) && fresh(x.data) && |x.Contents| == 16
      invariant forall i :: 0 <= i < k ==> x.Contents[i] == ('a' as int + i) as char
    {
      x.Set(k, ('a' as int + k) as char);
    }
  }

  /** From a buffer holding "a".."p" (Lettered), eight characters erased
      from the position reached by advancing an iterator eight times from
      the beginning: "abcdefgh" remains and begin() + 8 is end(). */
  method EraseAtGapScenario() returns (s: seq<char>, atEnd: bool, back: int)
    ensures s == "abcdefgh"
    ensures atEnd
    ensures back == 6
  {
    var x := Lettered();
    var iter := x.Begin();
    for k := 0 to 8
      invariant iter.index == k && iter.buffer == x && fresh(iter)
      invariant x.Valid() && fresh(x.data) && x.Contents == "abcdefghijklmnop"
    {
      iter.Increment();
    }
    x.Erase(iter.index, 8);
    s := x.Segment0() + x.Segment1();
    var b := x.Begin();
    var b8 := b.Plus(8);
    var en := x.End();
    atEnd := b8.Equal(en);
    var b1 := b.Plus(1);
    var e1 := en.Minus(1);
    back := e1.Difference(b1);
  }

  /*------------------------------------------------------------------------
   * Content comparisons.  Both walk the two buffers in step, switching each
   * side from segment 0 to segment 1 when it reaches its gap.
   *------------------------------------------------------------------------*/

  /** x == y: equal sizes and equal contents, wherever the gaps are. */
  method Equal(x: GapBuffer, y: GapBuffer) returns (r: bool)
    requires x.Valid() && y.Valid()
    ensures r <==> x.Contents == y.Contents
  {
    if x.Size() != y.Size() {
      return false;
    }
    var fx, fy := 0, 0;
    while true
      invariant fx == fy <= x.gapBegin && fy <= y.gapBegin
      invariant forall j :: 0 <= j < fx ==> x.Contents[j] == y.Contents[j]
      decreases x.gapBegin - fx
    {
      if fx == x.gapBegin {
        r := EqualAfterFirstGap(x, y, fy);
        return;
      }
      if fy == y.gapBegin {
        r := EqualAfterFirstGap(y, x, fx);
        return;
      }
      x.At(fx);
      y.At(fy);
      if x.data[fx] != y.data[fy] {
        return false;
      }
      fx, fy := fx + 1, fy + 1;
    }
  }

  /** The rest of x == y once x has reached its gap at logical position p
      while y has not: x continues in segment 1 until y reaches its gap, and
      the two segments 1 are compared after that.  The case where y reaches
      its gap first is the same walk with the roles exchanged. */
  method EqualAfterFirstGap(x: GapBuffer, y: GapBuffer, p: nat) returns (r: bool)
    requires x.Valid() && y.Valid() && |x.Contents| == |y.Contents|
    requires p == x.gapBegin <= y.gapBegin
    requires forall j :: 0 <= j < p ==> x.Contents[j] == y.Contents[j]
    ensures r <==> x.Contents == y.Contents
  {
    var fx, fy := x.gapEnd, p;
    while fy != y.gapBegin
      invariant x.gapBegin <= fy <= y.gapBegin
      invariant fx == x.gapEnd + (fy - x.gapBegin)
      invariant forall j :: 0 <= j < fy ==> x.Contents[j] == y.Contents[j]
      decreases y.gapBegin - fy
    {
      x.At(fy);
      y.At(fy);
      if x.data[fx] != y.data[fy] {
        return false;
      }
      fx, fy := fx + 1, fy + 1;
    }
    x.SuffixAt(fy);
    y.SuffixAt(fy);
    SameAfterPrefix(x.Contents, y.Contents, fy);
    return x.data[fx..] == y.data[y.gapEnd..y.gapEnd + (x.data.Length - fx)];
  }

  /** x < y: the contents compare lexicographically, wherever the gaps are. */
  method Less(x: GapBuffer, y: GapBuffer) returns (r: bool)
    requires x.Valid() && y.Valid()
    ensures r <==> LexLess(x.Contents, y.Contents)
  {
    var fx, fy := 0, 0;
    while true
      invariant fx == fy <= x.gapBegin && fy <= y.gapBegin
      invariant forall j :: 0 <= j < fx ==> x.Contents[j] == y.Contents[j]
      decreases x.gapBegin - fx
    {
      if fx == x.gapBegin {
        r := LessAfterFirstGapOfX(x, y, fy);
        return;
      }
      if fy == y.gapBegin {
        r := LessAfterFirstGapOfY(x, y, fx);
        return;
      }
      LexLessAfterPrefix(x.Contents, y.Contents, fx);
      x.At(fx);
      y.At(fy);
      if CharLess(x.data[fx], y.data[fy]) {
        return true;
      }
      if CharLess(y.data[fy], x.data[fx]) {
        return false;
      }
      CharLessTotal(x.data[fx], y.data[fy]);
      fx, fy := fx + 1, fy + 1;
    }
  }

  /** The rest of x < y once x has reached its gap at logical position p
      while y has not; x running out first makes it the lesser. */
  method LessAfterFirstGapOfX(x: GapBuffer, y: GapBuffer, p: nat) returns (r: bool)
    requires x.Valid() && y.Valid()
    requires p == x.gapBegin <= y.gapBegin
    requires forall j :: 0 <= j < p ==> x.Contents[j] == y.Contents[j]
    ensures r <==> LexLess(x.Contents, y.Contents)
  {
    var fx, fy := x.gapEnd, p;
    while fy != y.gapBegin
      invariant x.gapBegin <= fy <= y.gapBegin
      invariant fx == x.gapEnd + (fy - x.gapBegin) <= x.data.Length
      invariant forall j :: 0 <= j < fy ==> x.Contents[j] == y.Contents[j]
      decreases y.gapBegin - fy
    {
      LexLessAfterPrefix(x.Contents, y.Contents, fy);
      if fx == x.data.Length {
        return true;
      }
      x.At(fy);
      y.At(fy);
      if CharLess(x.data[fx], y.data[fy]) {
        return true;
      }
      if CharLess(y.data[fy], x.data[fx]) {
        return false;
      }
      CharLessTotal(x.data[fx], y.data[fy]);
      fx, fy := fx + 1, fy + 1;
    }
    LexLessAfterPrefix(x.Contents, y.Contents, fy);
    x.SuffixAt(fy);
    y.SuffixAt(fy);
    return LexLess(x.data[fx..], y.data[y.gapEnd..]);
  }

  /** The rest of x < y once y has reached its gap at logical position p
      while x has not; y running out first makes x not the lesser. */
  method LessAfterFirstGapOfY(x: GapBuffer, y: GapBuffer, p: nat) returns (r: bool)
    requires x.Valid() && y.Valid()
    requires p == y.gapBegin < x.gapBegin
    requires forall j :: 0 <= j < p ==> x.Contents[j] == y.Contents[j]
    ensures r <==> LexLess(x.Contents, y.Contents)
  {
    var fx, fy := p, y.gapEnd;
    while true
      invariant y.gapBegin <= fx < x.gapBegin
      invariant fy == y.gapEnd + (fx - y.gapBegin) <= y.data.Length
      invariant forall j :: 0 <= j < fx ==> x.Contents[j] == y.Contents[j]
      decreases x.gapBegin - fx
    {
      LexLessAfterPrefix(x.Contents, y.Contents, fx);
      if fy == y.data.Length {
        return false;
      }
      x.At(fx);
      y.At(fx);
      if CharLess(x.data[fx], y.data[fy]) {
        return true;
      }
      if CharLess(y.data[fy], x.data[fx]) {
        return false;
      }
      CharLessTotal(x.data[fx], y.data[fy]);
      fx, fy := fx + 1, fy + 1;
      if fx == x.gapBegin {
        break;
      }
    }
    LexLessAfterPrefix(x.Contents, y.Contents, fx);
    x.SuffixAt(x.gapBegin);
    y.SuffixAt(fx);
    return LexLess(x.data[x.gapEnd..], y.data[fy..]);
  }

  method NotEqual(x: GapBuffer, y: GapBuffer) returns (r: bool)
    requires x.Valid() && y.Valid()
    ensures r <==> x.Contents != y.Contents
  {
    r := Equal(x, y);
    r := !r;
  }

  method Greater(x: GapBuffer, y: GapBuffer) returns (r: bool)
    requires x.Valid() && y.Valid()
    ensures r <==> LexLess(y.Contents, x.Contents)
    ensures r ==> x.Contents != y.Contents
  {
    r := Less(y, x);
    LexLessTrichotomy(y.Contents, x.Contents);
  }

  method LessEq(x: GapBuffer, y: GapBuffer) returns (r: bool)
    requires x.Valid() && y.Valid()
    ensures r <==> LexLess(x.Contents, y.Contents) || x.Contents == y.Contents
  {
    var g := Less(y, x);
    r := !g;
    LexLessTrichotomy(x.Contents, y.Contents);
  }

  method GreaterEq(x: GapBuffer, y: GapBuffer) returns (r: bool)
    requires x.Valid() && y.Valid()
    ensures r <==> LexLess(y.Contents, x.Contents) || x.Contents == y.Contents
  {
    var l := Less(x, y);
    r := !l;
    LexLessTrichotomy(x.Contents, y.Contents);
  }
}
