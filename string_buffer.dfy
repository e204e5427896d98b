/**
 * The earlier document: a file name, the text held in one string, and the
 * modified flag; with its position handle, a string and an index into it.
 */
module StringBuffers {
  import opened Text
  import Documents

  class StringBuffer {
    var name: string
    var contents: seq<char>
    var modified: bool

    /** The default buffer: no name, no text, not modified. */
    constructor Default()
      ensures name == [] && contents == [] && !modified
    {
      name, contents, modified := [], [], false;
    }

    constructor (name: string, contents: seq<char>)
      ensures this.name == name && this.contents == contents && !modified
    {
      this.name, this.contents, modified := name, contents, false;
    }

    function Data(): (s: seq<char>)
      reads this
      ensures s == contents
    {
      contents
    }

    function Filename(): (s: string)
      reads this
      ensures s == name
    {
      name
    }

    function Size(): (n: nat)
      reads this
      ensures n == |contents|
    {
      |contents|
    }

    function Modified(): (r: bool)
      reads this
      ensures r == modified
    {
      modified
    }

    /** begin(): a handle on position 0 of this buffer's string. */
    method Begin() returns (it: StringIterator)
      ensures fresh(it) && it.data == this && it.index == 0
    {
      it := new StringIterator(this, 0);
    }

    /** end(): a handle just past the last character. */
    method End() returns (it: StringIterator)
      ensures fresh(it) && it.data == this && it.index == |contents|
    {
      it := new StringIterator(this, |contents|);
    }

    /** write_file: one request for the whole text, its length cut to 32
        bits.  The buffer becomes unmodified and the result is true exactly
        when that write completed; otherwise the flag is kept. */
    method WriteFile(outcome: Documents.WriteOutcome) returns (result: bool, request: seq<char>)
      modifies this
      ensures name == old(name) && contents == old(contents)
      ensures request == Documents.Request(contents)
      ensures result <==> Documents.Completed(outcome, request)
      ensures modified == (if result then false else old(modified))
    {
      request := Documents.Request(contents);
      if outcome.succeeded && outcome.written == |request| {
        modified := false;
        return true, request;
      }
      return false, request;
    }

    /** insert(i, c): c goes in before the handle's position, and the
        buffer is modified. */
    method Insert(i: StringIterator, c: char)
      requires i.index <= |contents|
      modifies this
      ensures name == old(name) && modified
      ensures contents == Inserted(old(contents), old(i.index), c)
    {
      modified := true;
      contents := contents[..i.index] + [c] + contents[i.index..];
    }

    /** erase(i): the character at the handle's position goes, and the
        buffer is modified; at the end of the text nothing is removed. */
    method Erase(i: StringIterator)
      requires i.index <= |contents|
      modifies this
      ensures name == old(name) && modified
      ensures contents == Erased(old(contents), old(i.index))
    {
      modified := true;
      var n := if i.index < |contents| then 1 else 0;
      contents := contents[..i.index] + contents[i.index + n..];
    }
  }

  /** A position in a string buffer: the buffer whose string it points
      into, and an index. */
  class StringIterator {
    const data: StringBuffer
    var index: nat

    constructor (data: StringBuffer, index: nat)
      ensures this.data == data && this.index == index
    {
      this.data := data;
      this.index := index;
    }

    /** x == y: the indices agree (both must point into the same string). */
    predicate Equal(y: StringIterator)
      reads this, y
      requires data == y.data
    {
      index == y.index
    }

    predicate NotEqual(y: StringIterator)
      reads this, y
      requires data == y.data
    {
      !Equal(y)
    }

    /** x < y: the index of x comes first (same string). */
    predicate Less(y: StringIterator)
      reads this, y
      requires data == y.data
    {
      index < y.index
    }

    predicate Greater(y: StringIterator)
      reads this, y
      requires data == y.data
    {
      y.Less(this)
    }

    predicate LessEq(y: StringIterator)
      reads this, y
      requires data == y.data
    {
      !y.Less(this)
    }

    predicate GreaterEq(y: StringIterator)
      reads this, y
      requires data == y.data
    {
      !Less(y)
    }

    /** *it: the character of the string at the index. */
    function Deref(): (c: char)
      reads this, data
      requires index < |data.contents|
      ensures c == data.Data()[index]
    {
      data.contents[index]
    }

    method Increment()
      modifies this
      ensures index == old(index) + 1
    {
      index := index + 1;
    }

    method PostIncrement() returns (tmp: StringIterator)
      modifies this
      ensures fresh(tmp) && tmp.data == data && tmp.index == old(index)
      ensures index == old(index) + 1
    {
      tmp := new StringIterator(data, index);
      Increment();
    }

    method Decrement()
      requires index > 0
      modifies this
      ensures index == old(index) - 1
    {
      index := index - 1;
    }

    method PostDecrement() returns (tmp: StringIterator)
      requires index > 0
      modifies this
      ensures fresh(tmp) && tmp.data == data && tmp.index == old(index)
      ensures index == old(index) - 1
    {
      tmp := new StringIterator(data, index);
      Decrement();
    }
  }

  /** Handles into one string are ordered as their indices: exactly one of
      <, == and > holds, and !=, <= and >= are the matching combinations. */
  lemma StringIteratorOrder(x: StringIterator, y: StringIterator)
    requires x.data == y.data
    ensures x.Less(y) <==> x.index < y.index
    ensures x.Equal(y) <==> x.index == y.index
    ensures x.Less(y) || x.Equal(y) || x.Greater(y)
    ensures !(x.Less(y) && x.Equal(y)) && !(x.Less(y) && x.Greater(y)) && !(x.Equal(y) && x.Greater(y))
    ensures x.NotEqual(y) <==> x.Less(y) || x.Greater(y)
    ensures x.LessEq(y) <==> x.Less(y) || x.Equal(y)
    ensures x.GreaterEq(y) <==> x.Greater(y) || x.Equal(y)
  {
  }
}
