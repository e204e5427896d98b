/**
 * The stable position handle of a gap buffer: a buffer and a logical index.
 * Two handles may only be compared when they denote the same buffer.
 */
module Iterators {
  import opened GapBuffers

  class IndexedIterator {
    const data: GapBuffer
    var index: nat

    constructor (data: GapBuffer, index: nat)
      ensures this.data == data && this.index == index
    {
      this.data := data;
      this.index := index;
    }

    /** x == y: the indices agree (the buffers must be the same). */
    predicate Equal(y: IndexedIterator)
      reads this, y
      requires data == y.data
    {
      index == y.index
    }

    predicate NotEqual(y: IndexedIterator)
      reads this, y
      requires data == y.data
    {
      !Equal(y)
    }

    /** x < y: the index of x comes first (the buffers must be the same). */
    predicate Less(y: IndexedIterator)
      reads this, y
      requires data == y.data
    {
      index < y.index
    }

    predicate Greater(y: IndexedIterator)
      reads this, y
      requires data == y.data
    {
      y.Less(this)
    }

    predicate LessEq(y: IndexedIterator)
      reads this, y
      requires data == y.data
    {
      !y.Less(this)
    }

    predicate GreaterEq(y: IndexedIterator)
      reads this, y
      requires data == y.data
    {
      !Less(y)
    }

    /** *it: the buffer's logical element at the index. */
    function Deref(): (c: char)
      reads this, data, data.data
      requires data.Valid() && index < |data.Contents|
      ensures c == data.Contents[index]
    {
      data.Get(index)
    }

    /** Prefix ++: one position on, in the same buffer. */
    method Increment()
      modifies this
      ensures index == old(index) + 1
    {
      index := index + 1;
    }

    /** Postfix ++: a copy of the old handle; this one moves on. */
    method PostIncrement() returns (tmp: IndexedIterator)
      modifies this
      ensures fresh(tmp) && tmp.data == data && tmp.index == old(index)
      ensures index == old(index) + 1
    {
      tmp := new IndexedIterator(data, index);
      Increment();
    }

    /** Prefix --: one position back, in the same buffer. */
    method Decrement()
      requires index > 0
      modifies this
      ensures index == old(index) - 1
    {
      index := index - 1;
    }

    /** Postfix --: a copy of the old handle; this one moves back. */
    method PostDecrement() returns (tmp: IndexedIterator)
      requires index > 0
      modifies this
      ensures fresh(tmp) && tmp.data == data && tmp.index == old(index)
      ensures index == old(index) - 1
    {
      tmp := new IndexedIterator(data, index);
      Decrement();
    }
  }

  /** Handles into one buffer are ordered as their indices: exactly one of <,
      == and > holds, and !=, <= and >= are the matching combinations. */
  lemma IndexedOrder(x: IndexedIterator, y: IndexedIterator)
    requires x.data == y.data
    ensures x.Less(y) <==> x.index < y.index
    ensures x.Equal(y) <==> x.index == y.index
    ensures x.Less(y) || x.Equal(y) || x.Greater(y)
    ensures !(x.Less(y) && x.Equal(y)) && !(x.Less(y) && x.Greater(y)) && !(x.Equal(y) && x.Greater(y))
    ensures x.NotEqual(y) <==> x.Less(y) || x.Greater(y)
    ensures x.LessEq(y) <==> x.Less(y) || x.Equal(y)
    ensures x.GreaterEq(y) <==> x.Greater(y) || x.Equal(y)
  {
  }
}
