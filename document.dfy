/**
 * The document: a file name, the gap buffer holding its text and a flag
 * recording whether the text changed since it was loaded or saved.
 */
module Documents {
  import opened GapBuffers

  /** Byte counts are handed to the write call as 32-bit unsigned values. */
  const DwordModulus: nat := 0x1_0000_0000

  /** What the operating system reports for one write request: whether the
      call succeeded and how many bytes it wrote. */
  datatype WriteOutcome = WriteOutcome(succeeded: bool, written: nat)

  /** The bytes one write request names: the segment, its length cut to 32 bits. */
  function Request(segment: seq<char>): (r: seq<char>)
    ensures |r| == |segment| % DwordModulus
    ensures r == segment[..|r|]
    ensures |segment| < DwordModulus ==> r == segment
  {
    segment[..|segment| % DwordModulus]
  }

  /** A request completed when the call succeeded and wrote every byte it named. */
  predicate Completed(o: WriteOutcome, request: seq<char>)
  {
    o.succeeded && o.written == |request|
  }

  class Document {
    var name: string
    var contents: GapBuffer
    var modified: bool

    ghost predicate Valid()
      reads this, contents, contents.data
    {
      contents.Valid()
    }

    /** The document's text: the logical content of its gap buffer. */
    ghost function Text(): seq<char>
      reads this, contents
    {
      contents.Contents
    }

    /** The default document: no name, no text, not modified. */
    constructor Default()
      ensures Valid() && fresh(contents) && fresh(contents.data)
      ensures name == [] && Text() == [] && !modified
    {
      name := [];
      contents := new GapBuffer.Empty();
      modified := false;
    }

    /** A document over the given name and storage, not modified. */
    constructor (name: string, contents: GapBuffer)
      requires contents.Valid()
      ensures Valid() && this.name == name && this.contents == contents && !modified
    {
      this.name := name;
      this.contents := contents;
      this.modified := false;
    }

    /** Whether the text changed since it was loaded or saved. */
    function Modified(): (r: bool)
      reads this
      ensures r == modified
    {
      modified
    }

    /** begin(): the position of the first character. */
    function Begin(): (p: nat)
      ensures p == 0
    {
      0
    }

    /** end(): the position just after the last character. */
    function End(): (p: nat)
      reads this, contents, contents.data
      requires Valid()
      ensures p == |Text()|
    {
      contents.Size()
    }

    /** Insert c at position i and mark the document modified. */
    method Insert(i: nat, c: char)
      requires Valid() && i <= |Text()|
      modifies this, contents, contents.data
      ensures Valid() && contents == old(contents) && name == old(name)
      ensures Text() == old(Text())[..i] + [c] + old(Text())[i..]
      ensures modified
    {
      modified := true;
      contents.Insert(i, 1, c);
      assert seq(1, _ => c) == [c];
    }

    /** Erase the character at position i and mark the document modified. */
    method Erase(i: nat)
      requires Valid() && i < |Text()|
      modifies this, contents, contents.data
      ensures Valid() && contents == old(contents) && name == old(name)
      ensures Text() == old(Text())[..i] + old(Text())[i + 1..]
      ensures modified
    {
      modified := true;
      contents.Erase(i, 1);
    }

    /** Replace the whole document, as loading a file does. */
    method Reset(newName: string, newContents: GapBuffer)
      requires newContents.Valid()
      modifies this
      ensures Valid() && name == newName && contents == newContents && !modified
    {
      name := newName;
      contents := newContents;
      modified := false;
    }

    /** write_file: request segment 0, then, only if that write completed,
        segment 1.  The document becomes unmodified and the result is true
        exactly when both writes completed; otherwise the flag is kept.
        `requests` lists the byte ranges handed to the writer, in order, and
        `first` and `second` are the writer's answers to them. */
    method WriteFile(first: WriteOutcome, second: WriteOutcome) returns (result: bool, requests: seq<seq<char>>)
      requires Valid()
      modifies this
      ensures Valid() && contents == old(contents) && name == old(name)
      ensures 1 <= |requests| <= 2 && requests[0] == Request(contents.Segment0())
      ensures |requests| == 2 <==> Completed(first, requests[0])
      ensures |requests| == 2 ==> requests[1] == Request(contents.Segment1())
      ensures result <==> |requests| == 2 && Completed(second, requests[1])
      ensures modified == (if result then false else old(modified))
    {
      result := false;
      var data := Request(contents.Segment0());
      requests := [data];
      if first.succeeded && first.written == |data| {
        data := Request(contents.Segment1());
        requests := requests + [data];
        if second.succeeded && second.written == |data| {
          modified := false;
          result := true;
        }
      }
    }
  }

  /** When neither segment reaches 4 GiB, the two requests of a complete
      write together are exactly the document's text, in order. */
  lemma WrittenIsText(d: Document)
    requires d.Valid()
    requires |d.contents.Segment0()| < DwordModulus && |d.contents.Segment1()| < DwordModulus
    ensures Request(d.contents.Segment0()) + Request(d.contents.Segment1()) == d.Text()
  {
  }

  /** A segment of exactly 4 GiB is requested as zero bytes, so its write
      completes without writing anything. */
  lemma HugeSegmentRequestsNothing(segment: seq<char>)
    requires |segment| == DwordModulus
    ensures Request(segment) == [] && Completed(WriteOutcome(true, 0), Request(segment))
  {
  }
}
