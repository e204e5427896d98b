/**
 * Small helpers shared by the display, the commands and the prompt.
 */
module Utility {
  import Text

  datatype Option<T> = None | Some(value: T)

  /** A character the editor accepts as typed text: tab, printable ASCII and
      the upper half of the code page except 0xFF.  The character is read as
      an unsigned byte. */
  function IsPrint(c: char): (r: bool)
    ensures r <==> var u := c as int % 256; u == 9 || (32 <= u && u != 127 && u != 255)
  {
    var u := c as int % 256;
    u == '\t' as int || (u >= ' ' as int && u <= '~' as int) || (u >= 128 && u <= 254)
  }

  /** Newline, carriage return, DEL and 0xFF are not text; tab and the space are. */
  lemma IsPrintExamples()
    ensures !IsPrint('\n') && !IsPrint('\r') && !IsPrint(0x7F as char) && !IsPrint(0xFF as char)
    ensures IsPrint('\t') && IsPrint(' ') && IsPrint('~') && IsPrint(0x80 as char) && IsPrint(0xFE as char)
  {
  }

  /** find_backward over the range [f, l) of s: steps back from l towards f
      and stops just after the first x it meets, or at f. */
  method FindBackward(s: seq<char>, f: nat, l: nat, x: char) returns (r: nat)
    requires f <= l <= |s|
    ensures r == Text.FindBackward(s, f, l, x)
  {
    r := l;
    while r != f
      invariant f <= r <= l
      invariant Text.FindBackward(s, f, r, x) == Text.FindBackward(s, f, l, x)
      decreases r
    {
      r := r - 1;
      if s[r] == x {
        return r + 1;
      }
    }
  }
}
