/**
 * Key presses and the index a key press selects in a mode's command table.
 * The index packs eleven bits: the key code in bits 0-7, then control
 * (bit 8), alt (bit 9) and shift (bit 10).
 */
module Keys {

  /** A key press: the virtual-key code, the modifier states and the
      character the key produces. */
  datatype Key = Key(code: nat, ctrl: bool, shift: bool, alt: bool, ascii: char)

  // The Windows virtual-key codes the editor binds.
  const VkBack: nat := 0x08
  const VkReturn: nat := 0x0D
  const VkEscape: nat := 0x1B
  const VkLeft: nat := 0x25
  const VkRight: nat := 0x27
  /** The code of the '[' key; control with it acts as escape. */
  const VkOem4: nat := 0xDB

  /** One table entry per 11-bit key state. */
  const MaxKeys: nat := 2048
  /** The bit control sets in a key index. */
  const ControlShift: nat := 256

  function Flag(b: bool): nat
  {
    if b then 1 else 0
  }

  function Pow2(n: nat): (r: nat)
    ensures r >= 1
  {
    if n == 0 then 1 else 2 * Pow2(n - 1)
  }

  /** Bitwise or of two naturals, taken bit by bit from the lowest. */
  function BitOr(a: nat, b: nat): nat
    decreases a + b
  {
    if a == 0 then b
    else if b == 0 then a
    else 2 * BitOr(a / 2, b / 2) + (if a % 2 == 1 || b % 2 == 1 then 1 else 0)
  }

  /** Or-ing a value below 2^n with a multiple of 2^n adds the two: their
      bits do not overlap. */
  lemma {:induction false} BitOrDisjoint(c: nat, h: nat, n: nat)
    requires c < Pow2(n)
    ensures BitOr(c, h * Pow2(n)) == c + h * Pow2(n)
    decreases n
  {
    if n > 0 && c != 0 && h != 0 {
      var m := Pow2(n - 1);
      assert h * Pow2(n) == 2 * (h * m);
      assert (h * Pow2(n)) / 2 == h * m && (h * Pow2(n)) % 2 == 0;
      BitOrDisjoint(c / 2, h, n - 1);
    }
  }

  lemma Pow2Values()
    ensures Pow2(8) == 256 && Pow2(9) == 512 && Pow2(10) == 1024
  {
    assert Pow2(2) == 4;
    assert Pow2(4) == 4 * Pow2(2);
    assert Pow2(6) == 4 * Pow2(4);
    assert Pow2(8) == 4 * Pow2(6);
  }

  /** The table index of k: code | ctrl << 8 | alt << 9 | shift << 10, for a
      code that fits in the low eight bits.  The bits do not overlap, so the
      index is the sum of the parts and stays below MaxKeys. */
  function KeyIndex(k: Key): (i: nat)
    requires k.code < 256
    ensures i == k.code + ControlShift * Flag(k.ctrl) + 512 * Flag(k.alt) + 1024 * Flag(k.shift)
    ensures i < MaxKeys
  {
    Pow2Values();
    var low := k.code;
    BitOrDisjoint(low, Flag(k.ctrl), 8);
    var withCtrl := BitOr(low, Flag(k.ctrl) * Pow2(8));
    BitOrDisjoint(withCtrl, Flag(k.alt), 9);
    var withAlt := BitOr(withCtrl, Flag(k.alt) * Pow2(9));
    BitOrDisjoint(withAlt, Flag(k.shift), 10);
    BitOr(withAlt, Flag(k.shift) * Pow2(10))
  }

  /** control(code): code | CONTROL_SHIFT, the index of the key with control
      held and no other modifier. */
  function Control(code: nat): (i: nat)
    requires code < 256
    ensures forall k: Key :: k.code == code && k.ctrl && !k.alt && !k.shift ==> KeyIndex(k) == i
    ensures i == code + ControlShift
  {
    Pow2Values();
    BitOrDisjoint(code, 1, 8);
    BitOr(code, ControlShift)
  }

  /** The index gives the key press back: its code and each modifier. */
  lemma KeyIndexDecodes(k: Key)
    requires k.code < 256
    ensures KeyIndex(k) % 256 == k.code
    ensures KeyIndex(k) / 256 % 2 == Flag(k.ctrl)
    ensures KeyIndex(k) / 512 % 2 == Flag(k.alt)
    ensures KeyIndex(k) / 1024 == Flag(k.shift)
  {
    var hi := Flag(k.ctrl) + 2 * Flag(k.alt) + 4 * Flag(k.shift);
    assert KeyIndex(k) == k.code + 256 * hi;
    DivMod256(k.code, hi);
  }

  lemma DivMod256(c: nat, hi: nat)
    requires c < 256 && hi < 8
    ensures (c + 256 * hi) % 256 == c && (c + 256 * hi) / 256 == hi
    ensures (c + 256 * hi) / 512 == hi / 2 && (c + 256 * hi) / 1024 == hi / 4
  {
    if hi == 0 {} else if hi == 1 {} else if hi == 2 {} else if hi == 3 {}
    else if hi == 4 {} else if hi == 5 {} else if hi == 6 {} else {}
  }

  /** Key presses that differ in code or in a modifier select different
      table entries. */
  lemma KeyIndexInjective(a: Key, b: Key)
    requires a.code < 256 && b.code < 256
    requires KeyIndex(a) == KeyIndex(b)
    ensures a.code == b.code && a.ctrl == b.ctrl && a.alt == b.alt && a.shift == b.shift
  {
    KeyIndexDecodes(a);
    KeyIndexDecodes(b);
  }
}
