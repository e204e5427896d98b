/**
 * The prompt on the status line: a one-line editor driven by key presses,
 * and the yes/no question.  The keys the user presses are the input, in
 * order; when they run out before the prompt ends the prompt is still
 * waiting, which the model reports as None.
 */
module Prompts {
  import opened Keys
  import opened Utility

  /** The answer to a yes/no question. */
  datatype Response = Yes | No | Cancel

  /** The line being typed and the insertion position in it. */
  datatype Line = Line(text: string, position: nat)

  /** After one key the prompt goes on editing a line, or it has ended and
      returns a text. */
  datatype Outcome = Editing(line: Line) | Finished(result: string)

  /** The position lies inside the line or just after its end. */
  predicate InRange(l: Line)
  {
    l.position <= |l.text|
  }

  /** Escape, or control with '[', abandons the prompt. */
  predicate IsCancel(k: Key)
  {
    k.code == VkEscape || (k.code == VkOem4 && k.ctrl)
  }

  /** A key that ends the prompt: one that is not text and is return or a
      cancel key. */
  predicate Ends(k: Key)
  {
    !IsPrint(k.ascii) && (k.code == VkReturn || IsCancel(k))
  }

  /** What one key does to the line.  Text is inserted at the position,
      which moves past it; left and right move the position by one inside
      the line; back removes the character before the position; return ends
      with the line and a cancel key ends with nothing; other keys do
      nothing.  The position never leaves the line. */
  function Step(l: Line, k: Key): (o: Outcome)
    requires InRange(l)
    ensures o.Editing? ==> InRange(o.line)
    ensures o.Finished? <==> Ends(k)
    ensures o.Finished? ==> o.result == if k.code == VkReturn then l.text else []
    ensures o.Editing? ==> -1 <= o.line.position - l.position <= 1
    ensures o.Editing? && o.line.text != l.text ==> IsPrint(k.ascii) || k.code == VkBack
    ensures o.Editing? && |o.line.text| > |l.text| ==> IsPrint(k.ascii) && o.line.text[l.position] == k.ascii
  {
    var t, p := l.text, l.position;
    if IsPrint(k.ascii) then Editing(Line(t[..p] + [k.ascii] + t[p..], p + 1))
    else if k.code == VkReturn then Finished(t)
    else if k.code == VkLeft then Editing(if p > 0 then Line(t, p - 1) else l)
    else if k.code == VkRight then Editing(if p < |t| then Line(t, p + 1) else l)
    else if k.code == VkBack then Editing(if p > 0 then Line(t[..p - 1] + t[p..], p - 1) else l)
    else if IsCancel(k) then Finished([])
    else Editing(l)
  }

  /** The text the prompt returns after the given keys, or None while it is
      still waiting for more. */
  function Run(l: Line, keys: seq<Key>): Option<string>
    requires InRange(l)
    decreases |keys|
  {
    if keys == [] then None
    else match Step(l, keys[0])
      case Finished(t) => Some(t)
      case Editing(next) => Run(next, keys[1..])
  }

  /** prompt: edit an empty line with the keys until one ends it.  The
      position stays inside the line before every key. */
  method Prompt(keys: seq<Key>) returns (r: Option<string>)
    ensures r == Run(Line([], 0), keys)
  {
    var result: string := [];
    var position: nat := 0;
    var i := 0;
    while i < |keys|
      invariant i <= |keys|
      invariant position <= |result|
      invariant Run(Line(result, position), keys[i..]) == Run(Line([], 0), keys)
      decreases |keys| - i
    {
      var key := keys[i];
      assert keys[i..][0] == key && keys[i..][1..] == keys[i + 1..];
      i := i + 1;
      if IsPrint(key.ascii) {
        result := result[..position] + [key.ascii] + result[position..];
        position := position + 1;
      } else if key.code == VkReturn {
        return Some(result);
      } else if key.code == VkLeft {
        if position > 0 {
          position := position - 1;
        }
      } else if key.code == VkRight {
        if position < |result| {
          position := position + 1;
        }
      } else if key.code == VkBack {
        if position > 0 {
          position := position - 1;
          result := result[..position] + result[position + 1..];
        }
      } else if key.code == VkEscape || (key.code == VkOem4 && key.ctrl) {
        return Some([]);
      }
    }
    return None;
  }

  /** The characters a sequence of keys types. */
  function Typed(keys: seq<Key>): (t: string)
    ensures |t| == |keys|
    ensures forall i :: 0 <= i < |keys| ==> t[i] == keys[i].ascii
  {
    seq(|keys|, i requires 0 <= i < |keys| => keys[i].ascii)
  }

  /** Typing text keys at the end of a line and then return gives the line
      followed by what was typed. */
  lemma {:induction false} TypedThenReturn(t: string, keys: seq<Key>, ret: Key)
    requires forall i :: 0 <= i < |keys| ==> IsPrint(keys[i].ascii)
    requires !IsPrint(ret.ascii) && ret.code == VkReturn
    ensures Run(Line(t, |t|), keys + [ret]) == Some(t + Typed(keys))
    decreases |keys|
  {
    if keys == [] {
      assert [] + [ret] == [ret];
      assert t + Typed(keys) == t;
    } else {
      var k := keys[0];
      var t' := t + [k.ascii];
      assert Step(Line(t, |t|), k) == Editing(Line(t', |t'|)) by {
        assert t[..|t|] + [k.ascii] + t[|t|..] == t';
      }
      assert (keys + [ret])[0] == k && (keys + [ret])[1..] == keys[1..] + [ret];
      TypedThenReturn(t', keys[1..], ret);
      assert t' + Typed(keys[1..]) == t + Typed(keys);
    }
  }

  /** Whatever was typed, a cancel key after keys that do not end the prompt
      makes it return nothing. */
  lemma {:induction false} CancelDiscards(l: Line, keys: seq<Key>, c: Key)
    requires InRange(l)
    requires forall i :: 0 <= i < |keys| ==> !Ends(keys[i])
    requires !IsPrint(c.ascii) && IsCancel(c) && c.code != VkReturn
    ensures Run(l, keys + [c]) == Some([])
    decreases |keys|
  {
    if keys == [] {
      assert [] + [c] == [c];
    } else {
      assert (keys + [c])[0] == keys[0] && (keys + [c])[1..] == keys[1..] + [c];
      CancelDiscards(Step(l, keys[0]).line, keys[1..], c);
    }
  }

  /** Back right after a text key takes the line back to what it was. */
  lemma BackUndoesTyping(l: Line, k: Key, back: Key)
    requires InRange(l) && IsPrint(k.ascii)
    requires !IsPrint(back.ascii) && back.code == VkBack
    ensures Step(l, k).Editing? && Step(Step(l, k).line, back) == Editing(l)
  {
    var t, p := l.text, l.position;
    var t' := t[..p] + [k.ascii] + t[p..];
    assert t'[..p] + t'[p + 1..] == t;
  }

  /** Right undoes left away from the start of the line, and left undoes
      right away from its end; at the ends they change nothing. */
  lemma LeftRightInverse(l: Line, left: Key, right: Key)
    requires InRange(l)
    requires !IsPrint(left.ascii) && left.code == VkLeft
    requires !IsPrint(right.ascii) && right.code == VkRight
    ensures l.position > 0 ==> Step(Step(l, left).line, right) == Editing(l)
    ensures l.position < |l.text| ==> Step(Step(l, right).line, left) == Editing(l)
    ensures l.position == 0 ==> Step(l, left) == Editing(l)
    ensures l.position == |l.text| ==> Step(l, right) == Editing(l)
  {
  }

  /*------------------------------------------------------------------------
   * The yes/no question
   *------------------------------------------------------------------------*/

  /** The answer one key gives: y or Y is yes, n or N is no, escape is
      cancel, and any other key gives none. */
  function Answer(k: Key): (r: Option<Response>)
    ensures r == Some(Yes) <==> k.ascii == 'y' || k.ascii == 'Y'
    ensures r == Some(No) <==> (k.ascii == 'n' || k.ascii == 'N')
    ensures r == Some(Cancel) <==> k.ascii !in "yYnN" && k.code == VkEscape
  {
    if k.ascii == 'y' || k.ascii == 'Y' then Some(Yes)
    else if k.ascii == 'n' || k.ascii == 'N' then Some(No)
    else if k.code == VkEscape then Some(Cancel)
    else None
  }

  /** The index of the first key that answers, or the number of keys when
      none does. */
  function FirstAnswer(keys: seq<Key>): (i: nat)
    ensures i <= |keys|
    ensures i < |keys| ==> Answer(keys[i]).Some?
    ensures forall j :: 0 <= j < i ==> Answer(keys[j]).None?
  {
    if keys == [] then 0
    else if Answer(keys[0]).Some? then 0
    else 1 + FirstAnswer(keys[1..])
  }

  /** The answer of the first key that answers; None while none has. */
  function YesNo(keys: seq<Key>): Option<Response>
  {
    var i := FirstAnswer(keys);
    if i < |keys| then Answer(keys[i]) else None
  }

  /** prompt_yesno: read keys until one answers. */
  method PromptYesNo(keys: seq<Key>) returns (r: Option<Response>)
    ensures r == YesNo(keys)
  {
    var i := 0;
    while i < |keys|
      invariant i <= FirstAnswer(keys)
      decreases |keys| - i
    {
      var key := keys[i];
      if key.ascii == 'y' || key.ascii == 'Y' {
        return Some(Yes);
      }
      if key.ascii == 'n' || key.ascii == 'N' {
        return Some(No);
      }
      if key.code == VkEscape {
        return Some(Cancel);
      }
      i := i + 1;
    }
    return None;
  }
}
