/** The single-line input editor that the command bar (src/view/menu.rs) and
    the pop-up input box (src/view/msgbox.rs) both carry: an input string,
    a cursor index into it, and the Char/Delete/Left/Right keys. */
module LineEdit {
  import opened Wrappers
  import opened Text

  /** `input` and `input_idx`. */
  datatype Input = Input(text: seq<char>, idx: nat)

  /** The keys the input editors react to; Enter arrives as `Char('\r')`. */
  datatype Key = Char(c: char) | Delete | Left | Right | Esc | Other

  const Empty: Input := Input([], 0)

  /** The cursor is inside the text or just after it. */
  predicate InputOk(li: Input)
  {
    li.idx <= |li.text|
  }

  /** A printable key: the character is inserted at the cursor and the cursor
      moves past it, but only while the text is shorter than `cap`. */
  function Insert(li: Input, c: char, cap: nat): (r: Input)
    requires InputOk(li)
    ensures InputOk(r)
    ensures |li.text| < cap ==> r.text == InsertAt(li.text, li.idx, [c]) && r.idx == li.idx + 1
    ensures |li.text| >= cap ==> r == li
  {
    if |li.text| < cap then Input(InsertAt(li.text, li.idx, [c]), li.idx + 1) else li
  }

  /** `Key::Delete` as written: on a non-empty text it decrements the cursor first,
      which underflows (`None`) when the cursor is at the start; otherwise it
      removes the character before the cursor. */
  function DeleteBackAsWritten(li: Input): (r: Option<Input>)
    requires InputOk(li)
    ensures r.None? <==> |li.text| > 0 && li.idx == 0
    ensures |li.text| == 0 ==> r == Some(li)
    ensures r.Some? && |li.text| > 0 ==>
      r.value == Input(RemoveAt(li.text, li.idx - 1), li.idx - 1)
  {
    if |li.text| == 0 then Some(li)
    else if li.idx == 0 then None
    else Some(Input(RemoveAt(li.text, li.idx - 1), li.idx - 1))
  }

  /** Backspace: removes the character before the cursor, and does nothing at
      the start of the text. */
  function DeleteBack(li: Input): (r: Input)
    requires InputOk(li)
    ensures InputOk(r)
    ensures li.idx > 0 ==> r.idx + 1 == li.idx && r.text == li.text[..li.idx - 1] + li.text[li.idx..]
    ensures li.idx == 0 ==> r == li
  {
    if |li.text| > 0 && li.idx > 0 then Input(RemoveAt(li.text, li.idx - 1), li.idx - 1) else li
  }

  /** Wherever the source does not panic, the corrected Delete does the same. */
  lemma DeleteAgrees(li: Input)
    requires InputOk(li) && DeleteBackAsWritten(li).Some?
    ensures DeleteBackAsWritten(li) == Some(DeleteBack(li))
  {
  }

  /** Typing a character at the start of a text and moving back onto it
      reaches the panic: "a", Left, Delete. */
  lemma BackspaceAtStartPanics(cap: nat)
    requires cap > 0
    ensures MoveLeft(Insert(Empty, 'a', cap)) == Input("a", 0)
    ensures DeleteBackAsWritten(Input("a", 0)).None?
    ensures DeleteBack(Input("a", 0)) == Input("a", 0)
  {
    assert InsertAt([], 0, ['a']) == "a";
  }

  /** Backspace undoes an accepted keystroke. */
  lemma InsertThenDelete(li: Input, c: char, cap: nat)
    requires InputOk(li) && |li.text| < cap
    ensures DeleteBack(Insert(li, c, cap)) == li
  {
    RemoveInserted(li.text, li.idx, c);
  }

  /** Left: one position back, not past the start. */
  function MoveLeft(li: Input): (r: Input)
    requires InputOk(li)
    ensures InputOk(r) && r.text == li.text
    ensures r.idx == if li.idx > 0 then li.idx - 1 else 0
  {
    if li.idx > 0 then li.(idx := li.idx - 1) else li
  }

  /** Right: one position on, not past the end. */
  function MoveRight(li: Input): (r: Input)
    requires InputOk(li)
    ensures InputOk(r) && r.text == li.text
    ensures r.idx == if li.idx < |li.text| then li.idx + 1 else li.idx
  {
    if li.idx < |li.text| then li.(idx := li.idx + 1) else li
  }

  /** Left and Right undo each other away from the ends. */
  lemma LeftRightInverse(li: Input)
    requires InputOk(li)
    ensures li.idx > 0 ==> MoveRight(MoveLeft(li)) == li
    ensures li.idx < |li.text| ==> MoveLeft(MoveRight(li)) == li
  {
  }

  /** The keys both editors share. Enter, Esc and any other key leave the
      input to the caller. */
  function Edit(li: Input, key: Key, cap: nat): (r: Input)
    requires InputOk(li)
    ensures InputOk(r)
    ensures |li.text| <= cap ==> |r.text| <= cap
  {
    match key
    case Char(c) => if c == '\r' then li else Insert(li, c, cap)
    case Delete => DeleteBack(li)
    case Left => MoveLeft(li)
    case Right => MoveRight(li)
    case _ => li
  }

  /** The characters of a run of printable keys. */
  function Typed(keys: seq<Key>): seq<char>
    requires forall k :: 0 <= k < |keys| ==> keys[k].Char?
  {
    if |keys| == 0 then [] else [keys[0].c] + Typed(keys[1..])
  }

  function EditAll(li: Input, keys: seq<Key>, cap: nat): (r: Input)
    requires InputOk(li)
    ensures InputOk(r)
    decreases |keys|
  {
    if |keys| == 0 then li else EditAll(Edit(li, keys[0], cap), keys[1..], cap)
  }

  /** Typing characters other than Enter into an empty editor, without
      exceeding the cap, leaves exactly those characters with the cursor at
      the end. */
  lemma {:induction false} TypingAppends(li: Input, keys: seq<Key>, cap: nat)
    requires InputOk(li) && li.idx == |li.text|
    requires forall k :: 0 <= k < |keys| ==> keys[k].Char? && keys[k].c != '\r'
    requires |li.text| + |keys| <= cap
    ensures EditAll(li, keys, cap) == Input(li.text + Typed(keys), |li.text| + |keys|)
    decreases |keys|
  {
    if |keys| > 0 {
      var next := Edit(li, keys[0], cap);
      assert next == Input(li.text + [keys[0].c], li.idx + 1);
      TypingAppends(next, keys[1..], cap);
      assert li.text + [keys[0].c] + Typed(keys[1..]) == li.text + Typed(keys);
    } else {
      assert li.text + [] == li.text;
    }
  }
}
