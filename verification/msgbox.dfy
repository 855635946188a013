/** The pop-up input box (src/view/msgbox.rs): it locks the keyboard, edits
    one line until Enter or Esc, and hands the line back. The blocking key
    channel becomes a sequence of keys; drawing is left out. */
module MsgBox {
  import opened Wrappers
  import opened Geometry
  import opened LineEdit

  /** `input`, `input_idx` and `lock`. */
  datatype Box = Box(input: Input, locked: bool)

  /** `get_end().0 - get_start().0 - 2`: the longest line the box accepts,
      the columns between its left and right frame; the `u16` subtractions
      panic on a box narrower than two columns. */
  function BoxCap(startX: u16, endX: u16): (cap: nat)
    requires startX + 2 <= endX
    ensures startX + 1 + cap < endX
    ensures cap + 2 == endX - startX
  {
    endX - startX - 2
  }

  /** `matchar`: Esc empties the line (its cursor index is left as it was) and
      unlocks; Enter unlocks and keeps the line; the other keys edit it. */
  function BoxKey(b: Box, key: Key, cap: nat): (r: Box)
    requires b.locked && InputOk(b.input)
    ensures r.locked ==> InputOk(r.input)
    ensures key == Esc ==> !r.locked && r.input == Input([], b.input.idx)
    ensures key == Char('\r') ==> !r.locked && r.input == b.input
    ensures key != Esc && key != Char('\r') ==> r.locked && r.input == Edit(b.input, key, cap)
  {
    match key
    case Esc => Box(b.input.(text := []), false)
    case Char(c) => if c == '\r' then b.(locked := false) else b.(input := Edit(b.input, key, cap))
    case _ => b.(input := Edit(b.input, key, cap))
  }

  /** A key that closes the box. */
  predicate Closes(k: Key)
  {
    k == Esc || k == Char('\r')
  }

  /** The loop of `wait` from a locked box: keys are handled until the box
      unlocks, and its line is returned. If the keys run out first the box is
      still waiting (`None`). Parsing the line into the caller's type is left
      to the caller. */
  function Loop(b: Box, keys: seq<Key>, cap: nat): (r: Option<seq<char>>)
    requires b.locked && InputOk(b.input)
    decreases |keys|
  {
    if |keys| == 0 then None
    else
      var b' := BoxKey(b, keys[0], cap);
      if !b'.locked then Some(b'.input.text) else Loop(b', keys[1..], cap)
  }

  /** `wait` on a fresh box. */
  function Wait(keys: seq<Key>, cap: nat): Option<seq<char>>
  {
    Loop(Box(Empty, true), keys, cap)
  }

  /** The box answers exactly when Enter or Esc arrives, and what it answers
      never exceeds the cap. */
  lemma {:induction false} LoopSpec(b: Box, keys: seq<Key>, cap: nat)
    requires b.locked && InputOk(b.input) && |b.input.text| <= cap
    ensures Loop(b, keys, cap).Some? <==> exists k :: 0 <= k < |keys| && Closes(keys[k])
    ensures Loop(b, keys, cap).Some? ==> |Loop(b, keys, cap).value| <= cap
    decreases |keys|
  {
    if |keys| > 0 {
      var b' := BoxKey(b, keys[0], cap);
      if b'.locked {
        LoopSpec(b', keys[1..], cap);
        if exists k :: 0 <= k < |keys| && Closes(keys[k]) {
          var k :| 0 <= k < |keys| && Closes(keys[k]);
          assert k > 0 && Closes(keys[1..][k - 1]);
        }
        if exists k :: 0 <= k < |keys[1..]| && Closes(keys[1..][k]) {
          var k :| 0 <= k < |keys[1..]| && Closes(keys[1..][k]);
          assert Closes(keys[k + 1]);
        }
      } else {
        assert Closes(keys[0]);
      }
    }
  }

  /** Esc as the first key answers with an empty line. */
  lemma EscAnswersEmpty(keys: seq<Key>, cap: nat)
    requires |keys| > 0 && keys[0] == Esc
    ensures Wait(keys, cap) == Some([])
  {
  }

  /** While no key closes the box, the loop is the line editor. */
  lemma {:induction false} LoopEdits(b: Box, keys: seq<Key>, rest: seq<Key>, cap: nat)
    requires b.locked && InputOk(b.input)
    requires forall k :: 0 <= k < |keys| ==> !Closes(keys[k])
    ensures Loop(b, keys + rest, cap) == Loop(Box(EditAll(b.input, keys, cap), true), rest, cap)
    decreases |keys|
  {
    if |keys| > 0 {
      var b' := BoxKey(b, keys[0], cap);
      assert (keys + rest)[0] == keys[0];
      assert (keys + rest)[1..] == keys[1..] + rest;
      LoopEdits(b', keys[1..], rest, cap);
    } else {
      assert keys + rest == rest;
    }
  }

  /** Typing a line that fits and pressing Enter answers with that line. */
  lemma TypedLineAnswered(keys: seq<Key>, cap: nat)
    requires forall k :: 0 <= k < |keys| ==> keys[k].Char? && keys[k].c != '\r'
    requires |keys| <= cap
    ensures Wait(keys + [Char('\r')], cap) == Some(Typed(keys))
  {
    LoopEdits(Box(Empty, true), keys, [Char('\r')], cap);
    TypingAppends(Empty, keys, cap);
    assert [] + Typed(keys) == Typed(keys);
  }

  /** `set_cursor`: one column in from the left frame and one row below the
      title, at the cursor index; the `u16` additions must not overflow. */
  function CursorAt(x: u16, y: u16, li: Input): (r: (u16, u16))
    requires x + 1 + li.idx < U16_LIMIT && y + 1 < U16_LIMIT
    ensures x < r.0 && r.0 - x == 1 + li.idx && r.1 == y + 1
  {
    (x + 1 + li.idx, y + 1)
  }

  /** `wait` in a box whose frame spans the columns `startX` to `endX`: the
      line it accepts is as wide as the space between the frames. */
  function WaitIn(keys: seq<Key>, startX: u16, endX: u16): Option<seq<char>>
    requires startX + 2 <= endX
  {
    Wait(keys, BoxCap(startX, endX))
  }

  /** A box answers exactly when Enter or Esc arrives, with a line that fits
      between its frames; a typed line that fits is answered as typed. */
  lemma BoxAnswerFits(keys: seq<Key>, startX: u16, endX: u16)
    requires startX + 2 <= endX
    ensures WaitIn(keys, startX, endX).Some? <==> exists k :: 0 <= k < |keys| && Closes(keys[k])
    ensures WaitIn(keys, startX, endX).Some? ==> startX + 1 + |WaitIn(keys, startX, endX).value| < endX
  {
    LoopSpec(Box(Empty, true), keys, BoxCap(startX, endX));
  }

  lemma TypedLineFits(keys: seq<Key>, startX: u16, endX: u16)
    requires startX + 2 <= endX
    requires forall k :: 0 <= k < |keys| ==> keys[k].Char? && keys[k].c != '\r'
    requires startX + 1 + |keys| < endX
    ensures WaitIn(keys + [Char('\r')], startX, endX) == Some(Typed(keys))
  {
    TypedLineAnswered(keys, BoxCap(startX, endX));
  }

  /** While the box waits, its cursor stays strictly between the frames on
      the row under the title, and it follows the edits: an accepted
      character or Right moves it one column on, Left and Delete one back. */
  lemma CursorInsideFrame(b: Box, key: Key, startX: u16, endX: u16, y: u16)
    requires startX + 2 <= endX && y + 1 < U16_LIMIT
    requires b.locked && InputOk(b.input) && |b.input.text| <= BoxCap(startX, endX)
    ensures var cap := BoxCap(startX, endX);
      var r := BoxKey(b, key, cap);
      && startX < CursorAt(startX, y, b.input).0 < endX
      && (r.locked ==> startX < CursorAt(startX, y, r.input).0 < endX)
      && (key.Char? && key.c != '\r' && |b.input.text| < cap ==>
            CursorAt(startX, y, r.input).0 == CursorAt(startX, y, b.input).0 + 1)
      && (key.Right? && b.input.idx < |b.input.text| ==>
            CursorAt(startX, y, r.input).0 == CursorAt(startX, y, b.input).0 + 1)
      && ((key.Left? || key.Delete?) && b.input.idx > 0 ==>
            CursorAt(startX, y, r.input).0 + 1 == CursorAt(startX, y, b.input).0)
  {
  }

  /** `as i16` on a `u16` terminal size: wraps above 32767. */
  function AsI16(n: u16): (r: i16)
    ensures (r as int - n as int) % U16_LIMIT == 0
  {
    if n < 0x8000 then n else n - 0x1_0000
  }

  /** `default_pos` before the conversion to `Pos`: a box of half-width
      `|title| / 2 + 10` centred on the terminal's middle column, from one row
      above its middle row to two rows below. The `i16` arithmetic must not
      overflow; the conversion `Pos::try_from` is not part of this model. */
  function DefaultPos(titleLen: nat, width: u16, height: u16): (r: (i16, i16, i16, i16))
    requires titleLen / 2 + 10 < 0x8000
    requires AsI16(width) / 2 + (titleLen / 2 + 10) < 0x8000
    requires AsI16(width) >= 0 && AsI16(height) >= 0
    requires AsI16(height) / 2 + 2 < 0x8000
    ensures var (sx, sy, ex, ey) := r;
      && ex - sx == 2 * (titleLen / 2 + 10)
      && ey - sy == 3
      && sy == AsI16(height) / 2 - 1
      && sx + ex == 2 * (AsI16(width) / 2)
  {
    var h := AsI16(height);
    var w := AsI16(width);
    var length := titleLen / 2 + 10;
    (w / 2 - length, h / 2 - 1, w / 2 + length, h / 2 + 2)
  }

  /** The default box covers the terminal's middle cell, and it starts on
      the screen when the terminal is wide enough for it and at least two
      rows high. */
  lemma DefaultPosCentred(titleLen: nat, width: u16, height: u16)
    requires titleLen / 2 + 10 < 0x8000
    requires AsI16(width) / 2 + (titleLen / 2 + 10) < 0x8000
    requires AsI16(width) >= 0 && AsI16(height) >= 0
    requires AsI16(height) / 2 + 2 < 0x8000
    ensures var (sx, sy, ex, ey) := DefaultPos(titleLen, width, height);
      && sx < AsI16(width) / 2 < ex
      && sy < AsI16(height) / 2 < ey
      && (titleLen / 2 + 10 <= AsI16(width) / 2 ==> sx >= 0)
      && (AsI16(height) >= 2 ==> sy >= 0)
  {
  }
}
