/** The text buffer, cursor and scroll state of `MainView`
    (src/view/mainview.rs) and its normal-mode editing and navigation
    operations. The buffer is a sequence of lines of single code units. */
module MainEdit {
  import opened Arith
  import opened SoftWrap
  import opened Text

  /** `Mode`: normal editing or stepping through search hits. */
  datatype Mode = Normal | Search

  /** The view's mutable fields: `content`, `curr_line`, `curr_idx`, `scroll`,
      `mode`, `search_stack`, `search_str` and `search_idx`. */
  datatype Editor = Editor(
    lines: seq<seq<char>>,
    line: nat,
    idx: nat,
    scroll: nat,
    mode: Mode,
    matches: seq<(nat, nat)>,
    pattern: seq<char>,
    matchIdx: nat)

  /** The terminal-dependent numbers the operations read: `width` is
      `get_vpos_max` (text columns per row) and `height` is the row span
      `end.1 - start.1` of the view. */
  datatype Layout = Layout(width: nat, height: nat)

  /** The cursor addresses a position inside the text: an existing line and a
      column at most its length. */
  predicate InText(e: Editor)
  {
    e.line < |e.lines| && e.idx <= |e.lines[e.line]|
  }

  /** Cursor validity: inside the text, or at (0, 0) of an empty buffer. */
  predicate CursorOk(e: Editor)
  {
    InText(e) || (|e.lines| == 0 && e.line == 0 && e.idx == 0)
  }

  /** The physical row of the cursor counted from the top of the viewport. */
  function CursorRow(e: Editor, lay: Layout): nat
    requires lay.width > 0
  {
    PreAllLines(e.lines, e.scroll, e.line, e.idx, lay.width)
  }

  /** `line_inc`: moves the cursor one line down and scrolls one line when the
      cursor row measured before the move is within four rows of the bottom. */
  function LineInc(e: Editor, lay: Layout): (r: Editor)
    requires lay.width > 0
    ensures r.line == e.line + 1
    ensures r.scroll == e.scroll + 1 <==> CursorRow(e, lay) + 4 > lay.height
    ensures r.scroll == e.scroll || r.scroll == e.scroll + 1
    ensures r == e.(line := r.line, scroll := r.scroll)
  {
    var rows := CursorRow(e, lay);
    e.(scroll := if rows + 4 > lay.height then e.scroll + 1 else e.scroll, line := e.line + 1)
  }

  /** `line_dec`: moves the cursor one line up (the source's `usize`
      subtraction needs a line above) and scrolls back one line when the view
      is scrolled and the cursor row is within the top four rows. */
  function LineDec(e: Editor, lay: Layout): (r: Editor)
    requires lay.width > 0
    requires e.line > 0
    ensures r.line + 1 == e.line
    ensures r.scroll + 1 == e.scroll <==> e.scroll != 0 && CursorRow(e, lay) < 4
    ensures r.scroll == e.scroll || r.scroll + 1 == e.scroll
    ensures r == e.(line := r.line, scroll := r.scroll)
  {
    if e.scroll != 0 && CursorRow(e, lay) < 4 then
      e.(scroll := e.scroll - 1, line := e.line - 1)
    else
      e.(line := e.line - 1)
  }

  /** Moving down never puts the cursor's line above the viewport. */
  lemma LineIncKeepsTop(e: Editor, lay: Layout)
    requires lay.width > 0 && e.scroll <= e.line
    ensures LineInc(e, lay).scroll <= LineInc(e, lay).line
  {
  }

  /** Moving up keeps the cursor's line in the viewport exactly when the cursor
      was below the top line, or was on the top line no more than three rows
      down; otherwise the cursor ends one line above the viewport. */
  lemma LineDecKeepsTop(e: Editor, lay: Layout)
    requires lay.width > 0 && e.line > 0 && e.scroll <= e.line
    ensures LineDec(e, lay).scroll <= LineDec(e, lay).line
            <==> e.scroll < e.line || e.idx / lay.width < 4
  {
    PreAllLinesSpec(e.lines, e.scroll, e.line, e.idx, lay.width);
  }

  /** The buffer `push` edits: an empty buffer first gets one empty line. */
  function PushBase(lines: seq<seq<char>>): seq<seq<char>>
  {
    if |lines| == 0 then [[]] else lines
  }

  /** `push`: inserts `ch` at the cursor (creating a line in an empty buffer)
      and moves the cursor past it; every other line and field is kept. The
      source's `insert` panics outside the text, hence the requires. */
  function Push(e: Editor, ch: char): (r: Editor)
    requires CursorOk(e)
    ensures var base := PushBase(e.lines);
      && |r.lines| == |base| >= 1
      && r.line == e.line && r.idx == e.idx + 1
      && r.lines[r.line] == base[e.line][..e.idx] + [ch] + base[e.line][e.idx..]
      && (forall k :: 0 <= k < |base| && k != e.line ==> r.lines[k] == base[k])
    ensures InText(r)
    ensures r == e.(lines := r.lines, idx := r.idx)
  {
    var base := PushBase(e.lines);
    e.(lines := base[e.line := InsertAt(base[e.line], e.idx, [ch])], idx := e.idx + 1)
  }

  /** `push_str`: inserts `t` at the cursor and moves the cursor past it. Unlike
      `push` it does not create a line in an empty buffer. */
  function PushStr(e: Editor, t: seq<char>): (r: Editor)
    requires InText(e)
    ensures |r.lines| == |e.lines| && r.line == e.line && r.idx == e.idx + |t|
    ensures r.lines[r.line] == e.lines[e.line][..e.idx] + t + e.lines[e.line][e.idx..]
    ensures forall k :: 0 <= k < |e.lines| && k != e.line ==> r.lines[k] == e.lines[k]
    ensures InText(r)
    ensures r == e.(lines := r.lines, idx := r.idx)
  {
    e.(lines := e.lines[e.line := InsertAt(e.lines[e.line], e.idx, t)], idx := e.idx + |t|)
  }

  /** `push` applied to each unit of `t` in turn. */
  function PushEach(e: Editor, t: seq<char>): Editor
    requires CursorOk(e)
    decreases |t|
  {
    if |t| == 0 then e else PushEach(Push(e, t[0]), t[1..])
  }

  /** Inserting a string at once is inserting its units one by one. */
  lemma {:induction false} PushStrIsPushEach(e: Editor, t: seq<char>)
    requires InText(e)
    ensures PushEach(e, t) == PushStr(e, t)
    decreases |t|
  {
    if |t| > 0 {
      var e1 := Push(e, t[0]);
      PushStrIsPushEach(e1, t[1..]);
      var l := e.lines[e.line];
      var l1 := l[..e.idx] + [t[0]] + l[e.idx..];
      assert e1.lines == e.lines[e.line := l1];
      assert l1[..e.idx + 1] == l[..e.idx] + [t[0]];
      assert l1[e.idx + 1..] == l[e.idx..];
      assert [t[0]] + t[1..] == t;
      assert InsertAt(l1, e.idx + 1, t[1..]) == InsertAt(l, e.idx, t);
      assert e1.lines[e.line := InsertAt(l, e.idx, t)] == e.lines[e.line := InsertAt(l, e.idx, t)];
    } else {
      var l := e.lines[e.line];
      assert InsertAt(l, e.idx, t) == l;
      assert e.lines[e.line := l] == e.lines;
    }
  }

  /** The lines after splitting line `l` at column `i`. */
  function SplitLine(lines: seq<seq<char>>, l: nat, i: nat): seq<seq<char>>
    requires l < |lines| && i <= |lines[l]|
  {
    lines[..l] + [lines[l][..i], lines[l][i..]] + lines[l + 1..]
  }

  /** `push_line` (Enter): the cursor's line is cut at the cursor, its tail
      becomes a new line below, and the cursor goes to the start of that new
      line via `line_inc` (measured with the new lines and the old column). */
  function PushLine(e: Editor, lay: Layout): (r: Editor)
    requires lay.width > 0 && InText(e)
    ensures |r.lines| == |e.lines| + 1
    ensures r.line == e.line + 1 && r.idx == 0
    ensures r.lines[e.line] + r.lines[e.line + 1] == e.lines[e.line]
    ensures |r.lines[e.line]| == e.idx
    ensures forall k :: 0 <= k < e.line ==> r.lines[k] == e.lines[k]
    ensures forall k :: e.line < k < |e.lines| ==> r.lines[k + 1] == e.lines[k]
    ensures InText(r)
    ensures r.scroll == e.scroll || r.scroll == e.scroll + 1
    ensures r == e.(lines := r.lines, line := r.line, idx := r.idx, scroll := r.scroll)
  {
    var l := e.lines[e.line];
    assert l[..e.idx] + l[e.idx..] == l;
    LineInc(e.(lines := SplitLine(e.lines, e.line, e.idx)), lay).(idx := 0)
  }

  /** The lines after appending line `l` to line `l - 1` and removing it. */
  function JoinLine(lines: seq<seq<char>>, l: nat): seq<seq<char>>
    requires 0 < l < |lines|
  {
    lines[..l - 1] + [lines[l - 1] + lines[l]] + lines[l + 1..]
  }

  /** `delete` (Backspace): at (0, 0) nothing happens; at column 0 the line is
      appended to the one above, which the cursor moves to at the old end of
      that line (`line_dec` is measured before the line number drops);
      otherwise the unit before the cursor is removed. */
  function Delete(e: Editor, lay: Layout): (r: Editor)
    requires lay.width > 0 && CursorOk(e)
    ensures e.line == 0 && e.idx == 0 ==> r == e
    ensures e.idx == 0 && e.line > 0 ==>
      && r.lines == JoinLine(e.lines, e.line)
      && r.line + 1 == e.line && r.idx == |e.lines[e.line - 1]|
    ensures e.idx > 0 ==>
      && r.lines == e.lines[e.line := RemoveAt(e.lines[e.line], e.idx - 1)]
      && r.line == e.line && r.idx + 1 == e.idx && r.scroll == e.scroll
    ensures CursorOk(r)
    ensures r == e.(lines := r.lines, line := r.line, idx := r.idx, scroll := r.scroll)
  {
    if e.idx == 0 then
      if e.line == 0 then e
      else
        var joined := JoinLine(e.lines, e.line);
        LineDec(e.(idx := |e.lines[e.line - 1]|, lines := joined), lay)
    else
      e.(lines := e.lines[e.line := RemoveAt(e.lines[e.line], e.idx - 1)], idx := e.idx - 1)
  }

  /** Typing a unit and deleting it restores the buffer and the cursor. */
  lemma PushThenDelete(e: Editor, lay: Layout, ch: char)
    requires lay.width > 0 && CursorOk(e)
    ensures Delete(Push(e, ch), lay) == e.(lines := PushBase(e.lines))
  {
    var base := PushBase(e.lines);
    RemoveInserted(base[e.line], e.idx, ch);
    assert base[e.line := base[e.line]] == base;
  }

  /** Enter followed by Delete restores the lines, the line number and the
      column; only `scroll` may differ. */
  lemma EnterThenDelete(e: Editor, lay: Layout)
    requires lay.width > 0 && InText(e)
    ensures var r := Delete(PushLine(e, lay), lay);
      r.lines == e.lines && r.line == e.line && r.idx == e.idx
  {
    JoinSplit(e.lines, e.line, e.idx);
  }

  /** Joining the two halves of a split line gives the lines back. */
  lemma JoinSplit(lines: seq<seq<char>>, l: nat, i: nat)
    requires l < |lines| && i <= |lines[l]|
    ensures |SplitLine(lines, l, i)[l]| == i
    ensures JoinLine(SplitLine(lines, l, i), l + 1) == lines
  {
    var sp := SplitLine(lines, l, i);
    var x := lines[l];
    assert sp[..l] == lines[..l];
    assert sp[l] == x[..i] && sp[l + 1] == x[i..];
    assert sp[l + 2..] == lines[l + 1..];
    assert x[..i] + x[i..] == x;
    assert lines[..l] + [x] + lines[l + 1..] == lines;
  }

  /** `up`: to the line above when there is one, with the column clamped to
      that line's length before `line_dec` measures the cursor row. */
  function Up(e: Editor, lay: Layout): (r: Editor)
    requires lay.width > 0 && CursorOk(e)
    ensures e.line == 0 ==> r == e
    ensures e.line > 0 ==> r.line + 1 == e.line && r.idx == Min(e.idx, |e.lines[r.line]|)
    ensures r.lines == e.lines && CursorOk(r)
    ensures r == e.(line := r.line, idx := r.idx, scroll := r.scroll)
  {
    if e.line > 0 then
      var above := |e.lines[e.line - 1]|;
      LineDec(e.(idx := if e.idx > above then above else e.idx), lay)
    else e
  }

  /** `down`: to the line below when there is one, with the column clamped to
      that line's length before `line_inc` measures the cursor row. The
      source's `content.len() - 1` needs a non-empty buffer. */
  function Down(e: Editor, lay: Layout): (r: Editor)
    requires lay.width > 0 && CursorOk(e) && |e.lines| > 0
    ensures e.line + 1 >= |e.lines| ==> r == e
    ensures e.line + 1 < |e.lines| ==> r.line == e.line + 1 && r.idx == Min(e.idx, |e.lines[r.line]|)
    ensures r.lines == e.lines && CursorOk(r)
    ensures r == e.(line := r.line, idx := r.idx, scroll := r.scroll)
  {
    if e.line < |e.lines| - 1 then
      var below := |e.lines[e.line + 1]|;
      LineInc(e.(idx := if e.idx > below then below else e.idx), lay)
    else e
  }

  /** Down then Up comes back to the same line, with the column clamped by both
      lines it visited. */
  lemma DownThenUp(e: Editor, lay: Layout)
    requires lay.width > 0 && InText(e) && e.line + 1 < |e.lines|
    ensures var r := Up(Down(e, lay), lay);
      r.line == e.line && r.idx == Min(Min(e.idx, |e.lines[e.line + 1]|), |e.lines[e.line]|)
  {
  }

  /** `left`: one column left unless at column 0. */
  function Left(e: Editor): (r: Editor)
    ensures r.idx == if e.idx > 0 then e.idx - 1 else 0
    ensures CursorOk(e) ==> CursorOk(r)
    ensures r == e.(idx := r.idx)
  {
    if e.idx > 0 then e.(idx := e.idx - 1) else e
  }

  /** `right`: one column right unless at the end of the line. */
  function Right(e: Editor): (r: Editor)
    requires InText(e)
    ensures r.idx == Min(e.idx + 1, |e.lines[e.line]|)
    ensures InText(r)
    ensures r == e.(idx := r.idx)
  {
    if e.idx < |e.lines[e.line]| then e.(idx := e.idx + 1) else e
  }

  /** Left undoes Right except at the end of the line, Right undoes Left
      except at column 0. */
  lemma LeftRightInverse(e: Editor)
    requires InText(e)
    ensures e.idx < |e.lines[e.line]| ==> Left(Right(e)) == e
    ensures e.idx > 0 ==> Right(Left(e)) == e
    ensures Right(End(e)) == End(e) && Left(Home(e)) == Home(e)
  {
  }

  /** `home`: column 0. */
  function Home(e: Editor): (r: Editor)
    ensures r.idx == 0 && (CursorOk(e) ==> CursorOk(r))
    ensures r == e.(idx := 0)
  {
    e.(idx := 0)
  }

  /** `end`: the end of the line. */
  function End(e: Editor): (r: Editor)
    requires InText(e)
    ensures r.idx == |e.lines[e.line]| && InText(r)
    ensures r == e.(idx := r.idx)
  {
    e.(idx := |e.lines[e.line]|)
  }

  /** `set_pos`: moves the cursor to `(line, col)` as given and changes
      nothing else; the scroll offset is not adjusted. The search keys call
      it with a hit of the search. */
  function SetPos(e: Editor, pos: (nat, nat)): (r: Editor)
    ensures (r.line, r.idx) == pos
    ensures r.(line := e.line, idx := e.idx) == e
  {
    e.(line := pos.0, idx := pos.1)
  }

  /** Moving to where the cursor is changes nothing, the last move wins, and
      the cursor lands inside the text exactly when the position is a column
      of an existing line. */
  lemma SetPosLaws(e: Editor, p: (nat, nat), q: (nat, nat))
    ensures SetPos(e, (e.line, e.idx)) == e
    ensures SetPos(SetPos(e, p), q) == SetPos(e, q)
    ensures InText(SetPos(e, p)) <==> p.0 < |e.lines| && p.1 <= |e.lines[p.0]|
  {
  }

  /** PageUp: `up` repeated `n` times (25 in the source); it moves `n` lines
      up, stopping at the first line. */
  function UpN(e: Editor, lay: Layout, n: nat): (r: Editor)
    requires lay.width > 0 && CursorOk(e)
    ensures CursorOk(r) && r.lines == e.lines
    ensures r.line == if e.line >= n then e.line - n else 0
    ensures r == e.(line := r.line, idx := r.idx, scroll := r.scroll)
    decreases n
  {
    if n == 0 then e else UpN(Up(e, lay), lay, n - 1)
  }

  /** PageDown: `down` repeated `n` times (25 in the source); it moves `n`
      lines down, stopping at the last line. */
  function DownN(e: Editor, lay: Layout, n: nat): (r: Editor)
    requires lay.width > 0 && CursorOk(e) && |e.lines| > 0
    ensures CursorOk(r) && r.lines == e.lines
    ensures r.line == if e.line + n < |e.lines| then e.line + n else |e.lines| - 1
    ensures r == e.(line := r.line, idx := r.idx, scroll := r.scroll)
    decreases n
  {
    if n == 0 then e else DownN(Down(e, lay), lay, n - 1)
  }

  const PAGE: nat := 25
}
