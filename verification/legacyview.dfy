/** The older-generation text view (src/screen/view.rs): the same buffer,
    cursor and scroll design as `MainView`, with its own edge anchoring and
    two editing operations that behave differently. Each operation is written
    out from the older source and then compared with the `MainEdit` model of
    the later view. */
module LegacyView {
  import opened Geometry
  import opened SoftWrap
  import opened Text
  import M = MainEdit

  /** `Pos::unwrap` of this generation does not convert the anchor to the
      terminal's 1-based numbering: `Opposite(v)` is `extent - v`, which must
      not underflow. */
  predicate CanUnwrap(p: Pos, extent: u16)
  {
    p.Opposite? ==> p.v <= extent
  }

  /** `Pos::unwrap`: the payload of a `Fixed` coordinate, or the distance `v`
      back from the far edge `extent` of an `Opposite` one. */
  function Unwrap(p: Pos, extent: u16): (r: u16)
    requires CanUnwrap(p, extent)
    ensures p.Fixed? ==> r == p.v
    ensures p.Opposite? ==> r + p.v == extent
  {
    match p
    case Fixed(v) => v
    case Opposite(v) => extent - v
  }

  /** Wherever the later `Pos::unwrap` is defined, the older one is one less:
      the two generations place the same coordinate one column (or row)
      apart. */
  lemma UnwrapIsResolveLessOne(p: Pos, extent: u16)
    requires CanResolve(p, extent)
    ensures CanUnwrap(p, extent)
    ensures Unwrap(p, extent) + 1 == Resolve(p, extent)
  {
  }

  /** The view's mutable text state: `content`, `curr_line`, `curr_idx` and
      `scroll`. */
  datatype View = View(lines: seq<seq<char>>, line: nat, idx: nat, scroll: nat)

  /** The cursor addresses a position inside the text. */
  predicate InText(v: View)
  {
    v.line < |v.lines| && v.idx <= |v.lines[v.line]|
  }

  /** The same state seen as a later-generation editor in normal mode. */
  function AsEditor(v: View): (e: M.Editor)
    ensures InText(v) <==> M.InText(e)
  {
    M.Editor(v.lines, v.line, v.idx, v.scroll, M.Normal, [], [], 0)
  }

  /** The text state of a later-generation editor. */
  function Of(e: M.Editor): (v: View)
    ensures AsEditor(v) == e.(mode := M.Normal, matches := [], pattern := [], matchIdx := 0)
  {
    View(e.lines, e.line, e.idx, e.scroll)
  }

  /** `View::new`: one empty line, the cursor at its start, not scrolled. */
  function New(): (r: View)
    ensures InText(r) && |r.lines| == 1 && |r.lines[0]| == 0
    ensures r.line == 0 && r.idx == 0 && r.scroll == 0
  {
    View([[]], 0, 0, 0)
  }

  /** The physical row of the cursor counted from the top of the viewport. */
  function CursorRow(v: View, lay: M.Layout): nat
    requires lay.width > 0
  {
    PreAllLines(v.lines, v.scroll, v.line, v.idx, lay.width)
  }

  /** `line_inc`: one line down, scrolling when the cursor row measured before
      the move is within four rows of the bottom. */
  function LineInc(v: View, lay: M.Layout): (r: View)
    requires lay.width > 0
    ensures r.line == v.line + 1 && r.lines == v.lines && r.idx == v.idx
    ensures r.scroll == v.scroll + 1 <==> CursorRow(v, lay) + 4 > lay.height
    ensures r.scroll == v.scroll || r.scroll == v.scroll + 1
  {
    var rows := CursorRow(v, lay);
    v.(scroll := if rows + 4 > lay.height then v.scroll + 1 else v.scroll, line := v.line + 1)
  }

  /** `line_dec`: one line up, scrolling back when the view is scrolled and
      the cursor row is within the top four rows. */
  function LineDec(v: View, lay: M.Layout): (r: View)
    requires lay.width > 0 && v.line > 0
    ensures r.line + 1 == v.line && r.lines == v.lines && r.idx == v.idx
    ensures r.scroll + 1 == v.scroll <==> v.scroll != 0 && CursorRow(v, lay) < 4
    ensures r.scroll == v.scroll || r.scroll + 1 == v.scroll
  {
    if v.scroll != 0 && CursorRow(v, lay) < 4 then v.(scroll := v.scroll - 1, line := v.line - 1)
    else v.(line := v.line - 1)
  }

  /** The scrolling rule of both generations is the same. */
  lemma LineStepsAgree(v: View, lay: M.Layout)
    requires lay.width > 0
    ensures Of(M.LineInc(AsEditor(v), lay)) == LineInc(v, lay)
    ensures v.line > 0 ==> Of(M.LineDec(AsEditor(v), lay)) == LineDec(v, lay)
  {
  }

  /** `push`: inserts `ch` at the cursor and moves past it. The buffer always
      has a line here (`new` creates one), and `insert` panics outside the
      text, hence the requires. */
  function Push(v: View, ch: char): (r: View)
    requires InText(v)
    ensures |r.lines| == |v.lines| && r.line == v.line && r.idx == v.idx + 1 && r.scroll == v.scroll
    ensures r.lines[v.line] == v.lines[v.line][..v.idx] + [ch] + v.lines[v.line][v.idx..]
    ensures forall k :: 0 <= k < |v.lines| && k != v.line ==> r.lines[k] == v.lines[k]
    ensures InText(r)
  {
    v.(lines := v.lines[v.line := InsertAt(v.lines[v.line], v.idx, [ch])], idx := v.idx + 1)
  }

  /** Typing a unit behaves as in the later view. */
  lemma PushAgrees(v: View, ch: char)
    requires InText(v)
    ensures Of(M.Push(AsEditor(v), ch)) == Push(v, ch)
  {
  }

  /** `push_str`: appends `t` to the END of the cursor's line, whatever the
      cursor column, and still advances the column by `|t|`. */
  function PushStr(v: View, t: seq<char>): (r: View)
    requires v.line < |v.lines|
    ensures |r.lines| == |v.lines| && r.line == v.line && r.idx == v.idx + |t| && r.scroll == v.scroll
    ensures r.lines[v.line] == v.lines[v.line] + t
    ensures forall k :: 0 <= k < |v.lines| && k != v.line ==> r.lines[k] == v.lines[k]
    ensures InText(v) ==> InText(r)
  {
    v.(lines := v.lines[v.line := v.lines[v.line] + t], idx := v.idx + |t|)
  }

  /** With the cursor at the end of its line, appending is inserting at the
      cursor, and both generations agree. */
  lemma PushStrAtEndAgrees(v: View, t: seq<char>)
    requires InText(v) && v.idx == |v.lines[v.line]|
    ensures Of(M.PushStr(AsEditor(v), t)) == PushStr(v, t)
  {
    var l := v.lines[v.line];
    assert l[..v.idx] == l && l[v.idx..] == [];
    assert InsertAt(l, v.idx, t) == l + t;
  }

  /** With the cursor at the start of "ab", pasting "x" gives "abx" with the
      cursor after the `a`, where the later view gives "xab" with the cursor
      after the `x`. */
  lemma PushStrMidLine()
    ensures PushStr(View(["ab"], 0, 0, 0), "x") == View(["abx"], 0, 1, 0)
    ensures Of(M.PushStr(AsEditor(View(["ab"], 0, 0, 0)), "x")) == View(["xab"], 0, 1, 0)
  {
    assert InsertAt("ab", 0, "x") == "xab";
    assert "ab" + "x" == "abx";
  }

  /** `push_line` (Enter): the cursor's line is cut at the cursor, the tail
      goes to a new line below, and the cursor moves to its start through
      `line_inc`. */
  function PushLine(v: View, lay: M.Layout): (r: View)
    requires lay.width > 0 && InText(v)
    ensures |r.lines| == |v.lines| + 1 && r.line == v.line + 1 && r.idx == 0
    ensures r.lines[v.line] + r.lines[v.line + 1] == v.lines[v.line] && |r.lines[v.line]| == v.idx
    ensures forall k :: 0 <= k < v.line ==> r.lines[k] == v.lines[k]
    ensures forall k :: v.line < k < |v.lines| ==> r.lines[k + 1] == v.lines[k]
    ensures InText(r)
  {
    var l := v.lines[v.line];
    assert l[..v.idx] + l[v.idx..] == l;
    var split := v.lines[..v.line] + [l[..v.idx], l[v.idx..]] + v.lines[v.line + 1..];
    LineInc(v.(lines := split), lay).(idx := 0)
  }

  /** Enter behaves as in the later view, scroll included. */
  lemma PushLineAgrees(v: View, lay: M.Layout)
    requires lay.width > 0 && InText(v)
    ensures Of(M.PushLine(AsEditor(v), lay)) == PushLine(v, lay)
  {
  }

  /** `delete` (Backspace): at (0, 0) nothing happens; at column 0 of a later
      line that line is REMOVED, its text with it, and the cursor goes to the
      end of the line above (`line_dec` measured before the line number
      drops); otherwise the unit before the cursor is removed. */
  function Delete(v: View, lay: M.Layout): (r: View)
    requires lay.width > 0 && InText(v)
    ensures v.line == 0 && v.idx == 0 ==> r == v
    ensures v.idx == 0 && v.line > 0 ==>
      && r.lines == v.lines[..v.line] + v.lines[v.line + 1..]
      && r.line + 1 == v.line && r.idx == |v.lines[v.line - 1]|
    ensures v.idx > 0 ==>
      && r.lines == v.lines[v.line := RemoveAt(v.lines[v.line], v.idx - 1)]
      && r.line == v.line && r.idx + 1 == v.idx && r.scroll == v.scroll
    ensures InText(r)
  {
    if v.idx == 0 then
      if v.line == 0 then v
      else
        LineDec(v.(lines := v.lines[..v.line] + v.lines[v.line + 1..], idx := |v.lines[v.line - 1]|), lay)
    else
      v.(lines := v.lines[v.line := RemoveAt(v.lines[v.line], v.idx - 1)], idx := v.idx - 1)
  }

  /** Inside a line, and at the very start of the text, Backspace behaves as
      in the later view. */
  lemma DeleteAgreesInLine(v: View, lay: M.Layout)
    requires lay.width > 0 && InText(v) && (v.idx > 0 || v.line == 0)
    ensures Of(M.Delete(AsEditor(v), lay)) == Delete(v, lay)
  {
  }

  /** At the start of a later line, the two generations leave the same lines
      exactly when the line being deleted is empty: otherwise the older view
      loses its text where the later one joins it to the line above. The
      cursor lands at the same place either way. */
  lemma DeleteAtLineStart(v: View, lay: M.Layout)
    requires lay.width > 0 && InText(v) && v.idx == 0 && v.line > 0
    ensures var r, e := Delete(v, lay), M.Delete(AsEditor(v), lay);
      && r.line == e.line && r.idx == e.idx
      && (r.lines == e.lines <==> |v.lines[v.line]| == 0)
  {
    var l := v.line;
    var e := M.Delete(AsEditor(v), lay);
    assert e.lines == v.lines[..l - 1] + [v.lines[l - 1] + v.lines[l]] + v.lines[l + 1..];
    DropVersusJoin(v.lines, l);
  }

  /** Dropping line `l` gives the same lines as joining it onto line `l - 1`
      exactly when it is empty. */
  lemma DropVersusJoin(ls: seq<seq<char>>, l: nat)
    requires 0 < l < |ls|
    ensures ls[..l] + ls[l + 1..] == ls[..l - 1] + [ls[l - 1] + ls[l]] + ls[l + 1..] <==> |ls[l]| == 0
  {
    var dropped, joined := ls[..l] + ls[l + 1..], ls[..l - 1] + [ls[l - 1] + ls[l]] + ls[l + 1..];
    assert dropped[l - 1] == ls[l - 1] && joined[l - 1] == ls[l - 1] + ls[l];
    if |ls[l]| == 0 {
      assert ls[l - 1] + ls[l] == ls[l - 1];
      assert ls[..l] == ls[..l - 1] + [ls[l - 1]];
    }
  }

  /** Enter in the middle of "ab" then Backspace leaves "a": the `b` moved to
      the new line is thrown away, where the later view gives back "ab". */
  lemma EnterThenDeleteLoses(lay: M.Layout)
    requires lay.width > 0
    ensures Delete(PushLine(View(["ab"], 0, 1, 0), lay), lay).lines == ["a"]
    ensures M.Delete(M.PushLine(AsEditor(View(["ab"], 0, 1, 0)), lay), lay).lines == ["ab"]
  {
    var v := View(["ab"], 0, 1, 0);
    var p := PushLine(v, lay);
    assert "ab"[..1] == "a" && "ab"[1..] == "b";
    assert p.lines == ["a", "b"];
    assert p.lines[..1] + p.lines[2..] == ["a"];
    M.EnterThenDelete(AsEditor(v), lay);
  }

  /** `up`: to the line above when there is one, with the column clamped to
      that line's length. */
  function Up(v: View, lay: M.Layout): (r: View)
    requires lay.width > 0 && InText(v)
    ensures v.line == 0 ==> r == v
    ensures v.line > 0 ==> r.line + 1 == v.line && r.idx == (if v.idx > |v.lines[r.line]| then |v.lines[r.line]| else v.idx)
    ensures r.lines == v.lines && InText(r)
  {
    if v.line > 0 then
      var above := |v.lines[v.line - 1]|;
      LineDec(v.(idx := if v.idx > above then above else v.idx), lay)
    else v
  }

  /** `down`: to the line below when there is one, with the column clamped to
      that line's length. */
  function Down(v: View, lay: M.Layout): (r: View)
    requires lay.width > 0 && InText(v)
    ensures v.line + 1 == |v.lines| ==> r == v
    ensures v.line + 1 < |v.lines| ==> r.line == v.line + 1 && r.idx == (if v.idx > |v.lines[r.line]| then |v.lines[r.line]| else v.idx)
    ensures r.lines == v.lines && InText(r)
  {
    if v.line < |v.lines| - 1 then
      var below := |v.lines[v.line + 1]|;
      LineInc(v.(idx := if v.idx > below then below else v.idx), lay)
    else v
  }

  /** `left`: one column left unless at column 0. */
  function Left(v: View): (r: View)
    ensures r.idx == if v.idx > 0 then v.idx - 1 else 0
    ensures InText(v) ==> InText(r)
  {
    if v.idx > 0 then v.(idx := v.idx - 1) else v
  }

  /** `right`: one column right unless at the end of the line. */
  function Right(v: View): (r: View)
    requires v.line < |v.lines|
    ensures r.idx == if v.idx < |v.lines[v.line]| then v.idx + 1 else v.idx
    ensures InText(v) ==> InText(r)
  {
    if v.idx < |v.lines[v.line]| then v.(idx := v.idx + 1) else v
  }

  /** The cursor keys move the cursor as in the later view, scroll included. */
  lemma MovesAgree(v: View, lay: M.Layout)
    requires lay.width > 0 && InText(v)
    ensures Of(M.Up(AsEditor(v), lay)) == Up(v, lay)
    ensures Of(M.Down(AsEditor(v), lay)) == Down(v, lay)
    ensures Of(M.Left(AsEditor(v))) == Left(v)
    ensures Of(M.Right(AsEditor(v))) == Right(v)
  {
    UpAgrees(v, lay);
    DownAgrees(v, lay);
  }

  lemma UpAgrees(v: View, lay: M.Layout)
    requires lay.width > 0 && InText(v)
    ensures Of(M.Up(AsEditor(v), lay)) == Up(v, lay)
  {
  }

  lemma DownAgrees(v: View, lay: M.Layout)
    requires lay.width > 0 && InText(v)
    ensures Of(M.Down(AsEditor(v), lay)) == Down(v, lay)
  {
  }

  /** `set_cursor`: the cursor goes `idx % width` columns right of the text
      origin and down by the cursor row that `line_inc` and `line_dec`
      measure. The `u16` additions must not overflow. */
  method SetCursor(v: View, lay: M.Layout, textX: u16, textY: u16) returns (x: u16, y: u16)
    requires lay.width > 0
    requires textX + v.idx % lay.width < U16_LIMIT
    requires textY + CursorRow(v, lay) < U16_LIMIT
    ensures x - textX == v.idx % lay.width && x - textX < lay.width
    ensures y - textY == CursorRow(v, lay)
    ensures y - textY == TotalRows(Window(v.lines, v.scroll, v.line), lay.width) + v.idx / lay.width
  {
    PreAllLinesSpec(v.lines, v.scroll, v.line, v.idx, lay.width);
    x, y := PlaceCursor(v.lines, v.scroll, v.line, v.idx, lay.width, textX, textY);
  }
}
