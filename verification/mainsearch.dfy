/** Search and replace in `MainView` (the Ctrl+f branches of `normal_mode`
    and `search_mode` in src/view/mainview.rs). The pattern and the
    replacement are what the pop-up box returns; the pop-up itself and the
    status messages are not modelled. */
module MainSearch {
  import opened Wrappers
  import opened TextSearch
  import opened MainEdit

  /** The search-mode state the view relies on: a non-empty pattern whose hit
      list is the current one and non-empty, a selected hit inside it, and the
      cursor on one of the hits. */
  predicate SearchOk(e: Editor)
  {
    e.mode == Search ==>
      && |e.pattern| > 0
      && e.matches == FindAll(e.lines, e.pattern)
      && |e.matches| > 0
      && e.matchIdx < |e.matches|
      && (e.line, e.idx) in e.matches
  }

  /** A cursor on a hit is inside the text with the whole hit after it. */
  lemma OnHitInText(e: Editor)
    requires e.mode == Search && SearchOk(e)
    ensures InText(e) && e.idx + |e.pattern| <= |e.lines[e.line]|
    ensures e.lines[e.line][e.idx..e.idx + |e.pattern|] == e.pattern
  {
    FindAllSound(e.lines, e.pattern, (e.line, e.idx));
  }

  /** Ctrl+f in normal mode as written: an empty reply does nothing; otherwise
      the pattern is stored and, when it has hits, the view enters search mode
      and jumps to hit `search_idx`, the index left over from the previous
      search. When that index is past the new hit list the indexing panics
      (`None`). */
  function EnterSearchAsWritten(e: Editor, reply: seq<char>): (r: Option<Editor>)
    ensures |reply| == 0 ==> r == Some(e)
    ensures |reply| > 0 && |FindAll(e.lines, reply)| == 0 ==> r == Some(e.(pattern := reply))
    ensures r.None? <==> |reply| > 0 && 0 < |FindAll(e.lines, reply)| <= e.matchIdx
  {
    if |reply| == 0 then Some(e)
    else
      var m := FindAll(e.lines, reply);
      if |m| == 0 then Some(e.(pattern := reply))
      else if e.matchIdx >= |m| then None
      else Some(SetPos(e.(pattern := reply, matches := m, mode := Search), m[e.matchIdx]))
  }

  /** The hit to select in a new hit list `m`: the current selection when it is
      still in range, else the first hit. */
  function Reselect(k: nat, m: seq<(nat, nat)>): (j: nat)
    requires |m| > 0
    ensures j < |m|
    ensures k < |m| ==> j == k
  {
    if k < |m| then k else 0
  }

  /** Ctrl+f in normal mode with the selection kept in range: as written, but a
      stale `search_idx` falls back to the first hit instead of panicking. */
  function EnterSearch(e: Editor, reply: seq<char>): (r: Editor)
    requires e.mode == Normal
    ensures |reply| == 0 ==> r == e
    ensures |reply| > 0 && |FindAll(e.lines, reply)| == 0 ==> r == e.(pattern := reply)
    ensures |reply| > 0 && |FindAll(e.lines, reply)| > 0 ==>
      && r.mode == Search && r.lines == e.lines && r.pattern == reply
      && r.matches == FindAll(e.lines, reply)
      && r.matchIdx < |r.matches|
      && (r.line, r.idx) == r.matches[r.matchIdx]
    ensures SearchOk(r)
  {
    if |reply| == 0 then e
    else
      var m := FindAll(e.lines, reply);
      if |m| == 0 then e.(pattern := reply)
      else
        var k := Reselect(e.matchIdx, m);
        SetPos(e.(pattern := reply, matches := m, mode := Search, matchIdx := k), m[k])
  }

  /** Whenever the code as written does not panic, the corrected entry does
      the same thing. */
  lemma EnterSearchAgrees(e: Editor, reply: seq<char>)
    requires e.mode == Normal
    requires EnterSearchAsWritten(e, reply).Some?
    ensures EnterSearchAsWritten(e, reply).value == EnterSearch(e, reply)
  {
  }

  /** `s` with `[start, end)` replaced by `t` (`replace_range`). */
  function Splice(s: seq<char>, start: nat, end: nat, t: seq<char>): (r: seq<char>)
    requires start <= end <= |s|
    ensures |r| == |s| - (end - start) + |t|
    ensures r[..start] == s[..start] && r[start..start + |t|] == t && r[start + |t|..] == s[end..]
  {
    s[..start] + t + s[end..]
  }

  /** Replacing the replacement by the original text undoes a splice. */
  lemma SpliceUndo(s: seq<char>, start: nat, end: nat, t: seq<char>)
    requires start <= end <= |s|
    ensures Splice(Splice(s, start, end, t), start, start + |t|, s[start..end]) == s
  {
    assert s[..start] + s[start..end] + s[end..] == s;
  }

  /** The lines after replacing the pattern at the cursor by `reply`. */
  function ReplaceAtCursor(e: Editor, reply: seq<char>): seq<seq<char>>
    requires e.line < |e.lines| && e.idx + |e.pattern| <= |e.lines[e.line]|
  {
    e.lines[e.line := Splice(e.lines[e.line], e.idx, e.idx + |e.pattern|, reply)]
  }

  /** Ctrl+f in search mode as written: an empty reply does nothing; otherwise
      `[curr_idx, curr_idx + |search_str|)` of the cursor's line is replaced
      (panicking, `None`, when that range leaves the line) and the whole
      buffer is rescanned; a non-empty rescan becomes the hit list, an empty
      one returns to normal mode. The cursor and `search_idx` are left where
      they were. */
  function ReplaceAsWritten(e: Editor, reply: seq<char>): (r: Option<Editor>)
    requires |e.pattern| > 0
    ensures |reply| == 0 ==> r == Some(e)
    ensures r.None? <==> |reply| > 0 && !(e.line < |e.lines| && e.idx + |e.pattern| <= |e.lines[e.line]|)
    ensures r.Some? && |reply| > 0 ==> r.value.line == e.line && r.value.idx == e.idx && r.value.matchIdx == e.matchIdx
  {
    if |reply| == 0 then Some(e)
    else if !(e.line < |e.lines| && e.idx + |e.pattern| <= |e.lines[e.line]|) then None
    else
      var lines := ReplaceAtCursor(e, reply);
      var m := FindAll(lines, e.pattern);
      if |m| > 0 then Some(e.(lines := lines, matches := m))
      else Some(e.(lines := lines, mode := Normal))
  }

  /** Ctrl+f in search mode with the cursor kept on a hit: as written, but
      after a non-empty rescan the selection is kept in range and the cursor
      moves to the selected hit, so the next replacement again rewrites an
      occurrence of the pattern. */
  function Replace(e: Editor, reply: seq<char>): (r: Editor)
    requires e.mode == Search && SearchOk(e)
    requires InText(e) && e.idx + |e.pattern| <= |e.lines[e.line]|
    ensures |reply| == 0 ==> r == e
    ensures |reply| > 0 ==>
      && r.lines == ReplaceAtCursor(e, reply)
      && r.lines[e.line][e.idx..e.idx + |reply|] == reply
      && |r.lines| == |e.lines|
      && (forall k :: 0 <= k < |e.lines| && k != e.line ==> r.lines[k] == e.lines[k])
      && (r.mode == Normal <==> |FindAll(r.lines, e.pattern)| == 0)
    ensures SearchOk(r) && CursorOk(r)
  {
    OnHitInText(e);
    if |reply| == 0 then e
    else
      var lines := ReplaceAtCursor(e, reply);
      var m := FindAll(lines, e.pattern);
      if |m| > 0 then
        var k := Reselect(e.matchIdx, m);
        FindAllSound(lines, e.pattern, m[k]);
        SetPos(e.(lines := lines, matches := m, matchIdx := k), m[k])
      else
        e.(lines := lines, mode := Normal)
  }

  /** The first replacement from a valid search state rewrites the same text,
      builds the same hit list and picks the same mode in both versions; they
      differ only in where the cursor is left. */
  lemma ReplaceAgreesOnText(e: Editor, reply: seq<char>)
    requires e.mode == Search && SearchOk(e)
    requires InText(e) && e.idx + |e.pattern| <= |e.lines[e.line]|
    ensures ReplaceAsWritten(e, reply).Some?
    ensures var w := ReplaceAsWritten(e, reply).value;
      var c := Replace(e, reply);
      w.lines == c.lines && w.mode == c.mode && w.matches == c.matches
  {
  }

  /** Enter in search mode: back to normal mode, cursor where it is. */
  function LeaveSearch(e: Editor): (r: Editor)
    ensures r.mode == Normal && r == e.(mode := Normal)
  {
    e.(mode := Normal)
  }

  /** Up/PageUp/Left in search mode: select the previous hit (wrapping to the
      last) and move the cursor there. */
  function SearchPrev(e: Editor): (r: Editor)
    requires |e.matches| > 0
    ensures r.matchIdx == Prev(e.matchIdx, |e.matches|)
    ensures (r.line, r.idx) == e.matches[r.matchIdx]
    ensures r == e.(matchIdx := r.matchIdx, line := r.line, idx := r.idx)
  {
    var k := Prev(e.matchIdx, |e.matches|);
    SetPos(e.(matchIdx := k), e.matches[k])
  }

  /** Down/PageDown/Right in search mode: select the next hit (wrapping to the
      first) and move the cursor there. */
  function SearchNext(e: Editor): (r: Editor)
    requires |e.matches| > 0
    ensures r.matchIdx == Next(e.matchIdx, |e.matches|)
    ensures (r.line, r.idx) == e.matches[r.matchIdx]
    ensures r == e.(matchIdx := r.matchIdx, line := r.line, idx := r.idx)
  {
    var k := Next(e.matchIdx, |e.matches|);
    SetPos(e.(matchIdx := k), e.matches[k])
  }

  /** Home in search mode: the cursor goes to the first hit; the selection is
      not changed. */
  function SearchHome(e: Editor): (r: Editor)
    requires |e.matches| > 0
    ensures (r.line, r.idx) == e.matches[0] && r.matchIdx == e.matchIdx
    ensures r == e.(line := r.line, idx := r.idx)
  {
    SetPos(e, e.matches[0])
  }

  /** End in search mode: the cursor goes to the last hit; the selection is
      not changed. */
  function SearchEnd(e: Editor): (r: Editor)
    requires |e.matches| > 0
    ensures (r.line, r.idx) == e.matches[|e.matches| - 1] && r.matchIdx == e.matchIdx
    ensures r == e.(line := r.line, idx := r.idx)
  {
    SetPos(e, e.matches[|e.matches| - 1])
  }

  /** Stepping through the hits keeps the search state valid; Next undoes
      Prev and the other way round; Home and End reach the earliest and the
      latest hit in the buffer. */
  lemma SearchStepsKeepState(e: Editor)
    requires e.mode == Search && SearchOk(e)
    ensures SearchOk(SearchPrev(e)) && SearchOk(SearchNext(e))
    ensures SearchOk(SearchHome(e)) && SearchOk(SearchEnd(e))
    ensures forall q :: q in e.matches && q != e.matches[0] ==> Before((SearchHome(e).line, SearchHome(e).idx), q)
    ensures forall q :: q in e.matches && q != e.matches[|e.matches| - 1] ==> Before(q, (SearchEnd(e).line, SearchEnd(e).idx))
    ensures SearchNext(SearchPrev(e)).matchIdx == e.matchIdx
    ensures SearchPrev(SearchNext(e)).matchIdx == e.matchIdx
  {
    NextPrevInverse(e.matchIdx, |e.matches|);
    FindAllSpec(e.lines, e.pattern);
  }

  /** A stale selection makes entering search panic: three hits of "ab" in
      "ab ab ab", two steps forward, back to normal mode, then a search for
      "ab a", which has a single hit. */
  lemma StaleSelectionPanics()
    ensures var e0 := Editor(["ab ab ab"], 0, 0, 0, Normal, [], [], 0);
      var e1 := EnterSearch(e0, "ab");
      && e1.matches == [(0, 0), (0, 3), (0, 6)]
      && |e1.matches| > 0
      && var e2 := LeaveSearch(SearchNext(SearchNext(e1)));
      && e2.matchIdx == 2
      && FindAll(e2.lines, "ab a") == [(0, 0)]
      && EnterSearchAsWritten(e2, "ab a").None?
      && EnterSearch(e2, "ab a").mode == Search
  {
    ThreeHits();
    OneLongHit();
  }

  lemma ThreeHits()
    ensures MatchIndices("ab ab ab", "ab") == [0, 3, 6]
  {
    var s: seq<char> := "ab ab ab";
    assert MatchFrom(s, "ab", 8) == [];
    assert OccursAt(s, "ab", 6);
    assert MatchFrom(s, "ab", 6) == [6];
    FirstUnitDiffers(s, "ab", 5);
    FirstUnitDiffers(s, "ab", 4);
    assert OccursAt(s, "ab", 3);
    assert MatchFrom(s, "ab", 3) == [3, 6];
    FirstUnitDiffers(s, "ab", 2);
    assert OccursAt(s, "ab", 0);
  }

  lemma OneLongHit()
    ensures MatchIndices("ab ab ab", "ab a") == [0]
  {
    var s: seq<char> := "ab ab ab";
    assert MatchFrom(s, "ab a", 5) == [];
    FirstUnitDiffers(s, "ab a", 4);
    assert OccursAt(s, "ab a", 0);
  }

  /** Two replacements in a row overrun the line: in "abab" with the second hit
      selected, replacing "ab" by "x" leaves the cursor at column 2 of "abx",
      which is no longer a hit, and a second replacement asks for
      `[2, 4)` of a 3-unit line and panics. */
  lemma SecondReplacePanics()
    ensures var e0 := Editor(["abab"], 0, 0, 0, Normal, [], [], 0);
      var e1 := SearchNext(EnterSearch(e0, "ab"));
      && e1.matches == [(0, 0), (0, 2)]
      && (e1.line, e1.idx) == (0, 2)
      && var w := ReplaceAsWritten(e1, "x");
      && w == Some(e1.(lines := ["abx"], matches := [(0, 0)]))
      && !SearchOk(w.value)
      && ReplaceAsWritten(w.value, "y").None?
      && var c := Replace(e1, "x");
      && (c.line, c.idx) == (0, 0) && c.matchIdx == 0
      && Replace(c, "y").lines == ["yx"]
  {
    var s: seq<char> := "abab";
    TwoHits();
    var e0 := Editor([s], 0, 0, 0, Normal, [], [], 0);
    var e1 := SearchNext(EnterSearch(e0, "ab"));
    assert e1 == Editor([s], 0, 2, 0, Search, [(0, 0), (0, 2)], "ab", 1);
    var t: seq<char> := "abx";
    assert Splice(s, 2, 4, "x") == t;
    OneShortHit();
    assert ReplaceAtCursor(e1, "x") == [t];
    var w := ReplaceAsWritten(e1, "x");
    assert w == Some(e1.(lines := [t], matches := [(0, 0)]));
    assert (0, 2) !in [(0, 0)];
    var c := Replace(e1, "x");
    assert c == e1.(lines := [t], matches := [(0, 0)], matchIdx := 0, line := 0, idx := 0);
    assert Splice(t, 0, 2, "y") == "yx";
  }

  lemma TwoHits()
    ensures FindAll(["abab"], "ab") == [(0, 0), (0, 2)]
  {
    var s: seq<char> := "abab";
    assert MatchFrom(s, "ab", 4) == [];
    assert OccursAt(s, "ab", 2);
    assert MatchFrom(s, "ab", 2) == [2];
    FirstUnitDiffers(s, "ab", 1);
    assert OccursAt(s, "ab", 0);
    assert MatchIndices(s, "ab") == [0, 2];
    assert FindFrom([s], "ab", 1) == [];
    assert Tag(0, [0, 2]) == [(0, 0), (0, 2)];
  }

  lemma OneShortHit()
    ensures FindAll(["abx"], "ab") == [(0, 0)]
  {
    var t: seq<char> := "abx";
    assert MatchFrom(t, "ab", 2) == [];
    assert OccursAt(t, "ab", 0);
    assert MatchIndices(t, "ab") == [0];
    assert FindFrom([t], "ab", 1) == [];
    assert Tag(0, [0]) == [(0, 0)];
  }
}
