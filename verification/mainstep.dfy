/** Key dispatch of `MainView` (`matchar`, `normal_mode`, `search_mode` in
    src/view/mainview.rs) over the corrected search entry and replacement,
    and the state invariant every key press keeps. */
module MainStep {
  import opened Wrappers
  import opened TextSearch
  import opened MainEdit
  import opened MainSearch

  /** The keys the view reacts to. `CtrlF` carries the text typed into the
      pop-up box it opens; Enter and Tab arrive as `Char('\r')` and
      `Char('\t')`. Keys handled outside the modelled core are `Other`. */
  datatype Key =
    | Char(c: char)
    | Delete | Up | Down | Left | Right | Home | End | PageUp | PageDown
    | CtrlF(reply: seq<char>)
    | Other

  /** The view's invariant: a valid cursor, and a valid search state while
      searching. */
  predicate Valid(e: Editor)
  {
    CursorOk(e) && SearchOk(e)
  }

  /** Normal-mode keys whose handler indexes the cursor's line (or takes
      `content.len() - 1`), which panics on an empty buffer. */
  predicate ReadsLine(k: Key)
  {
    k == Char('\r') || k == Char('\t') || k.Right? || k.End? || k.Down? || k.PageDown?
  }

  const TAB: seq<char> := "    "

  lemma SearchCursor(e: Editor)
    requires SearchOk(e) && (e.mode == Normal ==> CursorOk(e))
    ensures CursorOk(e)
  {
    if e.mode == Search {
      OnHitInText(e);
    }
  }

  /** Normal-mode keys, with the empty buffer handled: Enter and Tab first
      give an empty buffer its line, as `push` does for a typed character;
      Right, End, Down and PageDown leave an empty buffer alone. */
  function NormalKey(e: Editor, lay: Layout, key: Key): (r: Editor)
    requires lay.width > 0 && e.mode == Normal && CursorOk(e)
    ensures Valid(r)
    ensures !key.CtrlF? ==> r.mode == Normal
    ensures |e.lines| == 0 && (key.Right? || key.End? || key.Down? || key.PageDown?) ==> r == e
    ensures |e.lines| == 0 && key == Char('\r') ==> r.lines == [[], []] && r.line == 1 && r.idx == 0
    ensures |e.lines| == 0 && key == Char('\t') ==> r.lines == [TAB] && r.idx == |TAB|
  {
    if |e.lines| == 0 && ReadsLine(key) then
      if key == Char('\r') || key == Char('\t') then
        var one: seq<char> := [];
        assert one[..0] + TAB + one[0..] == TAB;
        LineKey(e.(lines := [one]), lay, key)
      else e
    else if ReadsLine(key) then LineKey(e, lay, key)
    else
      match key
      case CtrlF(reply) =>
        var r := EnterSearch(e, reply);
        SearchCursor(r);
        r
      case Char(c) => Push(e, c)
      case Delete => MainEdit.Delete(e, lay)
      case Up => MainEdit.Up(e, lay)
      case Left => MainEdit.Left(e)
      case Home => MainEdit.Home(e)
      case PageUp => UpN(e, lay, PAGE)
      case _ => e
  }

  /** The normal-mode keys that index the cursor's line, on a buffer that has
      one. */
  function LineKey(e: Editor, lay: Layout, key: Key): (r: Editor)
    requires lay.width > 0 && e.mode == Normal && CursorOk(e) && |e.lines| > 0 && ReadsLine(key)
    ensures Valid(r) && r.mode == Normal
  {
    match key
    case Right => MainEdit.Right(e)
    case End => MainEdit.End(e)
    case Down => MainEdit.Down(e, lay)
    case PageDown => DownN(e, lay, PAGE)
    case _ => if key == Char('\r') then PushLine(e, lay) else PushStr(e, TAB)
  }

  /** `normal_mode` as written: the keys that index the cursor's line panic
      (`None`) on an empty buffer; elsewhere it is the corrected dispatch. */
  function NormalKeyAsWritten(e: Editor, lay: Layout, key: Key): (r: Option<Editor>)
    requires lay.width > 0 && e.mode == Normal && CursorOk(e)
    ensures r.None? <==> |e.lines| == 0 && ReadsLine(key)
    ensures r.Some? ==> Valid(r.value)
  {
    if |e.lines| == 0 && ReadsLine(key) then None else Some(NormalKey(e, lay, key))
  }

  /** On an empty buffer, Enter panics where a typed character does not; the
      corrected dispatch gives the buffer its line and splits it. */
  lemma EmptyBufferEnterPanics(lay: Layout)
    requires lay.width > 0
    ensures var e := Editor([], 0, 0, 0, Normal, [], [], 0);
      && Valid(e)
      && NormalKeyAsWritten(e, lay, Char('a')).Some?
      && NormalKeyAsWritten(e, lay, Char('\r')).None?
      && NormalKey(e, lay, Char('\r')).lines == [[], []]
  {
  }

  /** Search-mode keys. */
  function SearchKey(e: Editor, key: Key): (r: Editor)
    requires e.mode == Search && SearchOk(e)
    ensures Valid(r)
  {
    OnHitInText(e);
    SearchStepsKeepState(e);
    var r := match key
      case CtrlF(reply) => Replace(e, reply)
      case Char(c) => if c == '\r' then LeaveSearch(e) else e
      case Up => SearchPrev(e)
      case PageUp => SearchPrev(e)
      case Left => SearchPrev(e)
      case Down => SearchNext(e)
      case PageDown => SearchNext(e)
      case Right => SearchNext(e)
      case Home => SearchHome(e)
      case End => SearchEnd(e)
      case _ => e;
    SearchCursor(r);
    r
  }

  /** `matchar`: dispatch on the mode. Every key keeps the invariant. */
  function Step(e: Editor, lay: Layout, key: Key): (r: Editor)
    requires lay.width > 0 && Valid(e)
    ensures Valid(r)
    ensures e.mode == Normal && !key.CtrlF? ==> r.mode == Normal
    ensures e.mode == Search && !key.CtrlF? ==> r.lines == e.lines
  {
    match e.mode
    case Normal => NormalKey(e, lay, key)
    case Search => SearchKey(e, key)
  }

  /** Keys pressed one after another. */
  function Run(e: Editor, lay: Layout, keys: seq<Key>): (r: Editor)
    requires lay.width > 0 && Valid(e)
    ensures Valid(r)
    ensures |e.lines| > 0 ==> |r.lines| > 0
    decreases |keys|
  {
    if |keys| == 0 then e
    else
      var next := Step(e, lay, keys[0]);
      assert |e.lines| > 0 ==> |next.lines| > 0 by {
        if |e.lines| > 0 { StepKeepsLines(e, lay, keys[0]); }
      }
      Run(next, lay, keys[1..])
  }

  /** No key empties a non-empty buffer, so the keys that index the cursor's
      line never meet an empty buffer once the buffer has a line. */
  lemma StepKeepsLines(e: Editor, lay: Layout, key: Key)
    requires lay.width > 0 && Valid(e) && |e.lines| > 0
    ensures |Step(e, lay, key).lines| > 0
  {
    if e.mode == Normal && key.Delete? && e.idx == 0 && e.line > 0 {
      assert |Step(e, lay, key).lines| == |e.lines| - 1;
    }
  }

  /** Without Ctrl+f a run of keys that starts in normal mode stays in normal
      mode. */
  lemma {:induction false} RunStaysNormal(e: Editor, lay: Layout, keys: seq<Key>)
    requires lay.width > 0 && Valid(e) && |e.lines| > 0 && e.mode == Normal
    requires forall k :: 0 <= k < |keys| ==> !keys[k].CtrlF?
    ensures Run(e, lay, keys).mode == Normal
    decreases |keys|
  {
    if |keys| > 0 {
      StepKeepsLines(e, lay, keys[0]);
      RunStaysNormal(Step(e, lay, keys[0]), lay, keys[1..]);
    }
  }
}
