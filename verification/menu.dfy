/** The command bar at the top of the screen (src/view/menu.rs): while
    focused it edits a command line and runs it on Enter; otherwise it shows
    the last message sent to it. Colours and escape sequences are left out;
    the bar's visible characters are kept. */
module Menu {
  import opened Wrappers
  import opened Geometry
  import opened LineEdit

  /** `offset`, set by `init`: the run of rule characters on each side. */
  const OFFSET: nat := 15

  /** `max as usize - 2 * offset - 4` as written: the longest command the
      bar accepts; the subtraction panics (`None`) on a bar narrower than 34
      columns. */
  function InputCapAsWritten(max: nat): (r: Option<nat>)
    ensures r.None? <==> max < 2 * OFFSET + 4
    ensures r.Some? ==> r.value + 2 * OFFSET + 4 == max
  {
    if max < 2 * OFFSET + 4 then None else Some(max - 2 * OFFSET - 4)
  }

  /** The longest command the bar accepts: the columns left after the two
      rules and the prompt, and none on a bar too narrow for them. */
  function InputCap(max: nat): (cap: nat)
    ensures max >= 2 * OFFSET + 4 ==> cap + 2 * OFFSET + 4 == max
    ensures max < 2 * OFFSET + 4 ==> cap == 0
  {
    if max < 2 * OFFSET + 4 then 0 else max - 2 * OFFSET - 4
  }

  /** `char::is_whitespace`: the Unicode White_Space characters. */
  predicate IsWhite(c: char)
  {
    || ('\t' <= c <= '\r') || c == ' ' || c == '\U{85}' || c == '\U{A0}' || c == '\U{1680}'
    || ('\U{2000}' <= c <= '\U{200A}') || c == '\U{2028}' || c == '\U{2029}' || c == '\U{202F}'
    || c == '\U{205F}' || c == '\U{3000}'
  }

  predicate AllWhite(s: seq<char>)
  {
    forall k :: 0 <= k < |s| ==> IsWhite(s[k])
  }

  function TrimStart(s: seq<char>): seq<char>
  {
    if |s| > 0 && IsWhite(s[0]) then TrimStart(s[1..]) else s
  }

  function TrimEnd(s: seq<char>): seq<char>
  {
    if |s| > 0 && IsWhite(s[|s| - 1]) then TrimEnd(s[..|s| - 1]) else s
  }

  /** `str::trim`. */
  function Trim(s: seq<char>): seq<char>
  {
    TrimEnd(TrimStart(s))
  }

  lemma {:induction false} TrimStartSpec(s: seq<char>)
    ensures |TrimStart(s)| <= |s|
    ensures |TrimStart(s)| > 0 ==> !IsWhite(TrimStart(s)[0])
    ensures AllWhite(s[..|s| - |TrimStart(s)|]) && TrimStart(s) == s[|s| - |TrimStart(s)|..]
    decreases |s|
  {
    if |s| > 0 && IsWhite(s[0]) {
      TrimStartSpec(s[1..]);
      var n := |s| - |TrimStart(s)|;
      forall k | 0 <= k < n
        ensures IsWhite(s[..n][k])
      {
        if k > 0 { assert s[..n][k] == s[1..][..n - 1][k - 1]; }
      }
    }
  }

  lemma {:induction false} TrimEndSpec(s: seq<char>)
    ensures |TrimEnd(s)| <= |s|
    ensures |TrimEnd(s)| > 0 ==> !IsWhite(TrimEnd(s)[|TrimEnd(s)| - 1])
    ensures AllWhite(s[|TrimEnd(s)|..]) && TrimEnd(s) == s[..|TrimEnd(s)|]
    decreases |s|
  {
    if |s| > 0 && IsWhite(s[|s| - 1]) {
      var init := s[..|s| - 1];
      TrimEndSpec(init);
      var n := |TrimEnd(s)|;
      forall k | 0 <= k < |s| - n
        ensures IsWhite(s[n..][k])
      {
        if n + k < |s| - 1 { assert s[n..][k] == init[n..][k]; }
      }
    }
  }

  /** The trimmed command has no white space at either end and is what is
      left of the input once leading and trailing white space is cut off. */
  lemma TrimSpec(s: seq<char>)
    ensures var t := Trim(s);
      && (|t| > 0 ==> !IsWhite(t[0]) && !IsWhite(t[|t| - 1]))
      && exists a: nat, b: nat :: a <= b <= |s| && t == s[a..b] && AllWhite(s[..a]) && AllWhite(s[b..])
  {
    TrimStartSpec(s);
    var u := TrimStart(s);
    var a := |s| - |u|;
    TrimEndSpec(u);
    var t := TrimEnd(u);
    var b := a + |t|;
    assert t == s[a..b];
    assert AllWhite(s[b..]) by {
      assert s[b..] == u[|t|..];
    }
    if |t| > 0 {
      assert t[0] == u[0];
    }
  }

  /** Padding and a command with no white space at its ends: the command bar
      accepts the words whatever blanks surround them. */
  lemma {:induction false} TrimPadded(pre: seq<char>, t: seq<char>, post: seq<char>)
    requires AllWhite(pre) && AllWhite(post)
    requires |t| > 0 && !IsWhite(t[0]) && !IsWhite(t[|t| - 1])
    ensures Trim(pre + t + post) == t
  {
    StartPadded(pre, t + post);
    assert pre + t + post == pre + (t + post);
    EndPadded(t, post);
  }

  lemma {:induction false} StartPadded(pre: seq<char>, t: seq<char>)
    requires AllWhite(pre) && |t| > 0 && !IsWhite(t[0])
    ensures TrimStart(pre + t) == t
    decreases |pre|
  {
    if |pre| > 0 {
      assert (pre + t)[1..] == pre[1..] + t;
      StartPadded(pre[1..], t);
    }
  }

  lemma {:induction false} EndPadded(t: seq<char>, post: seq<char>)
    requires AllWhite(post) && |t| > 0 && !IsWhite(t[|t| - 1])
    ensures TrimEnd(t + post) == t
    decreases |post|
  {
    if |post| > 0 {
      assert (t + post)[..|t + post| - 1] == t + post[..|post| - 1];
      EndPadded(t, post[..|post| - 1]);
    }
  }

  /** Requests the bar makes of the rest of the program. */
  datatype Op = Quit | Save

  /** What `exec` produces: requests, and the message it sends to the bar. */
  datatype Outcome = Outcome(ops: seq<Op>, message: Option<seq<char>>)

  /** `exec`: run the trimmed command. `quit` asks to quit; `save` saves when
      the current buffer has a name and otherwise points at Ctrl+s; anything
      else is reported as unknown (the source's spelling is kept). The input
      is cleared either way. */
  function Exec(li: Input, name: seq<char>): (r: (Input, Outcome))
    ensures r.0 == Empty
    ensures (Quit in r.1.ops) <==> Trim(li.text) == "quit"
    ensures (Save in r.1.ops) <==> Trim(li.text) == "save" && |name| > 0
    ensures r.1.message.None? <==> Trim(li.text) == "quit"
  {
    var cmd := Trim(li.text);
    var out :=
      if cmd == "quit" then Outcome([Quit], None)
      else if cmd == "save" then
        (if |name| > 0 then Outcome([Save], Some("File \"" + name + "\" Saved"))
         else Outcome([], Some("Use <Ctrl+s>")))
      else Outcome([], Some("Unkonwn Command: `" + cmd + "`"));
    (Empty, out)
  }

  /** Typed with blanks around it, `quit` is still recognised. */
  lemma QuitWithBlanks(pre: seq<char>, post: seq<char>, idx: nat, name: seq<char>)
    requires AllWhite(pre) && AllWhite(post)
    ensures Quit in Exec(Input(pre + "quit" + post, idx), name).1.ops
  {
    TrimPadded(pre, "quit", post);
  }

  /** `matchar`: Enter runs the command; the other keys edit it, and a bar
      too narrow for a command accepts no typed character. */
  function MenuKey(li: Input, key: Key, max: nat, name: seq<char>): (r: (Input, Option<Outcome>))
    requires InputOk(li)
    ensures InputOk(r.0)
    ensures key == Char('\r') <==> r.1.Some?
    ensures key != Char('\r') ==> r.0 == Edit(li, key, InputCap(max))
    ensures max < 2 * OFFSET + 4 && key.Char? && key.c != '\r' ==> r == (li, None)
  {
    if key == Char('\r') then
      var (li', out) := Exec(li, name);
      (li', Some(out))
    else (Edit(li, key, InputCap(max)), None)
  }

  /** `matchar` as written. The cap is computed only for a typed character,
      and panics (`None`) on a bar narrower than 34 columns; Backspace on a
      non-empty command decrements `input_idx` first, and panics (`None`) at
      index 0. Every other key is the corrected handler. */
  function MenuKeyAsWritten(li: Input, key: Key, max: nat, name: seq<char>): (r: Option<(Input, Option<Outcome>)>)
    requires InputOk(li)
    ensures r.None? <==>
      || (key.Char? && key.c != '\r' && InputCapAsWritten(max).None?)
      || (key == Delete && DeleteBackAsWritten(li).None?)
    ensures r.None? <==>
      || (key.Char? && key.c != '\r' && max < 2 * OFFSET + 4)
      || (key == Delete && |li.text| > 0 && li.idx == 0)
    ensures r.Some? ==> r.value == MenuKey(li, key, max, name)
  {
    if key.Char? && key.c != '\r' && max < 2 * OFFSET + 4 then None
    else if key == Delete then
      match DeleteBackAsWritten(li)
      case None => None
      case Some(li') => Some((li', None))
    else Some(MenuKey(li, key, max, name))
  }

  /** Wherever the source computes the cap, it is the corrected cap. */
  lemma InputCapAgrees(max: nat)
    requires InputCapAsWritten(max).Some?
    ensures InputCapAsWritten(max) == Some(InputCap(max))
  {
  }

  /** Typing into a bar 20 columns wide panics; the corrected bar
      ignores the key. */
  lemma NarrowBarTypingPanics(name: seq<char>)
    ensures MenuKeyAsWritten(Empty, Char('a'), 20, name).None?
    ensures MenuKey(Empty, Char('a'), 20, name) == (Empty, None)
  {
  }

  /** Backspace at the start of a non-empty command panics on a bar of any
      width; the corrected bar leaves the command alone. */
  lemma MenuBackspaceAtStartPanics(name: seq<char>)
    ensures MenuKeyAsWritten(Input("a", 0), Delete, 100, name).None?
    ensures MenuKey(Input("a", 0), Delete, 100, name) == (Input("a", 0), None)
  {
  }

  /** `update`'s input side: while focused, a message received by the bar is
      appended to the command and the cursor moves on by its length; the
      text shown is the command, or else the message (or the help hint). */
  function Update(li: Input, focused: bool, recv: Option<seq<char>>): (r: (Input, seq<char>))
    requires InputOk(li)
    ensures InputOk(r.0)
    ensures focused ==> r.1 == r.0.text
    ensures focused && recv.Some? ==> r.0.text == li.text + recv.value && r.0.idx == li.idx + |recv.value|
    ensures focused && recv.None? ==> r.0 == li
    ensures !focused ==> r.0 == li && r.1 == if recv.Some? then recv.value else "Press <F1> for help"
  {
    if focused then
      var got := if recv.Some? then recv.value else [];
      var li' := Input(li.text + got, li.idx + |got|);
      (li', li'.text)
    else (li, if recv.Some? then recv.value else "Press <F1> for help")
  }

  /** The message `exec` sends is received by the bar itself; when the bar is
      still focused it lands in the command line. */
  lemma UnknownCommandEchoes(li: Input, name: seq<char>)
    requires Trim(li.text) != "quit" && Trim(li.text) != "save"
    ensures var (li', out) := Exec(li, name);
      Update(li', true, out.message).0 == Input("Unkonwn Command: `" + Trim(li.text) + "`", 19 + |Trim(li.text)|)
  {
  }

  function Spaces(n: nat): (s: seq<char>)
    ensures |s| == n && forall k :: 0 <= k < n ==> s[k] == ' '
  {
    if n == 0 then [] else Spaces(n - 1) + [' ']
  }

  function Repeat(c: char, n: nat): (s: seq<char>)
    ensures |s| == n && forall k :: 0 <= k < n ==> s[k] == c
  {
    if n == 0 then [] else Repeat(c, n - 1) + [c]
  }

  /** `{:<width$}`: left-aligned in a field of `w` characters. */
  function Pad(s: seq<char>, w: nat): (r: seq<char>)
    ensures |r| == if |s| < w then w else |s|
    ensures r[..|s|] == s && forall k :: |s| <= k < |r| ==> r[k] == ' '
  {
    if |s| < w then s + Spaces(w - |s|) else s
  }

  /** `search_len`: the width of the framed part of a wide bar. */
  function SearchLen(max: nat): nat
  {
    if max > 50 then max - 2 * OFFSET else 20
  }

  /** The visible characters `update` puts in the bar: a rule, the prompt,
      the padded text and another rule. */
  function Bar(shown: seq<char>, max: nat): seq<char>
  {
    Repeat('─', OFFSET) + "❯ " + Pad(shown, SearchLen(max) - 4) + Repeat('─', OFFSET)
  }

  /** On a bar wider than 50 columns, text that fits leaves the rules two
      columns short of the full width, with the text right after the prompt. */
  lemma BarLayout(shown: seq<char>, max: nat)
    requires max > 50 && |shown| <= SearchLen(max) - 4
    ensures |Bar(shown, max)| == max - 2
    ensures Bar(shown, max)[OFFSET + 2..OFFSET + 2 + |shown|] == shown
  {
    var b := Bar(shown, max);
    var p := Pad(shown, SearchLen(max) - 4);
    assert b == Repeat('─', OFFSET) + "❯ " + p + Repeat('─', OFFSET);
    assert b[OFFSET + 2..OFFSET + 2 + |shown|] == p[..|shown|];
  }

  /** `set_cursor`: the cursor column, `x + offset + 3 + input_idx`, where the
      `u16` additions must not overflow. */
  function CursorX(x: u16, li: Input): (c: u16)
    requires x + OFFSET + 3 + li.idx < U16_LIMIT
    ensures c - x == OFFSET + 3 + li.idx
  {
    x + OFFSET + 3 + li.idx
  }

  /** The cursor column follows the edits: an accepted character or Right moves
      it one column on, Left and Delete one column back. */
  lemma CursorFollowsEdits(x: u16, li: Input, key: Key, cap: nat)
    requires InputOk(li) && x + OFFSET + 3 + |li.text| + 1 < U16_LIMIT
    ensures var r := Edit(li, key, cap);
      && (key.Char? && key.c != '\r' && |li.text| < cap ==> CursorX(x, r) == CursorX(x, li) + 1)
      && (key.Right? && li.idx < |li.text| ==> CursorX(x, r) == CursorX(x, li) + 1)
      && ((key.Left? || key.Delete?) && li.idx > 0 ==> CursorX(x, r) + 1 == CursorX(x, li))
  {
  }
}
