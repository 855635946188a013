/** Single-line text edits shared by the editing views: insertion at and
    removal before a cursor position. Text is a sequence of single code
    units. */
module Text {
  /** `s` with `t` inserted before position `i`. */
  function InsertAt(s: seq<char>, i: nat, t: seq<char>): seq<char>
    requires i <= |s|
  {
    s[..i] + t + s[i..]
  }

  /** `s` without the unit at position `i`. */
  function RemoveAt(s: seq<char>, i: nat): seq<char>
    requires i < |s|
  {
    s[..i] + s[i + 1..]
  }

  /** Removing what was just inserted restores the text. */
  lemma RemoveInserted(s: seq<char>, i: nat, c: char)
    requires i <= |s|
    ensures RemoveAt(InsertAt(s, i, [c]), i) == s
  {
    assert InsertAt(s, i, [c])[..i] == s[..i];
    assert InsertAt(s, i, [c])[i + 1..] == s[i..];
  }
}
