/** The row arithmetic of `MainView::draw` (src/view/mainview.rs): control
    units are expanded before the lines are cut into rows of the text width,
    and painting stops at the bottom of the view. The escape sequences,
    colours and line-number gutter it prints are not modelled. */
module MainDraw {
  import opened Arith
  import opened Geometry
  import opened SoftWrap

  /** The display form of one unit: a carriage return shows as '↵' and a tab
      as four spaces. The source applies the two replacements one after the
      other over the whole line; as '↵' is not a tab, that is this map. */
  function ExpandUnit(c: char): seq<char>
  {
    if c == '\r' then ['↵'] else if c == '\t' then "    " else [c]
  }

  function Expand(line: seq<char>): seq<char>
  {
    if |line| == 0 then [] else ExpandUnit(line[0]) + Expand(line[1..])
  }

  /** A line with no tab and no carriage return. */
  predicate Plain(line: seq<char>)
  {
    forall k :: 0 <= k < |line| ==> line[k] != '\t' && line[k] != '\r'
  }

  /** Number of tabs in a line. */
  function Tabs(line: seq<char>): nat
  {
    if |line| == 0 then 0 else (if line[0] == '\t' then 1 else 0) + Tabs(line[1..])
  }

  /** Expansion leaves no control unit behind, grows the line by three units
      per tab, and changes nothing in a plain line. */
  lemma {:induction false} ExpandSpec(line: seq<char>)
    ensures Plain(Expand(line))
    ensures |Expand(line)| == |line| + 3 * Tabs(line)
    ensures Plain(line) ==> Expand(line) == line
    decreases |line|
  {
    if |line| > 0 {
      ExpandSpec(line[1..]);
      var head := ExpandUnit(line[0]);
      var tail := Expand(line[1..]);
      assert Plain(head);
      forall k | 0 <= k < |head + tail|
        ensures (head + tail)[k] != '\t' && (head + tail)[k] != '\r'
      {
        if k >= |head| { assert (head + tail)[k] == tail[k - |head|]; }
      }
      if Plain(line) {
        assert Plain(line[1..]) by {
          forall k | 0 <= k < |line[1..]|
            ensures line[1..][k] != '\t' && line[1..][k] != '\r'
          {
            assert line[1..][k] == line[k + 1];
          }
        }
        assert [line[0]] + line[1..] == line;
      }
    }
  }

  /** On a line without tabs the rows `draw` paints are the rows
      `pre_all_lines` counts for it: a carriage return is painted as one
      unit, so only tabs change the length. */
  lemma PlainRowsAgree(line: seq<char>, width: nat)
    requires width > 0 && Tabs(line) == 0
    ensures |Chunks(Expand(line), width)| == Rows(line, width)
  {
    ExpandSpec(line);
    ChunksMatchRows(Expand(line), width);
  }

  /** On a line with a tab they need not agree: a single tab at width 2 is
      painted on two rows but counted as one, so the cursor is placed a row
      too high on every line below it. */
  lemma TabRowsDisagree()
    ensures Rows("\t", 2) == 1
    ensures |Chunks(Expand("\t"), 2)| == 2
  {
    assert Expand("\t") == "    " + Expand([]);
    ChunksMatchRows("    ", 2);
  }

  /** `content.iter().skip(scroll)`. */
  function Skip(lines: seq<seq<char>>, scroll: nat): seq<seq<char>>
  {
    if scroll >= |lines| then [] else lines[scroll..]
  }

  function ExpandAll(lines: seq<seq<char>>): (r: seq<seq<char>>)
    ensures |r| == |lines| && forall k :: 0 <= k < |lines| ==> r[k] == Expand(lines[k])
  {
    seq(|lines|, k requires 0 <= k < |lines| => Expand(lines[k]))
  }

  /** The number of rows `draw` paints: for each line from `scroll` on, one
      row per chunk of its expanded form; the counter starts at 1, is bumped
      after every row, and painting stops once it exceeds `maxHeight`. So it
      paints every row up to `max(1, maxHeight)` of them. */
  method PaintedRows(lines: seq<seq<char>>, scroll: nat, width: nat, maxHeight: nat)
    returns (painted: nat)
    requires width > 0
    ensures painted == Min(TotalRows(ExpandAll(Skip(lines, scroll)), width), Max(1, maxHeight))
  {
    var shown := ExpandAll(Skip(lines, scroll));
    var cap := Max(1, maxHeight);
    painted := 0;
    var heightCnt := 1;
    var stop := false;
    var k := 0;
    while k < |shown| && !stop
      invariant 0 <= k <= |shown|
      invariant heightCnt == painted + 1
      invariant !stop ==> painted == TotalRows(shown[..k], width) && painted < cap
      invariant stop ==> painted == cap && cap <= TotalRows(shown[..k], width)
    {
      var chunks := Chunks(shown[k], width);
      ChunksMatchRows(shown[k], width);
      assert shown[..k + 1][..k] == shown[..k];
      var j := 0;
      while j < |chunks| && !stop
        invariant 0 <= j <= |chunks|
        invariant heightCnt == painted + 1
        invariant !stop ==> painted == TotalRows(shown[..k], width) + j && painted < cap
        invariant stop ==> painted == cap && cap <= TotalRows(shown[..k], width) + j
      {
        painted := painted + 1;
        heightCnt := heightCnt + 1;
        if heightCnt > maxHeight {
          stop := true;
        }
        j := j + 1;
      }
      k := k + 1;
    }
    TotalRowsSplit(shown, k, width);
    if !stop {
      assert shown[..k] == shown;
    }
  }
}
