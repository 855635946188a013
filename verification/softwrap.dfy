/** Soft-wrap row arithmetic shared by both generations of the text view
    (`pre_all_lines` and `set_cursor` in src/view/mainview.rs and
    src/screen/view.rs, which compute the same formula). */
module SoftWrap {
  import opened Geometry
  import opened Arith

  /** Physical rows of one logical line at wrap width `width`: 1 for an empty
      line, `len / width` plus one for a partial last row otherwise. */
  function Rows(line: seq<char>, width: nat): nat
    requires width > 0
  {
    if |line| == 0 then 1
    else |line| / width + (if |line| % width == 0 then 0 else 1)
  }

  /** `Rows` is max(1, ceil(len / width)): the smallest row count whose rows
      hold the whole line. */
  lemma RowsIsCeiling(line: seq<char>, width: nat)
    requires width > 0
    ensures Rows(line, width) >= 1
    ensures |line| <= Rows(line, width) * width
    ensures |line| > 0 ==> (Rows(line, width) - 1) * width < |line|
    ensures |line| == 0 ==> Rows(line, width) == 1
  {
    if |line| > 0 {
      var q, r := |line| / width, |line| % width;
      assert |line| == q * width + r;
      if r == 0 {
        assert q >= 1;
        assert (q - 1) * width == q * width - width;
      } else {
        assert (q + 1) * width == q * width + width;
      }
    }
  }

  /** Two row counts that both satisfy the ceiling bounds are equal. */
  lemma CeilingUnique(len: nat, width: nat, m: nat, n: nat)
    requires width > 0 && len > 0
    requires len <= m * width && (m - 1) * width < len
    requires len <= n * width && (n - 1) * width < len
    ensures m == n
  {
    if m < n {
      MulMono(m, n - 1, width);
    } else if n < m {
      MulMono(n, m - 1, width);
    }
  }

  /** The splitter that paints a line produces exactly `Rows` chunks. */
  lemma ChunksMatchRows(line: seq<char>, width: nat)
    requires width > 0
    ensures |Chunks(line, width)| == Rows(line, width)
  {
    ChunksSpec(line, width);
    RowsIsCeiling(line, width);
    if |line| > 0 {
      CeilingUnique(|line|, width, |Chunks(line, width)|, Rows(line, width));
    }
  }

  /** Rows of a run of logical lines. */
  function TotalRows(lines: seq<seq<char>>, width: nat): nat
    requires width > 0
  {
    if |lines| == 0 then 0 else TotalRows(lines[..|lines| - 1], width) + Rows(lines[|lines| - 1], width)
  }

  lemma {:induction false} TotalRowsSplit(lines: seq<seq<char>>, k: nat, width: nat)
    requires width > 0 && k <= |lines|
    ensures TotalRows(lines, width) == TotalRows(lines[..k], width) + TotalRows(lines[k..], width)
    decreases |lines|
  {
    if k < |lines| {
      var n := |lines|;
      TotalRowsSplit(lines[..n - 1], k, width);
      assert lines[..n - 1][..k] == lines[..k];
      assert lines[k..][..n - 1 - k] == lines[..n - 1][k..];
      assert lines[k..][n - 1 - k] == lines[n - 1];
    } else {
      assert lines[..k] == lines;
      assert lines[k..] == [];
    }
  }

  /** One more line adds its own rows. */
  lemma TotalRowsStep(lines: seq<seq<char>>, k: nat, width: nat)
    requires width > 0 && k < |lines|
    ensures TotalRows(lines[..k + 1], width) == TotalRows(lines[..k], width) + Rows(lines[k], width)
  {
    assert lines[..k + 1][..k] == lines[..k];
  }

  /** `content.iter().take(curr_line).skip(scroll)`: the lines from the top of
      the viewport up to (not including) the cursor's line. */
  function Window(lines: seq<seq<char>>, scroll: nat, line: nat): seq<seq<char>>
  {
    var stop := if line < |lines| then line else |lines|;
    if scroll >= stop then [] else lines[scroll..stop]
  }

  /** `pre_all_lines`: the physical row of the cursor, counted from the top of
      the viewport. */
  function PreAllLines(lines: seq<seq<char>>, scroll: nat, line: nat, idx: nat, width: nat): nat
    requires width > 0
  {
    TotalRows(Window(lines, scroll, line), width) + (if idx >= width then idx / width else 0)
  }

  /** The `idx >= max` guard changes nothing: the cursor row is the rows of
      the lines above it in the viewport plus `idx / width`. Nothing above the
      viewport and nothing from the cursor's line downwards counts. */
  lemma PreAllLinesSpec(lines: seq<seq<char>>, scroll: nat, line: nat, idx: nat, width: nat)
    requires width > 0
    ensures PreAllLines(lines, scroll, line, idx, width)
            == TotalRows(Window(lines, scroll, line), width) + idx / width
    ensures scroll <= line <= |lines| ==>
            PreAllLines(lines, scroll, line, idx, width) == TotalRows(lines[scroll..line], width) + idx / width
    ensures line <= scroll ==> PreAllLines(lines, scroll, line, idx, width) == idx / width
  {
    if idx < width {
      DivMod(idx, width, 0, idx);
    }
    if scroll <= line <= |lines| {
      assert Window(lines, scroll, line) == lines[scroll..line];
    }
  }

  /** Where the cursor's column falls relative to its own line's rows: strictly
      inside the line it lands on one of the line's rows; at the end of a line
      that fills its last row exactly it lands one row below the line. */
  lemma CursorRowWithinLine(line: seq<char>, idx: nat, width: nat)
    requires width > 0
    ensures idx < |line| ==> idx / width < Rows(line, width)
    ensures |line| > 0 && |line| % width == 0 ==> |line| / width == Rows(line, width)
  {
    RowsIsCeiling(line, width);
    if idx < |line| {
      var q := idx / width;
      assert q * width <= idx;
      if q >= Rows(line, width) {
        MulMono(Rows(line, width), q, width);
      }
    }
  }

  /** `set_cursor`: walks the lines between the scroll offset and the cursor's
      line adding each one's rows to the row coordinate, then adds the rows
      inside the cursor's own line; the column is `idx % width`. The source
      does this on `u16`, whose additions must not overflow. */
  method PlaceCursor(lines: seq<seq<char>>, scroll: nat, line: nat, idx: nat, width: nat,
                     textX: u16, textY: u16) returns (x: u16, y: u16)
    requires width > 0
    requires textX + idx % width < U16_LIMIT
    requires textY + PreAllLines(lines, scroll, line, idx, width) < U16_LIMIT
    ensures x == textX + idx % width
    ensures y == textY + PreAllLines(lines, scroll, line, idx, width)
  {
    x := textX + idx % width;
    y := textY;
    var w := Window(lines, scroll, line);
    var total := TotalRows(w, width);
    assert textY + total < U16_LIMIT;
    var k := 0;
    while k < |w|
      invariant 0 <= k <= |w|
      invariant y == textY + TotalRows(w[..k], width)
    {
      var add := Rows(w[k], width);
      TotalRowsStep(w, k, width);
      TotalRowsSplit(w, k + 1, width);
      y := y + add;
      k := k + 1;
    }
    assert w[..k] == w;
    if idx >= width {
      y := y + idx / width;
    }
  }
}
