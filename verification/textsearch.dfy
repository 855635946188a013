/** Pattern search over the editor's lines: `str::match_indices` on one line
    and the `flat_map` that tags every hit with its line number (the scans in
    `normal_mode` and `search_mode` of src/view/mainview.rs), plus the
    wrap-around stepping through the hit list. */
module TextSearch {
  import opened Arith

  /** `p` occurs in `s` starting at `i`. */
  predicate OccursAt(s: seq<char>, p: seq<char>, i: int)
  {
    0 <= i && i + |p| <= |s| && s[i..i + |p|] == p
  }

  /** `match_indices` resumed at `i`: scan left to right, take every occurrence
      and continue after it, so hits never overlap. */
  function MatchFrom(s: seq<char>, p: seq<char>, i: nat): seq<nat>
    requires |p| > 0
    decreases |s| - i
  {
    if i + |p| > |s| then []
    else if OccursAt(s, p, i) then [i] + MatchFrom(s, p, i + |p|)
    else MatchFrom(s, p, i + 1)
  }

  /** The start offsets of `s.match_indices(p)`. */
  function MatchIndices(s: seq<char>, p: seq<char>): seq<nat>
    requires |p| > 0
  {
    MatchFrom(s, p, 0)
  }

  /** Every entry of `r` is an occurrence of `p` at or after `i`. */
  predicate AllHits(s: seq<char>, p: seq<char>, i: nat, r: seq<nat>)
  {
    forall k :: 0 <= k < |r| ==> i <= r[k] && OccursAt(s, p, r[k])
  }

  /** The entries of `r` increase by at least `m` each: hits of length `m`
      do not overlap. */
  predicate Spaced(r: seq<nat>, m: nat)
  {
    forall a, b :: 0 <= a < b < |r| ==> r[a] + m <= r[b]
  }

  /** Offset `j` lies inside a hit of length `m` that starts at or before it. */
  predicate Covered(r: seq<nat>, j: nat, m: nat)
  {
    exists k :: 0 <= k < |r| && r[k] <= j < r[k] + m
  }

  /** No occurrence at or after `i` is missed: each one is a hit or overlaps
      an earlier hit. */
  predicate CoversHits(s: seq<char>, p: seq<char>, i: nat, r: seq<nat>)
  {
    forall j: nat {:trigger Covered(r, j, |p|)} :: i <= j < |s| && OccursAt(s, p, j) ==> Covered(r, j, |p|)
  }

  /** Independent description of the leftmost non-overlapping hits of `p` in
      `s` from offset `i`: occurrences only, increasing without overlap, and
      nothing missed. */
  predicate IsMatchList(s: seq<char>, p: seq<char>, i: nat, r: seq<nat>)
  {
    AllHits(s, p, i, r) && Spaced(r, |p|) && CoversHits(s, p, i, r)
  }

  /** The pattern does not occur where its first unit is not. */
  lemma FirstUnitDiffers(s: seq<char>, p: seq<char>, i: nat)
    requires |p| > 0 && i < |s| && s[i] != p[0]
    ensures !OccursAt(s, p, i)
  {
    if i + |p| <= |s| {
      assert s[i..i + |p|][0] == s[i];
    }
  }

  lemma {:induction false} MatchFromHits(s: seq<char>, p: seq<char>, i: nat)
    requires |p| > 0
    ensures AllHits(s, p, i, MatchFrom(s, p, i))
    decreases |s| - i
  {
    if i + |p| <= |s| {
      if OccursAt(s, p, i) {
        MatchFromHits(s, p, i + |p|);
      } else {
        MatchFromHits(s, p, i + 1);
      }
    }
  }

  lemma {:induction false} MatchFromSpaced(s: seq<char>, p: seq<char>, i: nat)
    requires |p| > 0
    ensures Spaced(MatchFrom(s, p, i), |p|)
    decreases |s| - i
  {
    if i + |p| <= |s| {
      if OccursAt(s, p, i) {
        MatchFromSpaced(s, p, i + |p|);
        MatchFromHits(s, p, i + |p|);
        SpacedCons(i, MatchFrom(s, p, i + |p|), |p|);
      } else {
        MatchFromSpaced(s, p, i + 1);
      }
    }
  }

  /** A hit at least `m` before every later hit keeps a spaced list spaced. */
  lemma SpacedCons(i: nat, r: seq<nat>, m: nat)
    requires Spaced(r, m)
    requires forall k :: 0 <= k < |r| ==> i + m <= r[k]
    ensures Spaced([i] + r, m)
  {
    var r' := [i] + r;
    forall a, b | 0 <= a < b < |r'|
      ensures r'[a] + m <= r'[b]
    {
      assert r'[b] == r[b - 1];
      if a > 0 { assert r'[a] == r[a - 1]; }
    }
  }

  lemma {:induction false} MatchFromCovers(s: seq<char>, p: seq<char>, i: nat)
    requires |p| > 0
    ensures CoversHits(s, p, i, MatchFrom(s, p, i))
    decreases |s| - i
  {
    if i + |p| <= |s| {
      if OccursAt(s, p, i) {
        MatchFromCovers(s, p, i + |p|);
        var r' := MatchFrom(s, p, i + |p|);
        var r := [i] + r';
        forall j: nat | i <= j < |s| && OccursAt(s, p, j)
          ensures Covered(r, j, |p|)
        {
          if j < i + |p| {
            assert r[0] <= j < r[0] + |p|;
          } else {
            assert Covered(r', j, |p|);
            var k' :| 0 <= k' < |r'| && r'[k'] <= j < r'[k'] + |p|;
            assert r[k' + 1] == r'[k'];
          }
        }
      } else {
        MatchFromCovers(s, p, i + 1);
      }
    }
  }

  /** The scan meets the description. */
  lemma MatchFromIsMatchList(s: seq<char>, p: seq<char>, i: nat)
    requires |p| > 0
    ensures IsMatchList(s, p, i, MatchFrom(s, p, i))
  {
    MatchFromHits(s, p, i);
    MatchFromSpaced(s, p, i);
    MatchFromCovers(s, p, i);
  }

  /** Dropping the first hit `i` of a match list from `i` leaves a match list
      from `i + |p|`. */
  lemma MatchListTail(s: seq<char>, p: seq<char>, i: nat, r: seq<nat>)
    requires |p| > 0 && |r| > 0 && r[0] == i
    requires IsMatchList(s, p, i, r)
    ensures IsMatchList(s, p, i + |p|, r[1..])
  {
    TailHits(s, p, i, r);
    TailSpaced(r, |p|);
    TailCovers(s, p, i, r);
  }

  lemma TailHits(s: seq<char>, p: seq<char>, i: nat, r: seq<nat>)
    requires |r| > 0 && r[0] == i
    requires AllHits(s, p, i, r) && Spaced(r, |p|)
    ensures AllHits(s, p, i + |p|, r[1..])
  {
    var r' := r[1..];
    forall k | 0 <= k < |r'|
      ensures i + |p| <= r'[k] && OccursAt(s, p, r'[k])
    {
      assert r'[k] == r[k + 1];
    }
  }

  lemma TailSpaced(r: seq<nat>, m: nat)
    requires |r| > 0 && Spaced(r, m)
    ensures Spaced(r[1..], m)
  {
    var r' := r[1..];
    forall a, b | 0 <= a < b < |r'|
      ensures r'[a] + m <= r'[b]
    {
      assert r'[a] == r[a + 1] && r'[b] == r[b + 1];
    }
  }

  lemma TailCovers(s: seq<char>, p: seq<char>, i: nat, r: seq<nat>)
    requires |p| > 0 && |r| > 0 && r[0] == i
    requires CoversHits(s, p, i, r)
    ensures CoversHits(s, p, i + |p|, r[1..])
  {
    var r' := r[1..];
    forall j: nat | i + |p| <= j < |s| && OccursAt(s, p, j)
      ensures Covered(r', j, |p|)
    {
      assert Covered(r, j, |p|);
      var m :| 0 <= m < |r| && r[m] <= j < r[m] + |p|;
      assert r'[m - 1] == r[m];
    }
  }

  /** A match list from `i` where `p` occurs at `i` starts with `i`. */
  lemma FirstHitIsStart(s: seq<char>, p: seq<char>, i: nat, r: seq<nat>)
    requires |p| > 0 && i < |s| && OccursAt(s, p, i)
    requires IsMatchList(s, p, i, r)
    ensures |r| > 0 && r[0] == i
  {
    assert Covered(r, i, |p|);
    var k :| 0 <= k < |r| && r[k] <= i < r[k] + |p|;
    assert forall m :: 0 <= m < |r| ==> r[0] <= r[m];
  }

  /** The description pins the list down: any list meeting it is the scan's. */
  lemma {:induction false} MatchListUnique(s: seq<char>, p: seq<char>, i: nat, r: seq<nat>)
    requires |p| > 0
    requires IsMatchList(s, p, i, r)
    ensures r == MatchFrom(s, p, i)
    decreases |s| - i, 1
  {
    if i + |p| > |s| {
      NoHitsPastEnd(s, p, i, r);
    } else if OccursAt(s, p, i) {
      UniqueAtHit(s, p, i, r);
    } else {
      SkipNonHit(s, p, i, r);
      MatchListUnique(s, p, i + 1, r);
    }
  }

  /** The hit case of `MatchListUnique`: the list is `i` followed by the
      scan from just past the hit. */
  lemma {:induction false} UniqueAtHit(s: seq<char>, p: seq<char>, i: nat, r: seq<nat>)
    requires |p| > 0 && i + |p| <= |s| && OccursAt(s, p, i)
    requires IsMatchList(s, p, i, r)
    ensures r == MatchFrom(s, p, i)
    decreases |s| - i, 0
  {
    FirstHitIsStart(s, p, i, r);
    MatchListTail(s, p, i, r);
    var t := r[1..];
    MatchListUnique(s, p, i + |p|, t);
    HitStep(s, p, i);
    HeadTail(r);
  }

  lemma HeadTail(r: seq<nat>)
    requires |r| > 0
    ensures r == [r[0]] + r[1..]
  {
  }

  lemma HitStep(s: seq<char>, p: seq<char>, i: nat)
    requires |p| > 0 && OccursAt(s, p, i)
    ensures MatchFrom(s, p, i) == [i] + MatchFrom(s, p, i + |p|)
  {
  }

  /** No occurrence starts where the pattern no longer fits. */
  lemma NoHitsPastEnd(s: seq<char>, p: seq<char>, i: nat, r: seq<nat>)
    requires |p| > 0 && i + |p| > |s|
    requires AllHits(s, p, i, r)
    ensures r == []
  {
    HitRoom(s, p, i, r);
  }

  /** A non-empty hit list from `i` leaves room for the pattern at `i`. */
  lemma HitRoom(s: seq<char>, p: seq<char>, i: nat, r: seq<nat>)
    requires AllHits(s, p, i, r)
    ensures |r| > 0 ==> i + |p| <= |s|
  {
    if |r| > 0 {
      assert OccursAt(s, p, r[0]);
    }
  }

  /** A match list from an offset where the pattern does not occur is also a
      match list from the next offset. */
  lemma SkipNonHit(s: seq<char>, p: seq<char>, i: nat, r: seq<nat>)
    requires |p| > 0 && !OccursAt(s, p, i)
    requires IsMatchList(s, p, i, r)
    ensures IsMatchList(s, p, i + 1, r)
  {
    forall k | 0 <= k < |r|
      ensures i + 1 <= r[k]
    {
      assert OccursAt(s, p, r[k]);
    }
  }

  /** `match_indices` meets the description from offset 0, so it lists exactly
      the leftmost non-overlapping occurrences, in increasing order. */
  lemma MatchIndicesSpec(s: seq<char>, p: seq<char>)
    requires |p| > 0
    ensures IsMatchList(s, p, 0, MatchIndices(s, p))
    ensures forall c :: c in MatchIndices(s, p) ==> c + |p| <= |s| && s[c..c + |p|] == p
    ensures |s| > 0 && OccursAt(s, p, 0) ==> |MatchIndices(s, p)| > 0 && MatchIndices(s, p)[0] == 0
  {
    MatchFromIsMatchList(s, p, 0);
    var r := MatchIndices(s, p);
    forall c | c in r
      ensures c + |p| <= |s| && s[c..c + |p|] == p
    {
      var k :| 0 <= k < |r| && r[k] == c;
    }
  }

  /** Pairs `(line, col)` for every column in `cols`. */
  function Tag(line: nat, cols: seq<nat>): seq<(nat, nat)>
  {
    seq(|cols|, k requires 0 <= k < |cols| => (line, cols[k]))
  }

  /** The hits of lines `l..` in line-then-column order. */
  function FindFrom(lines: seq<seq<char>>, p: seq<char>, l: nat): seq<(nat, nat)>
    requires |p| > 0
    decreases |lines| - l
  {
    if l >= |lines| then [] else Tag(l, MatchIndices(lines[l], p)) + FindFrom(lines, p, l + 1)
  }

  /** The search stack built by the `flat_map` over the content. */
  function FindAll(lines: seq<seq<char>>, p: seq<char>): seq<(nat, nat)>
    requires |p| > 0
  {
    FindFrom(lines, p, 0)
  }

  /** Strict line-then-column order. */
  predicate Before(a: (nat, nat), b: (nat, nat))
  {
    a.0 < b.0 || (a.0 == b.0 && a.1 < b.1)
  }

  predicate Increasing(r: seq<(nat, nat)>)
  {
    forall a, b :: 0 <= a < b < |r| ==> Before(r[a], r[b])
  }

  lemma MatchIncreasing(s: seq<char>, p: seq<char>)
    requires |p| > 0
    ensures forall a, b :: 0 <= a < b < |MatchIndices(s, p)| ==> MatchIndices(s, p)[a] < MatchIndices(s, p)[b]
  {
    MatchFromIsMatchList(s, p, 0);
  }

  /** A pair is in the search stack exactly when its line exists (at or after
      `l`) and its column is one of that line's hits; the stack is increasing. */
  lemma FindFromSpec(lines: seq<seq<char>>, p: seq<char>, l: nat)
    requires |p| > 0
    ensures forall q :: q in FindFrom(lines, p, l) <==>
      l <= q.0 < |lines| && q.1 in MatchIndices(lines[q.0], p)
    ensures Increasing(FindFrom(lines, p, l))
    ensures forall k :: 0 <= k < |FindFrom(lines, p, l)| ==> l <= FindFrom(lines, p, l)[k].0
  {
    FindFromMembers(lines, p, l);
    FindFromIncreasing(lines, p, l);
  }

  lemma {:induction false} FindFromMembers(lines: seq<seq<char>>, p: seq<char>, l: nat)
    requires |p| > 0
    ensures forall q :: q in FindFrom(lines, p, l) <==>
      l <= q.0 < |lines| && q.1 in MatchIndices(lines[q.0], p)
    decreases |lines| - l
  {
    if l < |lines| {
      FindFromMembers(lines, p, l + 1);
      var m := MatchIndices(lines[l], p);
      var t := Tag(l, m);
      var rest := FindFrom(lines, p, l + 1);
      assert FindFrom(lines, p, l) == t + rest;
      forall q
        ensures q in t <==> q.0 == l && q.1 in m
      {
        if q.0 == l && q.1 in m {
          var k :| 0 <= k < |m| && m[k] == q.1;
          assert t[k] == q;
        }
      }
    }
  }

  /** Every pair of the stack from `l` is on a line at or after `l`. */
  lemma FindFromLines(lines: seq<seq<char>>, p: seq<char>, l: nat)
    requires |p| > 0
    ensures forall k :: 0 <= k < |FindFrom(lines, p, l)| ==> l <= FindFrom(lines, p, l)[k].0
  {
    FindFromMembers(lines, p, l);
    forall k | 0 <= k < |FindFrom(lines, p, l)|
      ensures l <= FindFrom(lines, p, l)[k].0
    {
      assert FindFrom(lines, p, l)[k] in FindFrom(lines, p, l);
    }
  }

  lemma {:induction false} FindFromIncreasing(lines: seq<seq<char>>, p: seq<char>, l: nat)
    requires |p| > 0
    ensures Increasing(FindFrom(lines, p, l))
    ensures forall k :: 0 <= k < |FindFrom(lines, p, l)| ==> l <= FindFrom(lines, p, l)[k].0
    decreases |lines| - l
  {
    FindFromLines(lines, p, l);
    if l < |lines| {
      FindFromIncreasing(lines, p, l + 1);
      FindFromLines(lines, p, l + 1);
      var t := Tag(l, MatchIndices(lines[l], p));
      var rest := FindFrom(lines, p, l + 1);
      TaggedIncreasing(lines[l], p, l);
      ConcatIncreasing(t, rest, l);
      assert FindFrom(lines, p, l) == t + rest;
    }
  }

  /** One line's tagged hits are increasing. */
  lemma TaggedIncreasing(s: seq<char>, p: seq<char>, l: nat)
    requires |p| > 0
    ensures Increasing(Tag(l, MatchIndices(s, p)))
    ensures forall k :: 0 <= k < |Tag(l, MatchIndices(s, p))| ==> Tag(l, MatchIndices(s, p))[k].0 == l
  {
    MatchIncreasing(s, p);
  }

  /** Increasing pairs on line `l` followed by increasing pairs on later
      lines are increasing. */
  lemma ConcatIncreasing(t: seq<(nat, nat)>, rest: seq<(nat, nat)>, l: nat)
    requires Increasing(t) && Increasing(rest)
    requires forall k :: 0 <= k < |t| ==> t[k].0 == l
    requires forall k :: 0 <= k < |rest| ==> l + 1 <= rest[k].0
    ensures Increasing(t + rest)
  {
    var r := t + rest;
    forall a, b | 0 <= a < b < |r|
      ensures Before(r[a], r[b])
    {
      if b < |t| {
      } else if a < |t| {
        assert r[b] == rest[b - |t|];
      } else {
        assert r[a] == rest[a - |t|] && r[b] == rest[b - |t|];
      }
    }
  }

  /** Membership in the whole search stack, and its order. */
  lemma FindAllSpec(lines: seq<seq<char>>, p: seq<char>)
    requires |p| > 0
    ensures forall q :: q in FindAll(lines, p) <==>
      q.0 < |lines| && q.1 in MatchIndices(lines[q.0], p)
    ensures Increasing(FindAll(lines, p))
  {
    FindFromSpec(lines, p, 0);
  }

  /** Every stacked hit is a real occurrence, so rewriting `[col, col + |p|)`
      stays inside its line. */
  lemma FindAllSound(lines: seq<seq<char>>, p: seq<char>, q: (nat, nat))
    requires |p| > 0
    requires q in FindAll(lines, p)
    ensures q.0 < |lines| && q.1 + |p| <= |lines[q.0]|
    ensures lines[q.0][q.1..q.1 + |p|] == p
  {
    FindAllSpec(lines, p);
    MatchIndicesSpec(lines[q.0], p);
  }

  /** Down/PageDown/Right in search mode: the next hit, wrapping to the first. */
  function Next(i: nat, n: nat): (j: nat)
    requires n > 0
    ensures j < n
  {
    (i + 1) % n
  }

  /** Up/PageUp/Left in search mode: the previous hit, wrapping to the last;
      an index past the end is reduced modulo the stack length. */
  function Prev(i: nat, n: nat): (j: nat)
    requires n > 0
    ensures j < n
  {
    if i < 1 then n - 1 else (i - 1) % n
  }

  /** Within the stack, stepping forward and back undo each other, and a full
      cycle of `n` steps forward returns to the start. */
  lemma NextPrevInverse(i: nat, n: nat)
    requires i < n
    ensures i + 1 < n ==> Next(i, n) == i + 1
    ensures i == n - 1 ==> Next(i, n) == 0
    ensures 0 < i ==> Prev(i, n) == i - 1
    ensures i == 0 ==> Prev(i, n) == n - 1
    ensures Prev(Next(i, n), n) == i
    ensures Next(Prev(i, n), n) == i
  {
    NextValue(i, n);
    PrevValue(i, n);
    NextValue(Prev(i, n), n);
    PrevValue(Next(i, n), n);
  }

  lemma NextValue(i: nat, n: nat)
    requires i < n
    ensures Next(i, n) == if i + 1 < n then i + 1 else 0
  {
    if i + 1 < n {
      DivMod(i + 1, n, 0, i + 1);
    } else {
      DivMod(i + 1, n, 1, 0);
    }
  }

  lemma PrevValue(i: nat, n: nat)
    requires i < n
    ensures Prev(i, n) == if 0 < i then i - 1 else n - 1
  {
    if 0 < i {
      DivMod(i - 1, n, 0, i - 1);
    }
  }

  /** `k` steps forward. */
  function NextN(i: nat, n: nat, k: nat): (j: nat)
    requires n > 0
    ensures j < n || (k == 0 && j == i)
    decreases k
  {
    if k == 0 then i else Next(NextN(i, n, k - 1), n)
  }

  lemma {:induction false} NextNIsAdd(i: nat, n: nat, k: nat)
    requires i < n
    ensures NextN(i, n, k) == (i + k) % n
    decreases k
  {
    if k == 0 {
      DivMod(i, n, 0, i);
    } else {
      NextNIsAdd(i, n, k - 1);
      ModSucc(i + k - 1, n);
    }
  }

  lemma ModSucc(x: nat, n: nat)
    requires n > 0
    ensures (x % n + 1) % n == (x + 1) % n
  {
    var q, r := x / n, x % n;
    assert x == q * n + r;
    if r + 1 == n {
      DivMod(r + 1, n, 1, 0);
      DivMod(x + 1, n, q + 1, 0);
    } else {
      DivMod(r + 1, n, 0, r + 1);
      DivMod(x + 1, n, q, r + 1);
    }
  }

  lemma CycleReturns(i: nat, n: nat)
    requires i < n
    ensures NextN(i, n, n) == i
  {
    NextNIsAdd(i, n, n);
    DivMod(i + n, n, 1, i);
  }
}
