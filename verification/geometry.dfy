/** Edge-anchored panel coordinates and the fixed-width string splitter of the
    latest-generation view layer (src/view.rs). */
module Geometry {
  import opened Wrappers

  const U16_LIMIT: int := 0x1_0000

  /** Rust `u16` and `i16` as subset types; arithmetic on them is checked explicitly. */
  type u16 = x: int | 0 <= x < 0x1_0000
  type i16 = x: int | -0x8000 <= x < 0x8000

  /** A coordinate anchored either to the near edge (`Fixed`) or to the far edge
      (`Opposite`) of the terminal; `v` is the payload in both variants. */
  datatype Pos = Fixed(v: u16) | Opposite(v: u16)

  /** `Pos::unwrap` neither overflows (`v + 1`) nor underflows (`extent - v`). */
  predicate CanResolve(p: Pos, extent: u16)
  {
    match p
    case Fixed(v) => v + 1 < U16_LIMIT
    case Opposite(v) => v <= extent && extent - v + 1 < U16_LIMIT
  }

  /** `Pos::unwrap`: the 1-based terminal column/row the coordinate denotes. */
  function Resolve(p: Pos, extent: u16): u16
    requires CanResolve(p, extent)
  {
    match p
    case Fixed(v) => v + 1
    case Opposite(v) => extent - v + 1
  }

  /** A `Fixed` coordinate does not depend on the terminal size; an `Opposite`
      coordinate keeps its distance `v` to the far edge `extent + 1`. */
  lemma ResolveAnchoring(p: Pos, extent: u16, extent': u16)
    requires CanResolve(p, extent) && CanResolve(p, extent')
    ensures p.Fixed? ==> Resolve(p, extent) == Resolve(p, extent') == p.v + 1
    ensures p.Opposite? ==> Resolve(p, extent) + p.v == extent + 1
    ensures p.Opposite? ==> Resolve(p, extent') - Resolve(p, extent) == extent' - extent
  {
  }

  /** `Pos::get`: the payload, whatever the anchor. */
  function Get(p: Pos): u16
  {
    match p
    case Fixed(v) => v
    case Opposite(v) => v
  }

  lemma GetIgnoresAnchor(v: u16)
    ensures Get(Fixed(v)) == Get(Opposite(v)) == v
  {
  }

  /** `i16::unsigned_abs`. */
  function UnsignedAbs(d: i16): u16
  {
    if d < 0 then -(d as int) else d
  }

  /** `impl Add<i16> for Pos`. A positive delta is added to the payload (the
      source's `u16 +=` panics on overflow, hence the requires); a negative delta
      is subtracted unless it exceeds the payload, in which case the position is
      returned unchanged. The anchor never changes. */
  function Add(p: Pos, delta: i16): (r: Pos)
    requires delta > 0 ==> Get(p) + delta < U16_LIMIT
    ensures r.Fixed? <==> p.Fixed?
    ensures delta == 0 ==> r == p
    ensures delta > 0 ==> Get(r) == Get(p) + delta
    ensures delta < 0 && Get(p) + delta >= 0 ==> Get(r) == Get(p) + delta
    ensures delta < 0 && Get(p) + delta < 0 ==> r == p
  {
    if delta == 0 then p
    else
      var abs := UnsignedAbs(delta);
      var val := Get(p);
      if delta > 0 then Reanchor(p, val + abs)
      else if val < abs then p
      else Reanchor(p, val - abs)
  }

  function Reanchor(p: Pos, val: u16): Pos
  {
    match p
    case Fixed(_) => Fixed(val)
    case Opposite(_) => Opposite(val)
  }

  /** An adjustment that was applied in full is undone by the opposite delta. */
  lemma AddInverse(p: Pos, delta: i16, back: i16)
    requires back as int == -(delta as int)
    requires delta > 0 ==> Get(p) + delta < U16_LIMIT
    requires delta < 0 ==> Get(p) + delta >= 0
    ensures back > 0 ==> Get(Add(p, delta)) + back < U16_LIMIT
    ensures Add(Add(p, delta), back) == p
  {
  }

  /** State of `SplitNAtIter`: the unread rest of the string, the end flag, the
      running chunk count and the chunk width. */
  datatype SplitIter = SplitIter(rest: seq<char>, isEnd: bool, count: nat, mid: nat)

  /** `splitn_at(mid)`. */
  function SplitNew(s: seq<char>, mid: nat): SplitIter
  {
    SplitIter(s, false, 0, mid)
  }

  /** `SplitNAtIter::next`: yields `(chunk, count)`; the last chunk is the rest
      once it is no longer than `mid`. */
  function SplitNext(it: SplitIter): (Option<(seq<char>, nat)>, SplitIter)
  {
    if it.isEnd then (None, it)
    else if |it.rest| > it.mid then
      (Some((it.rest[..it.mid], it.count)),
       it.(rest := it.rest[it.mid..], count := it.count + 1))
    else
      (Some((it.rest, it.count)), it.(isEnd := true, count := it.count + 1))
  }

  /** The iterator never ends when `mid` is 0 and the rest is non-empty, so
      draining it is only defined when one of these holds. */
  predicate Drains(it: SplitIter)
  {
    it.isEnd || it.mid > 0 || |it.rest| == 0
  }

  /** Every item an iterator yields, in order (`collect()`). */
  function Drain(it: SplitIter): seq<(seq<char>, nat)>
    requires Drains(it)
    decreases if it.isEnd then 0 else |it.rest| + 1
  {
    var (item, next) := SplitNext(it);
    if item.None? then [] else [item.value] + Drain(next)
  }

  /** The chunks of `s` at width `mid`. */
  function Chunks(s: seq<char>, mid: nat): seq<(seq<char>, nat)>
    requires mid > 0
  {
    Drain(SplitNew(s, mid))
  }

  function Concat(parts: seq<(seq<char>, nat)>): seq<char>
  {
    if |parts| == 0 then [] else parts[0].0 + Concat(parts[1..])
  }

  /** A live iterator yields at least one chunk, and the chunks concatenate
      back to its rest. */
  lemma {:induction false} DrainConcat(it: SplitIter)
    requires !it.isEnd && it.mid > 0
    ensures |Drain(it)| >= 1
    ensures Concat(Drain(it)) == it.rest
    decreases |it.rest|
  {
    var (item, next) := SplitNext(it);
    if |it.rest| > it.mid {
      DrainConcat(next);
      assert Drain(it) == [item.value] + Drain(next);
      assert item.value.0 + next.rest == it.rest;
    } else {
      assert Drain(it) == [item.value];
      assert Concat(Drain(it)) == it.rest + Concat([]);
    }
  }

  /** Every chunk but the last is `mid` long, the last is at most `mid` long,
      and the counts run on from the iterator's count. */
  lemma {:induction false} DrainShape(it: SplitIter)
    requires !it.isEnd && it.mid > 0
    ensures var r := Drain(it);
      && |r| >= 1
      && (forall k :: 0 <= k < |r| - 1 ==> |r[k].0| == it.mid)
      && |r[|r| - 1].0| <= it.mid
      && (forall k :: 0 <= k < |r| ==> r[k].1 == it.count + k)
    decreases |it.rest|
  {
    var r := Drain(it);
    var (item, next) := SplitNext(it);
    if |it.rest| > it.mid {
      DrainShape(next);
      var r' := Drain(next);
      assert r == [item.value] + r';
      forall k | 0 <= k < |r|
        ensures k < |r| - 1 ==> |r[k].0| == it.mid
        ensures r[k].1 == it.count + k
      {
        if k > 0 { assert r[k] == r'[k - 1]; }
      }
    } else {
      assert Drain(next) == [];
      assert r == [item.value];
    }
  }

  /** A live iterator over a rest of length n yields max(1, ceil(n / mid)) chunks. */
  lemma {:induction false} DrainCount(it: SplitIter)
    requires !it.isEnd && it.mid > 0
    ensures (|Drain(it)| - 1) * it.mid <= |it.rest| <= |Drain(it)| * it.mid
    ensures |it.rest| > 0 ==> (|Drain(it)| - 1) * it.mid < |it.rest|
    decreases |it.rest|
  {
    var (item, next) := SplitNext(it);
    if |it.rest| > it.mid {
      DrainCount(next);
      var n' := |Drain(next)|;
      assert |Drain(it)| == n' + 1;
      assert |next.rest| == |it.rest| - it.mid;
      assert (n' + 1 - 1) * it.mid == (n' - 1) * it.mid + it.mid;
      assert (n' + 1) * it.mid == n' * it.mid + it.mid;
    } else {
      assert |Drain(it)| == 1;
    }
  }

  /** `splitn_at(mid)` with `mid > 0` cuts the string into chunks that
      concatenate back to it; the empty string yields one empty chunk. */
  lemma ChunksSpec(s: seq<char>, mid: nat)
    requires mid > 0
    ensures var r := Chunks(s, mid);
      && |r| >= 1
      && Concat(r) == s
      && (forall k :: 0 <= k < |r| - 1 ==> |r[k].0| == mid)
      && |r[|r| - 1].0| <= mid
      && (forall k :: 0 <= k < |r| ==> r[k].1 == k)
      && (|r| - 1) * mid <= |s| <= |r| * mid
      && (|s| > 0 ==> (|r| - 1) * mid < |s|)
      && (|s| == 0 ==> r == [([], 0)])
  {
    DrainConcat(SplitNew(s, mid));
    DrainShape(SplitNew(s, mid));
    DrainCount(SplitNew(s, mid));
  }

  /** `n` calls of `next`. */
  function Advance(it: SplitIter, n: nat): SplitIter
    decreases n
  {
    if n == 0 then it else Advance(SplitNext(it).1, n - 1)
  }

  /** With `mid == 0` and a non-empty string the iterator keeps the whole
      string as its rest and yields an empty chunk forever: it never returns `None`. */
  lemma {:induction false} ZeroWidthNeverEnds(s: seq<char>, n: nat)
    requires |s| > 0
    ensures Advance(SplitNew(s, 0), n) == SplitIter(s, false, n, 0)
    ensures SplitNext(Advance(SplitNew(s, 0), n)).0 == Some((s[..0], n))
  {
    if n > 0 {
      AdvanceLast(SplitNew(s, 0), n - 1);
      ZeroWidthNeverEnds(s, n - 1);
    }
  }

  lemma {:induction false} AdvanceLast(it: SplitIter, n: nat)
    ensures Advance(it, n + 1) == SplitNext(Advance(it, n)).1
    decreases n
  {
    if n > 0 {
      AdvanceLast(SplitNext(it).1, n - 1);
    }
  }
}
