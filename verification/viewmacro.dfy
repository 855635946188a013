/** The `#[view]` attribute macro (src/lib.rs): the validation of the
    `start`, `end`, `bcolor`, `fcolor` and `silent` attributes on a view
    struct, the conversion of signed coordinates to edge-anchored positions,
    and the generated `new` and `resize`. Token streams become a small
    expression datatype and a configuration record; a panic inside the macro
    (a literal out of range for its type) becomes an error, since either way
    compilation stops. */
module ViewMacro {
  import opened Wrappers
  import opened Geometry
  import opened Colour

  /** The attribute-value expressions the macro tells apart. */
  datatype Expr =
    | IntLit(n: nat)
    | OtherLit
    | Neg(e: Expr)
    | OtherUnary(e: Expr)
    | Tuple(elems: seq<Expr>)
    | Other

  /** Why the macro rejects the attributes. */
  datatype AttrError =
    | NotLiteral
    | OnlyNeg
    | UnaryNotAllowed
    | OutOfRange
    | Arity
    | NotTuple
    | ZeroCoordinate
    | Duplicate(name: seq<char>)
    | BadFormat(name: seq<char>)
    | Unrecognized
    | MissingStart
    | MissingEnd

  /** A literal under zero or more minus signs. */
  predicate SignedLit(e: Expr)
  {
    match e
    case IntLit(_) => true
    case Neg(inner) => SignedLit(inner)
    case _ => false
  }

  function Negations(e: Expr): nat
    requires SignedLit(e)
  {
    match e
    case IntLit(_) => 0
    case Neg(inner) => 1 + Negations(inner)
  }

  function Magnitude(e: Expr): nat
    requires SignedLit(e)
  {
    match e
    case IntLit(n) => n
    case Neg(inner) => Magnitude(inner)
  }

  /** `get_val::<i16>`: a literal, possibly under nested minus signs. The
      literal must fit in `i16`; any other operator or expression is
      rejected. The value is the literal, negated once per minus sign. */
  function GetVal(e: Expr): (r: Result<i16, AttrError>)
    ensures r.Ok? <==> SignedLit(e) && Magnitude(e) < 0x8000
    ensures r.Ok? ==> r.value == if Negations(e) % 2 == 0 then Magnitude(e) else -(Magnitude(e) as int)
    ensures e.OtherUnary? ==> r == Err(OnlyNeg)
    ensures e.OtherLit? || e.Tuple? || e.Other? ==> r == Err(NotLiteral)
  {
    match e
    case Neg(inner) =>
      var v := GetVal(inner);
      if v.Err? then v else Ok(-v.value)
    case OtherUnary(_) => Err(OnlyNeg)
    case IntLit(n) => if n < 0x8000 then Ok(n) else Err(OutOfRange)
    case _ => Err(NotLiteral)
  }

  /** `get_unsigned_val::<u8>`: a bare literal that fits in `u8`. */
  function GetUnsignedVal(e: Expr): (r: Result<u8, AttrError>)
    ensures r.Ok? <==> e.IntLit? && e.n < 0x100
    ensures r.Ok? ==> r.value == e.n
    ensures e.Neg? || e.OtherUnary? ==> r == Err(UnaryNotAllowed)
  {
    match e
    case IntLit(n) => if n < 0x100 then Ok(n) else Err(OutOfRange)
    case OtherLit => Err(NotLiteral)
    case _ => Err(UnaryNotAllowed)
  }

  /** `parse_pos_tuple`: a pair of signed literals. */
  function ParsePosTuple(e: Expr): (r: Result<(i16, i16), AttrError>)
    ensures r.Ok? <==> e.Tuple? && |e.elems| == 2 && GetVal(e.elems[0]).Ok? && GetVal(e.elems[1]).Ok?
    ensures r.Ok? ==> r.value == (GetVal(e.elems[0]).value, GetVal(e.elems[1]).value)
    ensures e.Tuple? && |e.elems| != 2 ==> r == Err(Arity)
  {
    match e
    case Tuple(elems) =>
      if |elems| != 2 then Err(Arity)
      else
        var x := GetVal(elems[0]);
        if x.Err? then Err(x.error)
        else
          var y := GetVal(elems[1]);
          if y.Err? then Err(y.error) else Ok((x.value, y.value))
    case _ => Err(NotTuple)
  }

  /** `parse_color_tuple`: a triple of bare `u8` literals. */
  function ParseColorTuple(e: Expr): (r: Result<Color, AttrError>)
    ensures r.Ok? <==> e.Tuple? && |e.elems| == 3 && forall k :: 0 <= k < 3 ==> GetUnsignedVal(e.elems[k]).Ok?
    ensures r.Ok? ==> r.value == Color(e.elems[0].n, e.elems[1].n, e.elems[2].n)
    ensures e.Tuple? && |e.elems| != 3 ==> r == Err(Arity)
  {
    match e
    case Tuple(elems) =>
      if |elems| != 3 then Err(Arity)
      else
        var r := GetUnsignedVal(elems[0]);
        var g := GetUnsignedVal(elems[1]);
        var b := GetUnsignedVal(elems[2]);
        if r.Err? then Err(r.error)
        else if g.Err? then Err(g.error)
        else if b.Err? then Err(b.error)
        else Ok(Color(r.value, g.value, b.value))
    case _ => Err(NotTuple)
  }

  /** A signed coordinate as a position: `n > 0` is `Fixed(n - 1)`, `n < 0` is
      `Opposite(|n| - 1)`, and zero is rejected. */
  function ToPos(v: i16): (r: Result<Pos, AttrError>)
    ensures r.Err? <==> v == 0
    ensures v > 0 ==> r == Ok(Fixed(v - 1))
    ensures v < 0 ==> r == Ok(Opposite(-(v as int) - 1))
  {
    if v > 0 then Ok(Fixed(v - 1))
    else if v < 0 then Ok(Opposite(-(v as int) - 1))
    else Err(ZeroCoordinate)
  }

  /** What the coordinates mean once resolved: `n > 0` is the `n`-th row or
      column from 1, and `-n` is `n` short of the far edge `extent + 2`, so
      `-1` is the column just past the last. */
  lemma ToPosResolves(v: i16, extent: u16)
    requires v != 0 && CanResolve(ToPos(v).value, extent)
    ensures v > 0 ==> Resolve(ToPos(v).value, extent) == v
    ensures v < 0 ==> Resolve(ToPos(v).value, extent) == extent + 2 + v
  {
  }

  /** A `start` or `end` value: a pair of non-zero coordinates. */
  function Coords(e: Expr): (r: Result<(Pos, Pos), AttrError>)
    ensures r.Ok? <==> ParsePosTuple(e).Ok? && ParsePosTuple(e).value.0 != 0 && ParsePosTuple(e).value.1 != 0
  {
    var t := ParsePosTuple(e);
    if t.Err? then Err(t.error)
    else
      var x := ToPos(t.value.0);
      var y := ToPos(t.value.1);
      if x.Err? then Err(x.error)
      else if y.Err? then Err(y.error)
      else Ok((x.value, y.value))
  }

  /** `attr.meta`: `name = value`, or any other form. */
  datatype Meta = NameValue(value: Expr) | OtherMeta

  datatype Attr = Attr(name: seq<char>, meta: Meta)

  /** The attributes seen so far. */
  datatype Acc = Acc(
    start: Option<(Pos, Pos)>,
    end: Option<(Pos, Pos)>,
    bcolor: Option<Color>,
    fcolor: Option<Color>,
    silent: bool)

  const Fresh: Acc := Acc(None, None, None, None, false)

  /** One pass of the loop in `parse_attrs`. */
  function Take(acc: Acc, a: Attr): Result<Acc, AttrError>
  {
    if a.name == "start" || a.name == "end" then
      if (a.name == "start" && acc.start.Some?) || (a.name == "end" && acc.end.Some?) then Err(Duplicate(a.name))
      else if a.meta.OtherMeta? then Err(BadFormat(a.name))
      else
        var c := Coords(a.meta.value);
        if c.Err? then Err(c.error)
        else if a.name == "start" then Ok(acc.(start := Some(c.value)))
        else Ok(acc.(end := Some(c.value)))
    else if a.name == "bcolor" || a.name == "fcolor" then
      if (a.name == "bcolor" && acc.bcolor.Some?) || (a.name == "fcolor" && acc.fcolor.Some?) then Err(Duplicate(a.name))
      else if a.meta.OtherMeta? then Err(BadFormat(a.name))
      else
        var c := ParseColorTuple(a.meta.value);
        if c.Err? then Err(c.error)
        else if a.name == "bcolor" then Ok(acc.(bcolor := Some(c.value)))
        else Ok(acc.(fcolor := Some(c.value)))
    else if a.name == "silent" then
      if acc.silent then Err(Duplicate(a.name)) else Ok(acc.(silent := true))
    else Err(Unrecognized)
  }

  function TakeAll(acc: Acc, attrs: seq<Attr>): Result<Acc, AttrError>
    decreases |attrs|
  {
    if |attrs| == 0 then Ok(acc)
    else
      var next := Take(acc, attrs[0]);
      if next.Err? then next else TakeAll(next.value, attrs[1..])
  }

  /** The fields the macro adds to a view. */
  datatype Config = Config(start: (Pos, Pos), end: (Pos, Pos), silent: bool, bcolor: Color, fcolor: Color)

  /** `parse_attrs`: the loop, the two required attributes, and the defaults:
      not silent, black background, white foreground. */
  function ParseAttrs(attrs: seq<Attr>): (r: Result<Config, AttrError>)
    ensures r.Ok? <==> TakeAll(Fresh, attrs).Ok? && TakeAll(Fresh, attrs).value.start.Some? && TakeAll(Fresh, attrs).value.end.Some?
    ensures r.Ok? ==> var acc := TakeAll(Fresh, attrs).value;
      && r.value.silent == acc.silent
      && (acc.bcolor.None? ==> r.value.bcolor == Color(0, 0, 0))
      && (acc.fcolor.None? ==> r.value.fcolor == Color(0xff, 0xff, 0xff))
  {
    var acc := TakeAll(Fresh, attrs);
    if acc.Err? then Err(acc.error)
    else if acc.value.start.None? then Err(MissingStart)
    else if acc.value.end.None? then Err(MissingEnd)
    else
      var a := acc.value;
      Ok(Config(a.start.value, a.end.value, a.silent,
        if a.bcolor.Some? then a.bcolor.value else Color(0, 0, 0),
        if a.fcolor.Some? then a.fcolor.value else Color(0xff, 0xff, 0xff)))
  }

  /** Number of attributes with a given name. */
  function Count(attrs: seq<Attr>, name: seq<char>): nat
  {
    if |attrs| == 0 then 0 else (if attrs[0].name == name then 1 else 0) + Count(attrs[1..], name)
  }

  /** An attribute the macro accepts on its own: a known name, and for every
      name but `silent` a `name = value` form with a valid value. */
  predicate Acceptable(a: Attr)
  {
    if a.name == "start" || a.name == "end" then a.meta.NameValue? && Coords(a.meta.value).Ok?
    else if a.name == "bcolor" || a.name == "fcolor" then a.meta.NameValue? && ParseColorTuple(a.meta.value).Ok?
    else a.name == "silent"
  }

  /** How often each attribute has been seen. */
  function Seen(acc: Acc, name: seq<char>): nat
  {
    if name == "start" then (if acc.start.Some? then 1 else 0)
    else if name == "end" then (if acc.end.Some? then 1 else 0)
    else if name == "bcolor" then (if acc.bcolor.Some? then 1 else 0)
    else if name == "fcolor" then (if acc.fcolor.Some? then 1 else 0)
    else if name == "silent" then (if acc.silent then 1 else 0)
    else 0
  }

  /** No name would be seen twice. */
  predicate Within(acc: Acc, attrs: seq<Attr>)
  {
    && Seen(acc, "start") + Count(attrs, "start") <= 1
    && Seen(acc, "end") + Count(attrs, "end") <= 1
    && Seen(acc, "bcolor") + Count(attrs, "bcolor") <= 1
    && Seen(acc, "fcolor") + Count(attrs, "fcolor") <= 1
    && Seen(acc, "silent") + Count(attrs, "silent") <= 1
  }

  /** `after` has seen each name as often as `before` plus its occurrences. */
  predicate Tally(after: Acc, before: Acc, attrs: seq<Attr>)
  {
    && Seen(after, "start") == Seen(before, "start") + Count(attrs, "start")
    && Seen(after, "end") == Seen(before, "end") + Count(attrs, "end")
    && Seen(after, "bcolor") == Seen(before, "bcolor") + Count(attrs, "bcolor")
    && Seen(after, "fcolor") == Seen(before, "fcolor") + Count(attrs, "fcolor")
    && Seen(after, "silent") == Seen(before, "silent") + Count(attrs, "silent")
  }

  predicate AllAcceptable(attrs: seq<Attr>)
  {
    forall k :: 0 <= k < |attrs| ==> Acceptable(attrs[k])
  }

  /** The loop succeeds exactly when every attribute is acceptable and no
      name is seen twice; then it has seen each name as often as it occurs. */
  lemma {:induction false} TakeAllSpec(acc: Acc, attrs: seq<Attr>)
    ensures TakeAll(acc, attrs).Ok? <==> AllAcceptable(attrs) && Within(acc, attrs)
    ensures TakeAll(acc, attrs).Ok? ==> Tally(TakeAll(acc, attrs).value, acc, attrs)
    decreases |attrs|
  {
    if |attrs| > 0 {
      var a := attrs[0];
      var rest := attrs[1..];
      var next := Take(acc, a);
      AcceptableSplit(attrs);
      WithinHead(acc, attrs);
      if next.Ok? {
        TakeSpec(acc, a);
        TakeAllSpec(next.value, rest);
        WithinSplit(acc, next.value, attrs);
        if TakeAll(next.value, rest).Ok? {
          TallyCompose(TakeAll(next.value, rest).value, next.value, acc, attrs);
        }
      } else {
        TakeFails(acc, a);
      }
    }
  }

  lemma AcceptableSplit(attrs: seq<Attr>)
    requires |attrs| > 0
    ensures AllAcceptable(attrs) <==> Acceptable(attrs[0]) && AllAcceptable(attrs[1..])
  {
    var rest := attrs[1..];
    if Acceptable(attrs[0]) && AllAcceptable(rest) {
      forall k | 0 <= k < |attrs|
        ensures Acceptable(attrs[k])
      {
        if k > 0 { assert attrs[k] == rest[k - 1]; }
      }
    }
    if AllAcceptable(attrs) {
      assert forall k :: 0 <= k < |rest| ==> rest[k] == attrs[k + 1];
    }
  }

  lemma CountSplit(attrs: seq<Attr>, name: seq<char>)
    requires |attrs| > 0
    ensures Count(attrs, name) == Count([attrs[0]], name) + Count(attrs[1..], name)
  {
    assert [attrs[0]][1..] == [];
  }

  lemma CountSplits(attrs: seq<Attr>)
    requires |attrs| > 0
    ensures Count(attrs, "start") == Count([attrs[0]], "start") + Count(attrs[1..], "start")
    ensures Count(attrs, "end") == Count([attrs[0]], "end") + Count(attrs[1..], "end")
    ensures Count(attrs, "bcolor") == Count([attrs[0]], "bcolor") + Count(attrs[1..], "bcolor")
    ensures Count(attrs, "fcolor") == Count([attrs[0]], "fcolor") + Count(attrs[1..], "fcolor")
    ensures Count(attrs, "silent") == Count([attrs[0]], "silent") + Count(attrs[1..], "silent")
  {
    CountSplit(attrs, "start");
    CountSplit(attrs, "end");
    CountSplit(attrs, "bcolor");
    CountSplit(attrs, "fcolor");
    CountSplit(attrs, "silent");
  }

  lemma WithinHead(acc: Acc, attrs: seq<Attr>)
    requires |attrs| > 0
    ensures Within(acc, attrs) ==> Within(acc, [attrs[0]])
  {
    CountSplits(attrs);
  }

  lemma WithinSplit(acc: Acc, next: Acc, attrs: seq<Attr>)
    requires |attrs| > 0 && Tally(next, acc, [attrs[0]])
    ensures Within(acc, attrs) <==> Within(acc, [attrs[0]]) && Within(next, attrs[1..])
  {
    CountSplits(attrs);
  }

  lemma TallyCompose(last: Acc, next: Acc, acc: Acc, attrs: seq<Attr>)
    requires |attrs| > 0 && Tally(next, acc, [attrs[0]]) && Tally(last, next, attrs[1..])
    ensures Tally(last, acc, attrs)
  {
    CountSplits(attrs);
  }

  /** A single accepted attribute bumps the count of its own name only. */
  lemma TakeSpec(acc: Acc, a: Attr)
    requires Take(acc, a).Ok?
    ensures Acceptable(a) && Within(acc, [a])
    ensures Tally(Take(acc, a).value, acc, [a])
  {
    CountOne(a, "start");
    CountOne(a, "end");
    CountOne(a, "bcolor");
    CountOne(a, "fcolor");
    CountOne(a, "silent");
  }

  lemma CountOne(a: Attr, name: seq<char>)
    ensures Count([a], name) == if a.name == name then 1 else 0
  {
    assert [a][1..] == [];
  }

  /** An attribute is refused when it is unacceptable or already seen. */
  lemma TakeFails(acc: Acc, a: Attr)
    requires Take(acc, a).Err?
    ensures !Acceptable(a) || !Within(acc, [a])
  {
  }

  /** The attributes a view accepts: each acceptable, `start` and `end`
      exactly once, the others at most once. */
  lemma ParseAttrsSpec(attrs: seq<Attr>)
    ensures ParseAttrs(attrs).Ok? <==>
      && AllAcceptable(attrs)
      && Count(attrs, "start") == 1 && Count(attrs, "end") == 1
      && Count(attrs, "bcolor") <= 1 && Count(attrs, "fcolor") <= 1 && Count(attrs, "silent") <= 1
    ensures ParseAttrs(attrs).Ok? ==> (ParseAttrs(attrs).value.silent <==> Count(attrs, "silent") == 1)
  {
    TakeAllSpec(Fresh, attrs);
    assert Seen(Fresh, "start") == Seen(Fresh, "end") == Seen(Fresh, "bcolor") == 0;
    assert Seen(Fresh, "fcolor") == Seen(Fresh, "silent") == 0;
    var t := TakeAll(Fresh, attrs);
    if t.Ok? {
      var acc := t.value;
      assert acc.start.Some? <==> Seen(acc, "start") == 1;
      assert acc.end.Some? <==> Seen(acc, "end") == 1;
      assert acc.silent <==> Seen(acc, "silent") == 1;
    }
  }

  /** The frame and flags of a view. */
  datatype Frame = Frame(
    name: seq<char>, start: (Pos, Pos), end: (Pos, Pos),
    silent: bool, lock: bool, show: bool, fcolor: Color, bcolor: Color)

  /** The generated `new`: the configured frame, unlocked and shown. */
  function New(name: seq<char>, cfg: Config): (r: Frame)
    ensures !r.lock && r.show
    ensures r.start == cfg.start && r.end == cfg.end && r.silent == cfg.silent
    ensures r.fcolor == cfg.fcolor && r.bcolor == cfg.bcolor && r.name == name
  {
    Frame(name, cfg.start, cfg.end, cfg.silent, false, true, cfg.fcolor, cfg.bcolor)
  }

  /** One axis may be moved by `ds`/`de` without overflowing and resolved
      before and after. */
  predicate AxisOk(s: Pos, e: Pos, ds: i16, de: i16, extent: u16)
  {
    && (ds > 0 ==> Get(s) + ds < U16_LIMIT)
    && (de > 0 ==> Get(e) + de < U16_LIMIT)
    && CanResolve(s, extent) && CanResolve(e, extent)
    && CanResolve(Add(s, ds), extent) && CanResolve(Add(e, de), extent)
  }

  /** One axis of the generated `resize`: both ends move, unless that would
      leave the start at or past the end, in which case the axis is kept. */
  function Axis(s: Pos, e: Pos, ds: i16, de: i16, extent: u16): (r: (Pos, Pos))
    requires AxisOk(s, e, ds, de, extent)
    ensures r == (Add(s, ds), Add(e, de)) <==> Resolve(Add(s, ds), extent) < Resolve(Add(e, de), extent) || (Add(s, ds) == s && Add(e, de) == e)
    ensures r != (Add(s, ds), Add(e, de)) ==> r == (s, e)
    ensures Resolve(s, extent) < Resolve(e, extent) ==> Resolve(r.0, extent) < Resolve(r.1, extent)
  {
    var s', e' := Add(s, ds), Add(e, de);
    if Resolve(s', extent) >= Resolve(e', extent) then (s, e) else (s', e')
  }

  /** `resize`: the two axes are handled independently, columns against the
      terminal width and rows against its height. */
  function Resize(f: Frame, width: u16, height: u16, dxs: i16, dys: i16, dxe: i16, dye: i16): (r: Frame)
    requires AxisOk(f.start.0, f.end.0, dxs, dxe, width)
    requires AxisOk(f.start.1, f.end.1, dys, dye, height)
    ensures (r.start.0, r.end.0) == Axis(f.start.0, f.end.0, dxs, dxe, width)
    ensures (r.start.1, r.end.1) == Axis(f.start.1, f.end.1, dys, dye, height)
    ensures r == f.(start := r.start, end := r.end)
  {
    var (xs, xe) := Axis(f.start.0, f.end.0, dxs, dxe, width);
    var (ys, ye) := Axis(f.start.1, f.end.1, dys, dye, height);
    f.(start := (xs, ys), end := (xe, ye))
  }

  /** A frame that is non-empty on both axes stays non-empty after any
      resize, and a resize of zero changes nothing. */
  lemma ResizeKeepsFrame(f: Frame, width: u16, height: u16, dxs: i16, dys: i16, dxe: i16, dye: i16)
    requires AxisOk(f.start.0, f.end.0, dxs, dxe, width)
    requires AxisOk(f.start.1, f.end.1, dys, dye, height)
    requires Resolve(f.start.0, width) < Resolve(f.end.0, width)
    requires Resolve(f.start.1, height) < Resolve(f.end.1, height)
    ensures var r := Resize(f, width, height, dxs, dys, dxe, dye);
      Resolve(r.start.0, width) < Resolve(r.end.0, width) && Resolve(r.start.1, height) < Resolve(r.end.1, height)
    ensures Resize(f, width, height, 0, 0, 0, 0) == f
  {
  }

  /** A view compiled from its attributes starts unlocked and shown, at the
      `start` and `end` it was given, silent exactly when `silent` was
      written, with the given colours or the defaults; and when that frame is
      non-empty, no resize empties it. */
  lemma CompiledView(name: seq<char>, attrs: seq<Attr>, width: u16, height: u16, dxs: i16, dys: i16, dxe: i16, dye: i16)
    requires ParseAttrs(attrs).Ok?
    ensures var f := New(name, ParseAttrs(attrs).value);
      var acc := TakeAll(Fresh, attrs).value;
      && !f.lock && f.show && f.name == name
      && f.start == acc.start.value && f.end == acc.end.value
      && (f.silent <==> Count(attrs, "silent") == 1)
      && f.bcolor == (if acc.bcolor.Some? then acc.bcolor.value else Color(0, 0, 0))
      && f.fcolor == (if acc.fcolor.Some? then acc.fcolor.value else Color(0xff, 0xff, 0xff))
    ensures var f := New(name, ParseAttrs(attrs).value);
      && AxisOk(f.start.0, f.end.0, dxs, dxe, width) && AxisOk(f.start.1, f.end.1, dys, dye, height)
      && Resolve(f.start.0, width) < Resolve(f.end.0, width)
      && Resolve(f.start.1, height) < Resolve(f.end.1, height)
      ==> var r := Resize(f, width, height, dxs, dys, dxe, dye);
        Resolve(r.start.0, width) < Resolve(r.end.0, width) && Resolve(r.start.1, height) < Resolve(r.end.1, height)
  {
    ParseAttrsSpec(attrs);
    var f := New(name, ParseAttrs(attrs).value);
    if && AxisOk(f.start.0, f.end.0, dxs, dxe, width) && AxisOk(f.start.1, f.end.1, dys, dye, height)
       && Resolve(f.start.0, width) < Resolve(f.end.0, width)
       && Resolve(f.start.1, height) < Resolve(f.end.1, height)
    {
      ResizeKeepsFrame(f, width, height, dxs, dys, dxe, dye);
    }
  }
}
