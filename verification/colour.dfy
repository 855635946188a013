/** 24-bit colours and the SGR escape sequences that select them (src/color.rs). */
module Colour {
  import opened Wrappers
  import opened Arith

  type u8 = x: int | 0 <= x < 0x100
  type u32 = x: int | 0 <= x < 0x1_0000_0000

  datatype Color = Color(r: u8, g: u8, b: u8)

  const ESC: char := '\U{1B}'

  /** `END`: the SGR reset sequence. */
  const END: seq<char> := [ESC] + "[0m"

  /** `TryInto<u8>` of a masked channel. */
  function TryIntoU8(x: int): Result<u8, seq<char>>
  {
    if 0 <= x < 0x100 then Ok(x as u8) else Err("out of range integral type conversion attempted")
  }

  /** `Color::from_hex`: `(hex & 0xff0000) >> 16`, `(hex & 0xff00) >> 8` and
      `hex & 0xff`, each converted to `u8`. The masks keep every channel below
      256, so the conversion never fails. */
  function FromHex(hex: u32): (c: Result<Color, seq<char>>)
    ensures c.Ok?
  {
    var r := TryIntoU8((hex % 0x100_0000) / 0x1_0000);
    var g := TryIntoU8((hex % 0x1_0000) / 0x100);
    var b := TryIntoU8(hex % 0x100);
    if r.Err? || g.Err? || b.Err? then Err("out of range integral type conversion attempted")
    else Ok(Color(r.value, g.value, b.value))
  }

  /** The channels are the three low bytes of `hex`, most significant first. */
  lemma FromHexChannels(hex: u32)
    ensures var c := FromHex(hex).value;
      c.r * 0x1_0000 + c.g * 0x100 + c.b == hex % 0x100_0000
  {
    var c := FromHex(hex).value;
    var low, mid := hex % 0x100_0000, hex % 0x1_0000;
    DivMod(hex, 0x100_0000, hex / 0x100_0000, low);
    DivMod(low, 0x1_0000, low / 0x1_0000, low % 0x1_0000);
    DivMod(hex, 0x1_0000, (hex / 0x100_0000) * 0x100 + low / 0x1_0000, low % 0x1_0000);
    DivMod(mid, 0x100, mid / 0x100, mid % 0x100);
    DivMod(hex, 0x100, (hex / 0x1_0000) * 0x100 + mid / 0x100, mid % 0x100);
  }

  /** The `0xRRGGBB` literal of a colour, as the source's theme tables write them. */
  function ToHex(c: Color): u32
  {
    c.r * 0x1_0000 + c.g * 0x100 + c.b
  }

  /** Unpacking a packed colour gives the colour back, and bits above the low
      24 are ignored. */
  lemma FromHexRoundTrip(c: Color, hex: u32)
    ensures FromHex(ToHex(c)) == Ok(c)
    ensures FromHex(hex) == FromHex(hex % 0x100_0000)
  {
    var h := ToHex(c);
    DivMod(h, 0x100_0000, 0, h);
    DivMod(h, 0x1_0000, c.r, c.g * 0x100 + c.b);
    DivMod(c.g * 0x100 + c.b, 0x100, c.g, c.b);
    DivMod(h, 0x100, c.r * 0x100 + c.g, c.b);
    var low := hex % 0x100_0000;
    DivMod(hex, 0x100_0000, hex / 0x100_0000, low);
    DivMod(hex, 0x1_0000, (hex / 0x100_0000) * 0x100 + low / 0x1_0000, low % 0x1_0000);
    DivMod(hex, 0x100, (hex / 0x100_0000) * 0x1_0000 + low / 0x100, low % 0x100);
  }

  /** `Color::darken`: the `u8` subtractions panic below zero, hence the requires. */
  function Darken(c: Color, v: u8): (d: Color)
    requires c.r >= v && c.g >= v && c.b >= v
    ensures d.r + v == c.r && d.g + v == c.g && d.b + v == c.b
  {
    Color(c.r - v, c.g - v, c.b - v)
  }

  /** `Color::lighten`: the `u8` additions panic above 255, hence the requires. */
  function Lighten(c: Color, v: u8): (l: Color)
    requires c.r + v < 0x100 && c.g + v < 0x100 && c.b + v < 0x100
    ensures l.r - v == c.r && l.g - v == c.g && l.b - v == c.b
  {
    Color(c.r + v, c.g + v, c.b + v)
  }

  /** Lightening undoes darkening by the same amount, and the other way round. */
  lemma DarkenLightenInverse(c: Color, v: u8)
    ensures c.r >= v && c.g >= v && c.b >= v ==> Lighten(Darken(c, v), v) == c
    ensures c.r + v < 0x100 && c.g + v < 0x100 && c.b + v < 0x100 ==> Darken(Lighten(c, v), v) == c
  {
  }

  // ----- decimal rendering of a channel (`{}` on a `u8`) -----

  function DigitChar(d: nat): char
    requires d < 10
  {
    ['0', '1', '2', '3', '4', '5', '6', '7', '8', '9'][d]
  }

  predicate IsDigit(ch: char)
  {
    '0' <= ch <= '9'
  }

  function DigitValue(ch: char): nat
    requires IsDigit(ch)
  {
    ch as int - '0' as int
  }

  predicate AllDigits(s: seq<char>)
  {
    forall i :: 0 <= i < |s| ==> IsDigit(s[i])
  }

  /** Decimal rendering without leading zeros. */
  function Dec(n: nat): seq<char>
    decreases n
  {
    if n < 10 then [DigitChar(n)] else Dec(n / 10) + [DigitChar(n % 10)]
  }

  function DecValue(s: seq<char>): nat
    requires AllDigits(s)
  {
    if |s| == 0 then 0 else DecValue(s[..|s| - 1]) * 10 + DigitValue(s[|s| - 1])
  }

  lemma DigitCharValue(d: nat)
    requires d < 10
    ensures IsDigit(DigitChar(d)) && DigitValue(DigitChar(d)) == d
  {
  }

  /** The rendering is a non-empty digit string that reads back as the number. */
  lemma {:induction false} DecRoundTrip(n: nat)
    ensures |Dec(n)| > 0 && AllDigits(Dec(n))
    ensures DecValue(Dec(n)) == n
    ensures ';' !in Dec(n)
    decreases n
  {
    if n < 10 {
      DigitCharValue(n);
    } else {
      DecRoundTrip(n / 10);
      DigitCharValue(n % 10);
      var s := Dec(n);
      assert s[..|s| - 1] == Dec(n / 10);
    }
  }

  // ----- SGR heads -----

  /** `ESC[<sel>;2;r;g;bm`, the fields joined with `;`. */
  function SgrHead(sel: seq<char>, c: Color): seq<char>
  {
    [ESC, '['] + Join([sel, "2", Dec(c.r), Dec(c.g), Dec(c.b)]) + ['m']
  }

  /** `Color::fclr_head`: `ESC[38;2;r;g;bm`. */
  function FgHead(c: Color): seq<char>
  {
    SgrHead("38", c)
  }

  /** `Color::bclr_head`: `ESC[48;2;r;g;bm`. */
  function BgHead(c: Color): seq<char>
  {
    SgrHead("48", c)
  }

  /** `Colorful::color`: background head, foreground head, the text, then `END`. */
  function Colorize(s: seq<char>, bclr: Color, fclr: Color): seq<char>
  {
    BgHead(bclr) + FgHead(fclr) + s + END
  }

  /** `str::split(';')`. */
  function Split(s: seq<char>, sep: char): (parts: seq<seq<char>>)
    ensures |parts| >= 1
    decreases |s|
  {
    if sep !in s then [s]
    else
      var i := IndexOf(s, sep);
      [s[..i]] + Split(s[i + 1..], sep)
  }

  function IndexOf(s: seq<char>, ch: char): (i: nat)
    requires ch in s
    ensures i < |s| && s[i] == ch && ch !in s[..i]
  {
    if s[0] == ch then 0 else assert ch in s[1..]; 1 + IndexOf(s[1..], ch)
  }

  lemma {:induction false} IndexOfFirst(a: seq<char>, sep: char, b: seq<char>)
    requires sep !in a
    ensures sep in a + [sep] + b
    ensures IndexOf(a + [sep] + b, sep) == |a|
  {
    var s := a + [sep] + b;
    assert s[|a|] == sep;
    if |a| > 0 {
      assert s[0] == a[0];
      assert s[1..] == a[1..] + [sep] + b;
      IndexOfFirst(a[1..], sep, b);
    }
  }

  lemma SplitFirst(a: seq<char>, sep: char, b: seq<char>)
    requires sep !in a
    ensures Split(a + [sep] + b, sep) == [a] + Split(b, sep)
  {
    var s := a + [sep] + b;
    IndexOfFirst(a, sep, b);
    assert s[..|a|] == a;
    assert s[|a| + 1..] == b;
  }

  /** Fields joined with `;`. */
  function Join(fields: seq<seq<char>>): seq<char>
    requires |fields| >= 1
  {
    if |fields| == 1 then fields[0] else fields[0] + [';'] + Join(fields[1..])
  }

  /** Splitting undoes joining when no field holds a `;`. */
  lemma {:induction false} SplitJoin(fields: seq<seq<char>>)
    requires |fields| >= 1
    requires forall i :: 0 <= i < |fields| ==> ';' !in fields[i]
    ensures Split(Join(fields), ';') == fields
  {
    if |fields| > 1 {
      var rest := fields[1..];
      assert forall i :: 0 <= i < |rest| ==> ';' !in rest[i] by {
        forall i | 0 <= i < |rest| ensures ';' !in rest[i] {
          assert rest[i] == fields[i + 1];
        }
      }
      SplitJoin(rest);
      assert ';' !in fields[0];
      SplitFirst(fields[0], ';', Join(rest));
      assert Join(fields) == fields[0] + [';'] + Join(rest);
      assert fields == [fields[0]] + rest;
    }
  }

  /** Reads back an SGR colour head: the selector (38 foreground, 48
      background) and the colour, or `None` for anything else. */
  function ParseHead(s: seq<char>): Option<(nat, Color)>
  {
    if |s| < 3 || s[0] != ESC || s[1] != '[' || s[|s| - 1] != 'm' then None
    else
      var f := Split(s[2..|s| - 1], ';');
      if |f| != 5 || f[1] != "2" || !(f[0] == "38" || f[0] == "48") then None
      else if !(AllDigits(f[2]) && AllDigits(f[3]) && AllDigits(f[4])) then None
      else
        var r, g, b := DecValue(f[2]), DecValue(f[3]), DecValue(f[4]);
        if r < 0x100 && g < 0x100 && b < 0x100 then
          Some((if f[0] == "38" then 38 else 48, Color(r, g, b)))
        else None
  }

  lemma SgrHeadRoundTrip(sel: seq<char>, c: Color)
    requires sel == "38" || sel == "48"
    ensures ParseHead(SgrHead(sel, c)) == Some((if sel == "38" then 38 else 48, c))
  {
    DecRoundTrip(c.r);
    DecRoundTrip(c.g);
    DecRoundTrip(c.b);
    SgrHeadFields(sel, c);
    ParseFields(SgrHead(sel, c), sel, c);
  }

  /** A head whose body splits into the selector, `2` and three channels
      reads back as that selector and colour. */
  lemma ParseFields(s: seq<char>, sel: seq<char>, c: Color)
    requires sel == "38" || sel == "48"
    requires |s| >= 3 && s[0] == ESC && s[1] == '[' && s[|s| - 1] == 'm'
    requires Split(s[2..|s| - 1], ';') == [sel, "2", Dec(c.r), Dec(c.g), Dec(c.b)]
    ensures ParseHead(s) == Some((if sel == "38" then 38 else 48, c))
  {
    DecRoundTrip(c.r);
    DecRoundTrip(c.g);
    DecRoundTrip(c.b);
  }

  /** The body of a head splits back into its five fields. */
  lemma SgrHeadFields(sel: seq<char>, c: Color)
    requires sel == "38" || sel == "48"
    ensures var h := SgrHead(sel, c);
      && |h| >= 3 && h[0] == ESC && h[1] == '[' && h[|h| - 1] == 'm'
      && Split(h[2..|h| - 1], ';') == [sel, "2", Dec(c.r), Dec(c.g), Dec(c.b)]
  {
    DecRoundTrip(c.r);
    DecRoundTrip(c.g);
    DecRoundTrip(c.b);
    var fields := [sel, "2", Dec(c.r), Dec(c.g), Dec(c.b)];
    assert forall i :: 0 <= i < |fields| ==> ';' !in fields[i] by {
      assert ';' !in sel && ';' !in "2";
    }
    SplitJoin(fields);
    var h := SgrHead(sel, c);
    assert h[2..|h| - 1] == Join(fields);
  }

  /** Both heads read back as the colour they were built from, with the
      selector that tells foreground from background. */
  lemma HeadRoundTrip(c: Color)
    ensures ParseHead(FgHead(c)) == Some((38, c))
    ensures ParseHead(BgHead(c)) == Some((48, c))
  {
    SgrHeadRoundTrip("38", c);
    SgrHeadRoundTrip("48", c);
  }

  lemma Slices4(a: seq<char>, b: seq<char>, c: seq<char>, d: seq<char>)
    ensures var x := a + b + c + d;
      && x[..|a|] == a
      && x[|a|..|a| + |b|] == b
      && x[|a| + |b|..|a| + |b| + |c|] == c
      && x[|a| + |b| + |c|..] == d
  {
  }

  /** A coloured string splits back into its background head, foreground head,
      the text itself and the reset sequence. */
  lemma ColorizeParts(s: seq<char>, bclr: Color, fclr: Color)
    ensures var out, nb, nf := Colorize(s, bclr, fclr), |BgHead(bclr)|, |FgHead(fclr)|;
      && |out| == nb + nf + |s| + |END|
      && ParseHead(out[..nb]) == Some((48, bclr))
      && ParseHead(out[nb..nb + nf]) == Some((38, fclr))
      && out[nb + nf..nb + nf + |s|] == s
      && out[nb + nf + |s|..] == END
  {
    HeadRoundTrip(bclr);
    HeadRoundTrip(fclr);
    Slices4(BgHead(bclr), FgHead(fclr), s, END);
  }
}
