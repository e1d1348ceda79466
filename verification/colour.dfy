/**
 * Hex colours and the channel-wise blend used to tint roadmap nodes
 * (COLOR_PALETTES and interpolateColor in RoadmapCanvas.tsx).
 */
module Colour {
  import opened Wrappers
  import opened Text

  type Channel = x: int | 0 <= x < 256

  datatype Rgb = Rgb(r: Channel, g: Channel, b: Channel)

  /** A blend factor: a JavaScript number, which may be NaN. */
  datatype Factor = NaN | Num(value: real)

  datatype PalettePair = PalettePair(start: string, end: string)

  /** The eight start/end pairs, one per path colour: red, blue, emerald, violet, amber, pink, cyan, rose. */
  const Palettes: seq<PalettePair> := [
    PalettePair("#ef4444", "#b91c1c"),
    PalettePair("#3b82f6", "#1d4ed8"),
    PalettePair("#10b981", "#047857"),
    PalettePair("#8b5cf6", "#6d28d9"),
    PalettePair("#f59e0b", "#b45309"),
    PalettePair("#ec4899", "#be185d"),
    PalettePair("#06b6d4", "#0e7490"),
    PalettePair("#f43f5e", "#be123c")
  ]

  /** Returned when the first colour is empty. */
  const FallbackRed: string := "#ef4444"

  // ---------------------------------------------------------------- hex digits

  predicate IsLowerHex(c: char) {
    '0' <= c <= '9' || 'a' <= c <= 'f'
  }

  /** The value of a hexadecimal digit of either case, as parseInt(_, 16) reads it. */
  function HexValue(c: char): Option<nat> {
    if '0' <= c <= '9' then Some(c as int - '0' as int)
    else if 'a' <= c <= 'f' then Some(c as int - 'a' as int + 10)
    else if 'A' <= c <= 'F' then Some(c as int - 'A' as int + 10)
    else None
  }

  /** The lower-case digit Number.prototype.toString(16) writes. */
  function HexDigit(d: nat): (c: char)
    requires d < 16
    ensures IsLowerHex(c)
    ensures HexValue(c) == Some(d)
  {
    if d < 10 then ('0' as int + d) as char else ('a' as int + d - 10) as char
  }

  lemma HexDigitOfValue(c: char)
    requires IsLowerHex(c)
    ensures HexValue(c).Some? && HexValue(c).value < 16 && HexDigit(HexValue(c).value) == c
  {
  }

  /** Number.prototype.toString(16) of a non-negative integer. */
  function HexString(n: nat): (s: string)
    ensures |s| > 0
  {
    if n < 16 then [HexDigit(n)] else HexString(n / 16) + [HexDigit(n % 16)]
  }

  function Hex2(c: Channel): string {
    [HexDigit(c / 16), HexDigit(c % 16)]
  }

  /** Writing a number in base 256 appends two hex digits per byte. */
  lemma HexStringAppendByte(n: nat, c: Channel)
    requires n >= 1
    ensures HexString(n * 256 + c) == HexString(n) + Hex2(c)
  {
    var m := n * 256 + c;
    assert m / 16 == n * 16 + c / 16 && m % 16 == c % 16;
    assert (n * 16 + c / 16) / 16 == n && (n * 16 + c / 16) % 16 == c / 16;
  }

  // ---------------------------------------------------------------- parsing

  /**
   * String.prototype.replace('#', ''): the first '#' is cut out, every other
   * character is kept in order; a string without '#' is unchanged.
   */
  function StripHash(s: string): (r: string)
    ensures '#' in s ==> r == s[..IndexOf(s, '#')] + s[IndexOf(s, '#') + 1..]
    ensures '#' in s ==> |r| == |s| - 1
    ensures '#' !in s ==> r == s
  {
    if |s| == 0 then s
    else if s[0] == '#' then s[1..]
    else
      var t := s[1..];
      assert s == [s[0]] + t;
      var rest := StripHash(t);
      if '#' in t then
        var k := IndexOf(t, '#');
        assert IndexOf(s, '#') == k + 1;
        assert s[..k + 1] == [s[0]] + t[..k];
        assert s[k + 2..] == t[k + 1..];
        [s[0]] + rest
      else
        [s[0]] + rest
  }

  /** A leading '#' is the one removed. */
  lemma StripLeadingHash(s: string)
    requires |s| > 0 && s[0] == '#'
    ensures StripHash(s) == s[1..]
  {
  }

  function ParseChannel(hi: char, lo: char): Option<Channel> {
    match (HexValue(hi), HexValue(lo))
    case (Some(h), Some(l)) =>
      assert h < 16 && l < 16;
      Some(h * 16 + l)
    case _ => None
  }

  /**
   * The three channels read by parseInt(hex.substring(2k, 2k+2), 16) after the
   * first '#' is dropped, when all six characters are hex digits; None when
   * they are not (the source then computes with NaN or a partial parse).
   */
  function ParseColour(s: string): (r: Option<Rgb>)
    ensures var h := StripHash(s);
      r.Some? <==> |h| >= 6 && forall k :: 0 <= k < 6 ==> HexValue(h[k]).Some?
    ensures var h := StripHash(s);
      r.Some? ==> r.value.r == HexValue(h[0]).value * 16 + HexValue(h[1]).value
                  && r.value.g == HexValue(h[2]).value * 16 + HexValue(h[3]).value
                  && r.value.b == HexValue(h[4]).value * 16 + HexValue(h[5]).value
  {
    var h := StripHash(s);
    if |h| < 6 then None
    else match (ParseChannel(h[0], h[1]), ParseChannel(h[2], h[3]), ParseChannel(h[4], h[5]))
      case (Some(r), Some(g), Some(b)) => Some(Rgb(r, g, b))
      case _ => None
  }

  // ---------------------------------------------------------------- formatting

  /** '#' + six lower-case hex digits: the only shape the blend ever writes. */
  predicate Canonical(s: string) {
    |s| == 7 && s[0] == '#' && forall i :: 1 <= i < 7 ==> IsLowerHex(s[i])
  }

  /** The number `(1 << 24) + (r << 16) + (g << 8) + b` is written as "1" and two hex digits per channel. */
  lemma HexStringOfPacked(c: Rgb)
    ensures HexString(0x100_0000 + c.r * 0x1_0000 + c.g * 0x100 + c.b) == "1" + Hex2(c.r) + Hex2(c.g) + Hex2(c.b)
  {
    HexStringAppendByte(1, c.r);
    HexStringAppendByte(256 + c.r, c.g);
    HexStringAppendByte((256 + c.r) * 256 + c.g, c.b);
    assert 0x100_0000 + c.r * 0x1_0000 + c.g * 0x100 + c.b == ((256 + c.r) * 256 + c.g) * 256 + c.b;
  }

  /** `#${((1 << 24) + (r << 16) + (g << 8) + b).toString(16).slice(1)}` */
  function FormatColour(c: Rgb): (s: string)
    ensures Canonical(s)
    ensures s == "#" + Hex2(c.r) + Hex2(c.g) + Hex2(c.b)
  {
    HexStringOfPacked(c);
    "#" + HexString(0x100_0000 + c.r * 0x1_0000 + c.g * 0x100 + c.b)[1..]
  }

  /** Reading back a formatted colour gives the same channels. */
  lemma ParseFormatRoundTrip(c: Rgb)
    ensures ParseColour(FormatColour(c)) == Some(c)
  {
    var s := FormatColour(c);
    assert StripHash(s) == s[1..];
  }

  /** Two lower-case hex digits are read as a channel that is written back as the same digits. */
  lemma Hex2OfParse(hi: char, lo: char)
    requires IsLowerHex(hi) && IsLowerHex(lo)
    ensures ParseChannel(hi, lo).Some? && Hex2(ParseChannel(hi, lo).value) == [hi, lo]
  {
    HexDigitOfValue(hi);
    HexDigitOfValue(lo);
    var h := HexValue(hi).value;
    var l := HexValue(lo).value;
    assert (h * 16 + l) / 16 == h && (h * 16 + l) % 16 == l;
  }

  /** A canonical colour is parsed and re-formatted to itself. */
  lemma FormatParseRoundTrip(s: string)
    requires Canonical(s)
    ensures ParseColour(s).Some? && FormatColour(ParseColour(s).value) == s
  {
    var h := s[1..];
    assert StripHash(s) == h;
    assert IsLowerHex(s[1]) && IsLowerHex(s[2]) && IsLowerHex(s[3]);
    assert IsLowerHex(s[4]) && IsLowerHex(s[5]) && IsLowerHex(s[6]);
    Hex2OfParse(h[0], h[1]);
    Hex2OfParse(h[2], h[3]);
    Hex2OfParse(h[4], h[5]);
    assert s == "#" + [h[0], h[1]] + [h[2], h[3]] + [h[4], h[5]];
  }

  // ---------------------------------------------------------------- blending

  /** Math.round over exact arithmetic: halves round up. */
  function Round(x: real): int {
    (x + 0.5).Floor
  }

  lemma ScaleBounds(f: real, d: real)
    requires 0.0 <= f <= 1.0
    ensures 0.0 <= d ==> 0.0 <= f * d <= d
    ensures d <= 0.0 ==> d <= f * d <= 0.0
    ensures f == 0.0 ==> f * d == 0.0
    ensures f == 1.0 ==> f * d == d
  {
    assert (1.0 - f) * d == d - f * d;
    if 0.0 <= d {
      assert 0.0 <= (1.0 - f) * d;
    } else {
      assert (1.0 - f) * d <= 0.0;
    }
  }

  /** Rounding a value that lies between two integers stays between them. */
  lemma RoundBetween(x: real, lo: int, hi: int)
    requires lo as real <= x <= hi as real
    ensures lo <= Round(x) <= hi
    ensures x == lo as real ==> Round(x) == lo
    ensures x == hi as real ==> Round(x) == hi
  {
  }

  /** The unrounded blend c1 + f * (c2 - c1). */
  function Blend(c1: int, c2: int, f: real): real {
    c1 as real + f * (c2 - c1) as real
  }

  lemma BlendBetween(c1: int, c2: int, f: real)
    requires 0.0 <= f <= 1.0
    ensures c1 <= c2 ==> c1 as real <= Blend(c1, c2, f) <= c2 as real
    ensures c2 <= c1 ==> c2 as real <= Blend(c1, c2, f) <= c1 as real
    ensures f == 0.0 ==> Blend(c1, c2, f) == c1 as real
    ensures f == 1.0 ==> Blend(c1, c2, f) == c2 as real
  {
    var d := (c2 - c1) as real;
    ScaleBounds(f, d);
    assert c1 as real + d == c2 as real;
  }

  /**
   * Math.round(c1 + f * (c2 - c1)): the blend stays between the two channels,
   * so it is again a channel, and hits each end at f = 0 and f = 1.
   */
  function LerpChannel(c1: Channel, c2: Channel, f: real): (r: Channel)
    requires 0.0 <= f <= 1.0
    ensures c1 <= c2 ==> c1 <= r <= c2
    ensures c2 <= c1 ==> c2 <= r <= c1
    ensures f == 0.0 ==> r == c1
    ensures f == 1.0 ==> r == c2
  {
    BlendBetween(c1, c2, f);
    var x := Blend(c1, c2, f);
    if c1 <= c2 then
      RoundBetween(x, c1, c2);
      Round(x)
    else
      RoundBetween(x, c2, c1);
      Round(x)
  }

  function Lerp(a: Rgb, b: Rgb, f: real): Rgb
    requires 0.0 <= f <= 1.0
  {
    Rgb(LerpChannel(a.r, b.r, f), LerpChannel(a.g, b.g, f), LerpChannel(a.b, b.b, f))
  }

  /** Blending a colour with itself leaves it unchanged, whatever the factor. */
  lemma LerpSame(a: Rgb, f: real)
    requires 0.0 <= f <= 1.0
    ensures Lerp(a, a, f) == a
  {
  }

  /**
   * interpolateColor(color1, color2, factor).
   * An empty colour or a NaN factor short-circuits to color1, or to the fallback
   * red when color1 is empty. Otherwise the result is the formatted blend.
   * None marks inputs whose output the model does not determine: a colour whose
   * first six digits are not hex, or a factor outside [0, 1].
   */
  function Interpolate(color1: string, color2: string, factor: Factor): (r: Option<string>)
    ensures color1 == "" || color2 == "" || factor.NaN? ==>
              r == Some(if color1 == "" then FallbackRed else color1)
    ensures color1 != "" && color2 != "" && factor.Num? && r.Some? ==> Canonical(r.value)
    ensures (color1 != "" && color2 != "" && ParseColour(color1).Some? && ParseColour(color2).Some?
             && factor.Num? && 0.0 <= factor.value <= 1.0) ==> r.Some?
  {
    if color1 == "" || color2 == "" || factor.NaN? then
      Some(if color1 == "" then FallbackRed else color1)
    else
      match (ParseColour(color1), ParseColour(color2))
      case (Some(a), Some(b)) =>
        if 0.0 <= factor.value <= 1.0 then Some(FormatColour(Lerp(a, b, factor.value))) else None
      case _ => None
  }

  /** At factor 0 the blend is the first colour, at factor 1 the second (re-formatted). */
  lemma InterpolateEnds(color1: string, color2: string)
    requires ParseColour(color1).Some? && ParseColour(color2).Some?
    ensures Interpolate(color1, color2, Num(0.0)) == Some(FormatColour(ParseColour(color1).value))
    ensures Interpolate(color1, color2, Num(1.0)) == Some(FormatColour(ParseColour(color2).value))
  {
    assert color1 != "" && color2 != "";
    var a := ParseColour(color1).value;
    var b := ParseColour(color2).value;
    assert Lerp(a, b, 0.0) == a;
    assert Lerp(a, b, 1.0) == b;
  }

  /** A canonical colour blended with itself is returned unchanged. */
  lemma InterpolateSame(c: string, f: real)
    requires Canonical(c)
    requires 0.0 <= f <= 1.0
    ensures Interpolate(c, c, Num(f)) == Some(c)
  {
    FormatParseRoundTrip(c);
    LerpSame(ParseColour(c).value, f);
  }

  /** A blend of two readable colours with a factor in [0, 1] is determined and reads back as the lerp. */
  lemma InterpolateReadsBack(color1: string, color2: string, f: real)
    requires ParseColour(color1).Some? && ParseColour(color2).Some?
    requires 0.0 <= f <= 1.0
    ensures Interpolate(color1, color2, Num(f))
         == Some(FormatColour(Lerp(ParseColour(color1).value, ParseColour(color2).value, f)))
    ensures ParseColour(Interpolate(color1, color2, Num(f)).value)
         == Some(Lerp(ParseColour(color1).value, ParseColour(color2).value, f))
  {
    assert color1 != "" && color2 != "";
    ParseFormatRoundTrip(Lerp(ParseColour(color1).value, ParseColour(color2).value, f));
  }

  /** Blending two canonical colours with a factor in [0, 1] gives a canonical colour. */
  lemma InterpolateCanonical(color1: string, color2: string, f: real)
    requires Canonical(color1) && Canonical(color2)
    requires 0.0 <= f <= 1.0
    ensures Interpolate(color1, color2, Num(f)).Some?
    ensures Canonical(Interpolate(color1, color2, Num(f)).value)
  {
    FormatParseRoundTrip(color1);
    FormatParseRoundTrip(color2);
    InterpolateReadsBack(color1, color2, f);
  }

  /** Every palette colour is canonical, so blends of it are always determined. */
  lemma PalettesCanonical()
    ensures |Palettes| == 8
    ensures forall i :: 0 <= i < 8 ==> Canonical(Palettes[i].start) && Canonical(Palettes[i].end)
    ensures forall p :: p in Palettes ==> Canonical(p.start) && Canonical(p.end)
  {
  }

  /** COLOR_PALETTES[branch % COLOR_PALETTES.length] */
  function PaletteFor(branch: nat): (p: PalettePair)
    ensures p in Palettes
  {
    Palettes[branch % |Palettes|]
  }

  /** Branch ids eight apart share a palette. */
  lemma PaletteWraps(branch: nat)
    ensures PaletteFor(branch + 8) == PaletteFor(branch)
  {
    assert |Palettes| == 8;
    assert (branch + 8) % 8 == branch % 8;
  }
}
