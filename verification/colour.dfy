/**
 Colour arithmetic behind the glow effect: a `#rrggbb` colour is decoded
 into a number below 2^24, split into red/green/blue bytes by shifts and
 masks on a 32-bit integer, and each byte is lightened by a fixed amount,
 saturating at 255.
 */
module Colour {

  datatype Option<T> = None | Some(value: T)

  /** Number of distinct packed 24-bit colours. */
  const Span: nat := 0x100_0000

  /** Red, green and blue channels. */
  datatype Rgb = Rgb(r: int, g: int, b: int)

  /** Red, green and blue channels with an opacity, as in a CSS `rgba(...)` value. */
  datatype Rgba = Rgba(r: int, g: int, b: int, alpha: real)

  predicate IsByteRgb(c: Rgb)
  {
    0 <= c.r < 256 && 0 <= c.g < 256 && 0 <= c.b < 256
  }

  // ---------------------------------------------------------------------
  // Hexadecimal colour strings
  // ---------------------------------------------------------------------

  function Pow16(k: nat): (p: nat)
    ensures p >= 1
  {
    if k == 0 then 1 else 16 * Pow16(k - 1)
  }

  /** The value of a hexadecimal digit of either case. */
  function HexValue(ch: char): (v: Option<nat>)
    ensures v.Some? <==> ('0' <= ch <= '9' || 'a' <= ch <= 'f' || 'A' <= ch <= 'F')
    ensures v.Some? ==> v.value < 16
  {
    if '0' <= ch <= '9' then Some((ch - '0') as nat)
    else if 'a' <= ch <= 'f' then Some((ch - 'a') as nat + 10)
    else if 'A' <= ch <= 'F' then Some((ch - 'A') as nat + 10)
    else None
  }

  /** An upper-case digit is worth what its lower-case form is worth. */
  lemma HexValueIgnoresCase(ch: char)
    requires 'A' <= ch <= 'F'
    ensures HexValue(ch) == HexValue((ch as int + 32) as char)
  {
  }

  predicate IsLowerHexDigit(ch: char)
  {
    '0' <= ch <= '9' || 'a' <= ch <= 'f'
  }

  /** The lower-case digit for a value below 16. */
  function HexDigit(d: nat): (ch: char)
    requires d < 16
    ensures IsLowerHexDigit(ch)
    ensures HexValue(ch) == Some(d)
  {
    if d < 10 then ('0' as int + d) as char else ('a' as int + d - 10) as char
  }

  /** The lower-case digit of a value is the one it was read from. */
  lemma HexDigitOfValue(ch: char)
    requires IsLowerHexDigit(ch)
    ensures HexDigit(HexValue(ch).value) == ch
  {
  }

  predicate AllHexDigits(ds: string)
  {
    forall i :: 0 <= i < |ds| ==> HexValue(ds[i]).Some?
  }

  /** A run of hexadecimal digits read as one base-16 number, most significant first. */
  function HexNumber(ds: string): (n: nat)
    requires AllHexDigits(ds)
    ensures n < Pow16(|ds|)
    decreases |ds|
  {
    if |ds| == 0 then 0
    else
      var v := HexNumber(ds[..|ds| - 1]);
      var d := HexValue(ds[|ds| - 1]).value;
      assert v * 16 <= (Pow16(|ds| - 1) - 1) * 16;
      v * 16 + d
  }

  /** The len-digit lower-case base-16 numeral of n. */
  function HexNumeral(n: nat, len: nat): (ds: string)
    requires n < Pow16(len)
    ensures |ds| == len
    ensures forall i :: 0 <= i < |ds| ==> IsLowerHexDigit(ds[i])
    decreases len
  {
    if len == 0 then [] else HexNumeral(n / 16, len - 1) + [HexDigit(n % 16)]
  }

  lemma {:induction false} HexNumberOfNumeral(n: nat, len: nat)
    requires n < Pow16(len)
    ensures AllHexDigits(HexNumeral(n, len))
    ensures HexNumber(HexNumeral(n, len)) == n
    decreases len
  {
    if len > 0 {
      var ds := HexNumeral(n, len);
      HexNumberOfNumeral(n / 16, len - 1);
      assert ds[..len - 1] == HexNumeral(n / 16, len - 1);
      assert HexValue(ds[len - 1]) == Some(n % 16);
    }
  }

  lemma {:induction false} NumeralOfHexNumber(ds: string)
    requires forall i :: 0 <= i < |ds| ==> IsLowerHexDigit(ds[i])
    ensures AllHexDigits(ds)
    ensures HexNumeral(HexNumber(ds), |ds|) == ds
    decreases |ds|
  {
    if |ds| > 0 {
      var init, last := ds[..|ds| - 1], ds[|ds| - 1];
      NumeralOfHexNumber(init);
      var v, d := HexNumber(init), HexValue(last).value;
      assert HexNumber(ds) == v * 16 + d;
      assert (v * 16 + d) / 16 == v && (v * 16 + d) % 16 == d;
      HexDigitOfValue(last);
      assert ds == init + [last];
    }
  }

  /** A `#` followed by exactly six hexadecimal digits, as a colour picker supplies. */
  predicate IsHexColor(s: string)
  {
    |s| == 7 && s[0] == '#' && AllHexDigits(s[1..])
  }

  /** Strips the leading `#` and reads the six digits as one base-16 number. */
  function ParseHexColor(s: string): (n: Option<nat>)
    ensures n.Some? <==> IsHexColor(s)
    ensures n.Some? ==> n.value < Span
  {
    if IsHexColor(s) then
      assert Pow16(6) == Span;
      Some(HexNumber(s[1..]))
    else None
  }

  /** The lower-case `#rrggbb` spelling of a packed colour. */
  function FormatHexColor(n: nat): (s: string)
    requires n < Span
    ensures |s| == 7 && s[0] == '#'
    ensures forall i :: 1 <= i < 7 ==> IsLowerHexDigit(s[i])
  {
    assert Pow16(6) == Span;
    ['#'] + HexNumeral(n, 6)
  }

  /** Formatting then parsing gives back the packed colour. */
  lemma ParseFormat(n: nat)
    requires n < Span
    ensures IsHexColor(FormatHexColor(n))
    ensures ParseHexColor(FormatHexColor(n)) == Some(n)
  {
    assert Pow16(6) == Span;
    HexNumberOfNumeral(n, 6);
    assert FormatHexColor(n)[1..] == HexNumeral(n, 6);
  }

  /** Parsing a lower-case colour string then formatting gives back the string. */
  lemma FormatParse(s: string)
    requires |s| == 7 && s[0] == '#'
    requires forall i :: 1 <= i < 7 ==> IsLowerHexDigit(s[i])
    ensures IsHexColor(s)
    ensures FormatHexColor(ParseHexColor(s).value) == s
  {
    var ds := s[1..];
    NumeralOfHexNumber(ds);
    assert s == ['#'] + ds;
  }

  // ---------------------------------------------------------------------
  // Channel split
  // ---------------------------------------------------------------------

  /**
   Splits a packed colour into channels the way the script does: red is the
   number shifted right by 16, green is it shifted right by 8 and masked with
   0xFF, blue is it masked with 0xFF. For a non-negative number below 2^31 a
   right shift by k is division by 2^k and a mask with 2^k - 1 is the
   remainder modulo 2^k, which is how they are written here.
   */
  function Channels(n: nat): (c: Rgb)
    requires n < Span
    ensures IsByteRgb(c)
    ensures c.r * 0x1_0000 + c.g * 0x100 + c.b == n
  {
    Rgb(n / 0x1_0000, (n / 0x100) % 0x100, n % 0x100)
  }

  /** Packs three bytes into one number, red most significant. */
  function Pack(c: Rgb): (n: nat)
    requires IsByteRgb(c)
    ensures n < Span
  {
    c.r * 0x1_0000 + c.g * 0x100 + c.b
  }

  /** Splitting inverts packing. */
  lemma ChannelsOfPack(c: Rgb)
    requires IsByteRgb(c)
    ensures Channels(Pack(c)) == c
  {
    var n := Pack(c);
    assert n / 0x100 == c.r * 0x100 + c.g;
  }

  /** Packing inverts splitting. */
  lemma PackOfChannels(n: nat)
    requires n < Span
    ensures Pack(Channels(n)) == n
  {
  }

  // ---------------------------------------------------------------------
  // Lightening
  // ---------------------------------------------------------------------

  /** Math.min(255, channel + amt). */
  function SaturatingAdd(channel: int, amt: int): (v: int)
    ensures v <= 255
    ensures v == 255 || v == channel + amt
    ensures v <= channel + amt
  {
    if channel + amt < 255 then channel + amt else 255
  }

  /** Each channel of a packed colour raised by amt and capped at 255. */
  function Lighten(n: nat, amt: int): (c: Rgb)
    requires n < Span
    // for a non-negative amount every channel stays a byte and never darkens
    ensures var d := Channels(n);
            amt >= 0 ==> IsByteRgb(c) && d.r <= c.r && d.g <= c.g && d.b <= c.b
    // a channel reads 255 exactly when channel + amt reaches 255
    ensures var d := Channels(n);
            && (c.r == 255 <==> d.r + amt >= 255)
            && (c.g == 255 <==> d.g + amt >= 255)
            && (c.b == 255 <==> d.b + amt >= 255)
    // below the cap a channel is exactly channel + amt, so each is min(255, channel + amt)
    ensures var d := Channels(n);
            && (c.r == 255 || c.r == d.r + amt)
            && (c.g == 255 || c.g == d.g + amt)
            && (c.b == 255 || c.b == d.b + amt)
  {
    var d := Channels(n);
    Rgb(SaturatingAdd(d.r, amt), SaturatingAdd(d.g, amt), SaturatingAdd(d.b, amt))
  }

  /** Lightening is monotone in the amount. */
  lemma LightenMonotone(n: nat, amt1: int, amt2: int)
    requires n < Span && amt1 <= amt2
    ensures var c1 := Lighten(n, amt1);
            var c2 := Lighten(n, amt2);
            c1.r <= c2.r && c1.g <= c2.g && c1.b <= c2.b
  {
  }

  /** Lightening in two non-negative steps is lightening by their sum. */
  lemma SaturatingAddCompose(channel: int, amt1: int, amt2: int)
    requires channel <= 255 && amt1 >= 0 && amt2 >= 0
    ensures SaturatingAdd(SaturatingAdd(channel, amt1), amt2) == SaturatingAdd(channel, amt1 + amt2)
  {
  }

  /** Lightening by nothing keeps the colour. */
  lemma LightenZero(n: nat)
    requires n < Span
    ensures Lighten(n, 0) == Channels(n)
  {
  }

  /** The glow colour: the picked colour lightened by amt, at 70% opacity. */
  function LightenColor(hex: string, amt: int): (c: Rgba)
    requires IsHexColor(hex)
    ensures c.alpha == 0.70
    ensures var d := Channels(ParseHexColor(hex).value);
            amt >= 0 ==> d.r <= c.r <= 255 && d.g <= c.g <= 255 && d.b <= c.b <= 255
    // the colour channels are those of the decoded colour lightened by amt
    ensures Rgb(c.r, c.g, c.b) == Lighten(ParseHexColor(hex).value, amt)
  {
    var n := ParseHexColor(hex).value;
    var l := Lighten(n, amt);
    Rgba(l.r, l.g, l.b, 0.70)
  }

  /** #3498db lightened by 72 is rgba(124, 224, 255, 0.70). */
  lemma LightenScenario()
    ensures ParseHexColor("#3498db") == Some(0x3498db)
    ensures LightenColor("#3498db", 72) == Rgba(124, 224, 255, 0.70)
  {
    var ds := "3498db";
    assert "#3498db"[1..] == ds;
    assert ds[..5] == "3498d" && "3498d"[..4] == "3498" && "3498"[..3] == "349";
    assert "349"[..2] == "34" && "34"[..1] == "3" && "3"[..0] == "";
    assert HexNumber("3") == 0x3;
    assert HexNumber("34") == 0x34;
    assert HexNumber("349") == 0x349;
    assert HexNumber("3498") == 0x3498;
    assert HexNumber("3498d") == 0x3498d;
    assert HexNumber(ds) == 0x3498db;
    assert Channels(0x3498db) == Rgb(0x34, 0x98, 0xdb);
  }
}
