/**
 * How a palette colour is shown: its hex code (`rgbToHex`) and whether its
 * swatch label is drawn dark or light (`isLightColor`).
 */
module ColorText {
  import opened Raster

  datatype Option<T> = None | Some(value: T)

  /** The lower-case digit that `Number.prototype.toString(16)` writes for `d`. */
  function HexDigit(d: nat): (ch: char)
    requires d < 16
  {
    "0123456789abcdef"[d]
  }

  /** `x.toString(16)` for a byte: no leading zero, so one digit below 16 and two from 16 on. */
  function ToHex(x: Byte): (s: string)
    ensures |s| == 1 <==> x < 16
    ensures |s| == 1 || |s| == 2
  {
    if x < 16 then [HexDigit(x)] else [HexDigit(x / 16), HexDigit(x % 16)]
  }

  /** The callback of line 112-113: a one-digit code gets a leading "0". */
  function Pad2(x: Byte): (s: string)
    ensures |s| == 2
  {
    var hex := ToHex(x);
    if |hex| == 1 then "0" + hex else hex
  }

  /** `rgbToHex` (lines 110-115). */
  function RgbToHex(c: Rgb): (s: string)
    ensures |s| == 7 && s[0] == '#'
  {
    "#" + Pad2(c.r) + Pad2(c.g) + Pad2(c.b)
  }

  /** The value of a lower-case hex digit, or `None` for any other character. */
  function DigitValue(ch: char): (v: Option<nat>)
    ensures v.Some? ==> v.value < 16
  {
    if '0' <= ch <= '9' then Some(ch as int - '0' as int)
    else if 'a' <= ch <= 'f' then Some(ch as int - 'a' as int + 10)
    else None
  }

  /** Two hex digits read as one byte. */
  function ParseByte(hi: char, lo: char): (v: Option<Byte>)
  {
    match (DigitValue(hi), DigitValue(lo))
    case (Some(h), Some(l)) => Some(16 * h + l)
    case _ => None
  }

  /** Reads a "#rrggbb" code back; `None` for anything else. */
  function ParseHex(s: string): (c: Option<Rgb>)
    ensures c.Some? ==> |s| == 7 && s[0] == '#'
  {
    if |s| != 7 || s[0] != '#' then None
    else
      match (ParseByte(s[1], s[2]), ParseByte(s[3], s[4]), ParseByte(s[5], s[6]))
      case (Some(r), Some(g), Some(b)) => Some(Rgb(r, g, b))
      case _ => None
  }

  lemma DigitValueOfHexDigit(d: nat)
    requires d < 16
    ensures DigitValue(HexDigit(d)) == Some(d)
  {
    var digits := "0123456789abcdef";
    assert digits[0] == '0' && digits[1] == '1' && digits[2] == '2' && digits[3] == '3';
    assert digits[4] == '4' && digits[5] == '5' && digits[6] == '6' && digits[7] == '7';
    assert digits[8] == '8' && digits[9] == '9' && digits[10] == 'a' && digits[11] == 'b';
    assert digits[12] == 'c' && digits[13] == 'd' && digits[14] == 'e' && digits[15] == 'f';
  }

  /** The padded code of a byte is its two base-16 digits, high digit first. */
  lemma Pad2Digits(x: Byte)
    ensures Pad2(x) == [HexDigit(x / 16), HexDigit(x % 16)]
  {
    if x < 16 {
      assert x / 16 == 0 && x % 16 == x;
      assert HexDigit(0) == '0';
    }
  }

  /** Each two-character group of the code reads back as its byte. */
  lemma Pad2RoundTrip(x: Byte)
    ensures ParseByte(Pad2(x)[0], Pad2(x)[1]) == Some(x)
  {
    Pad2Digits(x);
    DigitValueOfHexDigit(x / 16);
    DigitValueOfHexDigit(x % 16);
  }

  /** The hex code determines the colour: reading it back gives the colour. */
  lemma RgbToHexRoundTrip(c: Rgb)
    ensures ParseHex(RgbToHex(c)) == Some(c)
  {
    var s := RgbToHex(c);
    assert s[1..3] == Pad2(c.r) && s[3..5] == Pad2(c.g) && s[5..7] == Pad2(c.b);
    Pad2RoundTrip(c.r);
    Pad2RoundTrip(c.g);
    Pad2RoundTrip(c.b);
  }

  /** Two colours with the same hex code are the same colour. */
  lemma RgbToHexInjective(c: Rgb, d: Rgb)
    requires RgbToHex(c) == RgbToHex(d)
    ensures c == d
  {
    RgbToHexRoundTrip(c);
    RgbToHexRoundTrip(d);
  }

  /**
   * `isLightColor` (lines 118-121): the weighted brightness, divided as a
   * real number, against 128. The division loses nothing: light means the
   * weighted sum exceeds 128000.
   */
  predicate IsLightColor(c: Rgb): (light: bool)
    ensures light <==> c.r * 299 + c.g * 587 + c.b * 114 > 128000
  {
    var w := c.r * 299 + c.g * 587 + c.b * 114;
    assert (w as real) / 1000.0 > 128.0 <==> w as real > 128000.0;
    (w as real) / 1000.0 > 128.0
  }

  /** The weights add up to 1000, so a grey is light exactly when its level exceeds 128. */
  lemma GreyIsLightAbove128(v: Byte)
    ensures IsLightColor(Rgb(v, v, v)) <==> v > 128
  {
    assert v * 299 + v * 587 + v * 114 == 1000 * v;
  }

  /** Raising any channel never turns a light colour dark. */
  lemma LightIsMonotone(c: Rgb, d: Rgb)
    requires c.r <= d.r && c.g <= d.g && c.b <= d.b
    requires IsLightColor(c)
    ensures IsLightColor(d)
  {
  }
}
