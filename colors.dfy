// Colours as the redraw events and the colour-scheme option carry them:
// 24-bit RGB values, a "use the default" tag, and the "#rrggbb" text form.

module Colors {
  import opened Common
  import Wire

  /**
   * An rgb_color: the packed value 0xRRGGBB (or the 32-bit value an event
   * supplied) and whether it is tagged as standing for the default colour.
   */
  datatype Color = Color(value: nat, isDefault: bool)

  /** rgb_color(r, g, b). */
  function Rgb(red: nat, green: nat, blue: nat): Color
  {
    Color(red * 0x1_0000 + green * 0x100 + blue, false)
  }

  /** The 22 characters hex_char_to_decimal knows. */
  predicate IsHexChar(c: char)
  {
    '0' <= c <= '9' || 'a' <= c <= 'f' || 'A' <= c <= 'F'
  }

  /** hex_char_to_decimal: the value of a hex digit of either case, -1 for anything else. */
  function HexCharToDecimal(c: char): (d: int)
    ensures -1 <= d < 16
    ensures d == -1 <==> !IsHexChar(c)
  {
    if '0' <= c <= '9' then c as int - '0' as int
    else if 'a' <= c <= 'f' then c as int - 'a' as int + 10
    else if 'A' <= c <= 'F' then c as int - 'A' as int + 10
    else -1
  }

  /** The upper-case digit for d, as "0123456789ABCDEF" lists them. */
  function UpperHexDigit(d: nat): (c: char)
    requires d < 16
  {
    if d < 10 then (('0' as int) + d) as char else (('A' as int) + d - 10) as char
  }

  /** Every digit is read back as its value, in lower case and in upper case. */
  lemma HexDigitsRoundTrip(d: nat)
    requires d < 16
    ensures HexCharToDecimal(Wire.HexDigit(d)) == d
    ensures HexCharToDecimal(UpperHexDigit(d)) == d
  {
  }

  /** to_rgb_value: two hex digits as one channel, high digit first. */
  function ToRgbValue(a: char, b: char): (r: Option<nat>)
    ensures r.Some? <==> IsHexChar(a) && IsHexChar(b)
    ensures r.Some? ==> r.value < 256
  {
    var d1 := HexCharToDecimal(a);
    var d2 := HexCharToDecimal(b);
    if d1 == -1 || d2 == -1 then None else Some(d1 * 16 + d2)
  }

  /** The text to_rgb_color accepts: '#' and six hex digits of either case. */
  predicate IsColorText(s: string)
  {
    |s| == 7 && s[0] == '#' && forall i :: 1 <= i < 7 ==> IsHexChar(s[i])
  }

  /** to_rgb_color: the colour written as "#rrggbb", or nothing. */
  function ToRgbColor(s: string): (r: Option<Color>)
    ensures r.Some? <==> IsColorText(s)
    ensures r.Some? ==> !r.value.isDefault && r.value.value < 0x100_0000
  {
    if |s| != 7 || s[0] != '#' then None
    else
      var red := ToRgbValue(s[1], s[2]);
      var green := ToRgbValue(s[3], s[4]);
      var blue := ToRgbValue(s[5], s[6]);
      if red.None? || green.None? || blue.None? then None
      else Some(Rgb(red.value, green.value, blue.value))
  }

  /** The "#rrggbb" text of a 24-bit colour, lower-case digits. */
  function ColorText(v: nat): (s: string)
    requires v < 0x100_0000
    ensures |s| == 7
  {
    "#" + Wire.HexByte(v / 0x100 / 0x100) + Wire.HexByte(v / 0x100 % 0x100) + Wire.HexByte(v % 0x100)
  }

  /** Upper-casing the hex letters of a colour text. */
  function Upper(s: string): (r: string)
    ensures |r| == |s|
  {
    seq(|s|, i requires 0 <= i < |s| => if 'a' <= s[i] <= 'f' then ((s[i] as int) - 32) as char else s[i])
  }

  /** Every 24-bit colour survives being written as text and read back. */
  lemma ColorTextRoundTrip(v: nat)
    requires v < 0x100_0000
    ensures ToRgbColor(ColorText(v)) == Some(Color(v, false))
  {
    var s := ColorText(v);
    var r, g, b := v / 0x100 / 0x100, v / 0x100 % 0x100, v % 0x100;
    ChannelRoundTrip(r);
    ChannelRoundTrip(g);
    ChannelRoundTrip(b);
    assert s[1..3] == Wire.HexByte(r) && s[3..5] == Wire.HexByte(g) && s[5..7] == Wire.HexByte(b);
    ChannelsCompose(v);
  }

  lemma ChannelsCompose(v: nat)
    requires v < 0x100_0000
    ensures Rgb(v / 0x100 / 0x100, v / 0x100 % 0x100, v % 0x100) == Color(v, false)
  {
    var q := v / 0x100;
    assert v == q * 0x100 + v % 0x100;
    assert q == q / 0x100 * 0x100 + q % 0x100;
  }

  lemma ChannelRoundTrip(c: nat)
    requires c < 256
    ensures ToRgbValue(Wire.HexByte(c)[0], Wire.HexByte(c)[1]) == Some(c)
  {
    HexDigitsRoundTrip(c / 16);
    HexDigitsRoundTrip(c % 16);
  }

  /** The digits are read without regard to case. */
  lemma CaseInsensitive(s: string)
    ensures ToRgbColor(Upper(s)) == ToRgbColor(s)
  {
    var u := Upper(s);
    forall i | 0 <= i < |s|
      ensures HexCharToDecimal(u[i]) == HexCharToDecimal(s[i])
    {
    }
  }

  /**
   * set_color: the empty text selects the default colour (value 0, tagged),
   * a malformed text leaves the colour as it was, any other text sets it.
   */
  function SetColor(current: Color, text: string): (c: Color)
    ensures |text| == 0 ==> c == Color(0, true)
    ensures |text| != 0 && !IsColorText(text) ==> c == current
    ensures IsColorText(text) ==> Some(c) == ToRgbColor(text)
  {
    if |text| == 0 then Color(0, true)
    else
      var rgb := ToRgbColor(text);
      if rgb.None? then current else rgb.value
  }
}
