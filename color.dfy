/**
 * ExtendedColor (color.cpp): an sf::Color with a hexadecimal parser and
 * channel queries.
 *
 * Colours are values: the four 8-bit channels of sf::Color. The parser
 * fromHex reads its channels with C's strtoul in base 16, which is modelled
 * here as the C standard describes it (leading white space, an optional
 * sign, an optional 0x prefix, the longest run of hexadecimal digits, the
 * result taken in a 64-bit unsigned long), and every channel is stored
 * through the implicit conversion to sf::Uint8, which keeps the value
 * modulo 256.
 */
module Colors {

  /** sf::Uint8. */
  type Byte = x: int | 0 <= x < 256

  /** An sf::Color (and an ExtendedColor, which adds no fields). */
  datatype Rgba = Rgba(r: Byte, g: Byte, b: Byte, a: Byte)

  /** sf::Color::Black, and the other named colours the colour table tests. */
  const Black := Rgba(0, 0, 0, 255)
  const White := Rgba(255, 255, 255, 255)
  const Red := Rgba(255, 0, 0, 255)
  const Green := Rgba(0, 255, 0, 255)
  const Blue := Rgba(0, 0, 255, 255)
  const Yellow := Rgba(255, 255, 0, 255)
  const Magenta := Rgba(255, 0, 255, 255)
  const Cyan := Rgba(0, 255, 255, 255)

  /** The range of unsigned long on an LP64 target. */
  const UlongModulus: int := 0x1_0000_0000_0000_0000

  /** The conversion of an unsigned long to sf::Uint8: the low eight bits. */
  function ToByte(n: int): (b: Byte)
    requires 0 <= n
    ensures n < 256 ==> b == n
    ensures (n - b) % 256 == 0
  {
    n % 256
  }

  // ---------------------------------------------------------------------
  // strtoul(s, NULL, 16)
  // ---------------------------------------------------------------------

  /** isspace in the C locale. */
  predicate IsSpace(c: char) {
    c == ' ' || c == '\t' || c == '\n' || c == '\U{B}' || c == '\U{C}' || c == '\r'
  }

  predicate IsHexDigit(c: char) {
    '0' <= c <= '9' || 'a' <= c <= 'f' || 'A' <= c <= 'F'
  }

  function DigitValue(c: char): (d: nat)
    requires IsHexDigit(c)
    ensures d < 16
  {
    if '0' <= c <= '9' then c as int - '0' as int
    else if 'a' <= c <= 'f' then c as int - 'a' as int + 10
    else c as int - 'A' as int + 10
  }

  /** The string without its leading white space. */
  function SkipSpaces(s: string): (t: string)
    ensures |t| <= |s|
    ensures |t| > 0 ==> !IsSpace(t[0])
  {
    if |s| > 0 && IsSpace(s[0]) then SkipSpaces(s[1..]) else s
  }

  /** The number of hexadecimal digits the string starts with. */
  function DigitRun(s: string): (n: nat)
    ensures n <= |s|
    ensures forall k :: 0 <= k < n ==> IsHexDigit(s[k])
    ensures n < |s| ==> !IsHexDigit(s[n])
  {
    if |s| > 0 && IsHexDigit(s[0]) then 1 + DigitRun(s[1..]) else 0
  }

  /** The value of a string of hexadecimal digits, most significant first. */
  function HexValue(ds: string): (v: nat)
    requires forall k :: 0 <= k < |ds| ==> IsHexDigit(ds[k])
  {
    if ds == [] then 0 else 16 * HexValue(ds[..|ds| - 1]) + DigitValue(ds[|ds| - 1])
  }

  /**
   * strtoul(s, NULL, 16): white space, a sign, a 0x or 0X prefix when a
   * digit follows it, then the longest run of digits; no digits gives 0, a
   * magnitude beyond the range gives ULONG_MAX, and a minus sign negates in
   * unsigned arithmetic.
   */
  function StrToUL(s: string): (n: nat)
    ensures n < UlongModulus
  {
    var t := SkipSpaces(s);
    var negative := |t| > 0 && t[0] == '-';
    var u := if |t| > 0 && (t[0] == '-' || t[0] == '+') then t[1..] else t;
    var w := if |u| >= 3 && u[0] == '0' && (u[1] == 'x' || u[1] == 'X') && IsHexDigit(u[2]) then u[2..] else u;
    var magnitude := HexValue(w[..DigitRun(w)]);
    if magnitude >= UlongModulus then UlongModulus - 1
    else if negative && magnitude != 0 then UlongModulus - magnitude
    else magnitude
  }

  /** Two hexadecimal digits read as one number. */
  lemma StrToULPair(s: string)
    requires |s| == 2 && IsHexDigit(s[0]) && IsHexDigit(s[1])
    ensures StrToUL(s) == 16 * DigitValue(s[0]) + DigitValue(s[1])
  {
    assert SkipSpaces(s) == s;
    AllDigitsRun(s);
    assert s[..|s|] == s;
    assert HexValue(s[..1]) == DigitValue(s[0]) by {
      assert s[..1][..0] == [];
    }
  }

  /** A string of digits is one run. */
  lemma {:induction false} AllDigitsRun(s: string)
    requires forall k :: 0 <= k < |s| ==> IsHexDigit(s[k])
    ensures DigitRun(s) == |s|
  {
    if |s| > 0 {
      AllDigitsRun(s[1..]);
    }
  }

  /** One hexadecimal digit read as a number. */
  lemma StrToULDigit(s: string)
    requires |s| == 1 && IsHexDigit(s[0])
    ensures StrToUL(s) == DigitValue(s[0])
  {
    assert SkipSpaces(s) == s;
    AllDigitsRun(s);
    assert s[..|s|] == s;
    assert HexValue(s[..0]) == 0 by {
      assert s[..0] == [];
    }
  }

  // ---------------------------------------------------------------------
  // ExtendedColor
  // ---------------------------------------------------------------------

  /**
   * ExtendedColor(sf::Color&): r, g and b are copied; alpha is the one
   * sf::Color's default constructor gives, opaque.
   */
  function Extended(c: Rgba): (e: Rgba)
    ensures e.r == c.r && e.g == c.g && e.b == c.b && e.a == 255
  {
    Black.(r := c.r, g := c.g, b := c.b)
  }

  /** Copying keeps a colour exactly when it is opaque, and copying twice is copying once. */
  lemma ExtendedKeepsOpaque(c: Rgba)
    ensures Extended(c) == c <==> c.a == 255
    ensures Extended(Extended(c)) == Extended(c)
  {
  }

  /**
   * fromHex: "#rrggbb" gives three two-digit channels, "#rgb" three one-digit
   * channels scaled by 17 (0xf becomes 0xff), any other length black.
   * Character 0 is skipped unread. The product by 17 is taken in unsigned
   * long, whose wrap-around modulo 2^64 does not change the low eight bits.
   */
  function FromHex(hexcolor: string): (c: Rgba)
    ensures c.a == 255
    ensures |hexcolor| != 7 && |hexcolor| != 4 ==> c == Black
  {
    var color :=
      if |hexcolor| == 7 then
        Black.(r := ToByte(StrToUL(hexcolor[1..3])),
               g := ToByte(StrToUL(hexcolor[3..5])),
               b := ToByte(StrToUL(hexcolor[5..7])))
      else if |hexcolor| == 4 then
        Black.(r := ToByte(StrToUL(hexcolor[1..2]) * 17),
               g := ToByte(StrToUL(hexcolor[2..3]) * 17),
               b := ToByte(StrToUL(hexcolor[3..4]) * 17))
      else Black;
    Extended(color)
  }

  /** "#rrggbb" with six hexadecimal digits: each channel is its two digits. */
  lemma FromHexLong(s: string)
    requires |s| == 7 && forall k :: 1 <= k < 7 ==> IsHexDigit(s[k])
    ensures FromHex(s) == Rgba(16 * DigitValue(s[1]) + DigitValue(s[2]),
                               16 * DigitValue(s[3]) + DigitValue(s[4]),
                               16 * DigitValue(s[5]) + DigitValue(s[6]), 255)
  {
    StrToULPair(s[1..3]);
    StrToULPair(s[3..5]);
    StrToULPair(s[5..7]);
  }

  /** "#rgb" with three hexadecimal digits: each channel is its digit times 17. */
  lemma FromHexShort(s: string)
    requires |s| == 4 && forall k :: 1 <= k < 4 ==> IsHexDigit(s[k])
    ensures FromHex(s) == Rgba(17 * DigitValue(s[1]), 17 * DigitValue(s[2]), 17 * DigitValue(s[3]), 255)
  {
    StrToULDigit(s[1..2]);
    StrToULDigit(s[2..3]);
    StrToULDigit(s[3..4]);
  }

  /** The leading character is never looked at: '#' is not checked. */
  lemma FromHexIgnoresLead(s: string, lead: char)
    requires |s| > 0
    ensures FromHex([lead] + s[1..]) == FromHex(s)
  {
    var t := [lead] + s[1..];
    assert |t| == |s| && forall k :: 1 <= k < |s| ==> t[k] == s[k];
    if |s| == 7 {
      SameSlice(t, s, 1, 3);
      SameSlice(t, s, 3, 5);
      SameSlice(t, s, 5, 7);
    } else if |s| == 4 {
      SameSlice(t, s, 1, 2);
      SameSlice(t, s, 2, 3);
      SameSlice(t, s, 3, 4);
    }
  }

  /** Two strings that agree after their first character agree on every slice there. */
  lemma SameSlice(t: string, s: string, i: int, j: int)
    requires |t| == |s| && forall k :: 1 <= k < |s| ==> t[k] == s[k]
    requires 1 <= i <= j <= |s|
    ensures t[i..j] == s[i..j]
  {
    assert forall k :: 0 <= k < j - i ==> t[i..j][k] == s[i..j][k];
  }

  /** A pair that starts with no digit, space or sign reads as 0. */
  lemma StrToULNoDigits(p: string)
    requires |p| == 2 && !IsHexDigit(p[0]) && !IsSpace(p[0]) && p[0] != '-' && p[0] != '+'
    ensures StrToUL(p) == 0
  {
    assert SkipSpaces(p) == p && DigitRun(p) == 0;
    assert p[..0] == [];
  }

  /** A minus sign and a digit d read as d negated in unsigned long. */
  lemma StrToULNegated(p: string)
    requires |p| == 2 && p[0] == '-' && IsHexDigit(p[1])
    ensures StrToUL(p) == if DigitValue(p[1]) == 0 then 0 else UlongModulus - DigitValue(p[1])
  {
    assert SkipSpaces(p) == p;
    StrToULDigit(p[1..]);
    assert SkipSpaces(p[1..]) == p[1..];
    AllDigitsRun(p[1..]);
    assert p[1..][..1] == p[1..];
  }

  /** A red pair with no leading digit gives a red channel of 0. */
  lemma FromHexNoDigits(s: string)
    requires |s| == 7 && !IsHexDigit(s[1]) && !IsSpace(s[1]) && s[1] != '-' && s[1] != '+'
    ensures FromHex(s).r == 0
  {
    StrToULNoDigits(s[1..3]);
  }

  /** A red pair "-d" wraps around: "-1" gives 0xff, "-f" gives 0xf1. */
  lemma FromHexNegated(s: string)
    requires |s| == 7 && s[1] == '-' && IsHexDigit(s[2])
    ensures FromHex(s).r == (256 - DigitValue(s[2])) % 256
  {
    StrToULNegated(s[1..3]);
  }

  /** The hexadecimal digit characters, by value. */
  const HexChars: string := "0123456789abcdef"

  /** A channel written as two lower-case hexadecimal digits. */
  function HexPair(n: Byte): (s: string)
    ensures |s| == 2 && IsHexDigit(s[0]) && IsHexDigit(s[1])
    ensures 16 * DigitValue(s[0]) + DigitValue(s[1]) == n
  {
    DigitOfValue(n / 16);
    DigitOfValue(n % 16);
    [HexChars[n / 16], HexChars[n % 16]]
  }

  /** The character for digit d has value d. */
  lemma DigitOfValue(d: int)
    requires 0 <= d < 16
    ensures IsHexDigit(HexChars[d]) && DigitValue(HexChars[d]) == d
  {
  }

  /** The colour written as "#rrggbb". */
  function HexString(c: Rgba): (s: string)
    ensures |s| == 7 && s[0] == '#'
  {
    "#" + HexPair(c.r) + HexPair(c.g) + HexPair(c.b)
  }

  /** fromHex reads back the channels of any colour written as "#rrggbb", made opaque. */
  lemma FromHexRoundTrip(c: Rgba)
    ensures FromHex(HexString(c)) == Extended(c)
  {
    var s, r, g, b := HexString(c), HexPair(c.r), HexPair(c.g), HexPair(c.b);
    assert s[1] == r[0] && s[2] == r[1] && s[3] == g[0] && s[4] == g[1] && s[5] == b[0] && s[6] == b[1];
    FromHexLong(s);
  }

  /** min(): the running minimum of r, g and b, in that order. */
  function Min(c: Rgba): (m: int)
    ensures m <= c.r && m <= c.g && m <= c.b
    ensures m == c.r || m == c.g || m == c.b
  {
    var minValue := c.r;
    var minValue' := if c.g < minValue then c.g else minValue;
    if c.b < minValue' then c.b else minValue'
  }

  /** max(): the running maximum of r, g and b, in that order. */
  function Max(c: Rgba): (m: int)
    ensures m >= c.r && m >= c.g && m >= c.b
    ensures m == c.r || m == c.g || m == c.b
  {
    var maxValue := c.r;
    var maxValue' := if c.g > maxValue then c.g else maxValue;
    if c.b > maxValue' then c.b else maxValue'
  }

  /** min() never exceeds max(), and they meet exactly on greys. */
  lemma MinAtMostMax(c: Rgba)
    ensures Min(c) <= Max(c)
    ensures Min(c) == Max(c) <==> c.r == c.g == c.b
  {
  }
}
