/** `checkContrast(foreground, background)` and its inner `getLuminance`:
    decode a colour string into three bytes, linearise each byte with the
    sRGB transfer function, weight them into a relative luminance and
    compare the two luminances against the 4.5 threshold of WCAG 2.1
    Success Criterion 1.4.3. Both copies of the function (the server-side
    checker and the browser extension's content script) are this module. */
module Contrast {
  import opened JsRuntime

  datatype Rgb = Rgb(red: int, green: int, blue: int)

  predicate IsByteTriple(c: Rgb)
  {
    0 <= c.red < 256 && 0 <= c.green < 256 && 0 <= c.blue < 256
  }

  // ---------------------------------------------------------------------
  // Decoding a colour string
  // ---------------------------------------------------------------------

  /** `color.slice(1)`. */
  function DropFirst(s: string): (t: string)
    ensures s == [] ==> t == []
    ensures s != [] ==> s == [s[0]] + t
  {
    if s == [] then [] else s[1..]
  }

  /** The integer `parseInt(color.slice(1), 16)` stands for, NaN read as 0. */
  function ColorValue(color: string): int
  {
    IntegerOrZero(ParseIntHex(DropFirst(color)))
  }

  /** Bytes 2, 1 and 0 of an integer, counted from the least significant. */
  function BytesOf(n: int): (c: Rgb)
    ensures IsByteTriple(c)
  {
    Rgb((n / 65536) % 256, (n / 256) % 256, n % 256)
  }

  /** The three bytes `(rgb >> 16) & 0xff`, `(rgb >> 8) & 0xff`, `(rgb >> 0) & 0xff`
      of `rgb = parseInt(color.slice(1), 16)`. Every string decodes: text that
      is not a number gives NaN, which the shifts turn into 0. */
  function DecodeColor(color: string): (c: Rgb)
    ensures IsByteTriple(c)
    ensures c == BytesOf(ColorValue(color))
  {
    var rgb := ParseIntHex(DropFirst(color));
    ShiftedByte(rgb, 16, 65536);
    ShiftedByte(rgb, 8, 256);
    ShiftedByte(rgb, 0, 1);
    Rgb(LowByte(ShiftRight(rgb, 16)), LowByte(ShiftRight(rgb, 8)), LowByte(ShiftRight(rgb, 0)))
  }

  /** The byte written by two hexadecimal digits, the first the more significant. */
  function PairValue(hi: char, lo: char): (v: nat)
    ensures v < 256
  {
    16 * HexDigitValue(hi) + HexDigitValue(lo)
  }

  /** Two lower-case hexadecimal digits for a byte; they read back as the byte. */
  function HexByte(x: int): (s: string)
    requires 0 <= x < 256
    ensures |s| == 2 && IsHexDigit(s[0]) && IsHexDigit(s[1])
    ensures PairValue(s[0], s[1]) == x
  {
    [HexDigitChar(x / 16), HexDigitChar(x % 16)]
  }

  /** Seven characters whose last six are hexadecimal digits, as in `#rrggbb`. */
  predicate IsHexColor(s: string)
  {
    |s| == 7 && forall i :: 1 <= i < 7 ==> IsHexDigit(s[i])
  }

  /** The `#rrggbb` notation of a byte triple: each pair of digits reads back
      as its channel. */
  function FormatHex(c: Rgb): (s: string)
    requires IsByteTriple(c)
    ensures IsHexColor(s) && s[0] == '#'
    ensures PairValue(s[1], s[2]) == c.red
    ensures PairValue(s[3], s[4]) == c.green
    ensures PairValue(s[5], s[6]) == c.blue
  {
    var r, g, b := HexByte(c.red), HexByte(c.green), HexByte(c.blue);
    ['#', r[0], r[1], g[0], g[1], b[0], b[1]]
  }

  /** Two hexadecimal digits are, lower-cased, the `HexByte` of their value. */
  lemma HexPairLowered(hi: char, lo: char)
    requires IsHexDigit(hi) && IsHexDigit(lo)
    ensures HexByte(PairValue(hi, lo)) == [ToLowerHex(hi), ToLowerHex(lo)]
  {
    DivModUnique(PairValue(hi, lo), 16, HexDigitValue(hi), HexDigitValue(lo));
    HexDigitCharOfValue(hi);
    HexDigitCharOfValue(lo);
  }

  /** Taking one more digit multiplies the value so far by 16 and adds the digit. */
  lemma HexValueStep(h: string, k: nat)
    requires 0 < k <= |h|
    ensures HexValue(h[..k]) == 16 * HexValue(h[..k - 1]) + HexDigitValue(h[k - 1])
  {
    assert h[..k][..k - 1] == h[..k - 1];
  }

  /** The value of six hexadecimal digits, split into its three byte pairs. */
  lemma SixDigitValue(h: string)
    requires |h| == 6
    ensures HexValue(h) == PairValue(h[0], h[1]) * 65536 + PairValue(h[2], h[3]) * 256 + PairValue(h[4], h[5])
  {
    assert h[..0] == [];
    HexValueStep(h, 1);
    HexValueStep(h, 2);
    HexValueStep(h, 3);
    HexValueStep(h, 4);
    HexValueStep(h, 5);
    HexValueStep(h, 6);
    assert h[..6] == h;
  }

  /** After the first character, a string of hexadecimal digits is read as its value. */
  lemma ColorValueOfDigits(s: string)
    requires |s| >= 2 && AllHex(s[1..])
    ensures ColorValue(s) == HexValue(s[1..])
  {
    ParseIntHexOfDigits(s[1..]);
  }

  /** The value of `#rrggbb` is `0xrrggbb`. */
  lemma HexColorValue(s: string)
    requires IsHexColor(s)
    ensures ColorValue(s) == PairValue(s[1], s[2]) * 65536 + PairValue(s[3], s[4]) * 256 + PairValue(s[5], s[6])
  {
    var h := s[1..];
    assert AllHex(h) by {
      forall i | 0 <= i < |h| ensures IsHexDigit(h[i]) {
        assert h[i] == s[i + 1];
      }
    }
    ColorValueOfDigits(s);
    SixDigitValue(h);
  }

  /** A colour decodes to the bytes of its value. */
  lemma DecodeByValue(s: string, n: int)
    requires ColorValue(s) == n
    ensures DecodeColor(s) == BytesOf(n)
  {
  }

  /** The bytes of `r * 65536 + g * 256 + b` are r, g and b. */
  lemma ByteTripleValue(n: int, r: int, g: int, b: int)
    requires 0 <= r < 256 && 0 <= g < 256 && 0 <= b < 256
    requires n == r * 65536 + g * 256 + b
    ensures BytesOf(n) == Rgb(r, g, b)
  {
    DivModUnique(n, 65536, r, g * 256 + b);
    DivModUnique(r, 256, 0, r);
    DivModUnique(n, 256, r * 256 + g, b);
    DivModUnique(r * 256 + g, 256, r, g);
  }

  /** A colour whose value is `r * 65536 + g * 256 + b` decodes to (r, g, b). */
  lemma DecodeOfValue(s: string, r: int, g: int, b: int)
    requires 0 <= r < 256 && 0 <= g < 256 && 0 <= b < 256
    requires ColorValue(s) == r * 65536 + g * 256 + b
    ensures DecodeColor(s) == Rgb(r, g, b)
  {
    ByteTripleValue(ColorValue(s), r, g, b);
  }

  /** `#rrggbb`: each pair of hexadecimal digits becomes one channel. */
  lemma SixDigitChannels(s: string)
    requires IsHexColor(s)
    ensures DecodeColor(s) == Rgb(PairValue(s[1], s[2]), PairValue(s[3], s[4]), PairValue(s[5], s[6]))
  {
    HexColorValue(s);
    DecodeOfValue(s, PairValue(s[1], s[2]), PairValue(s[3], s[4]), PairValue(s[5], s[6]));
  }

  /** Decoding undoes `#rrggbb` formatting. */
  lemma DecodeFormatRoundTrip(c: Rgb)
    requires IsByteTriple(c)
    ensures DecodeColor(FormatHex(c)) == c
  {
    SixDigitChannels(FormatHex(c));
  }

  /** Formatting the bytes of the pairs of `#rrggbb` gives the lower-cased digits. */
  lemma FormatOfPairs(s: string)
    requires IsHexColor(s)
    ensures var f := FormatHex(Rgb(PairValue(s[1], s[2]), PairValue(s[3], s[4]), PairValue(s[5], s[6])));
            f[0] == '#' && forall i :: 1 <= i < 7 ==> f[i] == ToLowerHex(s[i])
  {
    HexPairLowered(s[1], s[2]);
    HexPairLowered(s[3], s[4]);
    HexPairLowered(s[5], s[6]);
  }

  /** Formatting the decoded colour of `#rrggbb` gives the string back, up to
      the case of its letters and with `#` as its first character. */
  lemma SixDigitFormat(s: string)
    requires IsHexColor(s)
    ensures var f := FormatHex(DecodeColor(s));
            f[0] == '#' && forall i :: 1 <= i < 7 ==> f[i] == ToLowerHex(s[i])
  {
    SixDigitChannels(s);
    FormatOfPairs(s);
  }

  /** A three-digit shorthand `#xyz` is not expanded to `#xxyyzz`: it is read
      as the number 0xxyz, whose top byte is 0. */
  lemma ShorthandNotExpanded(s: string)
    requires |s| == 4 && IsHexDigit(s[1]) && IsHexDigit(s[2]) && IsHexDigit(s[3])
    ensures DecodeColor(s) == Rgb(0, HexDigitValue(s[1]), PairValue(s[2], s[3]))
  {
    var h := s[1..];
    assert AllHex(h) by {
      forall i | 0 <= i < |h| ensures IsHexDigit(h[i]) {
        assert h[i] == s[i + 1];
      }
    }
    assert h[..0] == [];
    HexValueStep(h, 1);
    HexValueStep(h, 2);
    HexValueStep(h, 3);
    assert h[..3] == h;
    ColorValueOfDigits(s);
    DecodeOfValue(s, 0, HexDigitValue(s[1]), PairValue(s[2], s[3]));
  }

  lemma SingleDigitValue(c: char)
    ensures HexValue([c]) == HexDigitValue(c)
  {
    assert [c][..0] == [];
  }

  /** When the character after the first is neither a hexadecimal digit, nor
      white space, nor a sign, there is no number and the colour is black. */
  lemma UnparsableDecodesToBlack(s: string)
    requires |s| < 2 || !(IsHexDigit(s[1]) || IsJsWhiteSpace(s[1]) || s[1] == '+' || s[1] == '-')
    ensures ColorValue(s) == 0
    ensures DecodeColor(s) == Rgb(0, 0, 0)
  {
    ParseIntHexNaN(DropFirst(s));
    DecodeByValue(s, 0);
  }

  /** `rgb(...)` or `rgba(...)`, the notation computed styles use. */
  predicate IsFunctionalNotation(s: string)
  {
    |s| >= 4 && s[0] == 'r' && s[1] == 'g' && s[2] == 'b'
  }

  /** The functional notation decodes to black, whatever its numbers: after
      the `r` comes `g`, which is not a hexadecimal digit. */
  lemma FunctionalNotationIsBlack(s: string)
    requires IsFunctionalNotation(s)
    ensures DecodeColor(s) == Rgb(0, 0, 0)
  {
    UnparsableDecodesToBlack(s);
  }

  /** A word is not always black: when its second character is a hexadecimal
      digit and its third is not, the colour is that one digit in the blue
      channel (`banana` is read as 0xa, the hexadecimal prefix of `anana`). */
  lemma LeadingHexDigit(s: string)
    requires |s| >= 3 && IsHexDigit(s[1]) && !IsHexDigit(s[2])
    requires !(s[1] == '0' && (s[2] == 'x' || s[2] == 'X'))
    ensures DecodeColor(s) == Rgb(0, 0, HexDigitValue(s[1]))
  {
    LeadingHexValue(s);
    DecodeOfValue(s, 0, 0, HexDigitValue(s[1]));
  }

  lemma LeadingHexValue(s: string)
    requires |s| >= 3 && IsHexDigit(s[1]) && !IsHexDigit(s[2])
    requires !(s[1] == '0' && (s[2] == 'x' || s[2] == 'X'))
    ensures ColorValue(s) == HexDigitValue(s[1])
  {
    var t := DropFirst(s);
    assert TrimStart(t) == t;
    assert HexPrefixLength(t) == 1 by {
      assert t[1..][0] == s[2];
    }
    assert HexValue(t[..1]) == HexDigitValue(s[1]) by {
      assert t[..1] == [s[1]];
      SingleDigitValue(s[1]);
    }
  }

  /** A sign is honoured: `#-h` is the negative number -h, and its bytes are
      those of the two's complement; `#-1` is white. */
  lemma NegativeValueWraps(s: string)
    requires |s| >= 3 && s[1] == '-' && AllHex(s[2..])
    ensures DecodeColor(s) == BytesOf(-(HexValue(s[2..]) as int))
    ensures HexValue(s[2..]) == 1 ==> DecodeColor(s) == Rgb(255, 255, 255)
  {
    NegativeColorValue(s);
    DecodeByValue(s, -(HexValue(s[2..]) as int));
    if HexValue(s[2..]) == 1 {
      MinusOneIsWhite();
    }
  }

  lemma NegativeColorValue(s: string)
    requires |s| >= 3 && s[1] == '-' && AllHex(s[2..])
    ensures ColorValue(s) == -(HexValue(s[2..]) as int)
  {
    var t := DropFirst(s);
    assert t[1..] == s[2..];
    ParseIntHexNegative(t);
  }

  /** The two's complement bytes of -1 are all 0xff. */
  lemma MinusOneIsWhite()
    ensures BytesOf(-1) == Rgb(255, 255, 255)
  {
    DivModUnique(-1, 65536, -1, 65535);
    DivModUnique(-1, 256, -1, 255);
  }

  /** A `0x` or `0X` after the first character is skipped as a radix prefix. */
  lemma RadixPrefixSkipped(s: string)
    requires |s| >= 4 && s[1] == '0' && (s[2] == 'x' || s[2] == 'X') && AllHex(s[3..])
    ensures DecodeColor(s) == BytesOf(HexValue(s[3..]))
  {
    RadixPrefixValue(s);
    DecodeByValue(s, HexValue(s[3..]));
  }

  lemma RadixPrefixValue(s: string)
    requires |s| >= 4 && s[1] == '0' && (s[2] == 'x' || s[2] == 'X') && AllHex(s[3..])
    ensures ColorValue(s) == HexValue(s[3..])
  {
    var t := DropFirst(s);
    assert t[2..] == s[3..];
    ParseIntHexRadixPrefix(t);
  }

  // ---------------------------------------------------------------------
  // Relative luminance
  // ---------------------------------------------------------------------

  /** What the model assumes of `x => Math.pow(x, 2.4)` (the power of the
      sRGB transfer function): it maps (0, 1] into [0, 1] and 1 to 1. */
  ghost predicate IsSrgbPower(pow: real -> real)
  {
    && pow(1.0) == 1.0
    && forall x: real :: 0.0 < x <= 1.0 ==> 0.0 <= pow(x) <= 1.0
  }

  /** The power functions the model admits; `x ^ 2.4` is one, and so is the identity. */
  type SrgbPower = pow: real -> real | IsSrgbPower(pow) witness IdentityPower

  function IdentityPower(x: real): real
  {
    x
  }

  /** One channel of `getLuminance`: `v /= 255`, then `v / 12.92` up to
      0.03928 and `((v + 0.055) / 1.055) ^ 2.4` above. For a byte the linear
      branch is taken exactly for 0..10, where the value is v / (255 * 12.92). */
  function Linearise(pow: SrgbPower, v: int): (l: real)
    requires 0 <= v < 256
    ensures 0.0 <= l <= 1.0
    ensures v <= 10 ==> l == v as real / 3294.6
    ensures v == 255 ==> l == 1.0
  {
    var x := v as real / 255.0;
    if x <= 0.03928 then x / 12.92 else pow((x + 0.055) / 1.055)
  }

  /** Relative luminance of a byte triple (weights 0.2126, 0.7152, 0.0722, as
      in the definition of relative luminance in WCAG 2.1). The weights sum to
      one: the result lies in [0, 1], and a grey has the luminance of its channel. */
  function RelativeLuminance(pow: SrgbPower, c: Rgb): (l: real)
    requires IsByteTriple(c)
    ensures 0.0 <= l <= 1.0
    ensures c.red == c.green == c.blue ==> l == Linearise(pow, c.red)
  {
    Linearise(pow, c.red) * 0.2126 + Linearise(pow, c.green) * 0.7152 + Linearise(pow, c.blue) * 0.0722
  }

  /** For a byte the linear branch `v / 255 <= 0.03928` is taken exactly for 0..10. */
  lemma LinearBranchBound(v: int)
    requires 0 <= v < 256
    ensures v as real / 255.0 <= 0.03928 <==> v <= 10
  {
    if v >= 11 {
      assert v as real / 255.0 >= 11.0 / 255.0;
    }
  }

  /** A colour whose channels are all at most 10 has an exact luminance that
      does not depend on the power at all. */
  lemma DarkLuminance(pow: SrgbPower, c: Rgb)
    requires IsByteTriple(c) && c.red <= 10 && c.green <= 10 && c.blue <= 10
    ensures RelativeLuminance(pow, c)
            == (c.red as real * 0.2126 + c.green as real * 0.7152 + c.blue as real * 0.0722) / 3294.6
  {
  }

  /** `getLuminance(color)`. */
  function Luminance(pow: SrgbPower, color: string): (l: real)
    ensures 0.0 <= l <= 1.0
  {
    RelativeLuminance(pow, DecodeColor(color))
  }

  /** `#000000`, with any first character. */
  predicate IsHexBlack(s: string)
  {
    |s| == 7 && forall i :: 1 <= i < 7 ==> s[i] == '0'
  }

  /** `#ffffff` in either letter case, with any first character. */
  predicate IsHexWhite(s: string)
  {
    |s| == 7 && forall i :: 1 <= i < 7 ==> s[i] == 'f' || s[i] == 'F'
  }

  /** Anything that decodes to black has luminance exactly 0: `#000000`, but
      also every string that is not a number. */
  lemma BlackLuminance(pow: SrgbPower, s: string)
    requires IsHexBlack(s) || DecodeColor(s) == Rgb(0, 0, 0)
    ensures DecodeColor(s) == Rgb(0, 0, 0)
    ensures Luminance(pow, s) == 0.0
  {
    if IsHexBlack(s) {
      SixDigitChannels(s);
    }
  }

  /** `#ffffff` decodes to white and has luminance exactly 1. */
  lemma WhiteLuminance(pow: SrgbPower, s: string)
    requires IsHexWhite(s)
    ensures DecodeColor(s) == Rgb(255, 255, 255)
    ensures Luminance(pow, s) == 1.0
  {
    SixDigitChannels(s);
  }

  // ---------------------------------------------------------------------
  // Contrast ratio and verdict
  // ---------------------------------------------------------------------

  /** `(lum1 + 0.05) / (lum2 + 0.05)` for luminances in [0, 1]. */
  function LuminanceRatio(l1: real, l2: real): (ratio: real)
    requires 0.0 <= l1 <= 1.0 && 0.0 <= l2 <= 1.0
    ensures 1.0 / 21.0 <= ratio <= 21.0
    ensures ratio < 1.0 <==> l1 < l2
    ensures ratio > 4.5 <==> l1 + 0.05 > 4.5 * (l2 + 0.05)
  {
    var num, den := l1 + 0.05, l2 + 0.05;
    QuotientFacts(num, den);
    num / den
  }

  lemma QuotientFacts(num: real, den: real)
    requires 0.05 <= num <= 1.05 && 0.05 <= den <= 1.05
    ensures 1.0 / 21.0 <= num / den <= 21.0
    ensures num / den < 1.0 <==> num < den
    ensures num / den > 4.5 <==> num > 4.5 * den
  {
    QuotientCompare(num, den, 21.0);
    QuotientCompare(num, den, 1.0 / 21.0);
    QuotientCompare(num, den, 1.0);
    QuotientCompare(num, den, 4.5);
  }

  /** Comparing a quotient with t is comparing the numerator with t times the
      (positive) denominator. */
  lemma QuotientCompare(num: real, den: real, t: real)
    requires den > 0.0
    ensures num / den < t <==> num < t * den
    ensures num / den > t <==> num > t * den
  {
    var q := num / den;
    assert q * den == num;
    if q < t {
      assert (t - q) * den > 0.0;
    } else if q > t {
      assert (q - t) * den > 0.0;
    }
  }

  /** `const contrast = (lum1 + 0.05) / (lum2 + 0.05)`, foreground over
      background in the order given: it lies between 1/21 and 21 and falls
      below 1 exactly when the background is the lighter one. */
  function ContrastRatio(pow: SrgbPower, foreground: string, background: string): (ratio: real)
    ensures 1.0 / 21.0 <= ratio <= 21.0
    ensures ratio < 1.0 <==> Luminance(pow, foreground) < Luminance(pow, background)
    ensures ratio > 4.5 <==> Luminance(pow, foreground) + 0.05 > 4.5 * (Luminance(pow, background) + 0.05)
  {
    var lum1 := Luminance(pow, foreground);
    var lum2 := Luminance(pow, background);
    LuminanceRatio(lum1, lum2)
  }

  /** `checkContrast(foreground, background)`: `contrast > 4.5`. Equivalently
      a linear inequality between the two luminances; a ratio of exactly 4.5
      fails; and a foreground no lighter than its background never passes. */
  function CheckContrast(pow: SrgbPower, foreground: string, background: string): (pass: bool)
    ensures pass <==> Luminance(pow, foreground) + 0.05 > 4.5 * (Luminance(pow, background) + 0.05)
    ensures ContrastRatio(pow, foreground, background) == 4.5 ==> !pass
    ensures Luminance(pow, foreground) <= Luminance(pow, background) ==> !pass
  {
    ContrastRatio(pow, foreground, background) > 4.5
  }

  /** White text on a black background passes, with ratio 21. */
  lemma WhiteOnBlackPasses(pow: SrgbPower, foreground: string, background: string)
    requires IsHexWhite(foreground) && IsHexBlack(background)
    ensures ContrastRatio(pow, foreground, background) == 21.0
    ensures CheckContrast(pow, foreground, background)
  {
    WhiteLuminance(pow, foreground);
    BlackLuminance(pow, background);
  }

  /** Text that decodes to black passes on no background at all: `#000000`,
      and every colour written in functional notation. */
  lemma BlackForegroundNeverPasses(pow: SrgbPower, foreground: string, background: string)
    requires IsHexBlack(foreground) || DecodeColor(foreground) == Rgb(0, 0, 0)
    ensures !CheckContrast(pow, foreground, background)
  {
    BlackLuminance(pow, foreground);
  }

  /** A colour never passes against itself, and two strings that are not
      numbers never pass against each other. */
  lemma SameColourNeverPasses(pow: SrgbPower, foreground: string, background: string)
    requires foreground == background
          || (ParseIntHex(DropFirst(foreground)).None? && ParseIntHex(DropFirst(background)).None?)
    ensures !CheckContrast(pow, foreground, background)
  {
  }

  // ---------------------------------------------------------------------
  // The contrast ratio of WCAG 2.1, for comparison
  // ---------------------------------------------------------------------

  /** The contrast ratio as WCAG 2.1 defines it: the lighter luminance on top. */
  function WcagContrastRatio(l1: real, l2: real): (ratio: real)
    requires 0.0 <= l1 <= 1.0 && 0.0 <= l2 <= 1.0
    ensures 1.0 <= ratio <= 21.0
  {
    var hi := if l1 >= l2 then l1 else l2;
    var lo := if l1 >= l2 then l2 else l1;
    LuminanceRatio(hi, lo)
  }

  /** Success Criterion 1.4.3 of WCAG 2.1 for normal text: a ratio of at least 4.5. */
  ghost predicate WcagNormalTextPass(pow: SrgbPower, foreground: string, background: string)
  {
    WcagContrastRatio(Luminance(pow, foreground), Luminance(pow, background)) >= 4.5
  }

  /** The WCAG ratio does not depend on which colour is the text. */
  lemma WcagSymmetric(l1: real, l2: real)
    requires 0.0 <= l1 <= 1.0 && 0.0 <= l2 <= 1.0
    ensures WcagContrastRatio(l1, l2) == WcagContrastRatio(l2, l1)
  {
  }

  /** What `checkContrast` passes WCAG passes too; when the foreground is the
      lighter colour the two agree except at a ratio of exactly 4.5. */
  lemma VerdictAgainstWcag(pow: SrgbPower, foreground: string, background: string)
    ensures CheckContrast(pow, foreground, background) ==> WcagNormalTextPass(pow, foreground, background)
    ensures Luminance(pow, foreground) >= Luminance(pow, background)
            && ContrastRatio(pow, foreground, background) != 4.5
            ==> (CheckContrast(pow, foreground, background) <==> WcagNormalTextPass(pow, foreground, background))
  {
    var lf, lb := Luminance(pow, foreground), Luminance(pow, background);
    if lf >= lb {
      assert WcagContrastRatio(lf, lb) == ContrastRatio(pow, foreground, background);
    }
  }

  /** Black text on white: WCAG gives ratio 21 and passes it, `checkContrast`
      divides the other way round (1/21) and fails it. */
  lemma BlackOnWhiteDivergesFromWcag(pow: SrgbPower, foreground: string, background: string)
    requires IsHexBlack(foreground) && IsHexWhite(background)
    ensures ContrastRatio(pow, foreground, background) == 1.0 / 21.0
    ensures WcagNormalTextPass(pow, foreground, background)
    ensures !CheckContrast(pow, foreground, background)
  {
    BlackLuminance(pow, foreground);
    WhiteLuminance(pow, background);
    assert WcagContrastRatio(0.0, 1.0) == 21.0;
  }
}
