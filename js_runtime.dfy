/** The pieces of ECMAScript behaviour the contrast check and the report
    rely on: `parseInt(s, 16)`, the ToInt32 conversion behind `>>` and `&`,
    and the text a template literal produces for a count or a boolean.
    Numbers are unbounded integers here; a JavaScript Number is a double. */
module JsRuntime {

  datatype Option<T> = None | Some(value: T)

  const TWO_32: int := 0x1_0000_0000
  const TWO_31: int := 0x8000_0000

  function Pow2(k: nat): (p: nat)
    ensures p >= 1
  {
    if k == 0 then 1 else 2 * Pow2(k - 1)
  }

  function Pow16(k: nat): (p: nat)
    ensures p >= 1
  {
    if k == 0 then 1 else 16 * Pow16(k - 1)
  }

  // ---------------------------------------------------------------------
  // Division facts used by the channel extraction
  // ---------------------------------------------------------------------

  /** Euclidean quotient and remainder are determined by `x == q * d + m`. */
  lemma DivModUnique(x: int, d: int, q: int, m: int)
    requires d > 0 && 0 <= m < d && x == q * d + m
    ensures x / d == q && x % d == m
  {
    var q', m' := x / d, x % d;
    assert x == q' * d + m';
    if q' < q {
      assert (q - q') * d >= d by { MulAtLeast(q - q', d); }
      assert false;
    } else if q' > q {
      assert (q' - q) * d >= d by { MulAtLeast(q' - q, d); }
      assert false;
    }
  }

  lemma MulAtLeast(a: int, d: int)
    requires a >= 1 && d > 0
    ensures a * d >= d
  {
  }

  lemma MulSign(a: int, b: int)
    requires a >= 0 && b >= 0
    ensures a * b >= 0
  {
  }

  /** Dividing by a positive divisor moves a value towards zero (or to -1). */
  lemma DivBounds(x: int, d: int)
    requires d >= 1
    ensures x >= 0 ==> 0 <= x / d <= x
    ensures x < 0 ==> x <= x / d < 0
  {
    var q, m := x / d, x % d;
    assert x == d * q + m && 0 <= m < d;
    if q < 0 {
      MulSign(d, -q - 1);
      MulSign(d - 1, -q - 1);
    } else {
      MulSign(d, q);
      MulSign(d - 1, q);
    }
  }

  /** Adding a multiple of the divisor shifts the quotient and keeps the remainder. */
  lemma DivAddMultiple(x: int, k: int, d: int)
    requires d > 0
    ensures (x + k * d) / d == x / d + k
    ensures (x + k * d) % d == x % d
  {
    DivModUnique(x + k * d, d, x / d + k, x % d);
  }

  // ---------------------------------------------------------------------
  // ToInt32, `>>` and `& 0xff`
  // ---------------------------------------------------------------------

  /** ECMAScript ToInt32 of an integral Number: the value modulo 2^32,
      read as a signed 32-bit integer. */
  function ToInt32(x: int): (r: int)
    ensures -TWO_31 <= r < TWO_31
    ensures (x - r) % TWO_32 == 0
  {
    var m := x % TWO_32;
    DivAddMultiple(x, -(x / TWO_32), TWO_32);
    if m >= TWO_31 then m - TWO_32 else m
  }

  /** ToInt32 leaves a value that is already a signed 32-bit integer alone. */
  lemma ToInt32OfInt32(x: int)
    requires -TWO_31 <= x < TWO_31
    ensures ToInt32(x) == x
  {
    if x >= 0 {
      DivModUnique(x, TWO_32, 0, x);
    } else {
      DivModUnique(x, TWO_32, -1, x + TWO_32);
    }
  }

  /** ToInt32 of the Number `parseInt` produced; NaN (None) becomes +0. */
  function NumberToInt32(n: Option<int>): (r: int)
    ensures -TWO_31 <= r < TWO_31
    ensures n.None? ==> r == 0
  {
    match n
    case None => 0
    case Some(x) => ToInt32(x)
  }

  /** The integer a parsed Number denotes, with NaN read as 0 (what ToInt32 makes of it). */
  function IntegerOrZero(n: Option<int>): int
  {
    match n
    case None => 0
    case Some(x) => x
  }

  /** `x >> k` on a Number: sign-propagating shift of ToInt32(x), i.e. floor division by 2^k. */
  function ShiftRight(x: Option<int>, k: nat): (r: int)
    requires k < 32
    ensures -TWO_31 <= r < TWO_31
  {
    DivBounds(NumberToInt32(x), Pow2(k));
    NumberToInt32(x) / Pow2(k)
  }

  /** `x & 0xff`: the low eight bits of the two's complement of ToInt32(x). */
  function LowByte(x: int): (r: int)
    ensures 0 <= r < 256
  {
    ToInt32(x) % 256
  }

  /** ToInt32 only removes multiples of 2^32, so it does not change byte `d` of x
      when `d * 256` divides 2^32. */
  lemma ByteSurvivesToInt32(x: int, d: int, e: int)
    requires d > 0 && e > 0 && d * 256 * e == TWO_32
    ensures (ToInt32(x) / d) % 256 == (x / d) % 256
  {
    var t := ToInt32(x);
    var j := (x - t) / TWO_32;
    assert x - t == j * TWO_32;
    assert t == x + (-j * 256 * e) * d;
    DivAddMultiple(x, -j * 256 * e, d);
    assert t / d == x / d + (-j * e) * 256;
    DivAddMultiple(x / d, -j * e, 256);
  }

  lemma Pow2Bytes()
    ensures Pow2(0) == 1 && Pow2(8) == 256 && Pow2(16) == 65536
  {
    assert Pow2(4) == 16;
    assert Pow2(8) == 16 * Pow2(4);
    assert Pow2(16) == 256 * Pow2(8);
  }

  /** `(x >> k) & 0xff` for the shifts 16, 8 and 0 is byte k/8 of the parsed
      integer, counted from the least significant; NaN gives 0. */
  lemma ShiftedByte(x: Option<int>, k: nat, d: int)
    requires (k == 0 && d == 1) || (k == 8 && d == 256) || (k == 16 && d == 65536)
    ensures LowByte(ShiftRight(x, k)) == (IntegerOrZero(x) / d) % 256
  {
    Pow2Bytes();
    var e := if k == 0 then 0x100_0000 else if k == 8 then 0x1_0000 else 0x100;
    ToInt32OfInt32(ShiftRight(x, k));
    match x
    case None =>
    case Some(v) => ByteSurvivesToInt32(v, d, e);
  }

  // ---------------------------------------------------------------------
  // parseInt(s, 16)
  // ---------------------------------------------------------------------

  /** StrWhiteSpaceChar of ECMAScript: white space and line terminators,
      which `parseInt` skips before the number. */
  predicate IsJsWhiteSpace(c: char)
  {
    || c == '\t' || c == '\U{000B}' || c == '\U{000C}' || c == ' '
    || c == '\U{00A0}' || c == '\U{FEFF}' || c == '\U{1680}'
    || ('\U{2000}' <= c <= '\U{200A}')
    || c == '\U{202F}' || c == '\U{205F}' || c == '\U{3000}'
    || c == '\n' || c == '\r' || c == '\U{2028}' || c == '\U{2029}'
  }

  predicate IsHexDigit(c: char)
  {
    ('0' <= c <= '9') || ('a' <= c <= 'f') || ('A' <= c <= 'F')
  }

  predicate AllHex(s: string)
  {
    forall i :: 0 <= i < |s| ==> IsHexDigit(s[i])
  }

  /** The value of a hexadecimal digit (0 for any other character, which
      the parser never passes). */
  function HexDigitValue(c: char): (d: nat)
    ensures d < 16
  {
    if '0' <= c <= '9' then c as int - '0' as int
    else if 'a' <= c <= 'f' then c as int - 'a' as int + 10
    else if 'A' <= c <= 'F' then c as int - 'A' as int + 10
    else 0
  }

  /** The lower-case hexadecimal digit for `d`. */
  function HexDigitChar(d: nat): (c: char)
    requires d < 16
    ensures IsHexDigit(c) && HexDigitValue(c) == d
    ensures !('A' <= c <= 'F')
  {
    "0123456789abcdef"[d]
  }

  function ToLowerHex(c: char): char
  {
    if 'A' <= c <= 'F' then (c as int - 'A' as int + 'a' as int) as char else c
  }

  lemma HexDigitCharOfValue(c: char)
    requires IsHexDigit(c)
    ensures HexDigitChar(HexDigitValue(c)) == ToLowerHex(c)
  {
  }

  /** The string without its leading white space. */
  function TrimStart(s: string): (t: string)
    ensures |t| <= |s| && t == s[|s| - |t|..]
    ensures forall i :: 0 <= i < |s| - |t| ==> IsJsWhiteSpace(s[i])
    ensures t == [] || !IsJsWhiteSpace(t[0])
  {
    if s != [] && IsJsWhiteSpace(s[0]) then TrimStart(s[1..]) else s
  }

  /** The length of the longest prefix made of hexadecimal digits. */
  function HexPrefixLength(s: string): (n: nat)
    ensures n <= |s|
    ensures forall i :: 0 <= i < n ==> IsHexDigit(s[i])
    ensures n == |s| || !IsHexDigit(s[n])
  {
    if s != [] && IsHexDigit(s[0]) then 1 + HexPrefixLength(s[1..]) else 0
  }

  /** The value of a string of hexadecimal digits, most significant first. */
  function HexValue(s: string): (v: nat)
    ensures v < Pow16(|s|)
  {
    if s == [] then 0
    else
      var v' := HexValue(s[..|s| - 1]);
      assert 16 * v' <= 16 * Pow16(|s| - 1) - 16;
      16 * v' + HexDigitValue(s[|s| - 1])
  }

  /** Hexadecimal digits are read positionally: the digits of `b` after
      those of `a` shift `a` left by `|b|` places. */
  lemma {:induction false} HexValueAppend(a: string, b: string)
    ensures HexValue(a + b) == HexValue(a) * Pow16(|b|) + HexValue(b)
  {
    if b == [] {
      assert a + b == a;
    } else {
      var b' := b[..|b| - 1];
      HexValueAppend(a, b');
      LastDigitSplit(a, b);
      MulRegroup(HexValue(a), HexValue(b'), Pow16(|b| - 1), HexDigitValue(b[|b| - 1]));
    }
  }

  /** Removing the last digit of `a + b` removes the last digit of `b`. */
  lemma LastDigitSplit(a: string, b: string)
    requires b != []
    ensures HexValue(a + b) == 16 * HexValue(a + b[..|b| - 1]) + HexDigitValue(b[|b| - 1])
  {
    var ab := a + b;
    assert ab[..|ab| - 1] == a + b[..|b| - 1];
    assert ab[|ab| - 1] == b[|b| - 1];
  }

  lemma MulRegroup(x: int, y: int, p: int, d: int)
    ensures 16 * (x * p + y) + d == x * (16 * p) + (16 * y + d)
  {
  }

  /** `parseInt(s, 16)`: skip leading white space, take an optional sign and
      an optional `0x`/`0X`, then read the longest run of hexadecimal digits.
      None stands for NaN (no digit at all); `-0` is the integer 0. */
  function ParseIntHex(s: string): (n: Option<int>)
  {
    var t := TrimStart(s);
    var negative := t != [] && t[0] == '-';
    var u := if t != [] && (t[0] == '-' || t[0] == '+') then t[1..] else t;
    var v := if |u| >= 2 && u[0] == '0' && (u[1] == 'x' || u[1] == 'X') then u[2..] else u;
    var len := HexPrefixLength(v);
    if len == 0 then None
    else
      var mag: int := HexValue(v[..len]);
      Some(if negative then -mag else mag)
  }

  /** A non-empty string of hexadecimal digits is read as its hexadecimal value. */
  lemma ParseIntHexOfDigits(s: string)
    requires s != [] && AllHex(s)
    ensures ParseIntHex(s) == Some(HexValue(s))
  {
    assert !IsJsWhiteSpace(s[0]);
    assert TrimStart(s) == s;
    assert HexPrefixLength(s) == |s|;
    assert s[..|s|] == s;
  }

  /** All hexadecimal digits: the longest hexadecimal prefix is the whole string. */
  lemma HexPrefixOfDigits(s: string)
    requires AllHex(s)
    ensures HexPrefixLength(s) == |s| && s[..|s|] == s
  {
  }

  /** A `-` in front negates the value of the digits after it. */
  lemma ParseIntHexNegative(s: string)
    requires |s| >= 2 && s[0] == '-' && AllHex(s[1..])
    ensures ParseIntHex(s) == Some(-(HexValue(s[1..]) as int))
  {
    assert TrimStart(s) == s;
    HexPrefixOfDigits(s[1..]);
  }

  /** A `0x` or `0X` in front is a radix prefix and is skipped. */
  lemma ParseIntHexRadixPrefix(s: string)
    requires |s| >= 3 && s[0] == '0' && (s[1] == 'x' || s[1] == 'X') && AllHex(s[2..])
    ensures ParseIntHex(s) == Some(HexValue(s[2..]))
  {
    assert TrimStart(s) == s;
    HexPrefixOfDigits(s[2..]);
  }

  /** Without a digit, white space or sign in front there is no number: NaN. */
  lemma ParseIntHexNaN(s: string)
    requires s == [] || !(IsHexDigit(s[0]) || IsJsWhiteSpace(s[0]) || s[0] == '+' || s[0] == '-')
    ensures ParseIntHex(s).None?
  {
    assert TrimStart(s) == s;
  }

  // ---------------------------------------------------------------------
  // Text produced by template literals and Array.prototype.join
  // ---------------------------------------------------------------------

  predicate IsDecimalDigit(c: char)
  {
    '0' <= c <= '9'
  }

  predicate AllDecimal(s: string)
  {
    forall i :: 0 <= i < |s| ==> IsDecimalDigit(s[i])
  }

  function DigitChar(d: nat): (c: char)
    requires d < 10
    ensures IsDecimalDigit(c) && c as int - '0' as int == d
  {
    ('0' as int + d) as char
  }

  /** `${n}` for a count: its decimal digits, with no leading zero. */
  function NatToString(n: nat): (s: string)
    ensures s != [] && AllDecimal(s)
    ensures s[0] == '0' <==> n == 0
    decreases n
  {
    if n < 10 then [DigitChar(n)] else NatToString(n / 10) + [DigitChar(n % 10)]
  }

  /** The number a string of decimal digits denotes. */
  function ParseDecimal(s: string): nat
    requires AllDecimal(s)
  {
    if s == [] then 0 else 10 * ParseDecimal(s[..|s| - 1]) + (s[|s| - 1] as int - '0' as int)
  }

  /** Formatting a count and reading it back gives the count. */
  lemma {:induction false} DecimalRoundTrip(n: nat)
    ensures ParseDecimal(NatToString(n)) == n
  {
    if n >= 10 {
      var s := NatToString(n);
      assert s[..|s| - 1] == NatToString(n / 10);
      DecimalRoundTrip(n / 10);
    }
  }

  /** Different counts never produce the same text. */
  lemma NatToStringInjective(a: nat, b: nat)
    requires NatToString(a) == NatToString(b)
    ensures a == b
  {
    DecimalRoundTrip(a);
    DecimalRoundTrip(b);
  }

  /** `${b}` for a boolean. */
  function BoolToString(b: bool): string
  {
    if b then "true" else "false"
  }

  /** `parts.join(sep)`. */
  function Join(parts: seq<string>, sep: string): string
  {
    if parts == [] then ""
    else if |parts| == 1 then parts[0]
    else parts[0] + sep + Join(parts[1..], sep)
  }
}
