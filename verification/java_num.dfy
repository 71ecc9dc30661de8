/**
 * The pieces of Java's number handling that the SER gateway relies on:
 * 32- and 64-bit integer ranges, `int` wrap-around, `Long.parseLong` /
 * `Integer.parseInt` in radix 16, and `Integer.toString` with left padding.
 */
module JavaNum {
  import opened Wrappers

  const INT32_MIN: int := -0x8000_0000
  const INT32_MAX: int := 0x7FFF_FFFF
  const INT64_MIN: int := -0x8000_0000_0000_0000
  const INT64_MAX: int := 0x7FFF_FFFF_FFFF_FFFF

  /** A Java `int` / `Integer`. */
  type Int32 = x: int | INT32_MIN <= x <= INT32_MAX
  /** A Java `long` / `Long`. */
  type Int64 = x: int | INT64_MIN <= x <= INT64_MAX

  /** The Java exceptions the modelled code can raise. */
  datatype JavaError =
    | NumberFormat        // NumberFormatException from parseInt / parseLong
    | IndexOutOfBounds    // StringIndexOutOfBoundsException from substring
    | ClassCast           // ClassCastException from an `(Integer)` cast

  /** Java `int` addition and subtraction: the exact result modulo 2^32, read as a signed value. */
  function Wrap32(x: int): (r: Int32)
    ensures (r - x) % 0x1_0000_0000 == 0
    ensures INT32_MIN <= x <= INT32_MAX ==> r == x
    ensures INT32_MAX < x <= INT32_MAX + 0x1_0000_0000 ==> r == x - 0x1_0000_0000
  {
    (x - INT32_MIN) % 0x1_0000_0000 + INT32_MIN
  }

  function Pow2(n: nat): (p: nat)
    ensures p >= 1
  {
    if n == 0 then 1 else 2 * Pow2(n - 1)
  }

  function Pow10(n: nat): (p: nat)
    ensures p >= 1
  {
    if n == 0 then 1 else 10 * Pow10(n - 1)
  }

  function Pow16(n: nat): (p: nat)
    ensures p >= 1
  {
    if n == 0 then 1 else 16 * Pow16(n - 1)
  }

  /** Appending one digit d in base k to a digit string whose value is v == x * p + y regroups as follows. */
  lemma Extend(x: int, p: int, y: int, v: int, d: int, k: int)
    requires v == x * p + y
    ensures v * k + d == x * (p * k) + (y * k + d)
  {
    calc {
      v * k + d;
      (x * p + y) * k + d;
      x * p * k + y * k + d;
      x * (p * k) + (y * k + d);
    }
  }

  /** Euclidean division has only one quotient and remainder. */
  lemma DivModUnique(x: int, m: int, q: int, r: int)
    requires m > 0 && x == m * q + r && 0 <= r < m
    ensures x % m == r && x / m == q
  {
    var q0, r0 := x / m, x % m;
    assert x == m * q0 + r0;
    assert m * (q0 - q) == r - r0;
    MulAwayFromZero(m, q0 - q);
  }

  lemma MulAwayFromZero(m: int, d: int)
    requires m > 0
    ensures d >= 1 ==> m * d >= m
    ensures d <= -1 ==> m * d <= -m
  {
  }

  // ---------------------------------------------------------------- hex digits

  /** The digits `Character.digit(c, 16)` accepts among ASCII characters. */
  predicate IsHexDigit(c: char) {
    '0' <= c <= '9' || 'a' <= c <= 'f' || 'A' <= c <= 'F'
  }

  function HexDigitValue(c: char): (d: nat)
    requires IsHexDigit(c)
    ensures d < 16
  {
    if '0' <= c <= '9' then c as int - '0' as int
    else if 'a' <= c <= 'f' then c as int - 'a' as int + 10
    else c as int - 'A' as int + 10
  }

  function HexChar(d: nat): (c: char)
    requires d < 16
    ensures IsHexDigit(c) && HexDigitValue(c) == d
  {
    if d < 10 then ('0' as int + d) as char else ('A' as int + d - 10) as char
  }

  predicate AllHex(s: string) {
    forall i :: 0 <= i < |s| ==> IsHexDigit(s[i])
  }

  /** The value of a string of hex digits, most significant digit first. */
  function HexValue(s: string): (v: nat)
    requires AllHex(s)
    ensures v < Pow16(|s|)
  {
    if s == [] then 0 else HexValue(s[..|s| - 1]) * 16 + HexDigitValue(s[|s| - 1])
  }

  lemma AllHexConcat(a: string, b: string)
    requires AllHex(a) && AllHex(b)
    ensures AllHex(a + b)
  {
    assert forall i :: 0 <= i < |a + b| ==> (a + b)[i] == if i < |a| then a[i] else b[i - |a|];
  }

  /** Reading two digit strings one after the other. */
  lemma {:induction false} HexValueConcat(a: string, b: string)
    requires AllHex(a) && AllHex(b)
    ensures AllHex(a + b)
    ensures HexValue(a + b) == HexValue(a) * Pow16(|b|) + HexValue(b)
  {
    AllHexConcat(a, b);
    if b == [] {
      assert a + b == a;
    } else {
      var b', d := b[..|b| - 1], HexDigitValue(b[|b| - 1]);
      assert AllHex(b');
      assert (a + b)[..|a + b| - 1] == a + b';
      assert (a + b)[|a + b| - 1] == b[|b| - 1];
      HexValueConcat(a, b');
      var v' := HexValue(a + b');
      assert HexValue(a + b) == v' * 16 + d;
      assert HexValue(b) == HexValue(b') * 16 + d;
      assert Pow16(|b|) == Pow16(|b'|) * 16;
      Extend(HexValue(a), Pow16(|b'|), HexValue(b'), v', d, 16);
    }
  }

  /** The n-digit upper-case hex spelling of v, the inverse of HexValue. */
  function ToHex(v: nat, n: nat): (s: string)
    requires v < Pow16(n)
    ensures |s| == n && AllHex(s)
    ensures HexValue(s) == v
  {
    if n == 0 then []
    else
      var s := ToHex(v / 16, n - 1) + [HexChar(v % 16)];
      assert s[..|s| - 1] == ToHex(v / 16, n - 1);
      s
  }

  // ---------------------------------------------------------------- parsing

  /**
   * `Long.parseLong(s, 16)` before its range check: an optional leading '-' or
   * '+', then at least one hex digit; anything else is a NumberFormatException.
   */
  function ParseRadix16(s: string): (r: Result<int, JavaError>)
    ensures r.Success? <==>
              (|s| > 0 && AllHex(s)) || (|s| > 1 && (s[0] == '-' || s[0] == '+') && AllHex(s[1..]))
    ensures |s| > 0 && AllHex(s) ==> r == Success(HexValue(s))
    ensures r.Success? && '-' !in s ==> r.value >= 0
  {
    if |s| == 0 then Failure(NumberFormat)
    else if s[0] == '-' || s[0] == '+' then
      if |s| == 1 || !AllHex(s[1..]) then Failure(NumberFormat)
      else if s[0] == '-' then Success(0 - HexValue(s[1..]))
      else Success(HexValue(s[1..]))
    else if AllHex(s) then Success(HexValue(s))
    else Failure(NumberFormat)
  }

  /** A leading '+' reads as a leading zero. */
  lemma PlusReadsAsZero(x: string)
    requires |x| >= 1
    ensures ParseRadix16("+" + x) == ParseRadix16("0" + x)
  {
    assert ("+" + x)[1..] == x;
    assert ("0" + x)[1..] == x;
    if AllHex(x) {
      HexValueConcat("0", x);
    }
  }

  /** `Long.parseLong(s, 16)`. */
  function ParseLong(s: string): (r: Result<Int64, JavaError>)
    ensures r.Success? ==> ParseRadix16(s) == Success(r.value as int)
    ensures |s| > 0 && AllHex(s) ==>
              r == if HexValue(s) <= INT64_MAX then Success(HexValue(s)) else Failure(NumberFormat)
  {
    var v :- ParseRadix16(s);
    if INT64_MIN <= v <= INT64_MAX then Success(v) else Failure(NumberFormat)
  }

  /** `Integer.parseInt(s, 16)`: fails on any value outside the `int` range. */
  function ParseInt(s: string): (r: Result<Int32, JavaError>)
    ensures r.Success? ==> ParseRadix16(s) == Success(r.value as int)
    ensures |s| > 0 && AllHex(s) ==>
              r == if HexValue(s) <= INT32_MAX then Success(HexValue(s)) else Failure(NumberFormat)
  {
    var v :- ParseRadix16(s);
    if INT32_MIN <= v <= INT32_MAX then Success(v) else Failure(NumberFormat)
  }

  // ---------------------------------------------------------------- decimal text

  predicate IsDecimalDigit(c: char) { '0' <= c <= '9' }

  predicate AllDecimal(s: string) {
    forall i :: 0 <= i < |s| ==> IsDecimalDigit(s[i])
  }

  function DecimalValue(s: string): nat
    requires AllDecimal(s)
  {
    if s == [] then 0 else DecimalValue(s[..|s| - 1]) * 10 + (s[|s| - 1] as int - '0' as int)
  }

  /** `Integer.toString` / `Long.toString` of a non-negative value. */
  function DecimalString(n: nat): (s: string)
    ensures |s| >= 1 && AllDecimal(s)
    ensures DecimalValue(s) == n
    ensures |s| == 1 <==> n < 10
    ensures n > 0 ==> s[0] != '0'
  {
    if n < 10 then [('0' as int + n) as char]
    else
      var s := DecimalString(n / 10) + [('0' as int + n % 10) as char];
      assert s[..|s| - 1] == DecimalString(n / 10);
      s
  }

  /** `Long.toString(v)`: a '-' sign for negative values, then the decimal digits. */
  function LongToString(v: int): string {
    if v < 0 then "-" + DecimalString(-v) else DecimalString(v)
  }

  lemma {:induction false} DecimalValueConcat(a: string, b: string)
    requires AllDecimal(a) && AllDecimal(b)
    ensures AllDecimal(a + b)
    ensures DecimalValue(a + b) == DecimalValue(a) * Pow10(|b|) + DecimalValue(b)
  {
    if b == [] {
      assert a + b == a;
    } else {
      var b' := b[..|b| - 1];
      var d := b[|b| - 1] as int - '0' as int;
      assert (a + b)[..|a + b| - 1] == a + b';
      assert (a + b)[|a + b| - 1] == b[|b| - 1];
      DecimalValueConcat(a, b');
      var v' := DecimalValue(a + b');
      assert DecimalValue(a + b) == v' * 10 + d;
      assert DecimalValue(b) == DecimalValue(b') * 10 + d;
      assert Pow10(|b|) == Pow10(|b'|) * 10;
      Extend(DecimalValue(a), Pow10(|b'|), DecimalValue(b'), v', d, 10);
    }
  }

  /** `StringUtils.leftPad(s, size, pad)` with a one-character pad. */
  function LeftPad(s: string, size: int, pad: char): (r: string)
    ensures |s| >= size ==> r == s
    ensures |s| < size ==> |r| == size && r[size - |s|..] == s
    ensures forall i :: 0 <= i < |r| - |s| ==> r[i] == pad
  {
    if |s| >= size then s else seq(size - |s|, _ => pad) + s
  }

  /** Padding a number's digits with leading zeros does not change the number they spell. */
  lemma LeftPadZerosValue(s: string, size: int)
    requires AllDecimal(s)
    ensures AllDecimal(LeftPad(s, size, '0'))
    ensures DecimalValue(LeftPad(s, size, '0')) == DecimalValue(s)
  {
    if |s| < size {
      var z := seq(size - |s|, _ => '0');
      ZerosValue(z);
      DecimalValueConcat(z, s);
      assert LeftPad(s, size, '0') == z + s;
    }
  }

  lemma {:induction false} ZerosValue(z: string)
    requires forall i :: 0 <= i < |z| ==> z[i] == '0'
    ensures AllDecimal(z) && DecimalValue(z) == 0
  {
    if z != [] {
      ZerosValue(z[..|z| - 1]);
    }
  }
}
