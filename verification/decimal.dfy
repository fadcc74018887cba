/** Fixed-point decimal text with exactly two fraction digits, as produced by
    Java's `String.format("%.2f", x)` in the root locale, and its inverse. */
module Decimal {
  import opened Wrappers

  predicate IsDigit(c: char) {
    '0' <= c <= '9'
  }

  predicate AllDigits(s: string) {
    forall i :: 0 <= i < |s| ==> IsDigit(s[i])
  }

  function DigitValue(c: char): (d: nat)
    requires IsDigit(c)
    ensures d < 10
  {
    c as int - '0' as int
  }

  function DigitChar(d: nat): (c: char)
    requires d < 10
    ensures IsDigit(c) && DigitValue(c) == d
  {
    (d + '0' as int) as char
  }

  /** Decimal digits of `n`, most significant first, without leading zeros. */
  function NatToString(n: nat): (s: string)
    ensures 0 < |s| && AllDigits(s)
    decreases n
  {
    if n < 10 then [DigitChar(n)] else NatToString(n / 10) + [DigitChar(n % 10)]
  }

  /** The value of a string of decimal digits (0 for the empty string). */
  function StringToNat(s: string): nat
    requires AllDigits(s)
    decreases |s|
  {
    if |s| == 0 then 0 else 10 * StringToNat(s[..|s| - 1]) + DigitValue(s[|s| - 1])
  }

  lemma {:induction false} StringToNatOfNatToString(n: nat)
    ensures StringToNat(NatToString(n)) == n
    decreases n
  {
    if n >= 10 {
      var s := NatToString(n / 10);
      var t := NatToString(n);
      assert t == s + [DigitChar(n % 10)];
      assert t[..|t| - 1] == s;
      StringToNatOfNatToString(n / 10);
    }
  }

  /** Rounds `x` to a whole number of hundredths, ties away from zero
      (Java's `RoundingMode.HALF_UP`, which `%.2f` uses). */
  function Hundredths(x: real): (h: int)
    ensures (h as real) - 0.5 <= x * 100.0 <= (h as real) + 0.5
    ensures x >= 0.0 ==> h >= 0
    ensures x < 0.0 ==> h <= 0
    ensures x >= 0.0 ==> x * 100.0 < (h as real) + 0.5
    ensures x < 0.0 ==> (h as real) - 0.5 < x * 100.0
  {
    if x >= 0.0 then (x * 100.0 + 0.5).Floor else -((-x) * 100.0 + 0.5).Floor
  }

  /** `String.format("%.2f", x)`: a minus sign for negative `x`, the integer
      part, a point and exactly two fraction digits. */
  function FormatFixed2(x: real): (s: string)
    ensures 4 <= |s|
    ensures forall i :: 0 <= i < |s| ==> IsDigit(s[i]) || s[i] == '.' || s[i] == '-'
    ensures (0 < |s| && s[0] == '-') <==> x < 0.0
  {
    var h := Hundredths(x);
    var m: nat := if h < 0 then -h else h;
    (if x < 0.0 then "-" else "") + UnsignedFixed2(m)
  }

  /** The text of `m` hundredths: integer part, point, two fraction digits. */
  function UnsignedFixed2(m: nat): (s: string)
    ensures 4 <= |s| && IsDigit(s[0])
    ensures forall i :: 0 <= i < |s| ==> IsDigit(s[i]) || s[i] == '.'
  {
    NatToString(m / 100) + "." + [DigitChar(m % 100 / 10), DigitChar(m % 10)]
  }

  /** Reads back a text of the shape `FormatFixed2` produces, as a signed
      count of hundredths; `None` for any other text. */
  function ParseFixed2(s: string): (r: Option<int>)
  {
    if 0 < |s| && s[0] == '-' then
      match ParseUnsignedFixed2(s[1..])
      case Some(m) => Some(-(m as int))
      case None => None
    else
      ParseUnsignedFixed2(s)
  }

  function ParseUnsignedFixed2(s: string): (r: Option<nat>)
    ensures r.Some? ==> 4 <= |s| && s[|s| - 3] == '.'
  {
    if 4 <= |s| && s[|s| - 3] == '.' && AllDigits(s[..|s| - 3])
       && IsDigit(s[|s| - 2]) && IsDigit(s[|s| - 1])
    then Some(100 * StringToNat(s[..|s| - 3]) + 10 * DigitValue(s[|s| - 2]) + DigitValue(s[|s| - 1]))
    else None
  }

  lemma UnsignedRoundTrip(m: nat)
    ensures ParseUnsignedFixed2(UnsignedFixed2(m)) == Some(m)
  {
    var n := NatToString(m / 100);
    var s := UnsignedFixed2(m);
    assert s == n + ['.', DigitChar(m % 100 / 10), DigitChar(m % 10)];
    assert s[..|s| - 3] == n;
    StringToNatOfNatToString(m / 100);
  }

  /** Parsing the two-decimal rendering of `x` recovers `x` rounded to the
      nearest hundredth. */
  lemma FormatRoundTrip(x: real)
    ensures ParseFixed2(FormatFixed2(x)) == Some(Hundredths(x))
  {
    var h := Hundredths(x);
    var m: nat := if h < 0 then -h else h;
    var u := UnsignedFixed2(m);
    UnsignedRoundTrip(m);
    if x < 0.0 {
      assert FormatFixed2(x) == "-" + u;
      assert ("-" + u)[1..] == u;
    } else {
      assert FormatFixed2(x) == u;
    }
  }
}
