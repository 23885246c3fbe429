/**
 * The two conversions of java.lang.Integer that the leaderboard relies on:
 * Integer.toString(int) and Integer.parseInt(String), together with the
 * range of Java's 32-bit int.
 */
module Integers {
  import opened Wrappers

  const MinValue: int := -0x8000_0000
  const MaxValue: int := 0x7fff_ffff

  /** Java's int: two's-complement, 32 bits. */
  type Int32 = x: int | MinValue <= x <= MaxValue

  predicate IsDigit(c: char) {
    '0' <= c <= '9'
  }

  function DigitValue(c: char): (d: nat)
    requires IsDigit(c)
    ensures d < 10
  {
    (c as int) - ('0' as int)
  }

  function DigitChar(d: nat): (c: char)
    requires d < 10
    ensures IsDigit(c) && DigitValue(c) == d
  {
    (('0' as int) + d) as char
  }

  predicate AllDigits(s: string) {
    forall i :: 0 <= i < |s| ==> IsDigit(s[i])
  }

  /** The value of a string of decimal digits, most significant digit first. */
  function DigitsValue(s: string): (v: nat)
    requires AllDigits(s)
  {
    if s == [] then 0 else 10 * DigitsValue(s[..|s| - 1]) + DigitValue(s[|s| - 1])
  }

  /** A non-empty digit string with no leading zero (except "0" itself). */
  predicate IsCanonicalDigits(s: string) {
    |s| >= 1 && AllDigits(s) && (s[0] == '0' ==> |s| == 1)
  }

  /** The form Integer.toString produces: canonical digits, optionally after a '-' (never "-0"). */
  predicate IsCanonical(s: string) {
    IsCanonicalDigits(s) || (|s| >= 2 && s[0] == '-' && IsCanonicalDigits(s[1..]) && s[1..] != "0")
  }

  /** The decimal digits of n, without leading zeros. */
  function NatToString(n: nat): (s: string)
    ensures IsCanonicalDigits(s)
    ensures s[0] == '0' <==> n == 0
  {
    if n < 10 then [DigitChar(n)] else NatToString(n / 10) + [DigitChar(n % 10)]
  }

  /** Integer.toString(int): a '-' for negative values, then the digits of the magnitude. */
  function ToString(n: int): (s: string)
    ensures IsCanonical(s)
    ensures s[0] == '-' <==> n < 0
  {
    if n < 0 then "-" + NatToString(-n) else NatToString(n)
  }

  /** The value of `digits` with the sign applied, if it is a valid digit string and fits in an int. */
  function SignedValue(digits: string, negative: bool): (r: Option<Int32>)
    ensures r.Some? ==> |digits| >= 1 && AllDigits(digits)
    ensures r.Some? && r.value < 0 ==> negative
  {
    if |digits| == 0 || !AllDigits(digits) then None
    else
      var v: int := if negative then -(DigitsValue(digits) as int) else DigitsValue(digits);
      if MinValue <= v <= MaxValue then Some(v) else None
  }

  /**
   * Integer.parseInt(String) in radix 10: an optional leading '-' or '+',
   * then at least one ASCII digit, and a value within the int range;
   * None stands for the NumberFormatException thrown otherwise.
   */
  function ParseInt(s: string): (r: Option<Int32>)
    ensures r.Some? ==> |s| >= 1 && (r.value < 0 ==> s[0] == '-')
  {
    if |s| == 0 then None
    else if s[0] == '-' then SignedValue(s[1..], true)
    else if s[0] == '+' then SignedValue(s[1..], false)
    else SignedValue(s, false)
  }

  lemma DigitsValueAppend(s: string, c: char)
    requires AllDigits(s) && IsDigit(c)
    ensures AllDigits(s + [c])
    ensures DigitsValue(s + [c]) == 10 * DigitsValue(s) + DigitValue(c)
  {
    assert (s + [c])[..|s|] == s;
  }

  /** The digits NatToString writes denote n. */
  lemma {:induction false} NatToStringValue(n: nat)
    ensures DigitsValue(NatToString(n)) == n
  {
    if n < 10 {
      assert NatToString(n)[..0] == [];
    } else {
      NatToStringValue(n / 10);
      DigitsValueAppend(NatToString(n / 10), DigitChar(n % 10));
    }
  }

  /** A digit string that does not start with '0' denotes a positive number. */
  lemma {:induction false} LeadingDigitPositive(s: string)
    requires |s| >= 1 && AllDigits(s) && s[0] != '0'
    ensures DigitsValue(s) >= 1
  {
    if |s| > 1 {
      LeadingDigitPositive(s[..|s| - 1]);
    }
  }

  /** Canonical digits are exactly what NatToString writes for their value. */
  lemma {:induction false} CanonicalDigitsRoundTrip(d: string)
    requires IsCanonicalDigits(d)
    ensures NatToString(DigitsValue(d)) == d
  {
    if |d| == 1 {
      assert d[..0] == [];
      assert DigitChar(DigitValue(d[0])) == d[0];
    } else {
      var prefix, c := d[..|d| - 1], d[|d| - 1];
      assert d == prefix + [c];
      LeadingDigitPositive(prefix);
      CanonicalDigitsRoundTrip(prefix);
      var n := DigitsValue(d);
      assert n / 10 == DigitsValue(prefix) && n % 10 == DigitValue(c);
      assert DigitChar(DigitValue(c)) == c;
    }
  }

  /** parseInt(toString(n)) == n for every int. */
  lemma ParseToString(n: Int32)
    ensures ParseInt(ToString(n)) == Some(n)
  {
    var m: nat := if n < 0 then -(n as int) else n;
    var digits := NatToString(m);
    NatToStringValue(m);
    if n < 0 {
      assert ToString(n)[1..] == digits;
    } else {
      assert IsDigit(digits[0]);
    }
  }

  /** A value outside the int range is rejected by parseInt even in canonical form. */
  lemma ParseRejectsOutOfRange(n: int)
    requires n < MinValue || n > MaxValue
    ensures ParseInt(ToString(n)) == None
  {
    var m: nat := if n < 0 then -(n as int) else n;
    NatToStringValue(m);
    if n < 0 {
      assert ToString(n)[1..] == NatToString(m);
    }
  }

  /** toString(parseInt(s)) == s for every canonical string parseInt accepts. */
  lemma ToStringParse(s: string)
    requires IsCanonical(s) && ParseInt(s).Some?
    ensures ToString(ParseInt(s).value) == s
  {
    if s[0] == '-' {
      var digits := s[1..];
      LeadingDigitPositive(digits);
      CanonicalDigitsRoundTrip(digits);
      assert s == "-" + digits;
    } else {
      CanonicalDigitsRoundTrip(s);
    }
  }

  /** toString and parseInt are inverse bijections between ints and canonical strings. */
  lemma ToStringIff(n: Int32, s: string)
    ensures ToString(n) == s <==> IsCanonical(s) && ParseInt(s) == Some(n)
  {
    ParseToString(n);
    if IsCanonical(s) && ParseInt(s) == Some(n) {
      ToStringParse(s);
    }
  }
}
