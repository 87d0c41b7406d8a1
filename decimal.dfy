/**
 * Decimal digit strings: the value of a digit string, JavaScript's
 * conversion of a non-negative integer to a property key (`String(n)`),
 * and `parseInt` on such a key.
 */
module Decimal {
  import opened Wrappers

  function Pow10(n: nat): (p: nat)
    ensures p >= 1
  {
    if n == 0 then 1 else 10 * Pow10(n - 1)
  }

  /** `x * 10^places`, written with multiplications by the constant ten only. */
  function Shift(x: nat, places: nat): (r: nat)
    ensures x <= r
  {
    if places == 0 then x else 10 * Shift(x, places - 1)
  }

  lemma {:induction false} ShiftIsScaling(x: nat, places: nat)
    ensures Shift(x, places) == x * Pow10(places)
  {
    if places > 0 {
      ShiftIsScaling(x, places - 1);
      MulTen(x, Pow10(places - 1));
    }
  }

  lemma MulTen(x: nat, p: nat)
    ensures 10 * (x * p) == x * (10 * p)
  {
  }

  lemma {:induction false} ShiftAdd(x: nat, a: nat, b: nat)
    ensures Shift(Shift(x, a), b) == Shift(x, a + b)
  {
    if b > 0 {
      ShiftAdd(x, a, b - 1);
    }
  }

  lemma {:induction false} ShiftSum(x: nat, y: nat, places: nat)
    ensures Shift(x + y, places) == Shift(x, places) + Shift(y, places)
  {
    if places > 0 {
      ShiftSum(x, y, places - 1);
    }
  }

  predicate IsDigit(c: char) { '0' <= c <= '9' }

  predicate IsDigits(s: string) { forall i :: 0 <= i < |s| ==> IsDigit(s[i]) }

  function DigitChar(d: nat): (c: char)
    requires d < 10
    ensures IsDigit(c)
  {
    (('0' as int) + d) as char
  }

  function DigitValue(c: char): (d: nat)
    requires IsDigit(c)
    ensures d < 10 && DigitChar(d) == c
  {
    (c as int) - ('0' as int)
  }

  /** The number a string of decimal digits denotes, most significant digit first. */
  function DigitsValue(s: string): (n: nat)
    requires IsDigits(s)
  {
    if s == [] then 0 else DigitsValue(s[..|s| - 1]) * 10 + DigitValue(s[|s| - 1])
  }

  /** A digit string without superfluous leading zeros: the form JavaScript gives an integer. */
  predicate IsCanonical(s: string)
  {
    IsDigits(s) && s != [] && (s[0] == '0' ==> s == "0")
  }

  /** `String(n)` for a non-negative integer (the key a number becomes in an object). */
  function DecimalString(n: nat): (s: string)
    ensures IsCanonical(s)
    ensures DigitsValue(s) == n
  {
    if n < 10 then [DigitChar(n)]
    else
      var s := DecimalString(n / 10) + [DigitChar(n % 10)];
      assert s[..|s| - 1] == DecimalString(n / 10);
      s
  }

  lemma DecimalStringInjective(a: nat, b: nat)
    requires DecimalString(a) == DecimalString(b)
    ensures a == b
  {
  }

  /** The canonical digit string of a value is the only canonical one. */
  lemma {:induction false} CanonicalIsDecimalString(s: string)
    requires IsCanonical(s)
    ensures s == DecimalString(DigitsValue(s))
  {
    if |s| > 1 {
      var init := s[..|s| - 1];
      assert s == init + [s[|s| - 1]];
      CanonicalIsDecimalString(init);
      assert DigitsValue(init) >= 1 by { LeadingDigitBound(init); }
      var n := DigitsValue(s);
      assert n / 10 == DigitsValue(init) && n % 10 == DigitValue(s[|s| - 1]);
    } else {
      assert s == [s[0]];
    }
  }

  /** A digit string whose first digit is not zero is at least one. */
  lemma {:induction false} LeadingDigitBound(s: string)
    requires IsDigits(s) && s != [] && s[0] != '0'
    ensures DigitsValue(s) >= 1
  {
    if |s| > 1 {
      LeadingDigitBound(s[..|s| - 1]);
    }
  }

  lemma DigitsValueSnoc(s: string, c: char)
    requires IsDigits(s) && IsDigit(c)
    ensures IsDigits(s + [c]) && DigitsValue(s + [c]) == DigitsValue(s) * 10 + DigitValue(c)
  {
    var t := s + [c];
    assert t[..|t| - 1] == s;
  }

  /** Appending digits shifts the prefix left by their count. */
  lemma {:induction false} DigitsValueConcat(a: string, b: string)
    requires IsDigits(a) && IsDigits(b)
    ensures IsDigits(a + b) && DigitsValue(a + b) == Shift(DigitsValue(a), |b|) + DigitsValue(b)
  {
    if b == [] {
      assert a + b == a;
    } else {
      var init, last := b[..|b| - 1], b[|b| - 1];
      assert b == init + [last];
      assert a + b == (a + init) + [last];
      DigitsValueConcat(a, init);
      DigitsValueSnoc(a + init, last);
      DigitsValueSnoc(init, last);
    }
  }

  /** The longest prefix of `s` made of decimal digits. */
  function DigitPrefix(s: string): (p: string)
    ensures IsDigits(p) && p <= s
    ensures |p| < |s| ==> !IsDigit(s[|p|])
    ensures IsDigits(s) ==> p == s
  {
    if s == [] || !IsDigit(s[0]) then [] else [s[0]] + DigitPrefix(s[1..])
  }

  /**
   * `parseInt(s)` with radix 10: an optional sign, then the longest run of
   * digits; `None` stands for `NaN` (no digit at all).
   */
  function ParseInt(s: string): (r: Option<int>)
    ensures s == [] ==> r == None
    ensures s != [] && IsDigits(s) ==> r == Some(DigitsValue(s))
  {
    var signed := s != [] && (s[0] == '-' || s[0] == '+');
    var digits := DigitPrefix(if signed then s[1..] else s);
    if digits == [] then None
    else
      var magnitude: int := DigitsValue(digits);
      Some(if s[0] == '-' then -magnitude else magnitude)
  }

  /** `parseInt(String(n)) == n`: a week key converts back to its week. */
  lemma ParseIntDecimalString(n: nat)
    ensures ParseInt(DecimalString(n)) == Some(n)
  {
  }
}
