/**
 * Exact decimal-string to base-unit scaling: `toWei(amount)` of web3-utils
 * (ether unit, 18 decimals) and `parseUnits(amount, decimals)` of ethers,
 * which differ only in that ethers drops trailing fractional zeros first.
 * A decimal string is an optional `-`, then digits with at most one `.`;
 * the whole part or the fraction may be empty, but not both.
 */
module Units {
  import opened Wrappers
  import opened Decimal

  datatype AmountError =
    | InvalidAmount   // not a decimal string
    | PrecisionLoss   // more fractional digits than the unit has decimals

  /** The number of decimals of the ether unit, the ledger's base-unit exponent. */
  const EtherDecimals: nat := 18

  predicate IsNegative(s: string) { s != [] && s[0] == '-' }

  function Unsigned(s: string): string
  {
    if IsNegative(s) then s[1..] else s
  }

  /** Index of the first `.` in `b`, or `|b|` when there is none. */
  function DotIndex(b: string): (i: nat)
    ensures i <= |b|
    ensures i < |b| ==> b[i] == '.'
    ensures forall j :: 0 <= j < i ==> b[j] != '.'
  {
    if b == [] || b[0] == '.' then 0 else 1 + DotIndex(b[1..])
  }

  predicate IsDecimalBody(b: string)
  {
    && b != [] && b != "."
    && (forall i :: 0 <= i < |b| ==> IsDigit(b[i]) || b[i] == '.')
    && (forall i, j :: 0 <= i < j < |b| && b[i] == '.' ==> b[j] != '.')
  }

  predicate IsDecimal(s: string) { IsDecimalBody(Unsigned(s)) }

  /** The number of `.` characters in `b`. */
  function DotCount(b: string): nat
  {
    if b == [] then 0 else (if b[0] == '.' then 1 else 0) + DotCount(b[1..])
  }

  /**
   * The checks both libraries make before scaling: the string matches
   * `^-?[0-9.]+$`, the part after the sign is not a lone `.`, and splitting
   * that part at `.` gives at most two pieces.
   */
  predicate PassesLibraryChecks(s: string)
  {
    var b := if s != [] && s[0] == '-' then s[1..] else s;
    && b != []
    && DigitsAndDots(b)
    && b != "."
    && DotCount(b) <= 1
  }

  /** Every character is a digit or `.`: the character class `[0-9.]`. */
  predicate DigitsAndDots(b: string)
  {
    forall i :: 0 <= i < |b| ==> IsDigit(b[i]) || b[i] == '.'
  }

  /** `IsDecimal` is exactly what the libraries accept. */
  lemma IsDecimalIsLibraryCheck(s: string)
    ensures IsDecimal(s) <==> PassesLibraryChecks(s)
  {
    var b := Unsigned(s);
    assert b == if s != [] && s[0] == '-' then s[1..] else s;
    DotCountAtMostOne(b);
  }

  lemma {:induction false} DotCountAtMostOne(b: string)
    ensures (forall i, j :: 0 <= i < j < |b| && b[i] == '.' ==> b[j] != '.') <==> DotCount(b) <= 1
  {
    if b != [] {
      var t := b[1..];
      DotCountAtMostOne(t);
      assert forall j :: 0 <= j < |t| ==> t[j] == b[j + 1];
      if b[0] == '.' {
        DotCountZero(t);
        if DotCount(b) <= 1 {
          forall i, j | 0 <= i < j < |b| && b[i] == '.' ensures b[j] != '.' {
            assert t[j - 1] == b[j];
          }
        }
        if forall i, j :: 0 <= i < j < |b| && b[i] == '.' ==> b[j] != '.' {
          forall j | 0 <= j < |t| ensures t[j] != '.' {
            assert b[0] == '.' && b[j + 1] == t[j];
          }
        }
      } else {
        if DotCount(b) <= 1 {
          forall i, j | 0 <= i < j < |b| && b[i] == '.' ensures b[j] != '.' {
            assert t[i - 1] == b[i] && t[j - 1] == b[j];
          }
        }
      }
    }
  }

  lemma {:induction false} DotCountZero(t: string)
    ensures DotCount(t) == 0 <==> forall j :: 0 <= j < |t| ==> t[j] != '.'
  {
    if t != [] {
      DotCountZero(t[1..]);
      assert forall j :: 1 <= j < |t| ==> t[1..][j - 1] == t[j];
    }
  }

  function WholePart(s: string): string
  {
    var b := Unsigned(s);
    b[..DotIndex(b)]
  }

  function FractionPart(s: string): string
  {
    var b := Unsigned(s);
    var i := DotIndex(b);
    if i < |b| then b[i + 1..] else []
  }

  lemma PartsAreDigits(s: string)
    requires IsDecimal(s)
    ensures IsDigits(WholePart(s)) && IsDigits(FractionPart(s))
  {
    var b := Unsigned(s);
    var i := DotIndex(b);
    if i < |b| {
      forall j | 0 <= j < |FractionPart(s)| ensures IsDigit(FractionPart(s)[j]) {
        assert FractionPart(s)[j] == b[i + 1 + j];
      }
    }
  }

  /** The digits of a decimal string with its sign and its dot removed. */
  function DigitsOf(s: string): (d: string)
    requires IsDecimal(s)
    ensures IsDigits(d)
  {
    PartsAreDigits(s);
    DigitsValueConcat(WholePart(s), FractionPart(s));
    WholePart(s) + FractionPart(s)
  }

  function SignedBy(negative: bool, magnitude: nat): int
  {
    var m: int := magnitude;
    if negative then -m else m
  }

  function Zeros(n: nat): (z: string)
    ensures |z| == n && IsDigits(z)
  {
    if n == 0 then [] else Zeros(n - 1) + ['0']
  }

  lemma {:induction false} AppendZerosValue(s: string, n: nat)
    requires IsDigits(s)
    ensures IsDigits(s + Zeros(n)) && DigitsValue(s + Zeros(n)) == Shift(DigitsValue(s), n)
  {
    if n > 0 {
      AppendZerosValue(s, n - 1);
      assert s + Zeros(n) == (s + Zeros(n - 1)) + ['0'];
      DigitsValueSnoc(s + Zeros(n - 1), '0');
    } else {
      assert s + Zeros(0) == s;
    }
  }

  /**
   * The magnitude in base units as the libraries compute it: the whole part
   * times 10^decimals plus the fraction right-padded with zeros to
   * `decimals` digits.
   */
  function ScaledMagnitude(whole: string, frac: string, decimals: nat): nat
    requires IsDigits(whole) && IsDigits(frac) && |frac| <= decimals
  {
    AppendZerosValue(frac, decimals - |frac|);
    Shift(DigitsValue(whole), decimals) + DigitsValue(frac + Zeros(decimals - |frac|))
  }

  /**
   * The amount in base units, negated for a leading `-`. Fails on a
   * malformed string and on a fraction longer than `decimals` digits.
   */
  function ScaleDecimal(s: string, decimals: nat): (r: Result<int, AmountError>)
    ensures !IsDecimal(s) ==> r == Failure(InvalidAmount)
    ensures IsDecimal(s) ==> (r.Success? <==> |FractionPart(s)| <= decimals)
    ensures IsDecimal(s) && !r.Success? ==> r == Failure(PrecisionLoss)
  {
    if !IsDecimal(s) then Failure(InvalidAmount)
    else
      PartsAreDigits(s);
      var whole, frac := WholePart(s), FractionPart(s);
      if |frac| > decimals then Failure(PrecisionLoss)
      else Success(SignedBy(IsNegative(s), ScaledMagnitude(whole, frac, decimals)))
  }

  /** The padded fraction added to the shifted whole part is the digits, dot removed, shifted by the unused decimals. */
  lemma ScaledMagnitudeIsShift(whole: string, frac: string, decimals: nat)
    requires IsDigits(whole) && IsDigits(frac) && |frac| <= decimals
    ensures IsDigits(whole + frac)
    ensures ScaledMagnitude(whole, frac, decimals) == Shift(DigitsValue(whole + frac), decimals - |frac|)
  {
    var k := |frac|;
    var w, f := DigitsValue(whole), DigitsValue(frac);
    AppendZerosValue(frac, decimals - k);
    DigitsValueConcat(whole, frac);
    ShiftSum(Shift(w, k), f, decimals - k);
    ShiftAdd(w, k, decimals - k);
  }

  /**
   * A successful scaling is exact: the result is the decimal's digits, dot
   * removed, shifted left by the decimals the fraction did not use; that is,
   * the amount times 10^decimals, with its sign.
   */
  lemma ScaleDecimalIsExact(s: string, decimals: nat)
    requires ScaleDecimal(s, decimals).Success?
    ensures |FractionPart(s)| <= decimals
    ensures ScaleDecimal(s, decimals).value
         == SignedBy(IsNegative(s), Shift(DigitsValue(DigitsOf(s)), decimals - |FractionPart(s)|))
  {
    PartsAreDigits(s);
    ScaledMagnitudeIsShift(WholePart(s), FractionPart(s), decimals);
  }

  /** `toWei(amount)` of web3-utils with the default ether unit. */
  function ToWei(amount: string): (r: Result<int, AmountError>)
    ensures !IsDecimal(amount) ==> r == Failure(InvalidAmount)
    ensures IsDecimal(amount) ==> (r.Success? <==> |FractionPart(amount)| <= EtherDecimals)
    ensures IsDecimal(amount) && r.Failure? ==> r == Failure(PrecisionLoss)
  {
    ScaleDecimal(amount, EtherDecimals)
  }

  lemma ZerosAdd(a: nat, b: nat)
    ensures Zeros(a) + Zeros(b) == Zeros(a + b)
  {
    if b > 0 {
      ZerosAdd(a, b - 1);
      assert Zeros(a) + Zeros(b) == (Zeros(a) + Zeros(b - 1)) + ['0'];
    }
  }

  /** `f` without its trailing zeros. */
  function TrimTrailingZeros(f: string): (t: string)
    ensures |t| <= |f| && t == f[..|t|]
    ensures IsDigits(f) ==> IsDigits(t)
  {
    if f != [] && f[|f| - 1] == '0' then
      var init := f[..|f| - 1];
      var t := TrimTrailingZeros(init);
      assert t == f[..|t|];
      assert forall i :: 0 <= i < |t| ==> t[i] == f[i];
      t
    else f
  }

  /** Trimming leaves no trailing zero. */
  lemma {:induction false} TrimmedEndsInNonZero(f: string)
    ensures TrimTrailingZeros(f) == [] || TrimTrailingZeros(f)[|TrimTrailingZeros(f)| - 1] != '0'
  {
    if f != [] && f[|f| - 1] == '0' {
      TrimmedEndsInNonZero(f[..|f| - 1]);
    }
  }

  /** What trimming drops is zeros only. */
  lemma {:induction false} TrimmedZeros(f: string)
    ensures f == TrimTrailingZeros(f) + Zeros(|f| - |TrimTrailingZeros(f)|)
  {
    var t := TrimTrailingZeros(f);
    if f != [] && f[|f| - 1] == '0' {
      var init := f[..|f| - 1];
      TrimmedZeros(init);
      assert f == init + ['0'];
      SnocZero(t, |init| - |t|);
    } else {
      assert f + Zeros(0) == f;
    }
  }

  lemma SnocZero(t: string, k: nat)
    ensures (t + Zeros(k)) + ['0'] == t + Zeros(k + 1)
  {
    assert Zeros(k + 1) == Zeros(k) + ['0'];
  }

  /** The fraction of `s` as ethers checks it: its trailing zeros dropped. */
  function SignificantFraction(s: string): string
  {
    TrimTrailingZeros(FractionPart(s))
  }

  /**
   * `parseUnits(amount, decimals)` of ethers: the scaling of `ScaleDecimal`,
   * except that trailing zeros of the fraction are dropped before its length
   * is checked against `decimals`.
   */
  function ParseUnits(amount: string, decimals: nat): (r: Result<int, AmountError>)
  {
    if !IsDecimal(amount) then Failure(InvalidAmount)
    else
      PartsAreDigits(amount);
      var frac := SignificantFraction(amount);
      if |frac| > decimals then Failure(PrecisionLoss)
      else Success(SignedBy(IsNegative(amount), ScaledMagnitude(WholePart(amount), frac, decimals)))
  }

  /** `parseUnits` rejects a malformed string, and a fraction with more significant digits than `decimals`. */
  lemma ParseUnitsErrors(amount: string, decimals: nat)
    ensures !IsDecimal(amount) ==> ParseUnits(amount, decimals) == Failure(InvalidAmount)
    ensures IsDecimal(amount) ==> (ParseUnits(amount, decimals).Success? <==> |SignificantFraction(amount)| <= decimals)
    ensures IsDecimal(amount) && !ParseUnits(amount, decimals).Success? ==> ParseUnits(amount, decimals) == Failure(PrecisionLoss)
  {
  }

  /** `parseUnits` is exact: the digits with the significant fraction, shifted by the decimals it leaves unused. */
  lemma ParseUnitsIsExact(s: string, decimals: nat)
    requires ParseUnits(s, decimals).Success?
    ensures IsDecimal(s) && |SignificantFraction(s)| <= decimals
    ensures IsDigits(WholePart(s) + SignificantFraction(s))
    ensures ParseUnits(s, decimals).value
         == SignedBy(IsNegative(s), Shift(DigitsValue(WholePart(s) + SignificantFraction(s)),
                                          decimals - |SignificantFraction(s)|))
  {
    var whole, frac := ParseUnitsParts(s, decimals);
    ScaledMagnitudeIsShift(whole, frac, decimals);
    assert ParseUnits(s, decimals).value == SignedBy(IsNegative(s), Shift(DigitsValue(whole + frac), decimals - |frac|));
  }

  /** The parts a successful `parseUnits` combines. */
  lemma ParseUnitsParts(s: string, decimals: nat) returns (whole: string, frac: string)
    requires ParseUnits(s, decimals).Success?
    ensures whole == WholePart(s) && frac == SignificantFraction(s)
    ensures IsDecimal(s) && IsDigits(whole) && IsDigits(frac) && |frac| <= decimals
    ensures ParseUnits(s, decimals).value == SignedBy(IsNegative(s), ScaledMagnitude(whole, frac, decimals))
  {
    PartsAreDigits(s);
    whole, frac := WholePart(s), SignificantFraction(s);
  }

  /** Wherever the untrimmed scaling succeeds, `parseUnits` gives the same value. */
  lemma ParseUnitsExtendsScale(s: string, decimals: nat)
    requires ScaleDecimal(s, decimals).Success?
    ensures ParseUnits(s, decimals) == ScaleDecimal(s, decimals)
  {
    var whole, frac := ScaleDecimalParts(s, decimals);
    TrimmedScaledMagnitude(whole, frac, decimals);
    assert ParseUnits(s, decimals).Success?;
    var whole', t := ParseUnitsParts(s, decimals);
  }

  /** Trailing zeros of the fraction do not change the scaled magnitude. */
  lemma TrimmedScaledMagnitude(whole: string, frac: string, decimals: nat)
    requires IsDigits(whole) && IsDigits(frac) && |frac| <= decimals
    ensures ScaledMagnitude(whole, TrimTrailingZeros(frac), decimals) == ScaledMagnitude(whole, frac, decimals)
  {
    PaddedTrim(frac, decimals);
  }

  /** Padding the trimmed fraction to `decimals` digits restores the padded fraction. */
  lemma PaddedTrim(frac: string, decimals: nat)
    requires |frac| <= decimals
    ensures frac + Zeros(decimals - |frac|) == TrimTrailingZeros(frac) + Zeros(decimals - |TrimTrailingZeros(frac)|)
  {
    var t := TrimTrailingZeros(frac);
    TrimmedZeros(frac);
    PadConcat(t, |frac| - |t|, decimals - |frac|);
  }

  lemma PadConcat(t: string, k: nat, m: nat)
    ensures (t + Zeros(k)) + Zeros(m) == t + Zeros(k + m)
  {
    ZerosAdd(k, m);
    assert (t + Zeros(k)) + Zeros(m) == t + (Zeros(k) + Zeros(m));
  }

  /** The parts a successful `ScaleDecimal` combines. */
  lemma ScaleDecimalParts(s: string, decimals: nat) returns (whole: string, frac: string)
    requires ScaleDecimal(s, decimals).Success?
    ensures whole == WholePart(s) && frac == FractionPart(s)
    ensures IsDecimal(s) && IsDigits(whole) && IsDigits(frac) && |frac| <= decimals
    ensures ScaleDecimal(s, decimals).value == SignedBy(IsNegative(s), ScaledMagnitude(whole, frac, decimals))
  {
    PartsAreDigits(s);
    whole, frac := WholePart(s), FractionPart(s);
  }

  /**
   * `toWei` and `parseUnits(·, 18)` agree wherever `toWei` succeeds, and
   * `toWei` fails where `parseUnits` succeeds only because of trailing zeros
   * beyond the 18th fractional digit.
   */
  lemma ToWeiAgreesWithParseUnits(amount: string)
    ensures ToWei(amount).Success? ==> ToWei(amount) == ParseUnits(amount, EtherDecimals)
    ensures ParseUnits(amount, EtherDecimals).Success? ==>
              (ToWei(amount).Success? <==> |FractionPart(amount)| <= EtherDecimals)
  {
    if ToWei(amount).Success? {
      ParseUnitsExtendsScale(amount, EtherDecimals);
    }
  }

  lemma DotIndexAt(whole: string, frac: string)
    requires IsDigits(whole)
    ensures DotIndex(whole + "." + frac) == |whole|
  {
    var b := whole + "." + frac;
    assert b[|whole|] == '.';
    assert forall j :: 0 <= j < |whole| ==> b[j] == whole[j];
  }

  lemma RenderedParts(negative: bool, w: string, f: string)
    requires IsCanonical(w) && IsDigits(f)
    ensures var s := (if negative then "-" else "") + w + "." + f;
            IsDecimal(s) && IsNegative(s) == negative && WholePart(s) == w && FractionPart(s) == f
  {
    var b := w + "." + f;
    var s := (if negative then "-" else "") + w + "." + f;
    assert Unsigned(s) == b by {
      if negative { assert s == "-" + b; } else { assert s == b && b[0] == w[0]; }
    }
    DotIndexAt(w, f);
    assert IsDecimalBody(b) by {
      forall i | 0 <= i < |b| ensures IsDigit(b[i]) || b[i] == '.' {
        if i > |w| { assert b[i] == f[i - |w| - 1]; }
      }
      forall i, j | 0 <= i < j < |b| && b[i] == '.' ensures b[j] != '.' {
        assert b[j] == f[j - |w| - 1];
      }
    }
  }

  /**
   * Where the two libraries part: a whole number followed by `k` fractional
   * zeros always passes `parseUnits`, but the untrimmed scaling of `toWei`
   * rejects it once `k` exceeds the decimals.
   */
  lemma TrailingZerosDivide(n: nat, k: nat, decimals: nat)
    ensures ParseUnits(DecimalString(n) + "." + Zeros(k), decimals) == Success(Shift(n, decimals))
    ensures ScaleDecimal(DecimalString(n) + "." + Zeros(k), decimals).Success? <==> k <= decimals
  {
    var w := DecimalString(n);
    var s := w + "." + Zeros(k);
    RenderedParts(false, w, Zeros(k));
    assert ("" + w + "." + Zeros(k)) == s;
    TrimAllZeros(k);
    ParseUnitsValue(s, decimals);
    WholeScaled(w, decimals);
  }

  /** An amount with no sign and no dot parses to its value shifted by all the decimals. */
  lemma ParseUnitsOfDigits(w: string, decimals: nat)
    requires IsDigits(w) && w != []
    ensures ParseUnits(w, decimals) == Success(Shift(DigitsValue(w), decimals))
  {
    assert Unsigned(w) == w by { assert IsDigit(w[0]); }
    assert DotIndex(w) == |w| by {
      assert forall i :: 0 <= i < |w| ==> w[i] != '.';
    }
    assert WholePart(w) == w && FractionPart(w) == [];
    assert IsDecimal(w) by { assert IsDigit(w[0]); }
    assert SignificantFraction(w) == [];
    ParseUnitsValue(w, decimals);
    WholeScaled(w, decimals);
  }

  /** A `parseUnits` whose fraction fits computes the scaled magnitude of its parts. */
  lemma ParseUnitsValue(s: string, decimals: nat)
    requires IsDecimal(s) && |SignificantFraction(s)| <= decimals
    ensures IsDigits(WholePart(s)) && IsDigits(SignificantFraction(s))
    ensures ParseUnits(s, decimals)
         == Success(SignedBy(IsNegative(s), ScaledMagnitude(WholePart(s), SignificantFraction(s), decimals)))
  {
    PartsAreDigits(s);
  }

  /** With no fraction, the scaled magnitude is the whole part shifted by all the decimals. */
  lemma WholeScaled(w: string, decimals: nat)
    requires IsDigits(w)
    ensures ScaledMagnitude(w, [], decimals) == Shift(DigitsValue(w), decimals)
  {
    assert [] + Zeros(decimals) == Zeros(decimals);
    ZerosValue(decimals);
  }

  lemma {:induction false} ZerosValue(n: nat)
    ensures DigitsValue(Zeros(n)) == 0
  {
    if n > 0 {
      ZerosValue(n - 1);
      DigitsValueSnoc(Zeros(n - 1), '0');
    }
  }

  lemma {:induction false} TrimAllZeros(k: nat)
    ensures TrimTrailingZeros(Zeros(k)) == []
  {
    if k > 0 {
      var z := Zeros(k);
      assert z == Zeros(k - 1) + ['0'];
      assert z[..k - 1] == Zeros(k - 1);
      assert z[k - 1] == '0';
      TrimAllZeros(k - 1);
    }
  }

  /** An amount with no dot scales to that integer times 10^decimals. */
  lemma ScaleInteger(n: nat, decimals: nat)
    ensures ScaleDecimal(DecimalString(n), decimals) == Success(n * Pow10(decimals))
  {
    var s := DecimalString(n);
    assert Unsigned(s) == s;
    assert DotIndex(s) == |s|;
    assert WholePart(s) == s && FractionPart(s) == [];
    assert DigitsOf(s) == s;
    ScaleDecimalIsExact(s, decimals);
    ShiftIsScaling(n, decimals);
  }
}
