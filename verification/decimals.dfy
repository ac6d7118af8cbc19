/** The subset of `java.math.BigDecimal` the model needs. A decimal is an
    unscaled integer and a scale: its value is `unscaled * 10^-scale`. Two
    decimals with the same value but different scales are different values,
    exactly as `BigDecimal.equals` distinguishes 1.5 from 1.50. */
module Decimals {
  import opened Results
  import opened Text

  /** The range of a Java `int`, which bounds every scale. */
  const IntMin: int := -0x8000_0000
  const IntMax: int := 0x7FFF_FFFF

  datatype Decimal = Decimal(unscaled: int, scale: int)

  function Abs(x: int): nat {
    if x < 0 then -x else x
  }

  /** `a.compareTo(b) == 0`: the same number, whatever the scales. */
  predicate SameValue(a: Decimal, b: Decimal) {
    if a.scale <= b.scale then a.unscaled * Pow10(b.scale - a.scale) == b.unscaled
    else b.unscaled * Pow10(a.scale - b.scale) == a.unscaled
  }

  // ---------------------------------------------------------------------
  // setScale(newScale, RoundingMode.HALF_UP)
  // ---------------------------------------------------------------------

  /** `q * p` is a nearest multiple of `p` to `u`, and on a tie it is the one
      farther from zero: the HALF_UP rule for dividing `u` by `p`. */
  predicate IsHalfUpQuotient(u: int, p: nat, q: int)
    requires p >= 1
  {
    && 2 * Abs(u - q * p) <= p
    && (2 * Abs(u - q * p) == p ==> Abs(q * p) > Abs(u))
  }

  /** Division of `u` by `p`, rounded HALF_UP. */
  function DivHalfUp(u: int, p: nat): (q: int)
    requires p >= 1
    ensures IsHalfUpQuotient(u, p, q)
  {
    var qa: int := RoundedMagnitude(Abs(u), p);
    if u >= 0 then qa else -qa
  }

  /** The HALF_UP quotient of a magnitude, which also serves its negation. */
  function RoundedMagnitude(a: nat, p: nat): (qa: nat)
    requires p >= 1
    ensures IsHalfUpQuotient(a, p, qa) && IsHalfUpQuotient(-(a as int), p, -(qa as int))
  {
    var m := a / p;
    var rem := a % p;
    DivisionIdentity(a, p);
    var qa := if 2 * rem >= p then m + 1 else m;
    HalfUpMagnitude(a, p, m, rem, qa);
    qa
  }

  lemma DivisionIdentity(a: nat, p: nat)
    requires p >= 1
    ensures a == (a / p) * p + a % p && a % p < p
  {
  }

  lemma HalfUpMagnitude(a: nat, p: nat, m: nat, rem: nat, qa: nat)
    requires p >= 1 && a == m * p + rem && rem < p
    requires qa == if 2 * rem >= p then m + 1 else m
    ensures IsHalfUpQuotient(a, p, qa) && IsHalfUpQuotient(-(a as int), p, -(qa as int))
  {
    var nq: int := -(qa as int);
    assert nq * p == -(qa * p);
    if 2 * rem >= p {
      assert qa * p == m * p + p;
    }
  }

  /** The HALF_UP quotient is unique, so `IsHalfUpQuotient` pins the result
      of `setScale` down completely. */
  lemma HalfUpQuotientUnique(u: int, p: nat, q1: int, q2: int)
    requires p >= 1
    requires IsHalfUpQuotient(u, p, q1) && IsHalfUpQuotient(u, p, q2)
    ensures q1 == q2
  {
    // Two distinct multiples are at least p apart, so both would be exactly
    // half a step from u, on either side: a tie on both sides, which HALF_UP
    // breaks towards only one of them.
    MultipleSign(q1, p);
    MultipleSign(q2, p);
    MultiplesApart(q1, q2, p);
  }

  lemma MultipleSign(q: int, p: nat)
    requires p >= 1
    ensures q >= 0 ==> q * p >= 0
    ensures q <= 0 ==> q * p <= 0
    ensures q > 0 ==> q * p >= p
    ensures q < 0 ==> q * p <= -(p as int)
  {
    if q < 0 {
      var n: nat := -q;
      MulAtLeast(n, p);
      assert q * p == -(n * p);
    } else if q > 0 {
      MulAtLeast(q, p);
    }
  }

  lemma MulAtLeast(n: nat, p: nat)
    requires n >= 1
    ensures n * p >= p
  {
    assert n * p == p + (n - 1) * p;
  }

  lemma MultiplesApart(q1: int, q2: int, p: nat)
    requires p >= 1
    ensures q1 != q2 ==> Abs(q1 * p - q2 * p) >= p
  {
    assert q1 * p - q2 * p == (q1 - q2) * p;
    MultipleSign(q1 - q2, p);
  }

  /** `setScale(newScale, RoundingMode.HALF_UP)`: the result has exactly
      `newScale` decimals; widening the scale keeps the value, narrowing it
      rounds to the nearest representable value with ties away from zero. */
  function SetScaleHalfUp(d: Decimal, newScale: int): (r: Decimal)
    ensures r.scale == newScale
    ensures newScale >= d.scale ==> SameValue(d, r)
    ensures newScale < d.scale ==>
      IsHalfUpQuotient(d.unscaled, Pow10(d.scale - newScale), r.unscaled)
  {
    if newScale >= d.scale then Decimal(d.unscaled * Pow10(newScale - d.scale), newScale)
    else Decimal(DivHalfUp(d.unscaled, Pow10(d.scale - newScale)), newScale)
  }

  // ---------------------------------------------------------------------
  // new BigDecimal(String)
  // ---------------------------------------------------------------------

  /** Splits off one optional leading `-` or `+`. */
  function SplitSign(s: string): (bool, string) {
    if |s| > 0 && (s[0] == '-' || s[0] == '+') then (s[0] == '-', s[1..]) else (false, s)
  }

  /** The first position of an exponent mark `e` or `E`, or -1. */
  function IndexOfExponent(s: string): (r: int)
    ensures -1 <= r < |s|
    ensures r >= 0 ==> s[r] in "eE"
    ensures r == -1 ==> 'e' !in s && 'E' !in s
  {
    var e := IndexOf(s, 'e');
    var upper := IndexOf(s, 'E');
    if e == -1 then upper
    else if upper == -1 then e
    else if e < upper then e else upper
  }

  function StripLeadingZeros(s: string): (r: string)
    ensures |r| <= |s|
    decreases |s|
  {
    if s != [] && s[0] == '0' then StripLeadingZeros(s[1..]) else s
  }

  lemma {:induction false} StripLeadingZerosDigits(s: string)
    requires AllDigits(s)
    ensures AllDigits(StripLeadingZeros(s))
    decreases |s|
  {
    if s != [] && s[0] == '0' {
      StripLeadingZerosDigits(s[1..]);
    }
  }

  /** A magnitude with its sign applied. */
  function SignedValue(negative: bool, v: nat): int {
    if negative then 0 - v else v
  }

  /** The exponent after `e`/`E`: an optional sign and at least one digit, of
      which at most ten may follow the leading zeros ("Too many nonzero
      exponent digits"); the signed value must then fit in an `int`
      ("Exponent overflow"). */
  function ParseExponent(s: string): (r: Result<int>)
    ensures r.Ok? ==> IntMin <= r.value <= IntMax
    ensures r.Err? ==> r.error == NumberFormat
    ensures r.Ok? <==> var (negative, digits) := SplitSign(s);
      && digits != [] && AllDigits(digits)
      && IntMin <= SignedValue(negative, DigitsValue(digits)) <= IntMax
    ensures r.Ok? ==> var (negative, digits) := SplitSign(s);
      r.value == SignedValue(negative, DigitsValue(digits))
  {
    var (negative, digits) := SplitSign(s);
    if digits == [] || !AllDigits(digits) then Err(NumberFormat)
    else if |StripLeadingZeros(digits)| > 10 then
      ExponentTooLong(digits);
      Err(NumberFormat)
    else
      var exp := SignedValue(negative, DigitsValue(digits));
      if exp < IntMin || exp > IntMax then Err(NumberFormat) else Ok(exp)
  }

  /** More than ten digits after the leading zeros is a value no `int`
      holds, so the digit-count check never refuses an `int` exponent. */
  lemma {:induction false} ExponentTooLong(digits: string)
    requires AllDigits(digits) && |StripLeadingZeros(digits)| > 10
    ensures DigitsValue(digits) >= 10_000_000_000
    decreases |digits|
  {
    if digits != [] && digits[0] == '0' {
      ExponentTooLong(digits[1..]);
      DigitsValueAppend([digits[0]], digits[1..]);
      assert [digits[0]] + digits[1..] == digits;
      assert DigitsValue([digits[0]]) == 0 by {
        assert [digits[0]][..0] == [];
      }
    } else {
      DigitsLowerBound(digits);
      assert Pow10(10) == 10_000_000_000;
      Pow10Monotone(10, |digits| - 1);
    }
  }

  /** Digits with a non-zero lead are worth at least `10^(n-1)`. */
  lemma {:induction false} DigitsLowerBound(s: string)
    requires AllDigits(s) && s != [] && s[0] != '0'
    ensures DigitsValue(s) >= Pow10(|s| - 1)
    decreases |s|
  {
    if |s| > 1 {
      DigitsLowerBound(s[..|s| - 1]);
    }
  }

  lemma {:induction false} DigitsBound(s: string)
    requires AllDigits(s)
    ensures DigitsValue(s) < Pow10(|s|)
    decreases |s|
  {
    if s != [] {
      DigitsBound(s[..|s| - 1]);
    }
  }

  lemma {:induction false} Pow10Monotone(j: nat, k: nat)
    requires j <= k
    ensures Pow10(j) <= Pow10(k)
    decreases k
  {
    if j < k {
      Pow10Monotone(j, k - 1);
    }
  }

  /** Digits with at most one decimal point, at least one digit in all:
      yields the value of all the digits and the number after the point. */
  function ParseSignificand(significand: string): (r: Result<(nat, nat)>)
  {
    var dot := IndexOf(significand, '.');
    var intPart := if dot >= 0 then significand[..dot] else significand;
    var fracPart := if dot >= 0 then significand[dot + 1..] else "";
    if !AllDigits(intPart) || !AllDigits(fracPart) || |intPart| + |fracPart| == 0 then
      Err(NumberFormat)
    else
      DigitsValueAppend(intPart, fracPart);
      Ok((DigitsValue(intPart + fracPart), |fracPart|))
  }

  /** The unsigned part of `new BigDecimal(String)`: a significand and an
      optional exponent. The scale is the number of fraction digits minus the
      exponent and must fit in an `int`. */
  function ParseUnsigned(body: string): (r: Result<(nat, int)>)
    ensures r.Ok? ==> IntMin <= r.value.1 <= IntMax
    ensures r.Err? ==> r.error == NumberFormat
  {
    var e := IndexOfExponent(body);
    var significand :- ParseSignificand(if e >= 0 then body[..e] else body);
    var exponent :- if e >= 0 then ParseExponent(body[e + 1..]) else Ok(0);
    var scale := significand.1 - exponent;
    if scale < IntMin || scale > IntMax then Err(NumberFormat)
    else Ok((significand.0, scale))
  }

  /** `new BigDecimal(String)`: one optional sign, then the unsigned part;
      anything else is a `NumberFormatException`. */
  function ParseBigDecimal(s: string): (r: Result<Decimal>)
    ensures r.Ok? ==> IntMin <= r.value.scale <= IntMax
    ensures r.Err? ==> r.error == NumberFormat
  {
    var (negative, body) := SplitSign(s);
    var parsed :- ParseUnsigned(body);
    var magnitude: int := parsed.0;
    Ok(Decimal(if negative then -magnitude else magnitude, parsed.1))
  }

  // ---------------------------------------------------------------------
  // toPlainString, the rendering `new BigDecimal(String)` reads back
  // ---------------------------------------------------------------------

  /** Digits, then a point and more digits only when there is a fraction. */
  function PointNotation(intPart: string, fracPart: string): string {
    if fracPart != [] then intPart + "." + fracPart else intPart
  }

  /** The unsigned part of `toPlainString()` for a non-negative scale: the
      digits of the unscaled value, zero-padded so that at least one digit
      precedes the point. */
  function PlainBody(d: Decimal): (r: string)
    requires d.scale >= 0
    ensures r != [] && IsDigit(r[0])
  {
    var digits := PadNat(Abs(d.unscaled), d.scale + 1);
    var intLen := |digits| - d.scale;
    var r := PointNotation(digits[..intLen], digits[intLen..]);
    assert r[0] == digits[0];
    r
  }

  /** `toPlainString()` for a non-negative scale. */
  function PlainString(d: Decimal): string
    requires d.scale >= 0
  {
    (if d.unscaled < 0 then "-" else "") + PlainBody(d)
  }

  lemma PointNotationChars(intPart: string, fracPart: string)
    requires AllDigits(intPart) && AllDigits(fracPart)
    ensures IndexOfExponent(PointNotation(intPart, fracPart)) == -1
    ensures IndexOf(PointNotation(intPart, fracPart), '.')
      == if fracPart != [] then |intPart| else -1
  {
    var body := PointNotation(intPart, fracPart);
    forall i | 0 <= i < |body| ensures IsDigit(body[i]) || body[i] == '.' {
      if i < |intPart| {
        assert body[i] == intPart[i];
      } else if i > |intPart| {
        assert body[i] == fracPart[i - |intPart| - 1];
      }
    }
    assert '.' !in intPart;
    if fracPart != [] {
      assert body[..|intPart|] == intPart;
      assert body[|intPart|] == '.';
    } else {
      assert body == intPart;
    }
  }

  lemma SignificandWithFraction(intPart: string, fracPart: string)
    requires AllDigits(intPart) && AllDigits(fracPart) && |intPart| >= 1
    requires fracPart != []
    ensures AllDigits(intPart + fracPart)
    ensures ParseSignificand(intPart + "." + fracPart)
      == Ok((DigitsValue(intPart + fracPart), |fracPart|))
  {
    DigitsValueAppend(intPart, fracPart);
    var body := intPart + "." + fracPart;
    PointNotationChars(intPart, fracPart);
    assert IndexOf(body, '.') == |intPart|;
    var ip := body[..|intPart|];
    var fp := body[|intPart| + 1..];
    assert ip == intPart;
    assert fp == fracPart;
    assert ip + fp == intPart + fracPart;
  }

  lemma SignificandWithoutFraction(intPart: string)
    requires AllDigits(intPart) && |intPart| >= 1
    ensures ParseSignificand(intPart) == Ok((DigitsValue(intPart), 0))
  {
    PointNotationChars(intPart, []);
    assert PointNotation(intPart, []) == intPart;
    assert intPart + [] == intPart;
  }

  lemma SignificandOfPointNotation(intPart: string, fracPart: string)
    requires AllDigits(intPart) && AllDigits(fracPart) && |intPart| >= 1
    ensures AllDigits(intPart + fracPart)
    ensures ParseSignificand(PointNotation(intPart, fracPart))
      == Ok((DigitsValue(intPart + fracPart), |fracPart|))
  {
    if fracPart != [] {
      SignificandWithFraction(intPart, fracPart);
    } else {
      SignificandWithoutFraction(intPart);
      assert intPart + fracPart == intPart;
    }
  }

  lemma PointNotationParses(intPart: string, fracPart: string)
    requires AllDigits(intPart) && AllDigits(fracPart) && |intPart| >= 1
    requires |fracPart| <= IntMax
    ensures AllDigits(intPart + fracPart)
    ensures ParseUnsigned(PointNotation(intPart, fracPart))
      == Ok((DigitsValue(intPart + fracPart), |fracPart|))
  {
    SignificandOfPointNotation(intPart, fracPart);
    PointNotationChars(intPart, fracPart);
    UnsignedWithoutExponent(PointNotation(intPart, fracPart));
  }

  /** Without an exponent the unsigned part is just the significand. */
  lemma UnsignedWithoutExponent(body: string)
    requires IndexOfExponent(body) == -1
    requires ParseSignificand(body).Ok? && ParseSignificand(body).value.1 <= IntMax
    ensures ParseUnsigned(body) == Ok((ParseSignificand(body).value.0, ParseSignificand(body).value.1))
  {
  }

  lemma SignedParses(negative: bool, body: string, magnitude: nat, scale: int)
    requires body != [] && IsDigit(body[0])
    requires ParseUnsigned(body) == Ok((magnitude, scale))
    ensures ParseBigDecimal((if negative then "-" else "") + body)
      == Ok(Decimal(if negative then -(magnitude as int) else magnitude, scale))
  {
    SplitSignPrefixed(negative, body);
  }

  lemma SplitSignPrefixed(negative: bool, body: string)
    requires body != [] && IsDigit(body[0])
    ensures SplitSign((if negative then "-" else "") + body) == (negative, body)
  {
    if !negative {
      assert (if negative then "-" else "") + body == body;
    } else {
      assert ("-" + body)[1..] == body;
    }
  }

  lemma SplitDigitsParse(digits: string, scale: nat, intPart: string, fracPart: string)
    requires AllDigits(digits) && |digits| >= scale + 1 && scale <= IntMax
    requires intPart == digits[..|digits| - scale] && fracPart == digits[|digits| - scale..]
    ensures ParseUnsigned(PointNotation(intPart, fracPart)) == Ok((DigitsValue(digits), scale))
  {
    DigitsSplit(digits, |digits| - scale);
    PointNotationParses(intPart, fracPart);
  }

  lemma DigitsSplit(digits: string, k: nat)
    requires AllDigits(digits) && k <= |digits|
    ensures AllDigits(digits[..k]) && AllDigits(digits[k..])
    ensures digits[..k] + digits[k..] == digits
  {
    assert forall i :: 0 <= i < |digits| - k ==> digits[k..][i] == digits[k + i];
  }

  lemma PlainBodyParses(d: Decimal)
    requires 0 <= d.scale <= IntMax
    ensures ParseUnsigned(PlainBody(d)) == Ok((Abs(d.unscaled), d.scale))
  {
    var digits := PadNat(Abs(d.unscaled), d.scale + 1);
    var intLen := |digits| - d.scale;
    var body := PointNotation(digits[..intLen], digits[intLen..]);
    assert PlainBody(d) == body;
    SplitDigitsParse(digits, d.scale, digits[..intLen], digits[intLen..]);
    PadNatValue(Abs(d.unscaled), d.scale + 1);
    assert ParseUnsigned(body) == Ok((Abs(d.unscaled), d.scale));
  }

  /** The value of a digit string, one prefix at a time. */
  lemma DigitsValueByPrefix(s: string)
    requires AllDigits(s)
    ensures DigitsValue(s[..0]) == 0 && s[..|s|] == s
    ensures forall k :: 1 <= k <= |s| ==>
      DigitsValue(s[..k]) == DigitsValue(s[..k - 1]) * 10 + DigitValue(s[k - 1])
  {
    forall k | 1 <= k <= |s|
      ensures DigitsValue(s[..k]) == DigitsValue(s[..k - 1]) * 10 + DigitValue(s[k - 1])
    {
      assert s[..k][..k - 1] == s[..k - 1];
    }
  }

  lemma DigitsValueFive(s: string)
    requires |s| == 5 && AllDigits(s)
    ensures DigitsValue(s) == DigitValue(s[0]) * 10000 + DigitValue(s[1]) * 1000
      + DigitValue(s[2]) * 100 + DigitValue(s[3]) * 10 + DigitValue(s[4])
  {
    DigitsValueByPrefix(s);
  }

  lemma DigitsValueTen(s: string)
    requires |s| == 10 && AllDigits(s)
    ensures DigitsValue(s) == DigitsValue(s[..5]) * 100000 + DigitsValue(s[5..])
  {
    DigitsValueAppend(s[..5], s[5..]);
    assert s[..5] + s[5..] == s;
    assert Pow10(5) == 100000;
  }

  /** The decimal value of a ten-digit string beginning "21474". */
  lemma IntBoundDigits(s: string, last: string)
    requires |last| == 5 && AllDigits(last) && s == "21474" + last
    ensures DigitsValue(s) == 2147400000 + DigitsValue(last)
  {
    var hi := "21474";
    DigitsValueFive(hi);
    DigitsValueTen(s);
    assert s[..5] == hi && s[5..] == last;
  }

  /** The values of the digit strings on either side of the `int` bound. */
  lemma BoundDigits()
    ensures DigitsValue("2147483647") == IntMax
    ensures DigitsValue("2147483648") == -IntMin
    ensures DigitsValue("2147483649") == -IntMin + 1
  {
    DigitsValueFive("83647");
    IntBoundDigits("2147483647", "83647");
    DigitsValueFive("83648");
    IntBoundDigits("2147483648", "83648");
    DigitsValueFive("83649");
    IntBoundDigits("2147483649", "83649");
  }

  /** The exponent must fit in an `int`: one past either end is refused. */
  lemma ExponentOverflow()
    ensures ParseExponent("2147483648").Err? && ParseExponent("2147483649").Err?
    ensures ParseExponent("-2147483649").Err?
  {
    BoundDigits();
    assert SplitSign("2147483648") == (false, "2147483648");
    assert SplitSign("2147483649") == (false, "2147483649");
    assert SplitSign("-2147483649") == (true, "2147483649");
  }

  /** The extreme `int` exponents themselves are read. */
  lemma ExponentExtremes()
    ensures ParseExponent("2147483647") == Ok(IntMax) && ParseExponent("-2147483648") == Ok(IntMin)
  {
    BoundDigits();
    assert SplitSign("2147483647") == (false, "2147483647");
    assert SplitSign("-2147483648") == (true, "2147483648");
  }

  /** A refused exponent makes `new BigDecimal(String)` refuse the whole
      number, whatever the significand before it. */
  lemma RefusedExponent(significand: string, exponent: string)
    requires significand != [] && IsDigit(significand[0])
    requires 'e' !in significand && 'E' !in significand
    requires ParseExponent(exponent).Err?
    ensures ParseBigDecimal(significand + "e" + exponent).Err?
  {
    var s := significand + "e" + exponent;
    var n := |significand|;
    assert SplitSign(s) == (false, s);
    assert s[..n] == significand && s[n] == 'e';
    var e := IndexOf(s, 'e');
    var upper := IndexOf(s, 'E');
    assert e == n;
    assert upper == -1 || upper > n;
    assert s[n + 1..] == exponent;
  }

  /** Reading back a plain rendering yields the very same decimal, scale
      included. */
  lemma PlainStringRoundTrip(d: Decimal)
    requires 0 <= d.scale <= IntMax
    ensures ParseBigDecimal(PlainString(d)) == Ok(d)
  {
    PlainBodyParses(d);
    SignedParses(d.unscaled < 0, PlainBody(d), Abs(d.unscaled), d.scale);
  }
}
