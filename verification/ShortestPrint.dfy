/** `double_to_shortest_decimal_bufn` as a whole: every double, printed and read back with
    round-to-nearest, is the same double. */
module ShortestPrint {
  import opened Powers
  import opened Ieee754
  import opened ShortestDecimal
  import opened RyuInterval
  import opened Ryu
  import opened DecimalText
  import opened TextForm
  import TC = ToChars

  // ---------- small integers ----------

  /** The value is a whole number in [1, 2^53). */
  ghost predicate IsSmallInt(b: nat) {
    var v := Magnitude(b);
    v == v.Floor as real && 0 < v.Floor < 2 * TWO52
  }

  lemma Exp2Inverse(e: int)
    requires e <= 0
    ensures Exp(2, e) * Pow(2, -e) as real == 1.0
  {
    ExpAdd(2, e, -e);
    ExpPow(2, -e);
    assert e + -e == 0 && Exp(2, 0) == 1.0;
  }

  /** A whole magnitude is one whose low bits are zero. */
  lemma WholeMagnitude(b: nat, n: nat)
    requires UnitExponent(b) <= 0
    ensures Magnitude(b) == n as real <==> Significand(b) == n * Pow(2, -UnitExponent(b))
  {
    hide Magnitude, Exp, Pow, Significand, UnitExponent;
    var u := UnitExponent(b);
    Exp2Inverse(u);
    ExpPositive(2, u);
    MagnitudeIs(b);
    WholeTimes(Significand(b), Exp(2, u), Pow(2, -u), n);
  }

  lemma MagnitudeIs(b: nat)
    ensures Magnitude(b) == Significand(b) as real * Exp(2, UnitExponent(b))
  {}

  lemma WholeTimes(s: nat, u: real, p: nat, n: nat)
    requires u > 0.0 && u * p as real == 1.0
    ensures s as real * u == n as real <==> s == n * p
  {
    assert (n * p) as real * u == n as real by { Regroup(n, p, u); }
    if s < n * p { RealMulLess(s as real, (n * p) as real, u); }
    if s > n * p { RealMulLess((n * p) as real, s as real, u); }
  }

  lemma Regroup(n: nat, p: nat, u: real)
    requires u * p as real == 1.0
    ensures (n * p) as real * u == n as real
  {
    assert (n * p) as real == n as real * p as real;
    assert (n as real * p as real) * u == n as real * (u * p as real);
  }

  /** Exponents for which the value can be a small integer. */
  lemma SmallIntExponents(b: nat, n: nat)
    requires 0 < b < INFINITY && 0 < n < 2 * TWO52 && Magnitude(b) == n as real
    ensures -52 <= UnitExponent(b) <= 0 && BiasedExponent(b) > 0
  {
    var u := UnitExponent(b);
    SignificandRange(b);
    if u > 0 {
      LargeMagnitude(b);
    } else {
      WholeMagnitude(b, n);
      if u < -52 {
        PowMonotone(2, 53, -u);
        TwoTo53();
        MulAtMost(1, n, Pow(2, -u));
      }
    }
  }

  lemma TwoTo53()
    ensures Pow(2, 52) == TWO52 && Pow(2, 53) == 2 * TWO52
  {
    assert Pow(2, 6) == 64 && Pow(2, 7) == 128;
    PowAdd(2, 6, 7);
    PowAdd(2, 13, 13);
    PowAdd(2, 26, 26);
  }

  lemma LargeMagnitude(b: nat)
    requires UnitExponent(b) > 0
    ensures Magnitude(b) >= (2 * TWO52) as real
  {
    var u := UnitExponent(b);
    ExpPow(2, u);
    PowMonotone(2, 1, u);
    assert Pow(2, 1) == 2;
    assert Significand(b) >= TWO52;
    hide Magnitude, Exp, Pow, Significand;
    MagnitudeIs(b);
    RealAtMost(TWO52 as real, Significand(b) as real, Exp(2, u));
  }

  lemma LowBits(m: nat, k: nat)
    requires k <= 52
    ensures Pow(2, k) > 0 && (TWO52 + m) % Pow(2, k) == m % Pow(2, k)
  {
    hide Pow;
    TwoTo53();
    PowPositive(2, k);
    PowAdd(2, 52 - k, k);
    ModShift(m, Pow(2, k), Pow(2, 52 - k));
  }

  lemma ModShift(m: nat, p: nat, j: nat)
    requires p > 0
    ensures (j * p + m) % p == m % p
  {
    Quotient(m, p);
    assert (j + m / p) * p == j * p + m / p * p;
    QuotientIsNat(m, p);
    RemainderIs(j * p + m, p, j + m / p, m % p);
  }

  /** Small whole numbers are printed as they are. */
  method D2DSmallInt(ieeeMantissa: nat, ieeeExponent: nat) returns (ok: bool, v: FloatingDecimal)
    requires ieeeMantissa < TWO52 && ieeeExponent < 2047 && (ieeeExponent != 0 || ieeeMantissa != 0)
    ensures ok <==> IsSmallInt(Bits(ieeeMantissa, ieeeExponent))
    ensures ok ==> v.exponent == 0 && 0 < v.mantissa < 2 * TWO52
    ensures ok ==> v.Value() == Magnitude(Bits(ieeeMantissa, ieeeExponent))
  {
    hide Pow, Magnitude;
    ghost var b := Bits(ieeeMantissa, ieeeExponent);
    assert BiasedExponent(b) == ieeeExponent && Mantissa(b) == ieeeMantissa;
    ok, v := false, FloatingDecimal(0, 0);
    var e2 := ieeeExponent - 1023 - 52;
    if -52 <= e2 <= 0 {
      LowBits(ieeeMantissa, -e2);
      var unit := Pow(2, -e2);
      var fraction := ieeeMantissa % unit;
      if fraction == 0 {
        var m2 := TWO52 + ieeeMantissa;
        Quotient(m2, unit);
        QuotientIsNat(m2, unit);
        WholeMagnitude(b, m2 / unit);
        SmallQuotient(m2, unit);
        ok, v := true, FloatingDecimal(m2 / unit, 0);
        assert Exp(10, 0) == 1.0;
      }
    }
    if IsSmallInt(b) {
      ghost var n: nat := Magnitude(b).Floor;
      SmallIntExponents(b, n);
      WholeMagnitude(b, n);
      RemainderIs(TWO52 + ieeeMantissa, Pow(2, -e2), n, 0);
    }
  }

  lemma SmallQuotient(m: nat, unit: nat)
    requires unit > 0 && m % unit == 0 && 0 < m < 2 * TWO52
    ensures 0 < m / unit < 2 * TWO52
  {
    Quotient(m, unit);
    QuotientIsNat(m, unit);
    assert m == m / unit * unit;
    MulAtMost(1, unit, m / unit);
  }

  // ---------- the text read back ----------

  /** Stripping zeros and counting the digits again gives the same value. */
  lemma {:induction false} StrippedReads(m: nat)
    requires 0 < m < TEN17
    ensures var r, len := TC.StripZeros(m), TC.DecimalLength(m);
      && TC.DecimalLength(r) <= len
      && m == r * Pow(10, len - TC.DecimalLength(r))
  {
    if m % 10 == 0 {
      TC.LengthOfTenth(m);
      hide TC.DecimalLength;
      StrippedReads(m / 10);
      TenTimes(TC.StripZeros(m), TC.DecimalLength(m) - TC.DecimalLength(TC.StripZeros(m)));
    } else {
      assert Pow(10, 0) == 1;
    }
  }

  lemma TenTimes(r: nat, z: nat)
    requires z > 0
    ensures r * Pow(10, z) == 10 * (r * Pow(10, z - 1))
  {
    MulAssociative(r, 10, Pow(10, z - 1));
    MulAssociative(10, r, Pow(10, z - 1));
  }

  lemma LengthFits(m: nat)
    requires 0 < m < TEN17
    ensures 1 <= TC.DecimalLength(m) <= 17 && m < Pow(10, TC.DecimalLength(m))
  {}

  /** The printed text denotes exactly the decimal it was made from. */
  lemma PlainTextReads(v: FloatingDecimal)
    requires TC.Displayable(v)
    ensures ReadUnsigned(TC.PlainText(v)).Some?
    ensures ReadUnsigned(TC.PlainText(v)).value.Value() == v.Value()
  {
    hide Pow, FloatingDecimal.Value, ReadUnsigned, TC.DecimalLength, FixedText, ScientificText;
    var len := TC.DecimalLength(v.mantissa);
    var exp := v.exponent + len - 1;
    LengthFits(v.mantissa);
    if -4 <= exp < 15 {
      FixedTextReads(v, len);
    } else if v.exponent == 0 {
      var m := TC.StripZeros(v.mantissa);
      var len' := TC.DecimalLength(m);
      LengthFits(m);
      StrippedReads(v.mantissa);
      ScientificTextReads(m, len', exp);
      MoveZeros(m, len - len', 0);
    } else {
      ScientificTextReads(v.mantissa, len, exp);
    }
  }

  lemma StartsWithDigit(v: FloatingDecimal)
    requires TC.Displayable(v)
    ensures TC.PlainText(v) != "" && IsDigit(TC.PlainText(v)[0])
  {
    hide Pow, TC.DecimalLength, SignedExponentText;
    LengthFits(v.mantissa);
    LengthFits(TC.StripZeros(v.mantissa));
  }

  // ---------- the exponents that occur ----------

  lemma {:induction false} EightBelowTen(k: int)
    requires k >= 0
    ensures Exp(2, 3 * k) <= Exp(10, k) && Exp(10, -k) <= Exp(2, -3 * k)
  {
    if k > 0 {
      EightBelowTen(k - 1);
      EightTimes(3 * (k - 1));
      EightTimes(-3 * k);
      ExpStep(10, k - 1);
      ExpStep(10, -k);
      ExpPositive(10, k - 1);
      ExpPositive(10, -k);
    }
  }

  lemma EightTimes(e: int)
    ensures Exp(2, e + 3) == 8.0 * Exp(2, e) && Exp(2, e) > 0.0
  {
    ExpStep(2, e);
    ExpStep(2, e + 1);
    ExpStep(2, e + 2);
    ExpPositive(2, e);
  }

  lemma LargestMidpoint(b: nat)
    requires b < INFINITY
    ensures Midpoint(b) <= Exp(10, 342)
  {
    hide Midpoint, Magnitude, Exp;
    NextMagnitude(b);
    MagnitudeAtMost(b + 1, INFINITY);
    InfinityMagnitude();
    ExpStep(2, 1024);
    ExpStep(2, 1025);
    ExpPositive(2, 1024);
    EightBelowTen(342);
  }

  lemma InfinityMagnitude()
    ensures Magnitude(INFINITY) == Exp(2, 1024)
  {
    hide Exp;
    assert Significand(INFINITY) == TWO52 && UnitExponent(INFINITY) == 972;
    TwoTo53();
    ExpPow(2, 52);
    ExpAdd(2, 972, 52);
    RealCommute(TWO52 as real, Exp(2, 972));
  }

  lemma SmallestMidpoint(b: nat)
    ensures Exp(10, -359) <= Midpoint(b)
  {
    hide Exp, Magnitude;
    MidpointMonotone(0, b);
    assert Significand(0) == 0 && UnitExponent(0) == -1074;
    NextMagnitude(0);
    ZeroMagnitude();
    ExpStep(2, -1075);
    ExpStep(2, -1076);
    ExpStep(2, -1077);
    ExpPositive(2, -1077);
    EightBelowTen(359);
  }

  lemma {:induction false} Exp10Order(j: int, k: int)
    requires Exp(10, j) < Exp(10, k)
    ensures j < k
  {
    if k <= j { Exp10Monotone(k, j); }
  }

  /** Shortest decimals stay well inside three-digit exponents. */
  lemma ExponentRange(v: FloatingDecimal, b: nat)
    requires 0 < b < INFINITY && Shortest(v, b)
    ensures TC.Displayable(v)
  {
    hide Midpoint, Exp, FloatingDecimal.Value;
    SeventeenDigits(v, b);
    LargestMidpoint(b);
    SmallestMidpoint(b - 1);
    ExpPositive(10, -359);
    ValueBounds(v);
    Exp10Order(-359, v.exponent + 17);
    Exp10Order(v.exponent, 342);
  }

  lemma ValueBounds(v: FloatingDecimal)
    requires v.mantissa < TEN17 && v.Value() > 0.0
    ensures v.mantissa > 0 && Exp(10, v.exponent) <= v.Value() < Exp(10, v.exponent + 17)
  {
    hide Exp;
    ExpPositive(10, v.exponent);
    SeventeenPlaces(v.exponent);
    AtLeastOnce(v.mantissa, Exp(10, v.exponent), v.Value());
    BelowProduct(v.mantissa, TEN17, Exp(10, v.exponent), v.Value(), Exp(10, v.exponent + 17));
  }

  lemma BelowProduct(m: nat, n: nat, t: real, x: real, y: real)
    requires m < n && t > 0.0 && x == m as real * t && y == n as real * t
    ensures x < y
  {
    RealMulLess(m as real, n as real, t);
  }

  lemma AtLeastOnce(m: nat, t: real, x: real)
    requires t > 0.0 && x > 0.0 && x == m as real * t
    ensures m > 0 && t <= x
  {
    if m > 0 { RealAtMost(1.0, m as real, t); }
  }

  lemma SeventeenPlaces(e: int)
    ensures Exp(10, e + 17) == TEN17 as real * Exp(10, e)
  {
    hide Exp, Pow;
    ExpAdd(10, e, 17);
    ExpPow(10, 17);
    TC.PowersOfTenTable();
  }

  // ---------- the whole function ----------

  /** What a correctly rounding reader makes of a printed text. `negative` and `b` are the sign
      and the 63 low bits of the double; a NaN reads as any NaN. */
  ghost predicate ReadsAs(s: string, negative: bool, b: nat) {
    if s == "NaN" then b > INFINITY
    else
      var minus := s != "" && s[0] == '-';
      var rest := if minus then s[1..] else s;
      && minus == negative
      && if rest == "Infinity" then b == INFINITY
         else ReadUnsigned(rest).Some? && RoundsTo(ReadUnsigned(rest).value.Value(), b)
  }

  /** The texts for zero, the infinities and the NaNs. */
  function SpecialText(sign: bool, exponent: bool, mantissa: bool): string {
    if mantissa then "NaN" else (if sign then "-" else "") + (if exponent then "Infinity" else "0")
  }

  method CopySpecialStr(result: array<char>, sign: bool, exponent: bool, mantissa: bool) returns (n: nat)
    requires result.Length >= 25
    modifies result
    ensures n <= result.Length && result[..n] == SpecialText(sign, exponent, mantissa)
  {
    if mantissa {
      TC.Copy(result, 0, "NaN");
      return 3;
    }
    var index := 0;
    if sign {
      result[0] := '-';
      index := 1;
    }
    assert result[..index] == if sign then "-" else "";
    if exponent {
      TC.Copy(result, index, "Infinity");
      return index + 8;
    }
    result[index] := '0';
    return index + 1;
  }

  lemma SpecialReads(sign: bool, b: nat)
    requires b == 0 || b >= INFINITY
    ensures ReadsAs(SpecialText(sign, b != 0, b > INFINITY), sign, b)
  {
    var s := SpecialText(sign, b != 0, b > INFINITY);
    if b == 0 {
      assert (if sign then s[1..] else s) == "0";
      ZeroReads();
    } else if b == INFINITY {
      assert (if sign then s[1..] else s) == "Infinity";
    }
  }

  lemma SpecialIs(sign: bool, b: nat)
    requires b == 0 || b >= INFINITY
    ensures SpecialText(sign, b != 0, b > INFINITY) ==
            if b > INFINITY then "NaN"
            else if b == INFINITY then (if sign then "-Infinity" else "Infinity")
            else if sign then "-0" else "0"
  {}

  lemma ZeroReads()
    ensures ReadUnsigned("0").Some? && RoundsTo(ReadUnsigned("0").value.Value(), 0)
  {
    hide RoundsTo;
    PlainReads("0");
    NoExponentReads("0");
    assert "0"[..0] == "";
    assert ReadNat("0") == 0;
    ZeroRoundsToZero();
  }

  lemma ZeroRoundsToZero()
    ensures FloatingDecimal(0, 0).Value() == 0.0 && RoundsTo(0.0, 0)
  {
    hide Exp, Magnitude, Midpoint;
    MidpointMonotone(0, INFINITY - 1);
    NextMagnitude(0);
    ZeroMagnitude();
    forall c: nat | c < INFINITY && c != 0
      ensures Preferred(0.0, 0, c)
    {
      MagnitudeMonotone(0, c);
    }
  }

  lemma ZeroMagnitude()
    ensures Magnitude(0) == 0.0
  {
    hide Exp;
    assert Significand(0) == 0;
  }

  /** Prints any double. The text names it: read with round-to-nearest it is the same double. */
  method DoubleToShortestDecimalBufn(bits: nat, result: array<char>) returns (n: nat)
    requires bits < 0x1_0000_0000_0000_0000 && result.Length >= 25
    modifies result
    ensures n <= result.Length
    ensures var negative, b := bits / 0x8000_0000_0000_0000 == 1, bits % 0x8000_0000_0000_0000;
      && ReadsAs(result[..n], negative, b)
      && (b == 0 ==> result[..n] == if negative then "-0" else "0")
      && (b == INFINITY ==> result[..n] == if negative then "-Infinity" else "Infinity")
      && (b > INFINITY ==> result[..n] == "NaN")
      && (0 < b < INFINITY ==>
            LaidOut(result[..n], negative, b) && exists v: FloatingDecimal :: Prints(result[..n], negative, b, v))
  {
    hide ReadsAs, LaidOut, Shortest, Magnitude, TC.PlainText, SpecialText;
    var ieeeSign := bits / 0x8000_0000_0000_0000 % 2 != 0;
    var ieeeMantissa := bits % TWO52;
    var ieeeExponent := bits / TWO52 % 2048;
    ghost var b := bits % 0x8000_0000_0000_0000;
    SplitBits(bits);
    if ieeeExponent == 2047 || (ieeeExponent == 0 && ieeeMantissa == 0) {
      n := CopySpecialStr(result, ieeeSign, ieeeExponent != 0, ieeeMantissa != 0);
      assert (ieeeExponent != 0) == (b != 0) by { SpecialFlags(ieeeMantissa, ieeeExponent); }
      assert ieeeMantissa != 0 <==> b > INFINITY by { SpecialFlags(ieeeMantissa, ieeeExponent); }
      SpecialReads(ieeeSign, b);
      SpecialIs(ieeeSign, b);
      return;
    }
    var isSmallInt, v := D2DSmallInt(ieeeMantissa, ieeeExponent);
    if !isSmallInt {
      v := D2D(ieeeMantissa, ieeeExponent);
      ExponentRange(v, b);
    }
    n := TC.ToCharsSigned(v, ieeeSign, result);
    assert Prints(result[..n], ieeeSign, b, v);
    PrintedReads(result[..n], ieeeSign, b, v);
    PrintedForm(result[..n], ieeeSign, b, v);
  }

  /** The text is the plain layout of `v`, which is the value itself for a small integer and the
      shortest decimal otherwise. */
  ghost predicate Prints(s: string, negative: bool, b: nat, v: FloatingDecimal)
    requires 0 < b < INFINITY
  {
    && TC.Displayable(v)
    && s == (if negative then "-" else "") + TC.PlainText(v)
    && if IsSmallInt(b) then v.exponent == 0 && v.Value() == Magnitude(b) else Shortest(v, b)
  }

  /** A finite nonzero double has an exponent in its text exactly when it is below 10^-4 or not below
      10^15, and nothing superfluous: no leading or trailing zeros, and an exponent of two digits, or
      of three that do not start with zero. */
  ghost predicate LaidOut(s: string, negative: bool, b: nat) {
    var text := if negative && s != "" then s[1..] else s;
    && (negative ==> s != "" && s[0] == '-')
    && ('e' !in text <==> Exp(10, -4) <= Magnitude(b) < Exp(10, 15))
    && if 'e' in text then ScientificForm(text) else FixedForm(text)
  }

  lemma SplitBits(bits: nat)
    requires bits < 0x1_0000_0000_0000_0000
    ensures bits % 0x8000_0000_0000_0000 == Bits(bits % TWO52, bits / TWO52 % 2048)
    ensures bits / 0x8000_0000_0000_0000 % 2 != 0 <==> bits / 0x8000_0000_0000_0000 == 1
  {
    assert bits / TWO52 / 2048 == bits / 0x8000_0000_0000_0000;
  }

  lemma SpecialFlags(ieeeMantissa: nat, ieeeExponent: nat)
    requires ieeeMantissa < TWO52 && (ieeeExponent == 2047 || (ieeeExponent == 0 && ieeeMantissa == 0))
    ensures var b := Bits(ieeeMantissa, ieeeExponent);
      && (ieeeExponent != 0 <==> b != 0) && (ieeeMantissa != 0 <==> b > INFINITY)
      && (b == 0 || b >= INFINITY)
  {}

  /** Whatever is printed for a finite nonzero double reads back as that double. */
  lemma PrintedReads(s: string, negative: bool, b: nat, v: FloatingDecimal)
    requires 0 < b < INFINITY && Prints(s, negative, b, v)
    ensures ReadsAs(s, negative, b)
  {
    hide Shortest, Magnitude, TC.PlainText, FloatingDecimal.Value, RoundsTo, ReadUnsigned, IsSmallInt, Midpoint;
    if IsSmallInt(b) {
      NextMagnitude(b - 1);
      NextMagnitude(b);
      InsideRoundsTo(v.Value(), b);
    } else {
      ShortestRoundTrips(v, b);
    }
    PlainTextReads(v);
    StartsWithDigit(v);
    assert (if negative then s[1..] else s) == TC.PlainText(v);
  }

  // ---------- where the layouts change ----------

  // the double that 10^-4 rounds to, just above it, and the one that 10^15 is
  const TEN_THOUSANDTH: nat := 0x3F1A_36E2_EB1C_432D
  const TEN_TO_15: nat := 0x430C_6BF5_2634_0000

  lemma NearTenThousandth()
    ensures Midpoint(TEN_THOUSANDTH - 1) < Exp(10, -4) < Magnitude(TEN_THOUSANDTH)
  {
    hide Exp, Magnitude;
    var u := Exp(2, -66);
    assert Significand(TEN_THOUSANDTH) == 7378697629483821 && UnitExponent(TEN_THOUSANDTH) == -66;
    assert Significand(TEN_THOUSANDTH - 1) == 7378697629483820 && UnitExponent(TEN_THOUSANDTH - 1) == -66;
    MagnitudeIs(TEN_THOUSANDTH);
    MagnitudeIs(TEN_THOUSANDTH - 1);
    ExpPositive(2, -66);
    Exp2Inverse(-66);
    TwoTo66();
    ExpStep(10, -4);
    ExpStep(10, -3);
    ExpStep(10, -2);
    ExpStep(10, -1);
    ExpNothing(10);
  }

  lemma TwoTo66()
    ensures Pow(2, 66) == 73786976294838206464
  {
    assert Pow(2, 11) == 2048;
    PowAdd(2, 11, 11);
    PowAdd(2, 22, 11);
    PowAdd(2, 33, 33);
  }

  lemma TenTo15()
    ensures Magnitude(TEN_TO_15) == Exp(10, 15) && IsSmallInt(TEN_TO_15)
  {
    hide Exp, Magnitude, Pow;
    assert Significand(TEN_TO_15) == 8000000000000000 && UnitExponent(TEN_TO_15) == -3;
    assert Pow(2, 3) == 8 by { PowersOfTwo(); }
    WholeMagnitude(TEN_TO_15, 1000000000000000);
    ExpPow(10, 15);
    TC.PowersOfTenTable();
  }

  lemma PowersOfTwo()
    ensures Pow(2, 3) == 8
  {}

  /** A shortest decimal is on the same side of 10^-4 as its double. */
  lemma SameSideBelow(v: FloatingDecimal, b: nat)
    requires 0 < b < INFINITY && Shortest(v, b)
    ensures Exp(10, -4) <= v.Value() <==> Exp(10, -4) <= Magnitude(b)
  {
    hide Exp, Magnitude, Midpoint, FloatingDecimal.Value;
    var one := FloatingDecimal(1, -4);
    OneValue(-4);
    NextMagnitude(b - 1);
    NextMagnitude(b);
    if InInterval(one, b) {
      NearTenThousandth();
      if b < TEN_THOUSANDTH {
        MidpointMonotone(b, TEN_THOUSANDTH - 1);
      } else {
        MagnitudeAtMost(TEN_THOUSANDTH, b);
      }
      assert v.exponent >= -4;
      MidpointNonNegative(b - 1);
      AtLeastUnit(v);
      Exp10Monotone(-4, v.exponent);
    }
  }

  lemma AtLeastUnit(v: FloatingDecimal)
    requires v.Value() > 0.0
    ensures Exp(10, v.exponent) <= v.Value()
  {
    hide Exp;
    ExpPositive(10, v.exponent);
    AtLeastOnce(v.mantissa, Exp(10, v.exponent), v.Value());
  }

  /** And of 10^15, which is a small integer itself. */
  lemma SameSideAbove(v: FloatingDecimal, b: nat)
    requires 0 < b < INFINITY && Shortest(v, b) && !IsSmallInt(b)
    ensures v.Value() < Exp(10, 15) <==> Magnitude(b) < Exp(10, 15)
  {
    hide Exp, Magnitude, Midpoint, FloatingDecimal.Value, IsSmallInt;
    TenTo15();
    NextMagnitude(b - 1);
    NextMagnitude(b);
    assert InInterval(v, b);
    if b < TEN_TO_15 {
      MagnitudeAtMost(b + 1, TEN_TO_15);
    } else {
      MagnitudeAtMost(TEN_TO_15, b - 1);
    }
  }

  /** Whatever is printed for a finite nonzero double is laid out by its value. */
  lemma PrintedForm(s: string, negative: bool, b: nat, v: FloatingDecimal)
    requires 0 < b < INFINITY && Prints(s, negative, b, v)
    ensures LaidOut(s, negative, b)
  {
    hide Shortest, Magnitude, TC.PlainText, FloatingDecimal.Value, IsSmallInt, Exp, FixedForm, ScientificForm;
    if !IsSmallInt(b) {
      NoTrailingZero(v, b);
      SameSideBelow(v, b);
      SameSideAbove(v, b);
    }
    PlainTextForm(v);
    assert (if negative then s[1..] else s) == TC.PlainText(v);
  }
}
