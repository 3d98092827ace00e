/** What it means for a decimal to be the shortest, closest name of a double, and what follows
    from it: it reads back as the double, it has at most 17 digits and never ends in a zero, it is
    the only such decimal, and no decimal inside the interval has fewer digits. One that reads back
    can have fewer only at the very end of the interval of an even double. */
module ShortestDecimal {
  import opened Powers
  import opened Ieee754

  /** A decimal `mantissa * 10^exponent`. */
  datatype FloatingDecimal = FloatingDecimal(mantissa: nat, exponent: int) {
    function Value(): real {
      mantissa as real * Exp(10, exponent)
    }
  }

  /** Strictly between the midpoints to the two neighbouring doubles. */
  predicate InInterval(d: FloatingDecimal, b: nat)
    requires b > 0
  {
    Midpoint(b - 1) < d.Value() < Midpoint(b)
  }

  /** `d` is at least as close to `b` as `e`, strictly so unless `d` is even. */
  predicate CloserOrEven(d: FloatingDecimal, e: FloatingDecimal, b: nat) {
    var p, q := Distance(d.Value(), Magnitude(b)), Distance(e.Value(), Magnitude(b));
    p < q || (p == q && d.mantissa % 2 == 0)
  }

  /** The specification of shortest printing: in the interval, with the largest possible
      exponent, and the closest such decimal, ties going to the even one. */
  ghost predicate Shortest(d: FloatingDecimal, b: nat)
    requires b > 0
  {
    && InInterval(d, b)
    && (forall e: FloatingDecimal | e.exponent > d.exponent :: !InInterval(e, b))
    && (forall e: FloatingDecimal | e.exponent == d.exponent && e != d && InInterval(e, b) ::
          CloserOrEven(d, e, b))
  }

  lemma ShortestIsUnique(d: FloatingDecimal, e: FloatingDecimal, b: nat)
    requires b > 0 && Shortest(d, b) && Shortest(e, b)
    ensures d == e
  {
    hide Magnitude, Midpoint, FloatingDecimal.Value;
    assert d.exponent == e.exponent;
    if d.mantissa != e.mantissa {
      assert CloserOrEven(d, e, b) && CloserOrEven(e, d, b);
      var lo, hi := if d.mantissa < e.mantissa then d else e, if d.mantissa < e.mantissa then e else d;
      var mid := FloatingDecimal(lo.mantissa + 1, d.exponent);  // odd, because both ends won the tie
      assert mid != d && InInterval(mid, b) ==> CloserOrEven(d, mid, b);
      DecimalMonotone(lo.mantissa, mid.mantissa, d.exponent);
      DecimalMonotone(mid.mantissa, hi.mantissa, d.exponent);
    }
  }

  lemma DecimalMonotone(m: nat, n: nat, k: int)
    ensures m < n <==> FloatingDecimal(m, k).Value() < FloatingDecimal(n, k).Value()
  {
    hide Exp;
    ExpPositive(10, k);
    if m < n {
      RealMulLess(m as real, n as real, Exp(10, k));
    } else {
      RealAtMost(n as real, m as real, Exp(10, k));
    }
  }

  /** Reading a shortest decimal with round-to-nearest gives back the double it names. */
  lemma ShortestRoundTrips(d: FloatingDecimal, b: nat)
    requires 0 < b < INFINITY && Shortest(d, b)
    ensures RoundsTo(d.Value(), b)
  {
    InsideRoundsTo(d.Value(), b);
  }

  /** Moving zeros from the mantissa to the exponent leaves the value alone. */
  lemma MoveZeros(m: nat, z: nat, k: int)
    ensures FloatingDecimal(m * Pow(10, z), k).Value() == FloatingDecimal(m, k + z).Value()
  {
    hide Exp, Pow;
    ExpAdd(10, k, z);
    ExpPow(10, z);
    RealRegroup(m, Pow(10, z), Exp(10, k));
  }

  lemma RealRegroup(x: nat, y: nat, z: real)
    ensures (x * y) as real * z == x as real * (z * y as real)
  {
    assert (x * y) as real == x as real * y as real;
    assert (x as real * y as real) * z == x as real * (y as real * z);
  }

  lemma NoTrailingZero(d: FloatingDecimal, b: nat)
    requires b > 0 && Shortest(d, b)
    ensures d.mantissa % 10 != 0
  {
    if d.mantissa % 10 == 0 {
      var e := FloatingDecimal(d.mantissa / 10, d.exponent + 1);
      assert !InInterval(e, b);
      assert Pow(10, 1) == 10;
      MoveZeros(e.mantissa, 1, d.exponent);
    }
  }

  /** No decimal of any exponent inside the interval has fewer digits. */
  lemma NoFewerDigits(d: FloatingDecimal, e: FloatingDecimal, b: nat, n: nat)
    requires b > 0 && Shortest(d, b)
    requires InInterval(e, b) && e.mantissa < Pow(10, n)
    ensures d.mantissa < Pow(10, n)
  {
    hide Magnitude, Midpoint, FloatingDecimal.Value;
    if n == 0 {
      assert e.Value() == 0.0 by { ZeroValue(e); }
      MidpointNonNegative(b - 1);
    } else if Pow(10, n) <= d.mantissa {
      // 10^n lies between e and d, and is representable with a larger exponent than d's
      var ten, ten', one := FloatingDecimal(Pow(10, n), d.exponent), FloatingDecimal(Pow(10, n), e.exponent),
                            FloatingDecimal(1, d.exponent + n);
      assert e.exponent <= d.exponent && !InInterval(one, b);
      DecimalMonotone(e.mantissa, ten'.mantissa, e.exponent);
      SameDigitsLargerExponent(Pow(10, n), e.exponent, d.exponent);
      DecimalMonotone(d.mantissa, ten.mantissa, d.exponent);
      assert 1 * Pow(10, n) == Pow(10, n);
      MoveZeros(1, n, d.exponent);
    }
  }

  /** `e` is written with fewer digits than `d`. */
  ghost predicate FewerDigits(e: FloatingDecimal, d: FloatingDecimal) {
    exists n: nat :: e.mantissa < Pow(10, n) <= d.mantissa
  }

  /** A decimal on one of the ends of the interval. */
  predicate OnAnEnd(e: FloatingDecimal, b: nat)
    requires b > 0
  {
    e.Value() == Midpoint(b - 1) || e.Value() == Midpoint(b)
  }

  /** Exactly when a decimal with fewer digits reads back: the double is even, so that ties are read
      as it, and one of the midpoints is a decimal with fewer digits. The interval leaves the
      midpoints out whether the double is even or not. */
  lemma FewestDigits(d: FloatingDecimal, b: nat)
    requires 0 < b < INFINITY && Shortest(d, b)
    ensures (exists e: FloatingDecimal :: FewerDigits(e, d) && RoundsTo(e.Value(), b)) <==>
            b % 2 == 0 && exists e: FloatingDecimal :: FewerDigits(e, d) && OnAnEnd(e, b)
  {
    hide Magnitude, Midpoint, FloatingDecimal.Value, RoundsTo, Shortest, FewerDigits, Pow;
    forall e: FloatingDecimal | FewerDigits(e, d)
      ensures RoundsTo(e.Value(), b) <==> b % 2 == 0 && OnAnEnd(e, b)
    {
      RoundsToIff(e.Value(), b);
      NotInside(d, e, b);
    }
  }

  lemma NotInside(d: FloatingDecimal, e: FloatingDecimal, b: nat)
    requires b > 0 && Shortest(d, b) && FewerDigits(e, d)
    ensures !InInterval(e, b)
  {
    hide Shortest, InInterval, Pow;
    var n: nat :| e.mantissa < Pow(10, n) <= d.mantissa;
    if InInterval(e, b) { NoFewerDigits(d, e, b, n); }
  }

  // the double below 10^23, which lies half way to the next one
  const BELOW_TEN23: nat := 0x44B5_2D02_C7E1_4AF6

  /** It happens: one digit, 1e23, reads back as an even double of which no decimal of one digit is
      inside the interval, so that more are printed. */
  lemma ShorterTie(d: FloatingDecimal)
    requires Shortest(d, BELOW_TEN23)
    ensures 0 < BELOW_TEN23 < INFINITY && RoundsTo(FloatingDecimal(1, 23).Value(), BELOW_TEN23)
    ensures d.mantissa >= 10 && FewerDigits(FloatingDecimal(1, 23), d)
  {
    var b, u := BELOW_TEN23, Exp(2, 24);
    Ten23(b);
    TieRoundsToEven(Exp(10, 23), b);
    OneValue(23);
    assert InInterval(d, b);
    OneDigitOutside(d, b);
    assert 1 < Pow(10, 1) <= d.mantissa;
  }

  lemma OneValue(e: int)
    ensures FloatingDecimal(1, e).Value() == Exp(10, e)
  {
    hide Exp;
  }

  /** 10^23 is an odd multiple of 2^23. */
  lemma Ten23(b: nat)
    requires b == BELOW_TEN23
    ensures Midpoint(b) == Exp(10, 23) && 9.0 * Exp(10, 22) < Midpoint(b - 1)
  {
    hide Exp, Magnitude;
    Ten23Neighbours(b);
    NextMagnitude(b);
    NextMagnitude(b - 1);
    ExpStep(2, 23);
    ExpStep(10, 22);
    ExpPositive(2, 24);
    FivesOfTen23();
  }

  lemma Ten23Neighbours(b: nat)
    requires b == BELOW_TEN23
    ensures UnitExponent(b) == 24 && Magnitude(b) == 5960464477539062.0 * Exp(2, 24)
    ensures UnitExponent(b - 1) == 24 && Magnitude(b - 1) == 5960464477539061.0 * Exp(2, 24)
  {
    hide Exp;
    assert Significand(b) == 5960464477539062 && Significand(b - 1) == 5960464477539061;
  }

  lemma FivesOfTen23()
    ensures Exp(10, 23) == 11920928955078125.0 * Exp(2, 23)
  {
    hide Exp, Pow;
    FiveTo23();
    ExpPow(5, 23);
    Exp10Factors(23);
    RealCommutes(Exp(2, 23), Exp(5, 23), 11920928955078125.0);
  }

  lemma FiveTo23()
    ensures Pow(5, 23) == 11920928955078125
  {
    assert Pow(5, 11) == 48828125 && Pow(5, 12) == 244140625;
    PowAdd(5, 12, 11);
  }

  lemma RealCommutes(x: real, y: real, z: real)
    requires y == z
    ensures x * y == z * x
  {}

  lemma OneDigitOutside(d: FloatingDecimal, b: nat)
    requires b > 0 && Midpoint(b) == Exp(10, 23) && 9.0 * Exp(10, 22) < Midpoint(b - 1) && InInterval(d, b)
    ensures d.mantissa >= 10
  {
    hide Exp, Midpoint, FloatingDecimal.Value;
    MidpointNonNegative(b - 1);
    if d.mantissa < 10 {
      OneDigitValue(d);
      if d.exponent <= 22 { Exp10Monotone(d.exponent, 22); } else { Exp10Monotone(23, d.exponent); }
    }
  }

  lemma OneDigitValue(d: FloatingDecimal)
    requires d.mantissa < 10
    ensures d.Value() <= 9.0 * Exp(10, d.exponent)
    ensures if d.mantissa == 0 then d.Value() == 0.0 else Exp(10, d.exponent) <= d.Value()
  {
    hide FloatingDecimal.Value;
    DecimalMonotone(9, d.mantissa, d.exponent);
    DecimalMonotone(d.mantissa, 1, d.exponent);
    NineValue(d.exponent);
    OneValue(d.exponent);
    if d.mantissa == 0 { ZeroValue(d); }
  }

  lemma NineValue(e: int)
    ensures FloatingDecimal(9, e).Value() == 9.0 * Exp(10, e)
  {
    hide Exp;
  }

  lemma ZeroValue(d: FloatingDecimal)
    requires d.mantissa == 0
    ensures d.Value() == 0.0
  {}

  lemma MidpointNonNegative(b: nat)
    ensures Midpoint(b) >= 0.0
  {
    MagnitudeNonNegative(b);
    MagnitudeNonNegative(b + 1);
  }

  lemma SameDigitsLargerExponent(m: nat, j: int, k: int)
    requires j <= k
    ensures FloatingDecimal(m, j).Value() <= FloatingDecimal(m, k).Value()
  {
    Exp10Monotone(j, k);
    RealScaleAtMost(Exp(10, j), Exp(10, k), m as real);
  }

  lemma RealScaleAtMost(x: real, y: real, m: real)
    requires x <= y && m >= 0.0
    ensures m * x <= m * y
  {}

  lemma {:induction false} Exp10Monotone(j: int, k: int)
    requires j <= k
    ensures Exp(10, j) <= Exp(10, k)
    decreases k - j
  {
    if j < k {
      ExpStep(10, k - 1);
      ExpPositive(10, k - 1);
      Exp10Monotone(j, k - 1);
    }
  }
}
