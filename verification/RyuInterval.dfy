/** The integers the printing algorithm works on, and the real numbers they stand for. */
module RyuInterval {
  import opened Powers
  import opened Ieee754
  import opened ShortestDecimal

  /** Two bits below the unit in the last place, so that midpoints are integers. */
  function E2(b: nat): int { UnitExponent(b) - 2 }

  function Mv(b: nat): nat { 4 * Significand(b) }

  function MmShift(b: nat): nat {
    if Mantissa(b) != 0 || BiasedExponent(b) <= 1 then 1 else 0
  }

  function Mp(b: nat): nat { Mv(b) + 2 }

  function Mm(b: nat): int { Mv(b) - 1 - MmShift(b) }

  lemma SignificandRange(b: nat)
    requires 0 < b < INFINITY
    ensures 0 < Significand(b) < 0x20_0000_0000_0000
    ensures MmShift(b) == 0 ==> Significand(b) == TWO52
    ensures -1076 <= E2(b) <= 969
    ensures Mm(b) > 0
  {
    assert b == BiasedExponent(b) * TWO52 + Mantissa(b);
    assert BiasedExponent(b) <= 2046;
  }

  /** The three integers are the double and the two midpoints around it. The shift is zero exactly
      when the double below is nearer than the one above. */
  lemma IntervalEnds(b: nat)
    requires 0 < b < INFINITY
    ensures Magnitude(b) == Mv(b) as real * Exp(2, E2(b))
    ensures Midpoint(b) == Mp(b) as real * Exp(2, E2(b))
    ensures Midpoint(b - 1) == Mm(b) as real * Exp(2, E2(b))
    ensures MmShift(b) == 0 <==> Magnitude(b) - Magnitude(b - 1) < Magnitude(b + 1) - Magnitude(b)
  {
    hide Significand, UnitExponent, Exp;
    ExpPositive(2, E2(b));
    var u := Exp(2, E2(b));
    MagnitudeInQuarters(b);
    UnitInQuarters(b);
    NextMagnitude(b);
    NextMagnitude(b - 1);
    var v := Magnitude(b);
    assert Midpoint(b) == v + 2.0 * u;
    assert Midpoint(b - 1) == v - (if MmShift(b) == 0 then u else 2.0 * u);
    Shift(Mv(b), 2, u);
    Shift(Mv(b), -1, u);
    Shift(Mv(b), -2, u);
  }

  lemma MagnitudeInQuarters(b: nat)
    requires 0 < b
    ensures Magnitude(b) == Mv(b) as real * Exp(2, E2(b))
  {
    hide Exp, Significand, UnitExponent;
    ExpStep(2, E2(b));
    ExpStep(2, E2(b) + 1);
    Spread(Significand(b), Exp(2, UnitExponent(b)), Exp(2, E2(b)));
  }

  lemma UnitInQuarters(b: nat)
    requires 0 < b
    ensures Exp(2, UnitExponent(b)) == 4.0 * Exp(2, E2(b))
    ensures Exp(2, UnitExponent(b - 1)) == (if MmShift(b) == 0 then 2.0 else 4.0) * Exp(2, E2(b))
  {
    ExpStep(2, E2(b));
    ExpStep(2, E2(b) + 1);
    PreviousUnit(b);
  }

  lemma Spread(s: nat, unit: real, u: real)
    requires unit == 4.0 * u
    ensures s as real * unit == (4 * s) as real * u
  {
    assert (4 * s) as real == 4.0 * s as real;
  }

  lemma Shift(x: int, y: int, u: real)
    ensures (x + y) as real * u == x as real * u + y as real * u
  {}

  /** The unit below a power of two is half as large, except at the subnormals. */
  lemma PreviousUnit(b: nat)
    requires 0 < b
    ensures UnitExponent(b - 1) == UnitExponent(b) - 1 + MmShift(b)
  {
    var e, m := BiasedExponent(b), Mantissa(b);
    assert b == e * TWO52 + m;
    if m != 0 {
      assert BiasedExponent(b - 1) == e;
    } else {
      assert BiasedExponent(b - 1) == e - 1;
    }
  }

  // ---------- seventeen digits are enough ----------

  lemma SeventeenDigits(d: FloatingDecimal, b: nat)
    requires 0 < b < INFINITY && Shortest(d, b)
    ensures d.mantissa < TEN17
  {
    if d.mantissa >= TEN17 {
      var e := CoarserDecimal(d, b);
    }
  }

  /** Around 18 digits a decimal with one digit less is always available. */
  lemma CoarserDecimal(d: FloatingDecimal, b: nat) returns (e: FloatingDecimal)
    requires 0 < b < INFINITY && InInterval(d, b) && d.mantissa >= TEN17
    ensures e.exponent == d.exponent + 1 && InInterval(e, b)
  {
    hide Midpoint, Exp, FloatingDecimal.Value;
    var t := Exp(10, d.exponent);
    AtLeastTen17(d);
    IntervalWidth(b, t);
    MidpointNonNegative(b - 1);
    ExpStep(10, d.exponent);
    var c := MultipleBetween(Midpoint(b - 1), Midpoint(b), Exp(10, d.exponent + 1));
    e := FloatingDecimal(c, d.exponent + 1);
    ValueOf(e);
  }

  lemma ValueOf(d: FloatingDecimal)
    ensures d.Value() == d.mantissa as real * Exp(10, d.exponent)
  {}

  lemma AtLeastTen17(d: FloatingDecimal)
    requires d.mantissa >= TEN17
    ensures Exp(10, d.exponent) > 0.0 && TEN17 as real * Exp(10, d.exponent) <= d.Value()
  {
    hide Exp, FloatingDecimal.Value;
    ExpPositive(10, d.exponent);
    ValueOf(d);
    RealAtMost(TEN17 as real, d.mantissa as real, Exp(10, d.exponent));
  }

  /** The interval is wider than ten parts in 10^17 of its upper end. */
  lemma IntervalWidth(b: nat, t: real)
    requires 0 < b < INFINITY
    requires TEN17 as real * t < Midpoint(b)
    ensures Midpoint(b) - Midpoint(b - 1) > 10.0 * t
  {
    hide Midpoint, Exp, Mm, Mp;
    IntegerWidth(b);
    IntervalEnds(b);
    ExpPositive(2, E2(b));
    WidthFromRatio(Mm(b), Mp(b), Exp(2, E2(b)), t);
  }

  lemma IntegerWidth(b: nat)
    requires 0 < b < INFINITY
    ensures 10 * Mp(b) < (Mp(b) - Mm(b)) * TEN17
  {
    SignificandRange(b);
  }

  lemma WidthFromRatio(m: int, p: int, u: real, t: real)
    requires u > 0.0 && 10 * p < (p - m) * TEN17
    requires TEN17 as real * t < p as real * u
    ensures p as real * u - m as real * u > 10.0 * t
  {
    var w := p - m;
    Shift(m, w, u);
    RealMulLess((10 * p) as real, (w * TEN17) as real, u);
    assert (10 * p) as real * u == 10.0 * (p as real * u);
    assert (w * TEN17) as real * u == TEN17 as real * (w as real * u);
  }

  /** An open interval of non-negative reals wider than `w` holds a multiple of `w`. */
  lemma MultipleBetween(x: real, y: real, w: real) returns (c: nat)
    requires 0.0 <= x && w > 0.0 && y - x > w
    ensures x < c as real * w < y
  {
    var q := x / w;
    NonNegativeQuotient(x, w);
    c := q.Floor + 1;
    RealMulLess(q, c as real, w);
    JustAbove(q, c as real, w);
  }

  lemma JustAbove(q: real, r: real, w: real)
    requires w > 0.0 && r <= q + 1.0
    ensures r * w <= q * w + w
  {
    RealAtMost(r, q + 1.0, w);
    assert (q + 1.0) * w == q * w + w;
  }

  lemma NonNegativeQuotient(x: real, w: real)
    requires x >= 0.0 && w > 0.0
    ensures x / w >= 0.0 && x / w * w == x
  {}
}
