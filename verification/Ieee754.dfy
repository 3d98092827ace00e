/** Finite binary64 magnitudes, after sections 3.4 and 4.3.1 of IEEE 754-2019.
    A non-negative double is named by its 63 low bits: the biased exponent above the 52
    mantissa bits. Reading the bits as a number gives the order of the magnitudes. */
module Ieee754 {
  import opened Powers

  const TWO52: nat := 0x10_0000_0000_0000

  /** The bits of +infinity. As a magnitude it stands for 2^1024, the overflow step. */
  const INFINITY: nat := 2047 * TWO52

  function BiasedExponent(b: nat): nat { b / TWO52 }

  function Mantissa(b: nat): nat { b % TWO52 }

  function Significand(b: nat): nat {
    if BiasedExponent(b) == 0 then Mantissa(b) else TWO52 + Mantissa(b)
  }

  /** The power of two the significand is multiplied by; subnormals share the lowest one. */
  function UnitExponent(b: nat): int {
    (if BiasedExponent(b) == 0 then 1 else BiasedExponent(b)) - 1075
  }

  function Magnitude(b: nat): real {
    Significand(b) as real * Exp(2, UnitExponent(b))
  }

  /** Halfway between a magnitude and the next one. */
  function Midpoint(b: nat): real {
    (Magnitude(b) + Magnitude(b + 1)) / 2.0
  }

  /** Neighbouring magnitudes are one unit in the last place apart. */
  lemma NextMagnitude(b: nat)
    ensures Magnitude(b + 1) == Magnitude(b) + Exp(2, UnitExponent(b))
    ensures Magnitude(b) < Midpoint(b) < Magnitude(b + 1)
  {
    hide Exp, Significand, UnitExponent;
    NextSignificand(b);
    var e, f := UnitExponent(b), UnitExponent(b + 1);
    ExpPositive(2, e);
    if f == e {
      AddOne(Significand(b) as real, Exp(2, e));
    } else {
      ExpStep(2, e);
      Halve(Significand(b + 1) as real, Exp(2, e));
    }
  }

  lemma AddOne(x: real, u: real)
    ensures (x + 1.0) * u == x * u + u
  {}

  lemma Halve(x: real, u: real)
    ensures x * (2.0 * u) == (2.0 * x - 1.0) * u + u
  {}

  /** Counting up the bits adds one to the significand, or doubles the unit at a power of two. */
  lemma NextSignificand(b: nat)
    ensures
      || (UnitExponent(b + 1) == UnitExponent(b) && Significand(b + 1) == Significand(b) + 1)
      || (UnitExponent(b + 1) == UnitExponent(b) + 1 && 2 * Significand(b + 1) == Significand(b) + 1)
  {
    var e, m := BiasedExponent(b), Mantissa(b);
    assert b == e * TWO52 + m;
    if m + 1 < TWO52 {
      assert BiasedExponent(b + 1) == e && Mantissa(b + 1) == m + 1;
    } else {
      assert BiasedExponent(b + 1) == e + 1 && Mantissa(b + 1) == 0;
    }
  }

  lemma {:induction false} MagnitudeMonotone(b: nat, c: nat)
    requires b < c
    ensures Magnitude(b) < Magnitude(c)
    decreases c
  {
    NextMagnitude(c - 1);
    if b < c - 1 {
      MagnitudeMonotone(b, c - 1);
    }
  }

  lemma MagnitudeNonNegative(b: nat)
    ensures Magnitude(b) >= 0.0
  {
    ExpPositive(2, UnitExponent(b));
    NonNegativeProduct(Significand(b) as real, Exp(2, UnitExponent(b)));
  }

  lemma NonNegativeProduct(x: real, y: real)
    requires x >= 0.0 && y >= 0.0
    ensures x * y >= 0.0
  {}

  // ---------- round to nearest, ties to even ----------

  function Distance(x: real, y: real): real {
    if x < y then y - x else x - y
  }

  /** `b` is at least as near to `x` as `c`, and nearer unless `b` wins the tie by being even. */
  predicate Preferred(x: real, b: nat, c: nat) {
    var p, q := Distance(x, Magnitude(b)), Distance(x, Magnitude(c));
    p < q || (p == q && b % 2 == 0)
  }

  /** The result of roundTiesToEven on a non-negative exact value. */
  ghost predicate RoundsTo(x: real, b: nat) {
    if x >= Midpoint(INFINITY - 1) then
      b == INFINITY
    else
      b < INFINITY && forall c: nat | c < INFINITY && c != b :: Preferred(x, b, c)
  }

  lemma RoundingIsUnique(x: real, b: nat, c: nat)
    requires RoundsTo(x, b) && RoundsTo(x, c)
    ensures b == c
  {
    hide Magnitude, Midpoint;
    if x < Midpoint(INFINITY - 1) && b != c {
      assert Preferred(x, b, c) && Preferred(x, c, b);
      var lo, hi := if b < c then b else c, if b < c then c else b;
      var mid := lo + 1;  // odd, because both ends won the tie
      assert mid != b && mid < INFINITY ==> Preferred(x, b, mid);
      MagnitudeMonotone(lo, hi);
      MagnitudeMonotone(lo, mid);
      if mid < hi {
        MagnitudeMonotone(mid, hi);
      }
    }
  }

  /** A value strictly between the two midpoints around `b` is read as `b`. */
  lemma InsideRoundsTo(x: real, b: nat)
    requires 0 < b < INFINITY
    requires Midpoint(b - 1) < x < Midpoint(b)
    ensures RoundsTo(x, b)
  {
    hide Magnitude;
    MidpointMonotone(b, INFINITY - 1);
    forall c: nat | c < INFINITY && c != b
      ensures Preferred(x, b, c)
    {
      if c < b {
        MagnitudeAtMost(c, b - 1);
        MagnitudeMonotone(b - 1, b);
      } else {
        MagnitudeAtMost(b + 1, c);
        MagnitudeMonotone(b, b + 1);
      }
    }
  }

  /** Exactly the values read as `b`: those between the midpoints, and both midpoints when `b` is
      even. */
  lemma RoundsToIff(x: real, b: nat)
    requires 0 < b < INFINITY
    ensures RoundsTo(x, b) <==>
            Midpoint(b - 1) < x < Midpoint(b) || (b % 2 == 0 && (x == Midpoint(b - 1) || x == Midpoint(b)))
  {
    hide Magnitude;
    NextMagnitude(b - 1);
    NextMagnitude(b);
    if RoundsTo(x, b) {
      NeighboursLose(x, b);
    } else if Midpoint(b - 1) < x < Midpoint(b) {
      InsideRoundsTo(x, b);
    } else if b % 2 == 0 && (x == Midpoint(b - 1) || x == Midpoint(b)) {
      TieRoundsToEven(x, b);
    }
  }

  lemma NeighboursLose(x: real, b: nat)
    requires 0 < b < INFINITY && RoundsTo(x, b)
    ensures Preferred(x, b, b - 1)
    ensures if b + 1 < INFINITY then Preferred(x, b, b + 1) else x < Midpoint(b)
  {
    hide Magnitude, Midpoint, Preferred;
  }

  lemma TieRoundsToEven(x: real, b: nat)
    requires 0 < b < INFINITY && b % 2 == 0
    requires x == Midpoint(b - 1) || x == Midpoint(b)
    ensures RoundsTo(x, b)
  {
    hide Magnitude;
    assert b + 1 < INFINITY;
    NextMagnitude(b - 1);
    NextMagnitude(b);
    NextMagnitude(b + 1);
    MidpointMonotone(b + 1, INFINITY - 1);
    forall c: nat | c < INFINITY && c != b
      ensures Preferred(x, b, c)
    {
      if c < b { MagnitudeAtMost(c, b - 1); } else { MagnitudeAtMost(b + 1, c); }
    }
  }

  lemma MagnitudeAtMost(b: nat, c: nat)
    requires b <= c
    ensures Magnitude(b) <= Magnitude(c)
  {
    if b < c { MagnitudeMonotone(b, c); }
  }

  lemma MidpointMonotone(b: nat, c: nat)
    requires b <= c
    ensures Midpoint(b) <= Midpoint(c)
  {
    MagnitudeAtMost(b, c);
    MagnitudeAtMost(b + 1, c + 1);
  }
}
