/** `d2d` and `d2d_small_int`: from the bits of a finite double to its shortest decimal. */
module Ryu {
  import opened Powers
  import opened Ieee754
  import opened ShortestDecimal
  import opened RyuInterval
  import opened DigitRemoval
  import opened DigitLoops
  import opened RyuScaling

  // ---------- from scaled integers back to reals ----------

  /** `num / den` is 2^e2 in units of 10^e10. */
  ghost predicate Conversion(e2: int, num: nat, den: nat, e10: int) {
    den > 0 && Exp(2, e2) * den as real == num as real * Exp(10, e10)
  }

  /** One scaled integer step, as a real. */
  ghost function Unit(den: nat, e10: int): real
    requires den > 0
  {
    Exp(10, e10) / den as real
  }

  lemma UnitFacts(e2: int, num: nat, den: nat, e10: int)
    requires Conversion(e2, num, den, e10)
    ensures Unit(den, e10) > 0.0
    ensures den as real * Unit(den, e10) == Exp(10, e10)
    ensures num as real * Unit(den, e10) == Exp(2, e2)
  {
    hide Exp;
    ExpPositive(10, e10);
    UnitArithmetic(num as real, den as real, Exp(10, e10), Exp(2, e2));
  }

  lemma UnitArithmetic(n: real, d: real, t: real, p: real)
    requires d > 0.0 && t > 0.0 && p * d == n * t
    ensures t / d > 0.0 && d * (t / d) == t && n * (t / d) == p
  {
    var u := t / d;
    assert u * d == t;
    assert (n * u) * d == n * (u * d);
    if n * u < p { RealMulLess(n * u, p, d); }
    if p < n * u { RealMulLess(p, n * u, d); }
    if u <= 0.0 { RealAtMost(u, 0.0, d); }
  }

  lemma IntegerMultiple(x: int, y: int, u: real)
    ensures (x * y) as real * u == x as real * (y as real * u)
  {
    assert (x * y) as real == x as real * y as real;
    RealAssociative(x as real, y as real, u);
  }

  lemma RealAssociative(x: real, y: real, z: real)
    ensures (x * y) * z == x * (y * z)
  {}

  /** A binary multiple of 2^e2 counts scaled steps. */
  lemma BinaryInUnits(m: int, e2: int, num: nat, den: nat, e10: int)
    requires Conversion(e2, num, den, e10)
    ensures m as real * Exp(2, e2) == (m * num) as real * Unit(den, e10)
  {
    hide Exp, Unit;
    UnitFacts(e2, num, den, e10);
    IntegerMultiple(m, num, Unit(den, e10));
  }

  /** So does a decimal whose exponent is at least e10. */
  lemma DecimalInUnits(c: nat, r: nat, e2: int, num: nat, den: nat, e10: int)
    requires Conversion(e2, num, den, e10)
    ensures FloatingDecimal(c, e10 + r).Value() == (c * (Pow(10, r) * den)) as real * Unit(den, e10)
  {
    hide Exp, Unit, Pow;
    UnitFacts(e2, num, den, e10);
    var u := Unit(den, e10);
    ExpAdd(10, e10, r);
    ExpPow(10, r);
    IntegerMultiple(Pow(10, r), den, u);
    IntegerMultiple(c, Pow(10, r) * den, u);
    RealCommute(Exp(10, e10), Pow(10, r) as real);
  }

  lemma RealCommute(x: real, y: real)
    ensures x * y == y * x
  {}

  lemma OrderInUnits(x: int, y: int, u: real)
    requires u > 0.0
    ensures x < y <==> x as real * u < y as real * u
  {
    if x < y {
      RealMulLess(x as real, y as real, u);
    } else if y < x {
      RealMulLess(y as real, x as real, u);
    }
  }

  lemma ApartInUnits(x: int, y: int, u: real)
    requires u > 0.0
    ensures Distance(x as real * u, y as real * u) == Apart(x, y) as real * u
  {
    OrderInUnits(x, y, u);
    Shift(x, y - x, u);
    Shift(y, x - y, u);
  }

  lemma BothOrders(lo: int, x: int, hi: int, u: real, lower: real, v: real, upper: real)
    requires u > 0.0 && lower == lo as real * u && v == x as real * u && upper == hi as real * u
    ensures lower < v < upper <==> lo < x < hi
  {
    OrderInUnits(lo, x, u);
    OrderInUnits(x, hi, u);
  }

  lemma InsideMeans(b: nat, d: FloatingDecimal)
    requires b > 0
    ensures InInterval(d, b) <==> Midpoint(b - 1) < d.Value() < Midpoint(b)
  {}

  lemma BetweenMeans(lo: nat, x: int, u: int, hi: nat)
    ensures Between(lo, x, u, hi) <==> lo < x * u < hi
  {}

  /** Being inside the interval is a comparison of scaled integers. */
  lemma InsideInUnits(b: nat, c: nat, r: nat, num: nat, den: nat, e10: int)
    requires 0 < b < INFINITY && den > 0 && Conversion(E2(b), num, den, e10)
    ensures Mm(b) > 0
    ensures InInterval(FloatingDecimal(c, e10 + r), b) <==>
            Between(Mm(b) * num, c, Pow(10, r) * den, Mp(b) * num)
  {
    hide *;
    SignificandRange(b);
    InsideMeans(b, FloatingDecimal(c, e10 + r));
    IntervalEnds(b);
    UnitFacts(E2(b), num, den, e10);
    BinaryInUnits(Mm(b), E2(b), num, den, e10);
    BinaryInUnits(Mp(b), E2(b), num, den, e10);
    DecimalInUnits(c, r, E2(b), num, den, e10);
    BothOrders(Mm(b) * num, c * (Pow(10, r) * den), Mp(b) * num, Unit(den, e10),
               Midpoint(b - 1), FloatingDecimal(c, e10 + r).Value(), Midpoint(b));
    BetweenMeans(Mm(b) * num, c, Pow(10, r) * den, Mp(b) * num);
  }

  lemma DistanceInUnits(b: nat, c: nat, r: nat, num: nat, den: nat, e10: int)
    requires 0 < b < INFINITY && den > 0 && Conversion(E2(b), num, den, e10)
    ensures Distance(FloatingDecimal(c, e10 + r).Value(), Magnitude(b))
         == Apart(c * (Pow(10, r) * den), Mv(b) * num) as real * Unit(den, e10)
  {
    hide Exp, Unit, Pow, Mv, Magnitude, FloatingDecimal.Value;
    IntervalEnds(b);
    UnitFacts(E2(b), num, den, e10);
    BinaryInUnits(Mv(b), E2(b), num, den, e10);
    DecimalInUnits(c, r, E2(b), num, den, e10);
    ApartInUnits(c * (Pow(10, r) * den), Mv(b) * num, Unit(den, e10));
  }

  lemma CloserInUnits(b: nat, c: nat, x: nat, r: nat, num: nat, den: nat, e10: int)
    requires 0 < b < INFINITY && den > 0 && Conversion(E2(b), num, den, e10)
    requires var u, mid := Pow(10, r) * den, Mv(b) * num;
      Apart(c * u, mid) < Apart(x * u, mid) || (Apart(c * u, mid) == Apart(x * u, mid) && c % 2 == 0)
    ensures CloserOrEven(FloatingDecimal(c, e10 + r), FloatingDecimal(x, e10 + r), b)
  {
    hide Exp, Unit, Pow, Mv, Magnitude, FloatingDecimal.Value, Conversion, Apart, Distance;
    UnitFacts(E2(b), num, den, e10);
    DistanceInUnits(b, c, r, num, den, e10);
    DistanceInUnits(b, x, r, num, den, e10);
    var u := Pow(10, r) * den;
    OrderInUnits(Apart(c * u, Mv(b) * num), Apart(x * u, Mv(b) * num), Unit(den, e10));
  }

  lemma OutsideInUnits(b: nat, c: nat, r: nat, j: nat, num: nat, den: nat, e10: int)
    requires 0 < b < INFINITY && den > 0 && Conversion(E2(b), num, den, e10)
    requires Mm(b) > 0
    requires forall x: nat, coarser | coarser == Pow(10, r) * den :: !Between(Mm(b) * num, x, coarser, Mp(b) * num)
    ensures !InInterval(FloatingDecimal(c, e10 + r + j), b)
  {
    hide *;
    InsideInUnits(b, c, r + j, num, den, e10);
    CoarserMultiple(c, r, j, den);
    MultipleOutside(Mm(b) * num, c, Pow(10, r + j) * den, c * Pow(10, j), Pow(10, r) * den, Mp(b) * num);
  }

  /** The outcome of the digit loops, read back as reals, is the specification of printing. */
  lemma StrippedIsShortest(b: nat, num: nat, den: nat, e10: int, output: nat, removed: nat)
    requires 0 < b < INFINITY && den > 0 && Conversion(E2(b), num, den, e10)
    requires Mm(b) > 0 && Stripped(Mm(b) * num, Mv(b) * num, Mp(b) * num, den, output, removed)
    ensures Shortest(FloatingDecimal(output, e10 + removed), b)
  {
    hide Pow, Mm, Mp, Mv, Magnitude, Midpoint, FloatingDecimal.Value, InInterval, Conversion, Between, CloserOrEven,
      Apart;
    var d := FloatingDecimal(output, e10 + removed);
    InsideInUnits(b, output, removed, num, den, e10);
    forall e: FloatingDecimal | e.exponent > d.exponent
      ensures !InInterval(e, b)
    {
      OutsideInUnits(b, e.mantissa, removed + 1, e.exponent - d.exponent - 1, num, den, e10);
    }
    forall e: FloatingDecimal | e.exponent == d.exponent && e != d && InInterval(e, b)
      ensures CloserOrEven(d, e, b)
    {
      InsideInUnits(b, e.mantissa, removed, num, den, e10);
      CloserInUnits(b, output, e.mantissa, removed, num, den, e10);
    }
  }

  lemma MultipleOutside(lo: nat, c: nat, u: nat, x: nat, v: nat, hi: nat)
    requires c * u == x * v && !Between(lo, x, v, hi)
    ensures !Between(lo, c, u, hi)
  {}

  lemma CoarserMultiple(c: nat, r: nat, j: nat, den: nat)
    ensures c * (Pow(10, r + j) * den) == (c * Pow(10, j)) * (Pow(10, r) * den)
  {
    PowAdd(10, r, j);
    var p, q := Pow(10, r), Pow(10, j);
    calc {
      c * ((p * q) * den);
      { assert p * q == q * p; MulAssociative(q, p, den); }
      c * (q * (p * den));
      { MulAssociative(c, q, p * den); }
      (c * q) * (p * den);
    }
  }

  // ---------- steps 2 and 3 ----------

  lemma ConversionUp(e2: nat, q: nat)
    requires q <= e2
    ensures Conversion(e2, Pow(2, e2 - q), Pow(5, q), q)
  {
    hide Pow, Exp;
    PowersOfTen(q);
    PowAdd(2, e2 - q, q);
    ExpPow(2, e2);
    ExpPow(10, q);
    RegroupProducts(Pow(2, e2 - q), Pow(2, q), Pow(5, q));
  }

  lemma RegroupProducts(p: nat, t: nat, f: nat)
    ensures (p * t) as real * f as real == p as real * (t * f) as real
  {
    MulAssociative(p, t, f);
    assert ((p * t) * f) as real == (p * t) as real * f as real;
    assert (p * (t * f)) as real == p as real * (t * f) as real;
  }

  lemma ConversionDown(e2: int, q: nat)
    requires e2 + q <= 0
    ensures Conversion(e2, Pow(5, -(e2 + q)), Pow(2, q), q + e2)
  {
    hide Exp, Pow;
    var i := -(e2 + q);
    PowersOfTen(q);
    ExpAdd(2, e2, q);
    ExpAdd(5, e2 + q, i);
    Exp10Factors(e2 + q);
    ExpPow(2, q);
    ExpPow(5, i);
    ExpStep(5, 0);
    assert e2 + q + i == 0;
    CancelFives(Exp(2, e2 + q), Exp(5, e2 + q), Pow(5, i) as real);
  }

  lemma CancelFives(x: real, y: real, z: real)
    requires y * z == 1.0
    ensures z * (x * y) == x
  {
    assert z * (x * y) == x * (y * z);
  }

  /** `mulShift` by its specification: the exact integer quotient. */
  method MulShift(m: nat, num: nat, den: nat) returns (r: nat)
    requires den > 0
    ensures r == m * num / den
    ensures m * num >= den ==> r >= 1
  {
    QuotientIsNat(m * num, den);
    r := m * num / den;
  }

  /** The interval from `mm` over `mv` to `mv + 2`, times 2^e2, is described by the quotients and the
      flag in units of 10^e10. */
  ghost predicate Describes(mv: nat, mm: nat, e2: int, vm: nat, vr: nat, vp: nat, e10: int, exact: bool) {
    exists num: nat, den: nat ::
      den > 0 && Conversion(e2, num, den, e10) && Scaled(mm * num, mv * num, (mv + 2) * num, den, vm, vr, vp, exact)
  }

  /** The branch for e2 >= 0. */
  method ScaleUp(mv: nat, mm: nat, e2: nat)
      returns (vm: nat, vr: nat, vp: nat, e10: int, vrIsTrailingZeros: bool)
    requires mv % 4 == 0 && 0 < mv < MAX_MV && mv - 2 <= mm <= mv - 1
    ensures Describes(mv, mm, e2, vm, vr, vp, e10, vrIsTrailingZeros)
  {
    hide Pow, Divides, Conversion, UpperBoundOk, ExactnessOk, Log10Pow2;
    RatioUp(e2);
    var q := Log10Pow2(e2) - (if e2 > 3 then 1 else 0);
    ConversionUp(e2, q);
    e10 := q;
    var n, d := Pow(2, e2 - q), Pow(5, q);
    ghost var lo, hi := mm * n, (mv + 2) * n;
    Widths(mv, mm, n, d);
    vp := MulShift(mv + 2, n, d);
    vm := MulShift(mm, n, d);
    vr := MulShift(mv, n, d);
    vrIsTrailingZeros := false;
    ghost var decremented := false;
    if q <= 21 {
      if mv % 5 == 0 {
        vrIsTrailingZeros := MultipleOfPowerOf5(mv, q);
      } else {
        var exactUpper := MultipleOfPowerOf5(mv + 2, q);
        if exactUpper {
          vp := vp - 1;
          decremented := true;
        }
      }
    }
    UpperUp(mv, n, e2 - q, q, d, lo, hi, vm, vp, decremented);
    ExactUp(mv, e2, q, vrIsTrailingZeros);
    assert Scaled(mm * n, mv * n, (mv + 2) * n, d, vm, vr, vp, vrIsTrailingZeros);
  }

  /** The branch for e2 < 0. */
  method ScaleDown(mv: nat, mm: nat, e2: int)
      returns (vm: nat, vr: nat, vp: nat, e10: int, vrIsTrailingZeros: bool)
    requires mv % 4 == 0 && 0 < mv < MAX_MV && mv - 2 <= mm <= mv - 1 && e2 < 0
    ensures Describes(mv, mm, e2, vm, vr, vp, e10, vrIsTrailingZeros)
  {
    hide Pow, Conversion, UpperBoundOk, ExactnessOk, MultipleOfPowerOf2, Log10Pow5;
    RatioDown(-e2);
    var q := Log10Pow5(-e2) - (if -e2 > 1 then 1 else 0);
    ConversionDown(e2, q);
    e10 := q + e2;
    var f, d := Pow(5, -e2 - q), Pow(2, q);
    ghost var hi := (mv + 2) * f;
    Widths(mv, mm, f, d);
    vp := MulShift(mv + 2, f, d);
    vm := MulShift(mm, f, d);
    vr := MulShift(mv, f, d);
    vrIsTrailingZeros := false;
    if q <= 1 {
      vrIsTrailingZeros := true;
      vp := vp - 1;
    } else if q < 63 {
      vrIsTrailingZeros := MultipleOfPowerOf2(mv, q - 1);
    }
    UpperDown(mv, f, -e2 - q, q, d, hi, vm, vp);
    ExactDown(mv, -e2, q, vrIsTrailingZeros);
    assert Scaled(mm * f, mv * f, (mv + 2) * f, d, vm, vr, vp, vrIsTrailingZeros);
  }

  function Bits(ieeeMantissa: nat, ieeeExponent: nat): nat {
    ieeeExponent * TWO52 + ieeeMantissa
  }

  lemma PartsOf(ieeeMantissa: nat, ieeeExponent: nat)
    requires ieeeMantissa < TWO52 && ieeeExponent < 2047 && (ieeeExponent != 0 || ieeeMantissa != 0)
    ensures var b := Bits(ieeeMantissa, ieeeExponent);
      && 0 < b < INFINITY
      && E2(b) == (if ieeeExponent == 0 then 1 else ieeeExponent) - 1023 - 52 - 2
      && Mv(b) == 4 * (if ieeeExponent == 0 then ieeeMantissa else TWO52 + ieeeMantissa)
      && MmShift(b) == if ieeeMantissa != 0 || ieeeExponent <= 1 then 1 else 0
  {
    var b := Bits(ieeeMantissa, ieeeExponent);
    assert BiasedExponent(b) == ieeeExponent && Mantissa(b) == ieeeMantissa;
  }

  /** The shortest, closest decimal inside the rounding interval of a finite nonzero double. */
  method D2D(ieeeMantissa: nat, ieeeExponent: nat) returns (fd: FloatingDecimal)
    requires ieeeMantissa < TWO52 && ieeeExponent < 2047 && (ieeeExponent != 0 || ieeeMantissa != 0)
    ensures 0 < Bits(ieeeMantissa, ieeeExponent) < INFINITY
    ensures Shortest(fd, Bits(ieeeMantissa, ieeeExponent))
  {
    hide Conversion, Scaled, Stripped, Shortest, Bits, E2, Mv, MmShift;
    ghost var b := Bits(ieeeMantissa, ieeeExponent);
    PartsOf(ieeeMantissa, ieeeExponent);
    SignificandRange(b);
    var e2, m2;
    if ieeeExponent == 0 {
      e2, m2 := 1 - 1023 - 52 - 2, ieeeMantissa;
    } else {
      e2, m2 := ieeeExponent - 1023 - 52 - 2, TWO52 + ieeeMantissa;
    }
    var mv := 4 * m2;
    var mmShift := if ieeeMantissa != 0 || ieeeExponent <= 1 then 1 else 0;
    var vm, vr, vp, e10, vrIsTrailingZeros;
    if e2 >= 0 {
      vm, vr, vp, e10, vrIsTrailingZeros := ScaleUp(mv, mv - 1 - mmShift, e2);
    } else {
      vm, vr, vp, e10, vrIsTrailingZeros := ScaleDown(mv, mv - 1 - mmShift, e2);
    }
    ghost var num: nat, den: nat :|
      && den > 0 && Conversion(e2, num, den, e10)
      && Scaled((mv - 1 - mmShift) * num, mv * num, (mv + 2) * num, den, vm, vr, vp, vrIsTrailingZeros);
    var output, removed;
    if vrIsTrailingZeros {
      output, removed := StripGeneral(Mm(b) * num, Mv(b) * num, Mp(b) * num, den, vm, vr, vp, vrIsTrailingZeros);
    } else {
      output, removed := StripCommon(Mm(b) * num, Mv(b) * num, Mp(b) * num, den, vm, vr, vp);
    }
    StrippedIsShortest(b, num, den, e10, output, removed);
    fd := FloatingDecimal(output, e10 + removed);
  }
}
