/** Step 3 of the printing algorithm: which integers `d2d` hands to the digit-removal loops. The
    128-bit table multiplication is taken at its specification, the exact integer quotient. */
module RyuScaling {
  import opened Powers
  import opened DigitRemoval

  // ---------- logarithms, by what they return ----------

  /** The largest `k` with `10^k <= x`. */
  function FloorLog10(x: nat): nat {
    if x < 10 then 0 else 1 + FloorLog10(x / 10)
  }

  lemma {:induction false} FloorLog10Brackets(x: nat)
    requires x > 0
    ensures Pow(10, FloorLog10(x)) <= x < 10 * Pow(10, FloorLog10(x))
  {
    if x >= 10 {
      FloorLog10Brackets(x / 10);
    }
  }

  function Log10Pow2(e: nat): nat { FloorLog10(Pow(2, e)) }

  function Log10Pow5(e: nat): nat { FloorLog10(Pow(5, e)) }

  // ---------- divisibility tests ----------

  /** How many times five divides a value. */
  method Pow5Factor(value: nat) returns (count: nat)
    requires value != 0
    ensures Divides(Pow(5, count), value) && !Divides(Pow(5, count + 1), value)
  {
    var v := value;
    count := 0;
    assert value == v * Pow(5, 0);
    while v % 5 == 0
      invariant v > 0 && value == v * Pow(5, count)
      decreases v
    {
      assert v == 5 * (v / 5);
      MulAssociative(v / 5, 5, Pow(5, count));
      v, count := v / 5, count + 1;
    }
    PowPositive(5, count);
    if Divides(Pow(5, count + 1), value) {
      assert Divides(5 * Pow(5, count), v * Pow(5, count));
      DividesCancel(5, v, Pow(5, count));
      DividesIffMod(5, v);
    }
  }

  lemma {:induction false} SmallerPowerDivides(b: nat, p: nat, q: nat, x: int)
    requires p <= q && Divides(Pow(b, q), x)
    ensures Divides(Pow(b, p), x)
  {
    PowAdd(b, p, q - p);
    DividesFactor(Pow(b, p), Pow(b, q - p), x);
  }

  method MultipleOfPowerOf5(value: nat, p: nat) returns (r: bool)
    requires value != 0
    ensures r <==> Divides(Pow(5, p), value)
  {
    var count := Pow5Factor(value);
    r := count >= p;
    if r {
      SmallerPowerDivides(5, p, count, value);
    } else if Divides(Pow(5, p), value) {
      SmallerPowerDivides(5, count + 1, p, value);
    }
  }

  /** The low-bits mask test of the source, as a remainder. */
  predicate MultipleOfPowerOf2(value: nat, p: nat) {
    PowPositive(2, p);
    value % Pow(2, p) == 0
  }

  // ---------- facts shared by both signs of the exponent ----------

  /** The interval is wide enough in units of the denominator. */
  lemma Widths(mv: nat, mm: nat, num: nat, den: nat)
    requires 2 < mv && mv - 2 <= mm <= mv - 1
    requires 0 < den <= num && (den > 1 ==> 10 * den <= num)
    ensures var lo, mid, hi := mm * num, mv * num, (mv + 2) * num;
      && 0 < lo < mid < hi && mid - lo <= hi - mid && den <= mid - lo
      && (den > 1 ==> lo + 30 * den <= hi)
  {
    assert (mv + 2) * num == mv * num + 2 * num;
    assert (mv - 1) * num == mv * num - num;
    assert (mv - 2) * num == mv * num - 2 * num;
    MulPositive(mm, num);
  }

  /** Stepping below an exact quotient. */
  lemma JustBelow(hi: nat, den: nat)
    requires den > 0 && hi > 0
    ensures (hi - 1) / den == if Divides(den, hi) then hi / den - 1 else hi / den
  {
    DividesIffMod(den, hi);
    Quotient(hi, den);
    var q := hi / den;
    if hi % den == 0 {
      assert (q - 1 + 1) * den == hi && (q - 1) * den == hi - den;
      DivUnique(hi - 1, den, q - 1);
    } else {
      assert (q + 1) * den == q * den + den;
      DivUnique(hi - 1, den, q);
    }
  }

  lemma SmallFacts()
    ensures Pow(5, 23) == 11920928955078125
    ensures Pow(5, 24) == 59604644775390625
    ensures Pow(2, 62) == 0x4000_0000_0000_0000
  {
    assert Pow(5, 6) == 15625;
    PowAdd(5, 6, 6);
    PowAdd(5, 12, 6);
    assert Pow(5, 5) == 3125;
    PowAdd(5, 18, 5);
    assert Pow(2, 6) == 64;
    assert Pow(2, 8) == 256;
    PowAdd(2, 8, 8);
    PowAdd(2, 16, 16);
    PowAdd(2, 32, 16);
    PowAdd(2, 48, 8);
    PowAdd(2, 56, 6);
  }

  lemma TinyFacts()
    ensures Pow(2, 0) == 1 && Pow(2, 1) == 2 && Pow(2, 2) == 4 && Pow(2, 3) == 8 && Pow(2, 4) == 16
    ensures Pow(5, 0) == 1 && Pow(5, 1) == 5 && Pow(5, 2) == 25
    ensures Pow(10, 0) == 1 && Pow(10, 1) == 10 && Pow(10, 2) == 100
  {}

  // ---------- non-negative exponents ----------

  const MAX_MV: nat := 4 * 0x20_0000_0000_0000

  /** The quotient 2^e2 / 10^q, cleared of its common twos, lies between 10 and 100. */
  lemma RatioUp(e2: nat)
    ensures var q := Log10Pow2(e2) - (if e2 > 3 then 1 else 0);
      && 0 <= q <= e2
      && 0 < Pow(5, q) <= Pow(2, e2 - q) < 100 * Pow(5, q)
      && (Pow(5, q) > 1 ==> 10 * Pow(5, q) <= Pow(2, e2 - q))
  {
    hide Pow, FloorLog10;
    TinyFacts();
    assert Log10Pow2(e2) >= 1 || e2 <= 3 by { LogAtLeastOne(2, 4, e2); }
    var q: nat := Log10Pow2(e2) - (if e2 > 3 then 1 else 0);
    var x := Pow(2, e2);
    PowPositive(2, e2);
    FloorLog10Brackets(x);
    PowersOfTen(q);
    if e2 <= 3 {
      PowMonotone(2, e2, 3);
      assert q == 0 by { SmallLog(x); }
      PowPositive(2, e2 - q);
    } else {
      PowStep(10, q + 1);
      assert 10 * Pow(10, q) <= x < 100 * Pow(10, q);
      FewerThanTwos(e2, q);
      PowAdd(2, q, e2 - q);
      RatioCancel(Pow(2, q), Pow(5, q), Pow(2, e2 - q));
    }
  }

  lemma SmallLog(x: nat)
    requires x < 10
    ensures FloorLog10(x) == 0
  {}

  lemma LogAtLeastOne(b: nat, k: nat, e: nat)
    requires b > 0 && Pow(b, k) >= 10
    ensures e >= k ==> FloorLog10(Pow(b, e)) >= 1
  {
    if e >= k { PowMonotone(b, k, e); }
  }

  lemma FewerThanTwos(e: nat, q: nat)
    requires Pow(10, q) <= Pow(2, e)
    ensures q <= e
  {
    PowersOfTen(e);
    MulAtMost(1, Pow(5, e), Pow(2, e));
    if q > e {
      PowMonotone(10, e + 1, q);
    }
  }

  lemma FewerThanFives(e: nat, q: nat)
    requires 10 * Pow(10, q) <= Pow(5, e)
    ensures q < e
  {
    PowersOfTen(e);
    MulAtMost(1, Pow(2, e), Pow(5, e));
    if q >= e {
      PowMonotone(10, e, q);
    }
  }

  lemma RatioCancel(f: nat, den: nat, num: nat)
    requires f > 0 && 10 * (f * den) <= f * num < 100 * (f * den)
    ensures 10 * den <= num < 100 * den
  {
    assert 10 * (f * den) == (10 * den) * f && 100 * (f * den) == (100 * den) * f;
    if num < 10 * den { MulLess(num, 10 * den, f); }
    if num >= 100 * den { MulAtMost(100 * den, num, f); }
  }

  /** What the code's adjustment of `vp` achieves when e2 >= 0. */
  lemma UpperUp(mv: nat, num: nat, t: nat, q: nat, den: nat, lo: nat, hi: nat, vm: nat, vp: nat, decremented: bool)
    requires mv % 4 == 0 && 0 < mv < MAX_MV
    requires num == Pow(2, t) && den == Pow(5, q) && num > 0 && den > 0 && hi == (mv + 2) * num && hi > 0
    requires decremented <==> q <= 21 && mv % 5 != 0 && Divides(den, mv + 2)
    requires vp == hi / den - (if decremented then 1 else 0)
    requires den > 1 ==> lo + 30 * den <= hi
    requires vm == lo / den
    ensures UpperBoundOk(hi, den, vm, vp)
  {
    hide Pow;
    JustBelow(hi, den);
    if Divides(den, hi) {
      FivesIgnoreTwos(q, mv + 2, t);
      if !decremented {
        if q <= 21 {
          ExactUpperSmall(mv, num, t, q, den, hi, vp);
        } else {
          ExactUpperLarge(mv, num, t, q, den, lo, hi, vm, vp);
        }
      }
    } else if decremented {
      DividesMultiple(den, mv + 2, num);
    }
  }

  /** When five divides mv the untouched exact bound cannot end in a zero. */
  lemma ExactUpperSmall(mv: nat, num: nat, t: nat, q: nat, den: nat, hi: nat, vp: nat)
    requires num == Pow(2, t) && den == Pow(5, q) && den > 0 && hi == (mv + 2) * num
    requires mv % 5 == 0 && Divides(den, mv + 2) && vp == hi / den
    ensures vp % 10 != 0
  {
    assert Pow(5, 1) == 5;
    if q > 0 {
      SmallerPowerDivides(5, 1, q, mv + 2);
      DividesIffMod(5, mv + 2);
    } else if vp % 10 == 0 {
      assert Pow(10, 1) == 10;
      FivesOfUpper(mv + 2, 0, t, vp, 1);
      DividesIffMod(5, mv + 2);
    }
  }

  /** Beyond 5^21 an exact bound can end in at most one zero, and that zero changes nothing. */
  lemma ExactUpperLarge(mv: nat, num: nat, t: nat, q: nat, den: nat, lo: nat, hi: nat, vm: nat, vp: nat)
    requires mv % 4 == 0 && 0 < mv < MAX_MV && q > 21
    requires num == Pow(2, t) && den == Pow(5, q) && den > 0 && hi == (mv + 2) * num
    requires Divides(den, hi) && vp == hi / den && vm == lo / den
    requires den > 1 ==> lo + 30 * den <= hi
    ensures vp % 100 != 0 && vp >= vm + 30
  {
    assert den == 5 * Pow(5, q - 1);
    DividesIffMod(den, hi);
    Quotient(hi, den);
    Quotient(lo, den);
    GapInUnits(vm, vp, den, lo, hi);
    if vp % 100 == 0 {
      assert Pow(10, 2) == 100;
      FivesOfUpper(mv + 2, q, t, vp, 2);
      SmallerPowerDivides(5, 24, q + 2, mv + 2);
      SmallFacts();
      DividesAtMost(Pow(5, 24), mv + 2);
    }
  }

  lemma GapInUnits(vm: nat, vp: nat, den: nat, lo: nat, hi: nat)
    requires den > 0 && vm * den <= lo && vp * den == hi && lo + 30 * den <= hi
    ensures vp >= vm + 30
  {
    assert (vm + 30) * den == vm * den + 30 * den;
    if vp < vm + 30 { MulLess(vp, vm + 30, den); }
  }

  /** A further factor 10^j in an exact upper bound is a further factor 5^j in mv + 2. */
  lemma FivesOfUpper(mp: nat, q: nat, t: nat, vp: nat, j: nat)
    requires mp * Pow(2, t) == vp * Pow(5, q)
    requires Pow(10, j) > 0 && vp % Pow(10, j) == 0
    ensures Divides(Pow(5, q + j), mp)
  {
    PowersOfTen(j);
    DividesIffMod(Pow(10, j), vp);
    DividesFactor(Pow(2, j), Pow(5, j), vp);
    SelfDivides(Pow(5, q));
    DividesProduct(Pow(5, j), vp, Pow(5, q), Pow(5, q));
    PowAdd(5, j, q);
    FivesIgnoreTwos(q + j, mp, t);
  }

  lemma SelfDivides(x: int)
    ensures Divides(x, x)
  {
    assert x == 1 * x;
  }

  /** What the code's flag says about the exact value when e2 >= 0. */
  lemma ExactUp(mv: nat, e2: nat, q: nat, exact: bool)
    requires q <= e2 && mv % 4 == 0 && 0 < mv < MAX_MV
    requires exact <==> q <= 21 && mv % 5 == 0 && Divides(Pow(5, q), mv)
    ensures Pow(5, q) > 0
    ensures ExactnessOk(mv * Pow(2, e2 - q), Pow(5, q), exact)
  {
    var num, den := Pow(2, e2 - q), Pow(5, q);
    var mid := mv * num;
    PowPositive(5, q);
    DividesIffMod(5 * den, mid);
    DividesIffMod(den, mid);
    if Divides(5 * den, mid) {
      assert Pow(5, q + 1) == 5 * den;
      FivesIgnoreTwos(q + 1, mv, e2 - q);
      SmallerPowerDivides(5, q, q + 1, mv);
      SmallerPowerDivides(5, 1, q + 1, mv);
      assert Pow(5, 1) == 5;
      DividesIffMod(5, mv);
      if q > 21 {
        SmallerPowerDivides(5, 23, q + 1, mv);
        assert mv == (mv / 4) * Pow(2, 2) by { SmallFacts(); }
        FivesIgnoreTwos(23, mv / 4, 2);
        SmallFacts();
        DividesAtMost(Pow(5, 23), mv / 4);
        assert false;
      }
    }
    if exact {
      DividesMultiple(den, mv, num);
    }
  }

  // ---------- negative exponents ----------

  /** The quotient 5^n / 10^q, cleared of its common fives, lies between 10 and 100. */
  lemma RatioDown(n: nat)
    requires n > 0
    ensures var q := Log10Pow5(n) - (if n > 1 then 1 else 0);
      && 0 <= q < n
      && 0 < Pow(2, q) <= Pow(5, n - q) < 100 * Pow(2, q)
      && (Pow(2, q) > 1 ==> 10 * Pow(2, q) <= Pow(5, n - q))
  {
    hide Pow, FloorLog10;
    TinyFacts();
    assert Log10Pow5(n) >= 1 || n <= 1 by { LogAtLeastOne(5, 2, n); }
    var q: nat := Log10Pow5(n) - (if n > 1 then 1 else 0);
    var x := Pow(5, n);
    PowPositive(5, n);
    FloorLog10Brackets(x);
    PowersOfTen(q);
    if n == 1 {
      assert q == 0 by { SmallLog(x); }
    } else {
      PowStep(10, q + 1);
      assert 10 * Pow(10, q) <= x < 100 * Pow(10, q);
      FewerThanFives(n, q);
      PowAdd(5, q, n - q);
      assert Pow(10, q) == Pow(5, q) * Pow(2, q);
      RatioCancel(Pow(5, q), Pow(2, q), Pow(5, n - q));
    }
  }

  /** What the code's adjustment of `vp` achieves when e2 < 0. */
  lemma UpperDown(mv: nat, num: nat, i: nat, q: nat, den: nat, hi: nat, vm: nat, vp: nat)
    requires mv % 4 == 0
    requires num == Pow(5, i) && den == Pow(2, q) && den > 0 && hi == (mv + 2) * num && hi > 0
    requires vp == hi / den - (if q <= 1 then 1 else 0)
    ensures UpperBoundOk(hi, den, vm, vp)
  {
    hide Pow, Divides, UpperBoundOk;
    JustBelow(hi, den);
    if q <= 1 {
      EvenUpper(mv, num, q);
    } else {
      OnlyOneTwo(mv, i, q);
    }
    BelowIsOk(hi, den, vm, vp);
  }

  lemma BelowIsOk(hi: nat, den: nat, vm: nat, vp: nat)
    requires hi > 0 && den > 0 && vp == (hi - 1) / den
    ensures UpperBoundOk(hi, den, vm, vp)
  {}

  lemma EvenUpper(mv: nat, num: nat, q: nat)
    requires mv % 4 == 0 && q <= 1
    ensures Divides(Pow(2, q), (mv + 2) * num)
  {
    hide Pow, Divides;
    EvenTimes(mv + 2, 2 * (mv / 4) + 1, num, q);
  }

  lemma EvenTimes(x: nat, half: nat, num: nat, q: nat)
    requires x == 2 * half && q <= 1
    ensures Divides(Pow(2, q), x * num)
  {
    hide Pow, Divides;
    TinyFacts();
    if q == 0 {
      DividesByOne(x * num);
    } else {
      DividesWitness(2, x, half);
      DividesMultiple(2, x, num);
    }
  }

  lemma OnlyOneTwo(mv: nat, i: nat, q: nat)
    requires mv % 4 == 0 && q > 1
    ensures !Divides(Pow(2, q), (mv + 2) * Pow(5, i))
  {
    hide Pow, Divides;
    if Divides(Pow(2, q), (mv + 2) * Pow(5, i)) {
      TwosIgnoreFives(q, mv + 2, i);
      SmallerPowerDivides(2, 2, q, mv + 2);
      TinyFacts();
      DividesIffMod(4, mv + 2);
    }
  }

  /** What the code's flag says about the exact value when e2 < 0: it tests one power of two too
      few, and the odd half it lets through is 2 modulo 5. */
  lemma ExactDown(mv: nat, n: nat, q: nat, exact: bool)
    requires q < n && mv % 4 == 0 && 0 < mv < MAX_MV
    requires exact <==> q <= 1 || (q < 63 && MultipleOfPowerOf2(mv, q - 1))
    ensures Pow(2, q) > 0
    ensures ExactnessOk(mv * Pow(5, n - q), Pow(2, q), exact)
  {
    hide Pow, Divides, MultipleOfPowerOf2;
    var num, den := Pow(5, n - q), Pow(2, q);
    PowPositive(2, q);
    DividesIffMod(5 * den, mv * num);
    if Divides(5 * den, mv * num) {
      DividesFactor(5, den, mv * num);
      TwosIgnoreFives(q, mv, n - q);
      TwosBelow(mv, q);
    }
    if exact {
      ExactOrHalf(mv, n - q, q);
    }
  }

  lemma ExactOrHalf(mv: nat, i: nat, q: nat)
    requires i > 0 && mv % 4 == 0 && (q <= 1 || MultipleOfPowerOf2(mv, q - 1))
    ensures Pow(2, q) > 0
    ensures (mv * Pow(5, i)) % Pow(2, q) == 0 || (mv * Pow(5, i) / Pow(2, q)) % 5 == 2
  {
    hide Pow, Divides;
    PowPositive(2, q);
    if q <= 1 {
      TinyFacts();
      DividesIffMod(Pow(2, q), mv);
      DividesMultiple(Pow(2, q), mv, Pow(5, i));
      DividesIffMod(Pow(2, q), mv * Pow(5, i));
    } else {
      PowStep(2, q);
      PowStep(5, i);
      HalfTested(mv, Pow(2, q - 1), Pow(5, i - 1));
    }
  }

  lemma HalfTested(mv: nat, half: nat, f: nat)
    requires half > 0 && mv % half == 0
    ensures (mv * (5 * f)) % (2 * half) == 0 || (mv * (5 * f) / (2 * half)) % 5 == 2
  {
    Quotient(mv, half);
    QuotientIsNat(mv, half);
    var k := mv / half;
    FiveOut(k, half, f);
    OddHalf(5 * (k * f), half, mv * (5 * f));
  }

  lemma PowStep(b: nat, e: nat)
    requires e > 0
    ensures Pow(b, e) == b * Pow(b, e - 1)
  {}

  lemma TwosBelow(mv: nat, q: nat)
    requires 0 < mv < MAX_MV && Divides(Pow(2, q), mv)
    ensures q < 63
    ensures q > 0 ==> MultipleOfPowerOf2(mv, q - 1)
  {
    hide Pow, Divides;
    if q >= 63 {
      SmallerPowerDivides(2, 62, q, mv);
      SmallFacts();
      DividesAtMost(Pow(2, 62), mv);
    } else if q > 0 {
      SmallerPowerDivides(2, q - 1, q, mv);
      PowPositive(2, q - 1);
      DividesIffMod(Pow(2, q - 1), mv);
    }
  }

  lemma OddHalf(odd: nat, half: nat, mid: nat)
    requires half > 0 && mid == odd * half && odd % 5 == 0
    ensures mid % (2 * half) == 0 || (mid / (2 * half)) % 5 == 2
  {
    var t := odd / 2;
    MulAssociative(t, 2, half);
    if odd % 2 == 0 {
      HalfOf(t, half, 0, mid, odd);
    } else {
      HalfOf(t, half, half, mid, odd);
    }
  }

  lemma HalfOf(t: nat, half: nat, r: nat, mid: nat, odd: nat)
    requires half > 0 && mid == odd * half
    requires (odd == 2 * t && r == 0) || (odd == 2 * t + 1 && r == half)
    ensures mid % (2 * half) == r && mid / (2 * half) == t
  {
    MulAssociative(t, 2, half);
    assert (2 * t + 1) * half == t * (2 * half) + half;
    RemainderIs(mid, 2 * half, t, r);
  }

  lemma FiveOut(k: nat, half: nat, f: nat)
    ensures (k * half) * (5 * f) == 5 * (k * f) * half
  {
    MulAssociative(k, half, 5 * f);
    MulAssociative(half, 5, f);
    MulAssociative(k, f, half);
    MulAssociative(5, k * f, half);
    assert half * (5 * f) == 5 * (f * half);
    assert k * (5 * (f * half)) == 5 * (k * (f * half));
  }
}
