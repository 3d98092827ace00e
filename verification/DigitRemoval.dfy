/** Step 4 of the printing algorithm: removing decimal digits while the interval allows it, and
    rounding what is left. Everything is stated over the exact numerators `lo < mid < hi` of the
    lower midpoint, the double and the upper midpoint over a common denominator `den`. */
module DigitRemoval {
  import opened Powers

  // ---------- multiples of a unit inside the interval ----------

  /** The first multiple of `u` above `lo` is below `hi`. */
  predicate HasMultiple(lo: nat, hi: nat, u: nat)
    requires u > 0
  {
    (lo / u + 1) * u < hi
  }

  predicate Between(lo: nat, x: int, u: int, hi: nat) {
    lo < x * u < hi
  }

  lemma HasMultipleIff(lo: nat, hi: nat, u: nat)
    requires u > 0
    ensures HasMultiple(lo, hi, u) <==> exists x: nat :: Between(lo, x, u, hi)
  {
    if HasMultiple(lo, hi, u) {
      FirstMultiple(lo, u);
      assert Between(lo, lo / u + 1, u, hi);
    }
    if x: nat :| Between(lo, x, u, hi) {
      AboveLower(lo, x, u, hi);
      MulAtMost(lo / u + 1, x, u);
    }
  }

  lemma FirstMultiple(lo: nat, u: nat)
    requires u > 0
    ensures lo < (lo / u + 1) * u && lo / u + 1 >= 0
  {
    DivBracket(lo, u);
    QuotientIsNat(lo, u);
  }

  lemma AboveLower(lo: nat, x: nat, u: nat, hi: nat)
    requires u > 0 && Between(lo, x, u, hi)
    ensures lo / u < x
  {
    DivBracket(lo, u);
    if x <= lo / u { MulAtMost(x, lo / u, u); }
  }

  lemma WideEnough(lo: nat, hi: nat, u: nat)
    requires u > 0 && lo + u < hi
    ensures HasMultiple(lo, hi, u)
  {
    DivBracket(lo, u);
    assert (lo / u + 1) * u == lo / u * u + u;
  }

  // ---------- the scaled integers of step 3 ----------

  /** `vp` is the largest integer below `hi / den`; or the integer `hi / den` itself, provided
      that removing a digit hides the difference or that one digit can be removed anyway. */
  predicate UpperBoundOk(hi: nat, den: nat, vm: nat, vp: nat)
    requires den > 0 && hi > 0
  {
    var below := (hi - 1) / den;
    || vp == below
    || (vp == below + 1 && (vp % 10 != 0 || (vp % 100 != 0 && vp >= vm + 20)))
  }

  /** `exact` holds whenever the value may be a tie, and means that the value is an integer or
      an integer and a half whose last digit is 2 or 7. */
  predicate ExactnessOk(mid: nat, den: nat, exact: bool)
    requires den > 0
  {
    && (mid % (5 * den) == 0 ==> exact)
    && (exact ==> mid % den == 0 || (mid / den) % 5 == 2)
  }

  /** What step 3 hands to step 4. */
  ghost predicate Scaled(lo: nat, mid: nat, hi: nat, den: nat, vm: nat, vr: nat, vp: nat, exact: bool) {
    && den > 0
    && lo < mid < hi && mid - lo <= hi - mid
    && den <= mid - lo
    && (den > 1 ==> lo + 30 * den <= hi)
    && vm == lo / den && vr == mid / den
    && UpperBoundOk(hi, den, vm, vp)
    && ExactnessOk(mid, den, exact)
  }

  /** The loop's test on the quotients is exactly the existence of a coarser decimal inside. */
  lemma RemovalTest(lo: nat, mid: nat, hi: nat, den: nat, vm: nat, vr: nat, vp: nat, exact: bool, k: nat)
    requires Scaled(lo, mid, hi, den, vm, vr, vp, exact) && k > 0
    ensures Pow(10, k) * den > 0
    ensures vp / Pow(10, k) > vm / Pow(10, k) <==> HasMultiple(lo, hi, Pow(10, k) * den)
  {
    hide Pow;
    var p := Pow(10, k);
    PowPositive(10, k);
    MulPositive(p, den);
    QuotientIsNat(hi - 1, den);
    QuotientIsNat(vm, p);
    UpperQuotients((hi - 1) / den, vm, vp, k);
    CoarserTest(lo, hi, den, vm, p, vm / p + 1);
  }

  lemma CoarserTest(lo: nat, hi: nat, den: nat, vm: nat, p: nat, first: nat)
    requires den > 0 && p > 0 && hi > 0 && vm == lo / den && first == vm / p + 1
    ensures p * den > 0
    ensures HasMultiple(lo, hi, p * den) <==> first <= (hi - 1) / den / p
  {
    MulPositive(p, den);
    DivDiv(lo, den, p);
    assert den * p == p * den;
    MulAssociative(first, p, den);
    StrictlyBelow(first * p, hi, den);
    QuotientIsNat(hi - 1, den);
    AtMostQuotient(first, (hi - 1) / den, p);
  }

  lemma StrictlyBelow(x: int, hi: nat, den: nat)
    requires den > 0 && hi > 0
    ensures x * den < hi <==> x <= (hi - 1) / den
  {
    var q := (hi - 1) / den;
    DivBracket(hi - 1, den);
    if x <= q { MulAtMost(x, q, den); } else { MulAtMost(q + 1, x, den); }
  }

  lemma UpperQuotients(below: nat, vm: nat, vp: nat, k: nat)
    requires k > 0
    requires vp == below || (vp == below + 1 && (vp % 10 != 0 || (vp % 100 != 0 && vp >= vm + 20)))
    ensures Pow(10, k) > 0
    ensures vp / Pow(10, k) == below / Pow(10, k)
         || (vp / Pow(10, k) > vm / Pow(10, k) && below / Pow(10, k) > vm / Pow(10, k))
  {
    PowPositive(10, k);
    if vp != below {
      var f := Pow(10, k - 1);
      PowPositive(10, k - 1);
      assert Pow(10, k) == 10 * f;
      if vp % 10 != 0 {
        SameQuotient(vp, 10, f);
      } else if k == 1 {
        assert f == 1;
      } else {
        var g := Pow(10, k - 2);
        PowPositive(10, k - 2);
        assert f == 10 * g;
        SameQuotient(vp, 100, g);
      }
    }
  }

  lemma SameQuotient(vp: nat, d: nat, f: nat)
    requires d > 1 && f > 0 && vp % d != 0
    ensures d * f > 0 && vp / (d * f) == (vp - 1) / (d * f)
  {
    DivDiv(vp, d, f);
    DivDiv(vp - 1, d, f);
    DivUnique(vp - 1, d, vp / d);
  }

  // ---------- choosing the last digit ----------

  function Apart(x: int, y: int): int {
    if x < y then y - x else x - y
  }

  /** `o` units lie inside, and no other multiple inside is as close, save for an even tie. */
  ghost predicate Closest(lo: nat, mid: nat, hi: nat, u: nat, o: nat) {
    && Between(lo, o, u, hi)
    && forall x: nat | x != o && Between(lo, x, u, hi) ::
         || Apart(o * u, mid) < Apart(x * u, mid)
         || (Apart(o * u, mid) == Apart(x * u, mid) && o % 2 == 0)
  }

  /** Half a unit or more is cut off, ties going to the even quotient. */
  predicate RoundsUp(mid: nat, u: nat)
    requires u > 0
  {
    2 * (mid % u) > u || (2 * (mid % u) == u && (mid / u) % 2 == 1)
  }

  /** Rounding to nearest, and up when the quotient is not above the lower bound, never leaves
      the interval. */
  lemma OutputIsInside(lo: nat, mid: nat, hi: nat, u: nat, o: nat)
    requires u > 0 && lo < mid < hi && mid - lo <= hi - mid && HasMultiple(lo, hi, u)
    requires o == mid / u + (if mid / u == lo / u || RoundsUp(mid, u) then 1 else 0)
    ensures Between(lo, o, u, hi)
    ensures lo / u <= mid / u
  {
    var up := RoundsUp(mid, u);
    FirstMultiple(lo, u);
    Quotient(mid, u);
    Quotient(lo, u);
    InsideOf(mid / u, mid % u, lo / u, lo % u, u, lo, mid, hi, o, up);
  }

  lemma InsideOf(v: nat, cut: nat, vm: nat, lowCut: nat, u: nat, lo: nat, mid: nat, hi: nat, o: nat, up: bool)
    requires u > 0 && lo < mid < hi && mid - lo <= hi - mid && (vm + 1) * u < hi
    requires mid == v * u + cut && cut < u && lo == vm * u + lowCut && lowCut < u
    requires up ==> 2 * cut >= u
    requires o == v + (if v == vm || up then 1 else 0)
    ensures vm <= v && Between(lo, o, u, hi)
  {
    Steps(v, vm, u);
    Steps(vm, v, u);
    assert (v + 1) * u == v * u + u;
    assert (vm + 1) * u == vm * u + u;
  }

  lemma OutputIsClosest(lo: nat, mid: nat, hi: nat, u: nat, o: nat)
    requires u > 0 && lo < mid < hi && mid - lo <= hi - mid && HasMultiple(lo, hi, u)
    requires o == mid / u + (if mid / u == lo / u || RoundsUp(mid, u) then 1 else 0)
    ensures Closest(lo, mid, hi, u, o)
  {
    OutputIsInside(lo, mid, hi, u, o);
    var up := RoundsUp(mid, u);
    Quotient(mid, u);
    QuotientIsNat(mid, u);
    QuotientIsNat(lo, u);
    hide RoundsUp, HasMultiple, Between, Apart;
    forall x: nat | x != o && Between(lo, x, u, hi)
      ensures || Apart(o * u, mid) < Apart(x * u, mid)
              || (Apart(o * u, mid) == Apart(x * u, mid) && o % 2 == 0)
    {
      AboveLower(lo, x, u, hi);
      NoCloser(mid / u, mid % u, lo / u, o, x, u, mid, up);
    }
  }

  /** The comparison behind OutputIsClosest, with quotient and remainder named. */
  lemma NoCloser(v: nat, cut: nat, vm: nat, o: nat, x: nat, u: nat, mid: nat, up: bool)
    requires u > 0 && mid == v * u + cut && cut < u && vm <= v && vm < x && x != o
    requires up <==> (2 * cut > u || (2 * cut == u && v % 2 == 1))
    requires o == v + (if v == vm || up then 1 else 0)
    ensures Apart(o * u, mid) < Apart(x * u, mid) || (Apart(o * u, mid) == Apart(x * u, mid) && o % 2 == 0)
  {
    Steps(v, o, u);
    Steps(v, x, u);
  }

  /** Where a multiple lies relative to the ones around `v` units. */
  lemma Steps(v: nat, x: nat, u: nat)
    requires u > 0
    ensures x == v ==> x * u == v * u
    ensures x == v + 1 ==> x * u == v * u + u
    ensures x < v ==> x * u <= v * u - u
    ensures x > v + 1 ==> x * u >= v * u + 2 * u
  {
    assert (v + 1) * u == v * u + u;
    assert (v + 2) * u == v * u + 2 * u;
    assert (v - 1) * u == v * u - u;
    if x < v { MulAtMost(x, v - 1, u); }
    if x > v + 1 { MulAtMost(v + 2, x, u); }
  }

  // ---------- the digits that were cut off ----------

  /** The last removed digit is at least five exactly when half a unit or more was cut off. */
  lemma LastDigit(mid: nat, den: nat, p: nat)
    requires den > 0 && p > 0
    ensures p * den > 0 && 10 * p * den > 0
    ensures (mid / den / p) % 10 >= 5 <==> 2 * (mid % (10 * p * den)) >= 10 * p * den
    ensures mid / den / p / 10 == mid / (10 * p * den)
  {
    MulPositive(p, den);
    var u := p * den;
    assert 10 * p * den == 10 * u by { MulAssociative(10, p, den); }
    DivDiv(mid, den, p);
    assert den * p == u;
    DivDiv(mid, u, 10);
    assert u * 10 == 10 * u;
    LastDigitOf(mid, u);
  }

  lemma LastDigitOf(mid: nat, u: nat)
    requires u > 0
    ensures (mid / u) % 10 >= 5 <==> 2 * (mid % (10 * u)) >= 10 * u
    ensures mid % (10 * u) == (mid / u) % 10 * u + mid % u
  {
    var d, q := (mid / u) % 10, mid / u / 10;
    Quotient(mid, u);
    assert mid / u == 10 * q + d;
    assert mid / u * u == q * (10 * u) + d * u;
    MulAtMost(d, 9, u);
    RemainderIs(mid, 10 * u, q, d * u + mid % u);
    if d >= 5 { MulAtMost(5, d, u); } else { MulAtMost(d, 4, u); }
  }

  lemma TieOf(mid: nat, u: nat)
    requires u > 0
    ensures 2 * (mid % (10 * u)) == 10 * u <==> (mid / u) % 10 == 5 && mid % u == 0
  {
    LastDigitOf(mid, u);
    var d := (mid / u) % 10;
    if d < 5 { MulAtMost(d, 4, u); } else if d > 5 { MulAtMost(6, d, u); }
  }

  lemma NoRemainderIff(mid: nat, den: nat, p: nat)
    requires den > 0 && p > 0
    ensures den * p > 0 && (mid % (den * p) == 0 <==> mid % den == 0 && (mid / den) % p == 0)
    ensures mid % (den * p) == 0 ==> mid == (mid / den / p * p) * den
  {
    MulPositive(den, p);
    var v := mid / den;
    var w, r, s := v / p, v % p, mid % den;
    Quotient(mid, den);
    Quotient(v, p);
    assert (w * p + r) * den == w * (den * p) + r * den by { MulAssociative(w, p, den); }
    MulAtMost(r + 1, p, den);
    assert (r + 1) * den == r * den + den;
    RemainderIs(mid, den * p, w, r * den + s);
    if r > 0 { MulAtMost(1, r, den); } else { assert r * den == 0; }
  }

  /** With every earlier digit zero and the value exact, a last digit five is a tie; the odd half
      that `exact` also lets through ends in 2 or 7, so it cannot be mistaken for one. */
  lemma TieIff(mid: nat, den: nat, p: nat, exact: bool)
    requires den > 0 && p > 0 && ExactnessOk(mid, den, exact)
    ensures 10 * p * den > 0
    ensures 2 * (mid % (10 * p * den)) == 10 * p * den <==>
            exact && (mid / den) % p == 0 && (mid / den / p) % 10 == 5
  {
    MulPositive(p, den);
    assert 10 * p * den == 10 * (den * p) by { MulAssociative(10, p, den); }
    DivDiv(mid, den, p);
    TieOf(mid, den * p);
    NoRemainderIff(mid, den, p);
    if mid / den / p % 10 == 5 {
      FiveLast(mid, den, p, exact);
    }
  }

  lemma FiveLast(mid: nat, den: nat, p: nat, exact: bool)
    requires den > 0 && p > 0 && ExactnessOk(mid, den, exact)
    requires (mid / den / p) % 10 == 5
    ensures mid % den == 0 && (mid / den) % p == 0 ==> exact
    ensures exact && (mid / den) % p == 0 ==> mid % den == 0
  {
    var v, w := mid / den, mid / den / p;
    FiveDividesProduct(w, p);
    Quotient(mid, den);
    Quotient(v, p);
    if v % p == 0 && mid % den == 0 {
      FiveTimes(w, p, den, mid);
    }
  }

  lemma FiveDividesProduct(w: nat, p: nat)
    requires w % 10 == 5
    ensures (w * p) % 5 == 0
  {
    var k := w / 5;
    assert w == 5 * k;
    assert w * p == 5 * (k * p) by { MulAssociative(5, k, p); }
  }

  lemma FiveTimes(w: nat, p: nat, den: nat, mid: nat)
    requires den > 0 && w % 10 == 5 && mid == (w * p) * den
    ensures mid % (5 * den) == 0
  {
    FiveDividesProduct(w, p);
    var k := w * p / 5;
    assert (5 * k) * den == k * (5 * den) by { MulAssociative(5, k, den); MulAssociative(k, 5, den); }
    RemainderIs(mid, 5 * den, k, 0);
  }
}
