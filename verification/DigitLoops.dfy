/** The digit-removal loops of `d2d`, proved to find the shortest and closest output. */
module DigitLoops {
  import opened Powers
  import opened DigitRemoval

  /** The outcome of step 4: closest at its exponent, and nothing coarser lies inside. */
  ghost predicate Stripped(lo: nat, mid: nat, hi: nat, den: nat, output: nat, removed: nat) {
    var coarser := Pow(10, removed + 1) * den;
    && den > 0
    && Closest(lo, mid, hi, Pow(10, removed) * den, output)
    && forall x: nat :: !Between(lo, x, coarser, hi)
  }

  /** What every iteration of either loop keeps: the quotients by `10^removed`, and a coarser
      decimal still inside. */
  ghost predicate Removing(lo: nat, mid: nat, hi: nat, den: nat, removed: nat,
                           vm0: nat, vr0: nat, vp0: nat, vm: nat, vr: nat, vp: nat)
  {
    var p := Pow(10, removed);
    && p > 0 && p * den > 0
    && vm == vm0 / p && vr == vr0 / p && vp == vp0 / p
    && HasMultiple(lo, hi, p * den)
  }

  lemma Start(lo: nat, mid: nat, hi: nat, den: nat, vm: nat, vr: nat, vp: nat, exact: bool)
    requires Scaled(lo, mid, hi, den, vm, vr, vp, exact)
    ensures Removing(lo, mid, hi, den, 0, vm, vr, vp, vm, vr, vp)
  {
    assert Pow(10, 0) * den == den;
    Quotient(lo, den);
    DivBracket(lo, den);
    assert (lo / den + 1) * den == lo / den * den + den;
  }

  /** One step of a loop: `n` more digits go, or no multiple of the larger unit lies inside. */
  lemma RemoveDigits(lo: nat, mid: nat, hi: nat, den: nat, removed: nat, n: nat, f: nat,
                     vm0: nat, vr0: nat, vp0: nat, exact: bool, vm: nat, vr: nat, vp: nat,
                     vm': nat, vr': nat, vp': nat)
    requires Scaled(lo, mid, hi, den, vm0, vr0, vp0, exact)
    requires Removing(lo, mid, hi, den, removed, vm0, vr0, vp0, vm, vr, vp)
    requires n > 0 && f == Pow(10, n) && f > 0
    requires vm' == vm / f && vr' == vr / f && vp' == vp / f
    ensures vp' > vm' ==> Removing(lo, mid, hi, den, removed + n, vm0, vr0, vp0, vm', vr', vp')
    ensures vp' <= vm' ==>
              Pow(10, removed + n) * den > 0 && !HasMultiple(lo, hi, Pow(10, removed + n) * den)
  {
    hide HasMultiple, Scaled, Pow;
    var p := Pow(10, removed);
    PowAdd(10, removed, n);
    QuotientBy(vm0, p, f);
    QuotientBy(vr0, p, f);
    QuotientBy(vp0, p, f);
    assert Pow(10, removed + n) == f * p;
    RemovalTest(lo, mid, hi, den, vm0, vr0, vp0, exact, removed + n);
  }

  /** An interval wide enough for a digit to go always loses at least one. */
  lemma NothingRemoved(lo: nat, mid: nat, hi: nat, den: nat, vm: nat, vr: nat, vp: nat, exact: bool)
    requires Scaled(lo, mid, hi, den, vm, vr, vp, exact)
    requires vp / 10 <= vm / 10
    ensures den == 1
  {
    if den > 1 {
      assert Pow(10, 1) == 10;
      WideEnough(lo, hi, 10 * den);
      RemovalTest(lo, mid, hi, den, vm, vr, vp, exact, 1);
    }
  }

  lemma NothingCoarser(lo: nat, mid: nat, hi: nat, den: nat, removed: nat, exact: bool,
                       vm0: nat, vr0: nat, vp0: nat, vm: nat, vr: nat, vp: nat)
    requires Scaled(lo, mid, hi, den, vm0, vr0, vp0, exact)
    requires Removing(lo, mid, hi, den, removed, vm0, vr0, vp0, vm, vr, vp)
    requires vp / 10 <= vm / 10
    ensures forall x: nat, coarser | coarser == Pow(10, removed + 1) * den :: !Between(lo, x, coarser, hi)
  {
    assert Pow(10, 1) == 10;
    RemoveDigits(lo, mid, hi, den, removed, 1, 10, vm0, vr0, vp0, exact, vm, vr, vp, vm / 10, vr / 10, vp / 10);
    hide *;
    HasMultipleIff(lo, hi, Pow(10, removed + 1) * den);
  }

  lemma Finish(lo: nat, mid: nat, hi: nat, den: nat, removed: nat, exact: bool,
               vm0: nat, vr0: nat, vp0: nat, vm: nat, vr: nat, vp: nat, up: bool, output: nat)
    requires Scaled(lo, mid, hi, den, vm0, vr0, vp0, exact)
    requires Removing(lo, mid, hi, den, removed, vm0, vr0, vp0, vm, vr, vp)
    requires vp / 10 <= vm / 10
    requires up <==> removed > 0 && RoundsUp(mid, Pow(10, removed) * den)
    requires output == vr + (if vr == vm || up then 1 else 0)
    ensures Stripped(lo, mid, hi, den, output, removed)
  {
    hide HasMultiple, UpperBoundOk, ExactnessOk, RoundsUp, Between, Closest, Pow;
    var u := Pow(10, removed) * den;
    NothingCoarser(lo, mid, hi, den, removed, exact, vm0, vr0, vp0, vm, vr, vp);
    if removed == 0 {
      NotUpAtStart(lo, mid, hi, den, exact, vm0, vr0, vp0, vm, vr, vp);
    }
    QuotientBy(mid, den, Pow(10, removed));
    QuotientBy(lo, den, Pow(10, removed));
    OutputIsClosest(lo, mid, hi, u, output);
  }

  lemma PowZero()
    ensures Pow(10, 0) == 1
  {}

  lemma QuotientBy(a: nat, x: nat, y: nat)
    requires x > 0 && y > 0
    ensures y * x > 0 && a / x / y == a / (y * x)
  {
    DivDiv(a, x, y);
    assert y * x == x * y;
  }

  lemma NotUpAtStart(lo: nat, mid: nat, hi: nat, den: nat, exact: bool,
                     vm0: nat, vr0: nat, vp0: nat, vm: nat, vr: nat, vp: nat)
    requires Scaled(lo, mid, hi, den, vm0, vr0, vp0, exact)
    requires Removing(lo, mid, hi, den, 0, vm0, vr0, vp0, vm, vr, vp)
    requires vp / 10 <= vm / 10
    ensures !RoundsUp(mid, Pow(10, 0) * den)
  {
    PowZero();
    NothingRemoved(lo, mid, hi, den, vm0, vr0, vp0, exact);
    assert mid % 1 == 0;
  }

  // ---------- the general case: the value may be a tie ----------

  /** What the general loop knows about the digits it removed. */
  ghost predicate GeneralDigits(mid: nat, den: nat, removed: nat, exact: bool, vrIsTrailingZeros: bool,
          lastRemovedDigit: nat)
    requires den > 0
  {
    if removed == 0 then
      vrIsTrailingZeros == exact && lastRemovedDigit == 0
    else
      var p := Pow(10, removed - 1);
      && p > 0
      && lastRemovedDigit == (mid / den / p) % 10
      && (vrIsTrailingZeros <==> exact && (mid / den) % p == 0)
  }

  lemma NextGeneralDigit(mid: nat, den: nat, removed: nat, exact: bool, zeros: bool, last: nat)
    requires den > 0 && GeneralDigits(mid, den, removed, exact, zeros, last)
    ensures Pow(10, removed) > 0
    ensures GeneralDigits(mid, den, removed + 1, exact, zeros && last == 0, (mid / den / Pow(10, removed)) % 10)
  {
    var v := mid / den;
    PowPositive(10, removed);
    if removed == 0 {
      assert Pow(10, 0) == 1 && v % 1 == 0;
    } else {
      var p := Pow(10, removed - 1);
      assert Pow(10, removed) == p * 10;
      NoRemainderIff(v, p, 10);
    }
  }

  lemma GeneralRounding(mid: nat, den: nat, removed: nat, exact: bool, zeros: bool, last: nat)
    requires den > 0 && ExactnessOk(mid, den, exact)
    requires GeneralDigits(mid, den, removed, exact, zeros, last)
    ensures Pow(10, removed) * den > 0
    ensures removed > 0 && RoundsUp(mid, Pow(10, removed) * den) <==>
            last >= 5 && !(zeros && last == 5 && (mid / den / Pow(10, removed)) % 2 == 0)
  {
    PowPositive(10, removed);
    MulPositive(Pow(10, removed), den);
    if removed > 0 {
      assert Pow(10, removed) == 10 * Pow(10, removed - 1);
      hide Pow;
      LastDigitRounds(mid, den, Pow(10, removed - 1), exact);
    }
  }

  lemma LastDigitRounds(mid: nat, den: nat, p: nat, exact: bool)
    requires den > 0 && p > 0 && ExactnessOk(mid, den, exact)
    ensures 10 * p > 0 && 10 * p * den > 0
    ensures var last := (mid / den / p) % 10;
      RoundsUp(mid, 10 * p * den) <==>
        last >= 5 && !(exact && (mid / den) % p == 0 && last == 5 && (mid / den / (10 * p)) % 2 == 0)
  {
    hide ExactnessOk;
    LastDigit(mid, den, p);
    TieIff(mid, den, p, exact);
    DivDiv(mid / den, p, 10);
    assert p * 10 == 10 * p;
  }

  /** The general loop, taken when the exact value may end where the digits do. */
  method StripGeneral(ghost lo: nat, ghost mid: nat, ghost hi: nat, ghost den: nat,
                      vm0: nat, vr0: nat, vp0: nat, exact: bool)
      returns (output: nat, removed: nat)
    requires Scaled(lo, mid, hi, den, vm0, vr0, vp0, exact)
    ensures Stripped(lo, mid, hi, den, output, removed)
  {
    var vm, vr, vp, vrIsTrailingZeros, lastRemovedDigit := vm0, vr0, vp0, exact, 0;
    removed := 0;
    Start(lo, mid, hi, den, vm, vr, vp, exact);
    assert Pow(10, 1) == 10;
    while vp / 10 > vm / 10
      invariant Removing(lo, mid, hi, den, removed, vm0, vr0, vp0, vm, vr, vp)
      invariant GeneralDigits(mid, den, removed, exact, vrIsTrailingZeros, lastRemovedDigit)
      decreases vp
    {
      RemoveDigits(lo, mid, hi, den, removed, 1, 10, vm0, vr0, vp0, exact, vm, vr, vp, vm / 10, vr / 10, vp / 10);
      NextGeneralDigit(mid, den, removed, exact, vrIsTrailingZeros, lastRemovedDigit);
      vrIsTrailingZeros := vrIsTrailingZeros && lastRemovedDigit == 0;
      lastRemovedDigit := vr % 10;
      vr, vp, vm := vr / 10, vp / 10, vm / 10;
      removed := removed + 1;
    }
    GeneralRounding(mid, den, removed, exact, vrIsTrailingZeros, lastRemovedDigit);
    if vrIsTrailingZeros && lastRemovedDigit == 5 && vr % 2 == 0 {
      // an exact half, rounded to the even quotient
      lastRemovedDigit := 4;
    }
    output := vr + (if vr == vm || lastRemovedDigit >= 5 then 1 else 0);
    Finish(lo, mid, hi, den, removed, exact, vm0, vr0, vp0, vm, vr, vp, lastRemovedDigit >= 5, output);
  }

  // ---------- the common case: no tie is possible ----------

  lemma CommonRounding(mid: nat, den: nat, removed: nat)
    requires den > 0 && ExactnessOk(mid, den, false)
    ensures Pow(10, removed) > 0 && Pow(10, removed + 1) * den > 0
    ensures RoundsUp(mid, Pow(10, removed + 1) * den) <==> (mid / den / Pow(10, removed)) % 10 >= 5
  {
    var p := Pow(10, removed);
    PowPositive(10, removed);
    PowPositive(10, removed + 1);
    MulPositive(Pow(10, removed + 1), den);
    LastDigit(mid, den, p);
    TieIff(mid, den, p, false);
  }

  lemma TwoDigits(v: nat)
    ensures v % 100 >= 50 <==> (v / 10) % 10 >= 5
  {}

  /** The common loop, which first tries to remove two digits at once. */
  method StripCommon(ghost lo: nat, ghost mid: nat, ghost hi: nat, ghost den: nat,
                     vm0: nat, vr0: nat, vp0: nat)
      returns (output: nat, removed: nat)
    requires Scaled(lo, mid, hi, den, vm0, vr0, vp0, false)
    ensures Stripped(lo, mid, hi, den, output, removed)
  {
    hide HasMultiple, UpperBoundOk, ExactnessOk, RoundsUp;
    var vm, vr, vp, roundUp := vm0, vr0, vp0, false;
    removed := 0;
    Start(lo, mid, hi, den, vm, vr, vp, false);
    assert Pow(10, 1) == 10 && Pow(10, 2) == 100;
    if vp / 100 > vm / 100 {
      RemoveDigits(lo, mid, hi, den, 0, 2, 100, vm0, vr0, vp0, false, vm, vr, vp, vm / 100, vr / 100, vp / 100);
      CommonRounding(mid, den, 1);
      TwoDigits(vr);
      roundUp := vr % 100 >= 50;
      vr, vp, vm := vr / 100, vp / 100, vm / 100;
      removed := 2;
    }
    while vp / 10 > vm / 10
      invariant Removing(lo, mid, hi, den, removed, vm0, vr0, vp0, vm, vr, vp)
      invariant roundUp <==> removed > 0 && RoundsUp(mid, Pow(10, removed) * den)
      decreases vp
    {
      RemoveDigits(lo, mid, hi, den, removed, 1, 10, vm0, vr0, vp0, false, vm, vr, vp, vm / 10, vr / 10, vp / 10);
      CommonRounding(mid, den, removed);
      roundUp := vr % 10 >= 5;
      vr, vp, vm := vr / 10, vp / 10, vm / 10;
      removed := removed + 1;
    }
    output := vr + (if vr == vm || roundUp then 1 else 0);
    Finish(lo, mid, hi, den, removed, false, vm0, vr0, vp0, vm, vr, vp, roundUp, output);
  }
}
