/** Powers of natural bases, and the divisibility facts about powers of two, five and ten
    that the decimal conversion rests on. */
module Powers {

  const TEN17: nat := 100_000_000_000_000_000

  function Pow(b: nat, e: nat): nat {
    if e == 0 then 1 else b * Pow(b, e - 1)
  }

  lemma {:induction false} PowPositive(b: nat, e: nat)
    requires b > 0
    ensures Pow(b, e) > 0
  {
    if e > 0 {
      PowPositive(b, e - 1);
      MulPositive(b, Pow(b, e - 1));
    }
  }

  lemma MulPositive(x: nat, y: nat)
    requires x > 0 && y > 0
    ensures x * y > 0
  {}

  lemma {:induction false} PowAdd(b: nat, x: nat, y: nat)
    ensures Pow(b, x + y) == Pow(b, x) * Pow(b, y)
  {
    if x > 0 {
      PowAdd(b, x - 1, y);
      MulAssociative(b, Pow(b, x - 1), Pow(b, y));
    }
  }

  lemma {:induction false} PowProduct(b: nat, c: nat, e: nat)
    ensures Pow(b * c, e) == Pow(b, e) * Pow(c, e)
  {
    if e > 0 {
      PowProduct(b, c, e - 1);
      var p, r := Pow(b, e - 1), Pow(c, e - 1);
      calc {
        (b * c) * (p * r);
        { MulAssociative(b, c, p * r); MulAssociative(c, p, r); }
        b * ((c * p) * r);
        { MulAssociative(p, c, r); }
        b * (p * (c * r));
        { MulAssociative(b, p, c * r); }
        (b * p) * (c * r);
      }
    }
  }

  lemma {:induction false} PowMonotone(b: nat, x: nat, y: nat)
    requires b > 0 && x <= y
    ensures Pow(b, x) <= Pow(b, y)
    decreases y - x
  {
    if x < y {
      PowMonotone(b, x + 1, y);
      MulGrows(b, Pow(b, x));
    }
  }

  lemma MulGrows(b: nat, x: nat)
    requires b > 0
    ensures x <= b * x
  {}

  lemma MulAssociative(x: int, y: int, z: int)
    ensures (x * y) * z == x * (y * z)
  {}

  lemma MulLess(x: int, y: int, z: int)
    requires x < y && z > 0
    ensures x * z < y * z
  {}

  lemma MulAtMost(x: int, y: int, z: int)
    requires x <= y && z >= 0
    ensures x * z <= y * z
  {}

  lemma MulCancel(x: int, y: int, z: int)
    requires x * z == y * z && z != 0
    ensures x == y
  {}

  /** The quotient is the only integer whose multiple of the divisor brackets the dividend. */
  lemma DivUnique(a: int, d: int, q: int)
    requires d > 0 && q * d <= a < (q + 1) * d
    ensures a / d == q
  {
    var p := a / d;
    assert a == p * d + a % d;
    if p < q {
      MulAtMost(p + 1, q, d);
    } else if p > q {
      MulAtMost(q + 1, p, d);
    }
  }

  lemma DivBracket(a: int, d: int)
    requires d > 0
    ensures (a / d) * d <= a < (a / d + 1) * d
  {}

  lemma AtMostQuotient(x: int, y: nat, p: nat)
    requires p > 0
    ensures x * p <= y <==> x <= y / p
  {
    var q := y / p;
    DivBracket(y, p);
    if x <= q { MulAtMost(x, q, p); } else { MulAtMost(q + 1, x, p); }
  }

  lemma QuotientIsNat(a: nat, d: nat)
    requires d > 0
    ensures a / d >= 0 && (a >= d ==> a / d >= 1)
  {
    var q := a / d;
    DivBracket(a, d);
    if q < 0 { MulAtMost(q + 1, 0, d); }
    if a >= d && q < 1 { MulAtMost(q + 1, 1, d); }
  }

  lemma Quotient(a: nat, u: nat)
    requires u > 0
    ensures a == a / u * u + a % u && a % u < u
  {}

  lemma RemainderIs(a: nat, d: nat, q: nat, r: nat)
    requires a == q * d + r && r < d
    ensures a / d == q && a % d == r
  {
    assert (q + 1) * d == q * d + d;
    DivUnique(a, d, q);
  }

  lemma DivDiv(a: nat, x: nat, y: nat)
    requires x > 0 && y > 0
    ensures x * y > 0
    ensures (a / x) / y == a / (x * y)
  {
    MulPositive(x, y);
    var p := a / x;
    var q := p / y;
    DivBracket(a, x);
    DivBracket(p, y);
    MulAtMost(q * y, p, x);
    MulAtMost(p + 1, (q + 1) * y, x);
    assert (q * y) * x == q * (x * y) by { MulAssociative(q, y, x); }
    assert ((q + 1) * y) * x == (q + 1) * (x * y) by { MulAssociative(q + 1, y, x); }
    DivUnique(a, x * y, q);
  }

  ghost predicate Divides(d: int, x: int) {
    exists k :: x == k * d
  }

  lemma DividesWitness(d: int, x: int, k: int)
    requires x == k * d
    ensures Divides(d, x)
  {}

  lemma DividesIffMod(d: int, x: int)
    requires d > 0
    ensures Divides(d, x) <==> x % d == 0
  {
    if Divides(d, x) {
      var k :| x == k * d;
      DivUnique(x, d, k);
    }
    if x % d == 0 {
      assert x == (x / d) * d;
    }
  }

  lemma DividesFactor(d: int, e: int, x: int)
    requires Divides(d * e, x)
    ensures Divides(d, x) && Divides(e, x)
  {
    var k :| x == k * (d * e);
    assert x == (k * e) * d by { MulAssociative(k, e, d); }
    assert x == (k * d) * e by { MulAssociative(k, d, e); }
  }

  lemma DividesMultiple(d: int, x: int, y: int)
    requires Divides(d, x)
    ensures Divides(d, x * y)
  {
    var k :| x == k * d;
    assert x * y == (k * y) * d by { MulAssociative(k, d, y); MulAssociative(k, y, d); }
  }

  lemma DividesProduct(d: int, x: int, e: int, y: int)
    requires Divides(d, x) && Divides(e, y)
    ensures Divides(d * e, x * y)
  {
    var k :| x == k * d;
    var l :| y == l * e;
    calc {
      x * y;
      (k * d) * (l * e);
      { MulAssociative(k, d, l * e); MulAssociative(d, l, e); }
      k * ((d * l) * e);
      { MulAssociative(l, d, e); }
      k * (l * (d * e));
      { MulAssociative(k, l, d * e); }
      (k * l) * (d * e);
    }
  }

  /** Cancelling a common factor from both sides of a divisibility. */
  lemma DividesCancel(d: int, x: int, f: int)
    requires f != 0 && Divides(d * f, x * f)
    ensures Divides(d, x)
  {
    var k :| x * f == k * (d * f);
    MulAssociative(k, d, f);
    MulCancel(x, k * d, f);
  }

  lemma DividesAtMost(d: int, x: int)
    requires Divides(d, x) && x > 0 && d > 0
    ensures d <= x
  {
    var k :| x == k * d;
    if k <= 0 {
      MulAtMost(k, 0, d);
      assert false;
    }
    MulAtMost(1, k, d);
  }

  /** Five is prime to two: a power of two can be cancelled when a power of five divides. */
  lemma {:induction false} FivesIgnoreTwos(p: nat, x: nat, t: nat)
    requires Divides(Pow(5, p), x * Pow(2, t))
    ensures Divides(Pow(5, p), x)
  {
    if t > 0 {
      assert x * Pow(2, t) == 2 * (x * Pow(2, t - 1)) by { MulAssociative(x, 2, Pow(2, t - 1)); }
      FivesIgnoreOneTwo(p, x * Pow(2, t - 1));
      FivesIgnoreTwos(p, x, t - 1);
    } else {
      assert x * Pow(2, t) == x;
    }
  }

  lemma {:induction false} FivesIgnoreOneTwo(p: nat, y: nat)
    requires Divides(Pow(5, p), 2 * y)
    ensures Divides(Pow(5, p), y)
  {
    hide Divides;
    if p == 0 {
      DividesByOne(y);
    } else {
      var f := Pow(5, p - 1);
      TakeOut5(f, y);
      FivesIgnoreOneTwo(p - 1, y / 5);
      PutBack(5, f, y / 5);
    }
  }

  lemma TakeOut5(f: nat, y: nat)
    requires Divides(5 * f, 2 * y)
    ensures y == 5 * (y / 5) && Divides(f, 2 * (y / 5))
  {
    var k :| 2 * y == k * (5 * f);
    assert k * (5 * f) == 5 * (k * f);
    assert 2 * (y / 5) == k * f;
  }

  lemma DividesByOne(y: int)
    ensures Divides(1, y)
  {
    assert y == y * 1;
  }

  lemma PutBack(p: nat, f: nat, z: nat)
    requires Divides(f, z)
    ensures Divides(p * f, p * z)
  {
    var l :| z == l * f;
    assert p * z == l * (p * f) by { MulAssociative(l, p, f); MulAssociative(p, l, f); }
  }

  /** Two is prime to five. */
  lemma {:induction false} TwosIgnoreFives(p: nat, x: nat, t: nat)
    requires Divides(Pow(2, p), x * Pow(5, t))
    ensures Divides(Pow(2, p), x)
  {
    if t > 0 {
      assert x * Pow(5, t) == 5 * (x * Pow(5, t - 1)) by { MulAssociative(x, 5, Pow(5, t - 1)); }
      TwosIgnoreOneFive(p, x * Pow(5, t - 1));
      TwosIgnoreFives(p, x, t - 1);
    } else {
      assert x * Pow(5, t) == x;
    }
  }

  lemma {:induction false} TwosIgnoreOneFive(p: nat, y: nat)
    requires Divides(Pow(2, p), 5 * y)
    ensures Divides(Pow(2, p), y)
  {
    hide Divides;
    if p == 0 {
      DividesByOne(y);
    } else {
      var f := Pow(2, p - 1);
      TakeOut2(f, y);
      TwosIgnoreOneFive(p - 1, y / 2);
      PutBack(2, f, y / 2);
    }
  }

  lemma TakeOut2(f: nat, y: nat)
    requires Divides(2 * f, 5 * y)
    ensures y == 2 * (y / 2) && Divides(f, 5 * (y / 2))
  {
    var k :| 5 * y == k * (2 * f);
    assert k * (2 * f) == 2 * (k * f);
    assert 5 * (y / 2) == k * f;
  }

  lemma PowersOfTen(e: nat)
    ensures Pow(10, e) == Pow(2, e) * Pow(5, e)
    ensures Pow(10, e) > 0 && Pow(2, e) > 0 && Pow(5, e) > 0
  {
    PowProduct(2, 5, e);
    PowPositive(10, e);
    PowPositive(2, e);
    PowPositive(5, e);
  }

  // ---------- real powers with integer exponents ----------

  function Exp(b: nat, e: int): real
    requires b > 0
    decreases if e >= 0 then e else -e
  {
    if e == 0 then 1.0 else if e > 0 then b as real * Exp(b, e - 1) else Exp(b, e + 1) / b as real
  }

  lemma {:induction false} ExpPositive(b: nat, e: int)
    requires b > 0
    ensures Exp(b, e) > 0.0
    decreases if e >= 0 then e else -e
  {
    if e > 0 {
      ExpPositive(b, e - 1);
    } else if e < 0 {
      ExpPositive(b, e + 1);
    }
  }

  lemma {:induction false} ExpPow(b: nat, e: nat)
    requires b > 0
    ensures Exp(b, e) == Pow(b, e) as real
  {
    if e > 0 {
      ExpPow(b, e - 1);
      var p := Pow(b, e - 1);
      RealProduct(b, p);
    }
  }

  lemma RealProduct(x: nat, y: nat)
    ensures (x * y) as real == x as real * y as real
  {}

  lemma ExpStep(b: nat, e: int)
    requires b > 0
    ensures Exp(b, e + 1) == b as real * Exp(b, e) && Exp(b, 0) == 1.0
  {
    if e < 0 { Undo(Exp(b, e + 1), b as real); }
  }

  lemma Undo(x: real, y: real)
    requires y > 0.0
    ensures y * (x / y) == x
  {}

  lemma {:induction false} ExpAdd(b: nat, x: int, y: int)
    requires b > 0
    ensures Exp(b, x + y) == Exp(b, x) * Exp(b, y)
    decreases if y < 0 then -y else y
  {
    hide Exp;
    if y > 0 {
      ExpStep(b, y - 1);
      ExpStep(b, x + y - 1);
      ExpAdd(b, x, y - 1);
      PullOut(b as real, Exp(b, x), Exp(b, y - 1), Exp(b, x + y - 1));
    } else if y < 0 {
      ExpStep(b, y);
      ExpStep(b, x + y);
      ExpAdd(b, x, y + 1);
      PullBack(b as real, Exp(b, x), Exp(b, y), Exp(b, x + y));
    } else {
      ExpNothing(b);
    }
  }

  lemma ExpNothing(b: nat)
    requires b > 0
    ensures Exp(b, 0) == 1.0
  {}

  lemma PullBack(b: real, x: real, y: real, xy: real)
    requires b > 0.0 && b * xy == x * (b * y)
    ensures xy == x * y
  {
    PullOut(b, x, y, x * y);
    assert b * (xy - x * y) == 0.0;
  }

  lemma PullOut(b: real, x: real, y: real, xy: real)
    requires xy == x * y
    ensures x * (b * y) == b * xy
  {}

  lemma {:induction false} Exp10Factors(e: int)
    ensures Exp(10, e) == Exp(2, e) * Exp(5, e)
    decreases if e >= 0 then e else -e
  {
    if e > 0 {
      Exp10Factors(e - 1);
    } else if e < 0 {
      Exp10Factors(e + 1);
    }
  }

  // ---------- real inequalities ----------

  lemma RealMulLess(x: real, y: real, z: real)
    requires z > 0.0 && x < y
    ensures x * z < y * z
  {}

  lemma RealCancelLess(x: real, y: real, z: real)
    requires z > 0.0 && x * z < y * z
    ensures x < y
  {}

  lemma RealAtMost(x: real, y: real, z: real)
    requires z >= 0.0 && x <= y
    ensures x * z <= y * z
  {}
}
