/** Decimals printed in full and rounded to a scale, and exactly when the rounded text is right. */
module DecimalRounding {
  import opened Options
  import opened Powers
  import opened ShortestDecimal
  import opened DecimalText
  import opened TextForm

  /** What the library says a decimal's digits are: the value is 0.digits times a power of ten, with
      no zero first or last. Zero has no digits. */
  datatype Number = Number(negative: bool, digits: string, exp: int) {
    predicate Valid() {
      && AllDigits(digits)
      && if digits == "" then !negative && exp == 0 else digits[0] != '0' && digits[|digits| - 1] != '0'
    }

    function Str(): string { if negative then "-" + digits else digits }

    function Magnitude(): FloatingDecimal
      requires AllDigits(digits)
    {
      FloatingDecimal(ReadNat(digits), exp - |digits|)
    }

    function Value(): real
      requires AllDigits(digits)
    {
      Signed(negative, Magnitude().Value())
    }
  }

  function Signed(negative: bool, x: real): real { if negative then -x else x }

  /** The value of a decimal text with an optional minus sign. */
  function ReadSigned(s: string): Option<real> {
    var negative := s != "" && s[0] == '-';
    var d := ReadUnsigned(if negative then s[1..] else s);
    if d.None? then None else Some(Signed(negative, d.value.Value()))
  }

  /** A text, or the exception of a `substr` that starts behind the end. */
  datatype Printed = Printed(text: string) | OutOfRange

  function ReadPrinted(r: Printed): Option<real> {
    match r case Printed(text) => ReadSigned(text) case OutOfRange => None
  }

  lemma SignedReads(negative: bool, text: string)
    requires ReadUnsigned(text).Some? && text != "" && text[0] != '-'
    ensures ReadSigned((if negative then "-" else "") + text) ==
            Some(Signed(negative, ReadUnsigned(text).value.Value()))
  {
    hide ReadUnsigned, FloatingDecimal.Value;
    assert ("-" + text)[1..] == text && "" + text == text;
  }

  // ---------- digits ----------

  lemma {:induction false} DigitsRead(s: string)
    requires AllDigits(s)
    ensures Digits(ReadNat(s), |s|) == s && ReadNat(s) < Pow(10, |s|)
  {
    if s != "" {
      DigitsRead(s[..|s| - 1]);
      assert s == s[..|s| - 1] + [s[|s| - 1]];
    }
  }

  /** The value of a string of digits, cut in two. */
  lemma {:induction false} ReadSplit(a: string, b: string)
    requires AllDigits(a) && AllDigits(b)
    ensures AllDigits(a + b) && ReadNat(a + b) == ReadNat(a) * Pow(10, |b|) + ReadNat(b)
  {
    if b == "" {
      assert a + b == a;
    } else {
      var n := |b| - 1;
      ReadSplit(a, b[..n]);
      assert a + b == (a + b[..n]) + [b[n]];
      ReadSnoc(a + b[..n], b[n]);
      hide ReadNat;
      ShiftSplit(ReadNat(a), Pow(10, n), ReadNat(b[..n]));
    }
  }

  lemma ShiftSplit(x: nat, p: nat, y: nat)
    ensures (x * p + y) * 10 == x * (10 * p) + y * 10
  {
    assert x * (10 * p) == 10 * (x * p);
  }

  /** A first digit other than zero makes the number as long as its text. */
  lemma FirstDigit(s: string)
    requires s != "" && AllDigits(s) && s[0] != '0'
    ensures Pow(10, |s| - 1) <= ReadNat(s)
  {
    var c, rest := s[..1], s[1..];
    assert s == c + rest;
    ReadSplit(c, rest);
    assert c == [s[0]] && ReadNat(c) >= 1 by { assert c[..0] == ""; }
    PowPositive(10, |rest|);
    MulAtMost(1, ReadNat(c), Pow(10, |rest|));
    hide ReadNat, Pow;
  }

  // ---------- the full text ----------

  /** A number in full. */
  function PlainText(n: Number): string
    requires n.Valid()
  {
    if n.digits == "" then "0"
    else (if n.negative then "-" else "") + FixedText(n.Magnitude(), |n.digits|)
  }

  /** The full text denotes exactly the number. */
  lemma PlainTextIsExact(n: Number)
    requires n.Valid()
    ensures ReadSigned(PlainText(n)) == Some(n.Value())
  {
    hide Exp, ReadUnsigned;
    if n.digits == "" {
      PlainReads("0");
      NoExponentReads("0");
      assert ReadNat("0") == 0 by { assert "0"[..0] == ""; }
    } else {
      DigitsRead(n.digits);
      hide ReadNat, Pow;
      FixedTextReads(n.Magnitude(), |n.digits|);
      SignedReads(n.negative, FixedText(n.Magnitude(), |n.digits|));
    }
  }

  /** A text without its sign. */
  function Unsigned(negative: bool, text: string): string { if negative && text != "" then text[1..] else text }

  /** The full text has no superfluous zeros, in front or behind. */
  lemma PlainTextForm(n: Number)
    requires n.Valid()
    ensures FixedForm(Unsigned(n.negative, PlainText(n)))
    ensures n.negative ==> PlainText(n) != "" && PlainText(n)[0] == '-'
  {
    hide Pow, ReadNat, FixedText, Digits, FixedForm;
    if n.digits == "" {
      ZeroPrefix();
      WholeForm("0");
    } else {
      DigitsRead(n.digits);
      FirstDigit(n.digits);
      LastDigit(ReadNat(n.digits), |n.digits|);
      FixedTextForm(n.Magnitude(), |n.digits|);
      var u := FixedText(n.Magnitude(), |n.digits|);
      assert ("-" + u)[1..] == u && "" + u == u;
    }
  }

  /** Digits with a point before, among or after them. */
  function Layout(digits: string, exp: int): string {
    if exp <= 0 then "0." + Zeros(-exp) + digits
    else if exp < |digits| then digits[..exp] + "." + digits[exp..]
    else digits + Zeros(exp - |digits|)
  }

  lemma PlainLayout(n: Number)
    requires n.Valid() && n.digits != ""
    ensures FixedText(n.Magnitude(), |n.digits|) == Layout(n.digits, n.exp)
  {
    hide ReadNat, Digits;
    DigitsRead(n.digits);
    if n.exp == |n.digits| { assert Zeros(0) == "" && n.digits[..n.exp] == n.digits; }
  }

  /** `Decimal::toString()`. */
  method ToString(n: Number) returns (result: string)
    requires n.Valid()
    ensures result == PlainText(n) && FixedForm(Unsigned(n.negative, result))
  {
    hide FixedForm;
    PlainTextForm(n);
    var exp, str := n.exp, n.Str();
    if str == "" && exp == 0 {
      return "0";
    }
    PlainLayout(n);
    FirstIsDigit(n.digits);
    result := "";
    var curPos, isNegative := 0, false;
    if str[0] == '-' {
      result := result + [str[0]];
      curPos := curPos + 1;
      isNegative := true;
    }
    assert str[curPos..] == n.digits;
    result := AppendDigits(result, str, exp, curPos, isNegative);
  }

  /** The part of `toString()` after the sign. */
  method AppendDigits(sign: string, str: string, exp: int, curPos: nat, isNegative: bool) returns (result: string)
    requires curPos == (if isNegative then 1 else 0) && curPos < |str|
    ensures result == sign + Layout(str[curPos..], exp)
  {
    ghost var digits := str[curPos..];
    result := sign;
    if exp == 0 {
      result := result + ['0'] + ['.'];
      result := result + str[curPos..];
      NoZeros();
      assert result == sign + ("0." + Zeros(0) + digits);
    } else if exp < 0 {
      result := result + ['0'] + ['.'];
      result := PushZeros(result, 0 - exp);
      result := result + str[curPos..];
      assert result == sign + ("0." + Zeros(0 - exp) + digits);
    } else {
      result := result + Substr(str, curPos, exp);
      var digitCount := if isNegative then |str| - 1 else |str|;
      if digitCount > exp {
        result := result + ['.'];
      } else {
        assert Substr(str, curPos, exp) == digits;
        result := PushZeros(result, exp - digitCount);
        assert result == sign + (digits + Zeros(exp - digitCount));
        return;
      }
      assert Substr(str, curPos, exp) == digits[..exp];
      result := result + str[curPos + exp..];
      assert str[curPos + exp..] == digits[exp..];
      assert result == sign + (digits[..exp] + "." + digits[exp..]);
    }
  }

  lemma FirstIsDigit(s: string)
    requires s != "" && AllDigits(s)
    ensures s[0] != '-'
  {}

  lemma NoZeros()
    ensures Zeros(0) == ""
  {}

  /** At most `count` characters from `pos` on. */
  function Substr(s: string, pos: nat, count: nat): string
    requires pos <= |s|
  {
    s[pos..if pos + count < |s| then pos + count else |s|]
  }

  method PushZeros(s: string, count: int) returns (t: string)
    requires count >= 0
    ensures t == s + Zeros(count)
  {
    t := s;
    for i := 0 to count
      invariant t == s + Zeros(i)
    {
      t := t + ['0'];
      assert Zeros(i) + "0" == Zeros(i + 1);
    }
  }

  // ---------- rounding ----------

  /** To the nearest multiple of 10^-scale, halves away from zero. */
  function RoundHalfAway(x: real, scale: int): real {
    if x < 0.0 then -InPlaces(RoundedUnits(-x, scale), scale) else InPlaces(RoundedUnits(x, scale), scale)
  }

  /** So many units of the last of `scale` places. */
  function InPlaces(units: int, scale: int): real { InUnits(units as real, scale) }

  function RoundedUnits(x: real, scale: int): int { (ToUnits(x, scale) + 0.5).Floor }

  /** A value in units of the last of `scale` places, and back. */
  function ToUnits(x: real, scale: int): real { x * Exp(10, scale) }

  function InUnits(d: real, scale: int): real { d * Exp(10, 0 - scale) }

  function Abs(x: real): real { if x < 0.0 then -x else x }

  lemma NearestUnits(u: real, k: int)
    requires u >= 0.0
    ensures var r := (u + 0.5).Floor;
      && r >= 0 && Abs(u - r as real) <= Abs(u - k as real)
      && (k != r && Abs(u - r as real) == Abs(u - k as real) ==> 0 <= k < r)
  {}

  lemma Scaled(u: real, k: real, p: real)
    requires p > 0.0
    ensures Abs(u * p - k * p) == Abs(u - k) * p
  {
    assert u * p - k * p == (u - k) * p;
    if u < k { RealMulLess(u - k, 0.0, p); } else { RealAtMost(0.0, u - k, p); }
  }

  lemma CancelPair(x: real, y: real, z: real, zy: real)
    requires zy == z * y && zy == 1.0
    ensures x * y * z == x
  {
    assert x * y * z == x * zy;
  }

  lemma AsUnits(x: real, scale: int)
    ensures InUnits(ToUnits(x, scale), scale) == x
  {
    hide Exp;
    ExpAdd(10, 0 - scale, scale);
    ExpStep(10, 0);
    CancelPair(x, Exp(10, scale), Exp(10, 0 - scale), Exp(10, 0 - scale + scale));
  }

  lemma UnitsNotNegative(x: real, scale: int)
    requires x >= 0.0
    ensures ToUnits(x, scale) >= 0.0
  {
    hide Exp;
    ExpPositive(10, scale);
    RealAtMost(0.0, x, Exp(10, scale));
  }

  /** How far a multiple of the last place is away, in units of it. */
  lemma Distance(x: real, scale: int, k: int)
    ensures Abs(x - InPlaces(k, scale)) == InUnits(Abs(ToUnits(x, scale) - k as real), scale)
  {
    hide Exp, ToUnits;
    AsUnits(x, scale);
    ExpPositive(10, 0 - scale);
    Scaled(ToUnits(x, scale), k as real, Exp(10, 0 - scale));
  }

  lemma Farther(a: real, b: real, scale: int)
    ensures a <= b ==> InUnits(a, scale) <= InUnits(b, scale)
    ensures a < b ==> InUnits(a, scale) < InUnits(b, scale)
  {
    hide Exp;
    ExpPositive(10, 0 - scale);
    if a < b { RealMulLess(a, b, Exp(10, 0 - scale)); }
  }

  /** The rounded value is the best multiple of the last place: none is nearer, and one that is as
      near is closer to zero. */
  ghost predicate Best(x: real, r: real, q: real) {
    Abs(x - r) <= Abs(x - q) && (q != r && Abs(x - r) == Abs(x - q) ==> Abs(q) < Abs(r))
  }

  lemma NearestAboveZero(x: real, scale: int, k: int)
    requires x >= 0.0
    ensures Best(x, RoundHalfAway(x, scale), InPlaces(k, scale))
  {
    hide ToUnits, InPlaces, InUnits;
    var u, r := ToUnits(x, scale), RoundedUnits(x, scale);
    UnitsNotNegative(x, scale);
    NearestUnits(u, k);
    Distance(x, scale, r);
    Distance(x, scale, k);
    Farther(Abs(u - r as real), Abs(u - k as real), scale);
    NoPlaces(scale);
    if k < r { Below(k, r, scale); }
    if 0 < k { Below(0, k, scale); }
  }

  lemma NoPlaces(scale: int)
    ensures InPlaces(0, scale) == 0.0
  {
    hide Exp;
  }

  lemma Below(k: int, r: int, scale: int)
    requires k < r
    ensures InPlaces(k, scale) < InPlaces(r, scale)
  {
    Farther(k as real, r as real, scale);
  }

  /** Rounding is odd: what holds above zero holds below. */
  lemma RoundIsOdd(x: real, scale: int)
    ensures RoundHalfAway(-x, scale) == -RoundHalfAway(x, scale)
  {
    hide RoundedUnits, InPlaces;
    ZeroUnits(scale);
  }

  lemma OppositePlaces(k: int, scale: int)
    ensures InPlaces(-k, scale) == -InPlaces(k, scale)
  {
    hide Exp;
    Opposite(k as real, Exp(10, 0 - scale));
  }

  lemma Opposite(x: real, y: real)
    ensures (-x) * y == -(x * y)
  {}

  lemma RoundIsNearest(x: real, scale: int, k: int)
    ensures Best(x, RoundHalfAway(x, scale), InPlaces(k, scale))
  {
    hide InPlaces, RoundHalfAway;
    if x >= 0.0 {
      NearestAboveZero(x, scale, k);
    } else {
      NearestAboveZero(-x, scale, -k);
      RoundIsOdd(x, scale);
      OppositePlaces(k, scale);
    }
  }

  lemma FloorIs(x: real, k: int)
    requires k as real <= x < (k + 1) as real
    ensures x.Floor == k
  {}

  /** A quotient with a remainder below the divisor rounds up from half of the divisor on. */
  lemma HalfUp(y: real, kept: nat, r: nat, p: nat)
    requires p > 0 && r < p && y * p as real == kept as real * p as real + r as real
    ensures (y + 0.5).Floor == kept + (if 2 * r >= p then 1 else 0)
  {
    var u, q := y - kept as real, p as real;
    assert u * q == r as real;
    Fraction(u, q, r as real);
    FloorIs(y + 0.5, kept + (if 2 * r >= p then 1 else 0));
  }

  lemma CancelAtMost(u: real, q: real)
    requires q > 0.0 && u * q >= 0.0
    ensures u >= 0.0
  {}

  lemma Fraction(u: real, q: real, r: real)
    requires q > 0.0 && u * q == r && 0.0 <= r < q
    ensures 0.0 <= u < 1.0 && (u >= 0.5 <==> 2.0 * r >= q)
  {
    RealCancelLess(u, 1.0, q);
    CancelAtMost(u, q);
    if u >= 0.5 { assert (u - 0.5) * q >= 0.0; } else { RealMulLess(u, 0.5, q); assert r < 0.5 * q; }
  }

  /** The digit after the cut decides: from 5 on, what is cut is at least half a unit. */
  lemma CutDigitDecides(rest: string)
    requires rest != "" && AllDigits(rest)
    ensures ReadNat(rest) < Pow(10, |rest|)
    ensures 2 * ReadNat(rest) >= Pow(10, |rest|) <==> rest[0] >= '5'
  {
    var c, tail := rest[..1], rest[1..];
    assert rest == c + tail;
    DigitsRead(rest);
    DigitsRead(tail);
    ReadSplit(c, tail);
    assert ReadNat(c) == (rest[0] - '0') as nat by { assert c[..0] == ""; }
    assert Pow(10, |rest|) == 10 * Pow(10, |tail|);
    hide ReadNat, Pow;
    Tenfold(ReadNat(c), Pow(10, |tail|), ReadNat(tail));
  }

  lemma Tenfold(d: nat, p: nat, r: nat)
    requires r < p
    ensures 2 * (d * p + r) >= 10 * p <==> d >= 5
  {
    if d >= 5 { assert (d - 5) * p >= 0; } else { assert (4 - d) * p >= 0; }
  }

  // ---------- the rounded text ----------

  /** The decimal digits of a positive integer. */
  function IntegerText(k: nat): (s: string)
    ensures AllDigits(s)
  {
    if k < 10 then [DigitChar(k)] else IntegerText(k / 10) + [DigitChar(k % 10)]
  }

  function WithoutTrailingZeros(s: string): string {
    if s != "" && s[|s| - 1] == '0' then WithoutTrailingZeros(s[..|s| - 1]) else s
  }

  /** The library's digits of a positive integer. */
  function IntegerDigits(k: nat): string { WithoutTrailingZeros(IntegerText(k)) }

  /** The digits kept, one more in the last place when the first cut digit is at least 5. */
  function KeptUnits(digits: string, t: nat): nat
    requires t < |digits| && AllDigits(digits)
  {
    ReadNat(digits[..t]) + (if digits[t] >= '5' then 1 else 0)
  }

  /** The digits that are printed when `t` are wanted. */
  function Inter(digits: string, t: nat): string
    requires AllDigits(digits)
  {
    if |digits| <= t then digits else IntegerDigits(KeptUnits(digits, t))
  }

  function Shown(n: Number): string { if n.digits == "" then "0" else n.digits }

  /** Digits, the first of them in the place the exponent says, to `scale` places. */
  function ScaledLayout(inter: string, exp: int, scale: nat): string
    requires |inter| <= exp + scale
  {
    var all := inter + Zeros(exp + scale - |inter|);
    if exp == 0 then "0." + all
    else if exp < 0 then "0." + Zeros(-exp) + inter
    else all[..exp] + (if scale > 0 then "." + all[exp..] else "")
  }

  lemma {:induction false} IntegerTextIs(k: nat)
    requires k > 0
    ensures var s := IntegerText(k);
      s != "" && s[0] != '0' && ReadNat(s) == k && Pow(10, |s| - 1) <= k < Pow(10, |s|)
  {
    var s := IntegerText(k);
    if k < 10 {
      assert s[..0] == "" && Pow(10, 0) == 1 && Pow(10, 1) == 10;
    } else {
      IntegerTextIs(k / 10);
      var t := IntegerText(k / 10);
      assert s[..|t|] == t;
      ReadSnoc(t, DigitChar(k % 10));
      assert Pow(10, |s|) == 10 * Pow(10, |t|) && Pow(10, |t|) == 10 * Pow(10, |t| - 1);
    }
  }

  lemma {:induction false} StrippedShape(s: string)
    ensures var r := WithoutTrailingZeros(s);
      && |r| <= |s| && s == r + Zeros(|s| - |r|)
      && (s != "" && s[|s| - 1] == '0' ==> |r| < |s|)
  {
    var r := WithoutTrailingZeros(s);
    if s != "" && s[|s| - 1] == '0' {
      var t := s[..|s| - 1];
      StrippedShape(t);
      assert s == t + "0";
      assert Zeros(|t| - |r|) + "0" == Zeros(|s| - |r|);
    } else {
      assert s + Zeros(0) == s;
    }
  }

  lemma Stripped(s: string)
    requires AllDigits(s)
    ensures var r := WithoutTrailingZeros(s);
      |r| <= |s| && AllDigits(r) && ReadNat(s) == ReadNat(r) * Pow(10, |s| - |r|)
    ensures s != "" && s[|s| - 1] == '0' ==> |WithoutTrailingZeros(s)| < |s|
  {
    hide ReadNat, Pow, WithoutTrailingZeros;
    StrippedShape(s);
    var r := WithoutTrailingZeros(s);
    assert forall i | 0 <= i < |r| :: r[i] == s[i];
    ReadZeros(r, |s| - |r|);
  }

  function WithZeros(r: string, zeros: nat): nat
    requires AllDigits(r)
  {
    ReadNat(r) * Pow(10, zeros)
  }

  /** What the library says of a positive integer: its value, and the number of its digits. */
  lemma IntegerDigitsAre(k: nat)
    requires k > 0
    ensures var r, len := IntegerDigits(k), |IntegerText(k)|;
      && r != "" && |r| <= len && AllDigits(r) && k == WithZeros(r, len - |r|)
      && (k % 10 == 0 ==> |r| < len)
      && Pow(10, len - 1) <= k < Pow(10, len)
  {
    IntegerTextIs(k);
    Stripped(IntegerText(k));
    var s := IntegerText(k);
    assert k % 10 == 0 ==> s[|s| - 1] == '0';
    assert ReadNat("") == 0;
  }

  /** A text that reads as a decimal and has no sign. */
  ghost predicate Reads(text: string, d: FloatingDecimal) {
    text != "" && text[0] != '-' && ReadUnsigned(text) == Some(d)
  }

  lemma LargeReads(all: string, exp: int, scale: nat)
    requires AllDigits(all) && 0 < exp && |all| == exp + scale
    ensures Reads(all[..exp] + (if scale > 0 then "." + all[exp..] else ""), FloatingDecimal(ReadNat(all), 0 - scale))
  {
    hide ReadUnsigned, ReadNat;
    assert all[0] != '-';
    if scale > 0 {
      WithPointReads(all, exp);
      assert all[..exp] + ("." + all[exp..]) == all[..exp] + "." + all[exp..];
    } else {
      assert all[..exp] + "" == all;
      hide AllDigits;
      PlainReads(all);
      NoExponentReads(all);
    }
  }

  lemma SmallReads(digits: string, zeros: nat)
    requires AllDigits(digits)
    ensures Reads("0." + Zeros(zeros) + digits, FloatingDecimal(ReadNat(digits), 0 - (zeros + |digits|)))
  {
    hide ReadUnsigned, ReadNat, AllDigits;
    BelowOneReads(digits, zeros);
  }

  /** The digits padded to the last place. */
  lemma PaddedValue(inter: string, exp: int, scale: nat)
    requires AllDigits(inter) && |inter| <= exp + scale
    ensures var all := inter + Zeros(exp + scale - |inter|);
      && AllDigits(all) && |all| == exp + scale
      && FloatingDecimal(ReadNat(all), 0 - scale).Value() == FloatingDecimal(ReadNat(inter), exp - |inter|).Value()
  {
    hide ReadNat, FloatingDecimal.Value, Pow, AllDigits;
    var z := exp + scale - |inter|;
    ReadZeros(inter, z);
    MoveZeros(ReadNat(inter), z, 0 - scale);
  }

  /** `0.inter` times the power of ten, whatever is done with zeros. */
  lemma ScaledLayoutReads(inter: string, exp: int, scale: nat)
    requires inter != "" && AllDigits(inter) && |inter| <= exp + scale
    ensures exists d :: Reads(ScaledLayout(inter, exp, scale), d) &&
                        d.Value() == FloatingDecimal(ReadNat(inter), exp - |inter|).Value()
  {
    hide Reads, ReadNat, FloatingDecimal.Value, AllDigits, Zeros;
    var all := inter + Zeros(exp + scale - |inter|);
    PaddedValue(inter, exp, scale);
    if exp == 0 {
      SmallReads(all, 0);
      NoZeros();
      assert "0." + Zeros(0) + all == "0." + all;
      assert Reads(ScaledLayout(inter, exp, scale), FloatingDecimal(ReadNat(all), 0 - scale));
    } else if exp < 0 {
      SmallReads(inter, -exp);
    } else {
      LargeReads(all, exp, scale);
    }
  }

  lemma InterFits(digits: string, t: nat)
    requires AllDigits(digits) && digits != "" && digits[0] != '0' && t > 0
    ensures Inter(digits, t) != "" && AllDigits(Inter(digits, t)) && |Inter(digits, t)| <= t
    ensures t < |digits| ==> CutResult(digits, t)
  {
    if t < |digits| { CutResultHolds(digits, t); }
  }

  /** Every digit kept is a nine. */
  predicate AllNines(s: string) { forall i | 0 <= i < |s| :: s[i] == '9' }

  /** The increment of the kept digits needs one more digit. */
  predicate Carries(digits: string, t: nat)
    requires t < |digits|
  {
    AllNines(digits[..t]) && digits[t] >= '5'
  }

  /** The printed digits stand for the kept units, scaled by their own length: one place too low
      when the increment carried out of the first digit. */
  ghost predicate CutResult(digits: string, t: nat)
    requires AllDigits(digits) && 0 < t < |digits|
  {
    var r, k := Inter(digits, t), KeptUnits(digits, t);
    var len := if Carries(digits, t) then t + 1 else t;
    k > 0 && r != "" && AllDigits(r) && |r| <= t && k == WithZeros(r, len - |r|)
  }

  lemma {:induction false} NinesAre(s: string)
    requires AllDigits(s)
    ensures AllNines(s) <==> ReadNat(s) == Pow(10, |s|) - 1
  {
    DigitsRead(s);
    if s != "" {
      var n := |s| - 1;
      NinesAre(s[..n]);
      DigitsRead(s[..n]);
      assert s == s[..n] + [s[n]];
      assert AllNines(s) <==> AllNines(s[..n]) && s[n] == '9';
      assert Pow(10, |s|) == 10 * Pow(10, n);
    }
  }

  lemma LengthIs(k: nat, len: nat, t: nat)
    requires len > 0 && Pow(10, len - 1) <= k < Pow(10, len) && t > 0
    ensures Pow(10, t - 1) <= k < Pow(10, t) ==> len == t
    ensures k == Pow(10, t) ==> len == t + 1
  {
    if len < t { PowMonotone(10, len, t - 1); } else if len > t { PowMonotone(10, t, len - 1); }
    if len < t + 1 { PowMonotone(10, len, t); } else if len > t + 1 {
      PowMonotone(10, t + 1, len - 1);
      PowPositive(10, t);
      assert Pow(10, t + 1) == 10 * Pow(10, t);
    }
    hide Pow;
  }

  lemma TenDividesPower(t: nat)
    requires t > 0
    ensures Pow(10, t) % 10 == 0
  {
    TensEnd(Pow(10, t - 1));
  }

  lemma TensEnd(m: nat)
    ensures 10 * m % 10 == 0
  {}

  lemma KeptDigits(digits: string, t: nat)
    requires AllDigits(digits) && 0 < t < |digits|
    ensures AllDigits(digits[..t]) && digits[..t][0] == digits[0]
  {}

  /** The kept units have `t` digits, and one more exactly when they are incremented from all nines. */
  lemma KeptRange(digits: string, t: nat)
    requires AllDigits(digits) && 0 < t < |digits| && digits[0] != '0'
    ensures var k := KeptUnits(digits, t);
      k > 0 && if Carries(digits, t) then k == Pow(10, t) else Pow(10, t - 1) <= k < Pow(10, t)
  {
    hide Pow, ReadNat, AllNines, AllDigits;
    KeptDigits(digits, t);
    var kept := digits[..t];
    FirstDigit(kept);
    PowPositive(10, t - 1);
    DigitsRead(kept);
    NinesAre(kept);
  }

  lemma CutResultHolds(digits: string, t: nat)
    requires AllDigits(digits) && 0 < t < |digits| && digits[0] != '0'
    ensures CutResult(digits, t)
  {
    hide Pow, KeptUnits, IntegerText, IntegerDigits, Carries, AllDigits, WithZeros;
    KeptRange(digits, t);
    TenDividesPower(t);
    var k := KeptUnits(digits, t);
    IntegerDigitsAre(k);
    LengthIs(k, |IntegerText(k)|, t);
  }

  /** What is printed to a negative scale: digits, zeros up to the point, and then once more the
      digits from as far on as there are zeros. */
  function RepeatedLayout(inter: string, exp: int): string
    requires |inter| <= exp <= 2 * |inter|
  {
    inter + Zeros(exp - |inter|) + inter[exp - |inter|..]
  }

  /** Digits laid out to a scale of either sign. */
  function AnyLayout(inter: string, exp: int, scale: int): Printed
    requires |inter| <= exp + scale
  {
    if scale >= 0 then Printed(ScaledLayout(inter, exp, scale))
    else if exp > 2 * |inter| then OutOfRange
    else Printed(RepeatedLayout(inter, exp))
  }

  function WithSign(sign: string, r: Printed): Printed {
    match r case Printed(text) => Printed(sign + text) case OutOfRange => OutOfRange
  }

  /** A number to `scale` places as the code prints it. */
  function ScaledText(n: Number, scale: int): Printed
    requires n.Valid()
  {
    var t := n.exp + scale;
    if t <= 0 then Printed("0")
    else
      var digits := Shown(n);
      InterShown(n, t);
      WithSign(if n.negative then "-" else "", AnyLayout(Inter(digits, t), n.exp, scale))
  }

  lemma InterShown(n: Number, t: nat)
    requires n.Valid() && t > 0
    ensures AllDigits(Shown(n)) && Inter(Shown(n), t) != "" && AllDigits(Inter(Shown(n), t)) &&
            |Inter(Shown(n), t)| <= t
  {
    if n.digits != "" { InterFits(n.digits, t); }
  }

  /** The increment is lost: the kept digits are all nines and the first one cut is at least 5. */
  predicate LosesCarry(n: Number, scale: int) {
    var t := n.exp + scale;
    0 < t < |n.digits| && Carries(n.digits, t)
  }

  /** No digit is kept, and the first one cut is at least 5. */
  predicate LosesUnit(n: Number, scale: int) {
    n.digits != "" && n.exp + scale == 0 && n.digits[0] >= '5'
  }

  /** The scale is negative, digits are left, and their number is not half of the digits before the
      point: either some are printed twice, or the code throws. */
  predicate RepeatsDigits(n: Number, scale: int)
    requires n.Valid()
  {
    scale < 0 < n.exp + scale && n.exp != 2 * |Inter(Shown(n), n.exp + scale)|
  }

  /** The digits' value in units of the last place. */
  lemma UnitsOf(n: Number, scale: int)
    requires AllDigits(n.digits)
    ensures ToUnits(n.Magnitude().Value(), scale) ==
            FloatingDecimal(ReadNat(n.digits), n.exp + scale - |n.digits|).Value()
  {
    hide Exp, ReadNat;
    ExpAdd(10, n.exp - |n.digits|, scale);
    Associate(ReadNat(n.digits) as real, Exp(10, n.exp - |n.digits|), Exp(10, scale));
  }

  lemma Associate(x: real, y: real, z: real)
    ensures x * y * z == x * (y * z)
  {}

  /** Units kept and digits cut, `c` of them. */
  lemma UnitsSplit(m: nat, kept: nat, r: nat, c: nat)
    requires m == kept * Pow(10, c) + r
    ensures FloatingDecimal(m, 0 - c).Value() * Pow(10, c) as real == kept as real * Pow(10, c) as real + r as real
  {
    hide Exp, Pow;
    ExpPow(10, c);
    ExpAdd(10, 0 - c, c);
    ExpStep(10, 0);
    Associate(m as real, Exp(10, 0 - c), Pow(10, c) as real);
    assert (kept * Pow(10, c)) as real == kept as real * Pow(10, c) as real;
  }

  /** Rounding digits of which `t` are kept. */
  lemma RoundedCut(n: Number, scale: int)
    requires AllDigits(n.digits) && 0 <= n.exp + scale < |n.digits|
    ensures RoundedUnits(n.Magnitude().Value(), scale) == KeptUnits(n.digits, n.exp + scale)
  {
    hide Exp, ReadNat, Pow, FloatingDecimal.Value, AllDigits, Number.Magnitude;
    var t, digits := n.exp + scale, n.digits;
    var c := |digits| - t;
    var kept, rest := digits[..t], digits[t..];
    SplitKept(digits, t);
    UnitsOf(n, scale);
    PowPositive(10, c);
    UnitsSplit(ReadNat(digits), ReadNat(kept), ReadNat(rest), c);
    HalfUp(ToUnits(n.Magnitude().Value(), scale), ReadNat(kept), ReadNat(rest), Pow(10, c));
  }

  lemma SplitKept(digits: string, t: nat)
    requires AllDigits(digits) && t < |digits|
    ensures var kept, rest, p := digits[..t], digits[t..], Pow(10, |digits| - t);
      && AllDigits(kept) && AllDigits(rest) && ReadNat(digits) == ReadNat(kept) * p + ReadNat(rest) && ReadNat(rest) < p
      && KeptUnits(digits, t) == ReadNat(kept) + (if 2 * ReadNat(rest) >= p then 1 else 0)
  {
    hide ReadNat, Pow;
    var kept, rest := digits[..t], digits[t..];
    assert digits == kept + rest;
    ReadSplit(kept, rest);
    CutDigitDecides(rest);
  }

  /** Nothing to round: the digits end before the last place. */
  lemma RoundedExact(n: Number, scale: int)
    requires AllDigits(n.digits) && |n.digits| <= n.exp + scale
    ensures InPlaces(RoundedUnits(n.Magnitude().Value(), scale), scale) == n.Magnitude().Value()
  {
    hide ReadNat, Pow, AllDigits, Number.Magnitude, Exp, FloatingDecimal.Value;
    var z := n.exp + scale - |n.digits|;
    var m := ReadNat(n.digits);
    UnitsOf(n, scale);
    ExactUnits(m, z);
    WholeUnits(n.Magnitude().Value(), scale, m * Pow(10, z));
  }

  lemma ExactUnits(m: nat, z: nat)
    ensures FloatingDecimal(m, z).Value() == (m * Pow(10, z)) as real
  {
    hide Pow, Exp;
    ExpPow(10, z);
    var p := Pow(10, z);
    assert m as real * p as real == (m * p) as real;
  }

  lemma WholeUnits(x: real, scale: int, k: int)
    requires ToUnits(x, scale) == k as real
    ensures InPlaces(RoundedUnits(x, scale), scale) == x
  {
    hide ToUnits, InUnits;
    AsUnits(x, scale);
    FloorIs(ToUnits(x, scale) + 0.5, k);
  }

  /** All digits are below a tenth of the last place. */
  lemma RoundedBelow(n: Number, scale: int)
    requires AllDigits(n.digits) && n.exp + scale < 0
    ensures RoundedUnits(n.Magnitude().Value(), scale) == 0
  {
    hide ReadNat, Pow, AllDigits, Number.Magnitude, FloatingDecimal.Value, ToUnits;
    DigitsRead(n.digits);
    UnitsOf(n, scale);
    BelowTenth(ReadNat(n.digits), |n.digits|, n.exp + scale - |n.digits|);
    FloorIs(ToUnits(n.Magnitude().Value(), scale) + 0.5, 0);
  }

  lemma BelowTenth(m: nat, len: nat, e: int)
    requires m < Pow(10, len) && e + len < 0
    ensures 0.0 <= FloatingDecimal(m, e).Value() < 0.5
  {
    hide FloatingDecimal.Value, Pow, Exp;
    ValueSign(m, e);
    ValueLess(m, Pow(10, len), e);
    MoveZeros(1, len, e);
    assert 1 * Pow(10, len) == Pow(10, len);
    OneValue(e + len);
    TenthAtMost(e + len);
  }

  lemma ValueLess(m: nat, k: nat, e: int)
    requires m < k
    ensures FloatingDecimal(m, e).Value() < FloatingDecimal(k, e).Value()
  {
    hide Exp;
    ExpPositive(10, e);
    RealMulLess(m as real, k as real, Exp(10, e));
  }

  lemma {:induction false} TenthAtMost(e: int)
    requires e < 0
    ensures 0.0 < Exp(10, e) <= 0.1
    decreases -e
  {
    ExpStep(10, e);
    ExpPositive(10, e);
    if e < -1 { TenthAtMost(e + 1); } else { ExpStep(10, -1); }
  }

  lemma ValueSign(m: nat, e: int)
    ensures FloatingDecimal(m, e).Value() >= 0.0 && (FloatingDecimal(m, e).Value() > 0.0 <==> m > 0)
  {
    hide Exp;
    ExpPositive(10, e);
    if m > 0 { RealMulLess(0.0, m as real, Exp(10, e)); }
  }

  lemma MagnitudeSign(n: Number)
    requires n.Valid()
    ensures n.Magnitude().Value() >= 0.0 && (n.Magnitude().Value() > 0.0 <==> n.digits != "")
  {
    if n.digits == "" {
      assert ReadNat(n.digits) == 0;
    } else {
      FirstDigit(n.digits);
      PowPositive(10, |n.digits| - 1);
    }
    hide ReadNat, FloatingDecimal.Value;
    ValueSign(ReadNat(n.digits), n.exp - |n.digits|);
  }

  /** Rounding works on the magnitude. */
  lemma RoundSigned(n: Number, scale: int)
    requires n.Valid()
    ensures RoundHalfAway(n.Value(), scale)
         == Signed(n.negative, InPlaces(RoundedUnits(n.Magnitude().Value(), scale), scale))
  {
    hide InPlaces, RoundedUnits, Number.Magnitude, FloatingDecimal.Value;
    MagnitudeSign(n);
  }

  /** The value of the digits kept, in their place. */
  function InterValue(inter: string, exp: int): real
    requires AllDigits(inter)
  {
    FloatingDecimal(ReadNat(inter), exp - |inter|).Value()
  }

  lemma LayoutReads(inter: string, exp: int, scale: nat)
    requires inter != "" && AllDigits(inter) && |inter| <= exp + scale
    ensures var text := ScaledLayout(inter, exp, scale);
      && text != "" && text[0] != '-' && ReadUnsigned(text).Some?
      && ReadUnsigned(text).value.Value() == InterValue(inter, exp)
  {
    hide ReadUnsigned, ReadNat, FloatingDecimal.Value, ScaledLayout, AllDigits;
    ScaledLayoutReads(inter, exp, scale);
    var d :| Reads(ScaledLayout(inter, exp, scale), d) && d.Value() == InterValue(inter, exp);
  }

  /** As many zeros as digits: nothing is printed twice. */
  lemma HalfReads(inter: string)
    requires inter != "" && AllDigits(inter)
    ensures var text := RepeatedLayout(inter, 2 * |inter|);
      && text != "" && text[0] != '-' && ReadUnsigned(text).Some?
      && ReadUnsigned(text).value.Value() == InterValue(inter, 2 * |inter|)
  {
    hide ReadUnsigned, ReadNat, FloatingDecimal.Value, Pow, Zeros;
    var text := RepeatedLayout(inter, 2 * |inter|);
    assert text == inter + Zeros(|inter|) && text[0] == inter[0];
    ReadZeros(inter, |inter|);
    PlainReads(text);
    NoExponentReads(text);
    MoveZeros(ReadNat(inter), |inter|, 0);
  }

  /** Digits printed twice make a number that is too large. */
  lemma RepeatedReads(inter: string, exp: int)
    requires inter != "" && AllDigits(inter) && ReadNat(inter) > 0 && |inter| < exp < 2 * |inter|
    ensures var text := RepeatedLayout(inter, exp);
      && text != "" && text[0] != '-' && ReadUnsigned(text).Some?
      && ReadUnsigned(text).value.Value() > InterValue(inter, exp)
  {
    hide ReadUnsigned, ReadNat, FloatingDecimal.Value, Pow, Zeros, AllDigits;
    var whole, tail := inter + Zeros(exp - |inter|), inter[exp - |inter|..];
    TailDigits(inter, exp - |inter|);
    ReadZeros(inter, exp - |inter|);
    ReadSplit(whole, tail);
    DigitsJoin(whole, tail);
    PlainReads(whole + tail);
    NoExponentReads(whole + tail);
    ZerosMultiply(ReadNat(inter), exp - |inter|);
    Larger(ReadNat(inter) * Pow(10, exp - |inter|), |tail|, ReadNat(tail));
    WholeValue(ReadNat(whole + tail));
  }

  lemma TailDigits(inter: string, from: nat)
    requires AllDigits(inter) && from <= |inter| && inter != ""
    ensures AllDigits(inter[from..]) && inter[0] != '-'
  {}

  /** Moved before the point, digits are multiplied. */
  lemma ZerosMultiply(m: nat, z: nat)
    requires m > 0
    ensures FloatingDecimal(m, z).Value() == (m * Pow(10, z)) as real && m * Pow(10, z) > 0
  {
    hide Pow, FloatingDecimal.Value;
    ExactUnits(m, z);
    PowPositive(10, z);
    MulAtMost(1, m, Pow(10, z));
  }

  lemma WholeValue(m: nat)
    ensures FloatingDecimal(m, 0).Value() == m as real
  {}

  lemma Larger(m: nat, places: nat, rest: nat)
    requires m > 0 && places > 0
    ensures m * Pow(10, places) + rest > m
  {
    PowPositive(10, places - 1);
    assert Pow(10, places) >= 10;
    hide Pow;
    MulAtMost(10, Pow(10, places), m);
  }

  /** The text of the digits kept, unless some are printed twice. */
  lemma TextValue(n: Number, scale: int)
    requires n.Valid() && n.exp + scale > 0 && !RepeatsDigits(n, scale)
    ensures var inter := Inter(Shown(n), n.exp + scale);
      AllDigits(inter) && ReadPrinted(ScaledText(n, scale)) == Some(Signed(n.negative, InterValue(inter, n.exp)))
  {
    hide ReadUnsigned, InterValue, ScaledLayout, RepeatedLayout, Inter, ReadSigned, AllDigits;
    InterShown(n, n.exp + scale);
    var inter := Inter(Shown(n), n.exp + scale);
    if scale >= 0 {
      LayoutReads(inter, n.exp, scale);
      SignedReads(n.negative, ScaledLayout(inter, n.exp, scale));
    } else {
      HalfReads(inter);
      SignedReads(n.negative, RepeatedLayout(inter, n.exp));
    }
  }

  /** The digits kept when some are cut: the rounded value, or a tenth of it. */
  lemma CutValue(n: Number, scale: int)
    requires n.Valid() && 0 < n.exp + scale < |n.digits|
    ensures var inter := Inter(n.digits, n.exp + scale);
      var rounded := InPlaces(RoundedUnits(n.Magnitude().Value(), scale), scale);
      && AllDigits(inter) && rounded > 0.0
      && InterValue(inter, n.exp) == if LosesCarry(n, scale) then rounded / 10.0 else rounded
  {
    hide ReadNat, Pow, Inter, KeptUnits, InPlaces, Carries, RoundedUnits, Number.Magnitude, AllDigits,
      FloatingDecimal.Value;
    var t := n.exp + scale;
    InterFits(n.digits, t);
    var r, k := Inter(n.digits, t), KeptUnits(n.digits, t);
    var len := if Carries(n.digits, t) then t + 1 else t;
    MoveZeros(ReadNat(r), len - |r|, n.exp - len);
    RoundedCut(n, scale);
    TenthOfPlaces(k, scale, n.exp - len);
  }

  /** The printed value when digits are cut and none is printed twice: the rounded value, or a tenth
      of it. */
  lemma CutTextValue(n: Number, scale: int)
    requires n.Valid() && 0 < n.exp + scale < |n.digits|
    ensures !RepeatsDigits(n, scale) ==>
              ReadPrinted(ScaledText(n, scale)) ==
              Some(if LosesCarry(n, scale) then RoundHalfAway(n.Value(), scale) / 10.0
                   else RoundHalfAway(n.Value(), scale))
    ensures RoundHalfAway(n.Value(), scale) != 0.0
  {
    hide Inter, ReadPrinted, ScaledText, InPlaces, RoundHalfAway, Carries, RoundedUnits, Number.Value,
      Number.Magnitude, AllDigits, InterValue, RepeatsDigits;
    CutValue(n, scale);
    RoundSigned(n, scale);
    if !RepeatsDigits(n, scale) { TextValue(n, scale); }
  }

  /** A power of ten is written with one digit. */
  lemma {:induction false} PowerDigits(t: nat)
    ensures IntegerDigits(Pow(10, t)) == "1"
  {
    if t > 0 {
      PowerDigits(t - 1);
      TenDividesPower(t);
      PowPositive(10, t - 1);
      var s := IntegerText(Pow(10, t - 1));
      assert Pow(10, t) / 10 == Pow(10, t - 1) && Pow(10, t) >= 10;
      assert IntegerText(Pow(10, t)) == s + "0";
      assert (s + "0")[..|s|] == s;
    }
  }

  /** A carry leaves one digit, which is not printed twice. */
  lemma CarryThrows(n: Number, scale: int)
    requires n.Valid() && LosesCarry(n, scale) && RepeatsDigits(n, scale)
    ensures ScaledText(n, scale) == OutOfRange
  {
    hide Pow, IntegerDigits, KeptUnits, ReadNat, AllDigits, Carries;
    var t := n.exp + scale;
    KeptRange(n.digits, t);
    PowerDigits(t);
    assert Inter(n.digits, t) == "1";
  }

  /** With a negative scale and any other number of digits the text is not the rounded value. */
  lemma RepeatedIsWrong(n: Number, scale: int)
    requires n.Valid() && RepeatsDigits(n, scale)
    ensures ReadPrinted(ScaledText(n, scale)) != Some(RoundHalfAway(n.Value(), scale))
  {
    hide ReadSigned, ReadUnsigned, RepeatedLayout, Inter, InPlaces, RoundedUnits, RoundHalfAway, Number.Value,
      Number.Magnitude, AllDigits, InterValue, LosesCarry, ReadNat;
    if LosesCarry(n, scale) {
      CarryThrows(n, scale);
    } else if ScaledText(n, scale).Printed? {
      var t := n.exp + scale;
      var inter := Inter(n.digits, t);
      InterShown(n, t);
      KeptIsRounded(n, scale);
      RepeatedReads(inter, n.exp);
      SignedReads(n.negative, RepeatedLayout(inter, n.exp));
      RoundSigned(n, scale);
    }
  }

  /** The digits kept have the rounded value, when no increment is lost. */
  lemma KeptIsRounded(n: Number, scale: int)
    requires n.Valid() && n.digits != "" && n.exp + scale > 0 && !LosesCarry(n, scale)
    ensures var inter := Inter(n.digits, n.exp + scale);
      && AllDigits(inter) && ReadNat(inter) > 0
      && InterValue(inter, n.exp) == InPlaces(RoundedUnits(n.Magnitude().Value(), scale), scale)
  {
    hide ReadNat, InPlaces, RoundedUnits, AllDigits, FloatingDecimal.Value, Carries, KeptUnits, IntegerDigits;
    var inter := Inter(n.digits, n.exp + scale);
    if |n.digits| <= n.exp + scale {
      RoundedExact(n, scale);
    } else {
      CutValue(n, scale);
    }
    MagnitudeSign(n);
    ValueSign(ReadNat(inter), n.exp - |inter|);
  }

  lemma TenthOfPlaces(k: nat, scale: int, e: int)
    requires k > 0 && (e == 0 - scale || e == 0 - scale - 1)
    ensures FloatingDecimal(k, e).Value() == (if e == 0 - scale then InPlaces(k, scale) else InPlaces(k, scale) / 10.0)
    ensures InPlaces(k, scale) > 0.0
  {
    hide Exp;
    ExpStep(10, 0 - scale - 1);
    ExpPositive(10, 0 - scale);
    OneTenth(k as real, Exp(10, 0 - scale), Exp(10, 0 - scale - 1));
  }

  lemma OneTenth(k: real, p: real, q: real)
    requires k > 0.0 && p > 0.0 && p == 10.0 * q
    ensures k * q == k * p / 10.0 && k * p > 0.0
  {}

  // ---------- how many places are printed ----------

  /** The digits that are printed do not start with a zero, and end in one only as they were. */
  lemma InterEnds(digits: string, t: nat)
    requires AllDigits(digits) && digits != "" && digits[0] != '0' && digits[|digits| - 1] != '0' && t > 0
    ensures var inter := Inter(digits, t);
      inter != "" && AllDigits(inter) && |inter| <= t && inter[0] != '0' && inter[|inter| - 1] != '0'
  {
    hide ReadNat, Pow;
    InterFits(digits, t);
    if t < |digits| {
      KeptRange(digits, t);
      IntegerEnds(KeptUnits(digits, t));
    }
  }

  lemma IntegerEnds(k: nat)
    requires k > 0
    ensures var r := IntegerDigits(k); r != "" && r[0] != '0' && r[|r| - 1] != '0'
  {
    hide ReadNat, Pow, IntegerText, WithoutTrailingZeros;
    IntegerTextIs(k);
    IntegerDigitsAre(k);
    StrippedShape(IntegerText(k));
    NoZeroAtEnd(IntegerText(k));
    var s, r := IntegerText(k), IntegerDigits(k);
    assert s[0] == r[0];
  }

  lemma {:induction false} NoZeroAtEnd(s: string)
    ensures var r := WithoutTrailingZeros(s); r != "" ==> r[|r| - 1] != '0'
  {
    if s != "" && s[|s| - 1] == '0' { NoZeroAtEnd(s[..|s| - 1]); }
  }

  /** The form of a number printed to `scale` places: as many digits before the point as the number
      has, or a single zero; no point at scale 0; and exactly `scale` places, except that behind `0.0`
      there are only the digits themselves. */
  predicate PlacesForm(n: Number, scale: nat, text: string)
    requires n.Valid() && n.exp + scale > 0
  {
    var u := Unsigned(n.negative, text);
    && (n.negative ==> text != "" && text[0] == '-')
    && PlainForm(u) && (IndexOf(u, '.') == |u| <==> scale == 0)
    && IndexOf(u, '.') == (if n.exp > 0 then n.exp else 1)
    && if n.exp >= 0 then Places(u) == scale
       else Places(u) == |Inter(n.digits, n.exp + scale)| - n.exp <= scale && u[|u| - 1] != '0'
  }

  /** The form of a layout: whole digits or a zero, and the places. */
  predicate LayoutHas(u: string, whole: nat, places: nat) {
    && u != "" && PlainForm(u) && IndexOf(u, '.') == whole
    && Places(u) == places && (places == 0 <==> whole == |u|)
  }

  lemma HasPoint(whole: string, fraction: string)
    requires WholePart(whole) && fraction != "" && AllDigits(fraction)
    ensures LayoutHas(whole + "." + fraction, |whole|, |fraction|)
  {
    PointForm(whole, fraction);
  }

  lemma HasNoPoint(whole: string)
    requires WholePart(whole)
    ensures LayoutHas(whole, |whole|, 0)
  {
    WholeForm(whole);
  }

  lemma LayoutForm(inter: string, exp: int, scale: nat)
    requires inter != "" && AllDigits(inter) && |inter| <= exp + scale && (exp > 0 ==> inter[0] != '0')
    ensures var u := ScaledLayout(inter, exp, scale);
      && LayoutHas(u, if exp > 0 then exp else 1, if exp >= 0 then scale else |inter| - exp)
      && (exp < 0 ==> u[|u| - 1] == inter[|inter| - 1])
  {
    hide AllDigits, Zeros, WholePart, LayoutHas;
    var z := exp + scale - |inter|;
    var all := inter + Zeros(z);
    ZerosAreDigits(z);
    DigitsJoin(inter, Zeros(z));
    ZeroPrefix();
    if exp == 0 {
      HasPoint("0", all);
      assert "0." + all == "0" + "." + all;
    } else if exp < 0 {
      ZerosAreDigits(-exp);
      DigitsJoin(Zeros(-exp), inter);
      HasPoint("0", Zeros(-exp) + inter);
      assert "0." + Zeros(-exp) + inter == "0" + "." + (Zeros(-exp) + inter);
    } else {
      WholeDigits(all, inter[0], exp);
      if scale > 0 {
        HasPoint(all[..exp], all[exp..]);
        assert all[..exp] + ("." + all[exp..]) == all[..exp] + "." + all[exp..];
      } else {
        HasNoPoint(all[..exp]);
        assert all[..exp] + "" == all[..exp];
      }
    }
  }

  lemma WholeDigits(all: string, first: char, exp: int)
    requires AllDigits(all) && 0 < exp <= |all| && all[0] == first != '0'
    ensures WholePart(all[..exp]) && AllDigits(all[exp..])
  {}

  lemma SignedPlaces(n: Number, scale: nat, u: string, inter: string)
    requires n.Valid() && n.exp + scale > 0 && (n.exp < 0 ==> inter == Inter(n.digits, n.exp + scale))
    requires LayoutHas(u, if n.exp > 0 then n.exp else 1, if n.exp >= 0 then scale else |inter| - n.exp)
    requires n.exp < 0 ==> u[|u| - 1] != '0' && |inter| <= n.exp + scale
    ensures PlacesForm(n, scale, (if n.negative then "-" else "") + u)
  {
    hide Inter, PlainForm, Places, IndexOf, AllDigits;
    assert ("-" + u)[1..] == u && "" + u == u;
  }

  /** The text of a number at a scale that is not negative. */
  lemma ScaledTextForm(n: Number, scale: nat)
    requires n.Valid() && n.exp + scale > 0
    ensures ScaledText(n, scale).Printed? && PlacesForm(n, scale, ScaledText(n, scale).text)
  {
    hide Inter, ScaledLayout, AllDigits, LayoutHas, PlacesForm, RepeatedLayout;
    var t := n.exp + scale;
    InterShown(n, t);
    if n.digits != "" { Ends(n, t); }
    var inter := Inter(Shown(n), t);
    LayoutForm(inter, n.exp, scale);
    LayoutNotEmpty(ScaledLayout(inter, n.exp, scale), if n.exp > 0 then n.exp else 1,
                   if n.exp >= 0 then scale else |inter| - n.exp);
    SignedPlaces(n, scale, ScaledLayout(inter, n.exp, scale), inter);
  }

  lemma LayoutNotEmpty(u: string, whole: nat, places: nat)
    requires LayoutHas(u, whole, places)
    ensures u != ""
  {}

  lemma Ends(n: Number, t: nat)
    requires n.Valid() && n.digits != "" && t > 0
    ensures AllDigits(n.digits)
    ensures var inter := Inter(n.digits, t);
      inter != "" && AllDigits(inter) && |inter| <= t && inter[0] != '0' && inter[|inter| - 1] != '0'
  {
    InterEnds(n.digits, t);
  }

  /** The text at a negative scale: no point, twice as many digits as were kept, and exactly this value. */
  lemma RepeatedTextForm(n: Number, scale: int)
    requires n.Valid() && scale < 0 < n.exp + scale && ScaledText(n, scale).Printed?
    ensures AllDigits(n.digits)
    ensures var inter, text := Inter(n.digits, n.exp + scale), ScaledText(n, scale).text;
      var u := Unsigned(n.negative, text);
      && (n.negative ==> text != "" && text[0] == '-')
      && WholePart(u) && |u| == 2 * |inter|
      && |inter| < n.exp <= 2 * |inter| && AllDigits(inter) && AllDigits(inter[n.exp - |inter|..])
      && ReadNat(u) == ReadNat(inter) * Pow(10, |inter|) + ReadNat(inter[n.exp - |inter|..])
  {
    hide Inter, AllDigits, Pow, ReadNat, RepeatedLayout, WholePart;
    var t := n.exp + scale;
    Ends(n, t);
    var inter := Inter(n.digits, t);
    RepeatedForm(inter, n.exp);
    var u := RepeatedLayout(inter, n.exp);
    assert ("-" + u)[1..] == u && "" + u == u;
  }

  lemma RepeatedForm(inter: string, exp: int)
    requires inter != "" && AllDigits(inter) && inter[0] != '0' && |inter| < exp <= 2 * |inter|
    ensures var u, tail := RepeatedLayout(inter, exp), inter[exp - |inter|..];
      && WholePart(u) && |u| == 2 * |inter| && AllDigits(tail)
      && ReadNat(u) == ReadNat(inter) * Pow(10, |inter|) + ReadNat(tail)
  {
    hide AllDigits, Zeros, Pow, ReadNat;
    var zeros := exp - |inter|;
    var whole, tail := inter + Zeros(zeros), inter[zeros..];
    TailDigits(inter, zeros);
    ReadZeros(inter, zeros);
    ZerosAreDigits(zeros);
    ReadSplit(whole, tail);
    DigitsJoin(whole, tail);
    Twice(ReadNat(inter), zeros, |inter| - zeros);
    assert RepeatedLayout(inter, exp) == whole + tail && (whole + tail)[0] == inter[0];
  }

  lemma Twice(m: nat, y: nat, z: nat)
    ensures m * Pow(10, y) * Pow(10, z) == m * Pow(10, y + z)
  {
    hide Pow;
    PowAdd(10, y, z);
    MulAssociative(m, Pow(10, y), Pow(10, z));
  }

  /** Exactly when the rounded text is right, whatever the sign of the scale. */
  lemma ScaledTextIsRounded(n: Number, scale: int)
    requires n.Valid()
    ensures ReadPrinted(ScaledText(n, scale)) == Some(RoundHalfAway(n.Value(), scale)) <==>
            !LosesCarry(n, scale) && !LosesUnit(n, scale) && !RepeatsDigits(n, scale)
  {
    hide ReadPrinted, ScaledText, RoundedUnits, RoundHalfAway, InPlaces, ReadNat, FloatingDecimal.Value, Carries, Inter;
    var t := n.exp + scale;
    RoundSigned(n, scale);
    if RepeatsDigits(n, scale) {
      RepeatedIsWrong(n, scale);
    } else if n.digits == "" {
      ZeroText(n, scale);
    } else if t <= 0 {
      NothingKept(n, scale);
    } else if |n.digits| <= t {
      KeptIsRounded(n, scale);
      TextValue(n, scale);
    } else {
      CutTextValue(n, scale);
    }
  }

  lemma ZeroReads()
    ensures ReadSigned("0") == Some(0.0)
  {
    hide ReadUnsigned;
    PlainReads("0");
    NoExponentReads("0");
    assert ReadNat("0") == 0 by { assert "0"[..0] == ""; }
  }

  lemma ZeroUnits(scale: int)
    ensures RoundedUnits(0.0, scale) == 0 && InPlaces(0, scale) == 0.0
  {
    hide Exp;
    assert ToUnits(0.0, scale) == 0.0;
    FloorIs(ToUnits(0.0, scale) + 0.5, 0);
  }

  lemma ZeroIs(n: Number)
    requires n.Valid() && n.digits == ""
    ensures n.Magnitude().Value() == 0.0 && ReadNat("0") == 0 && FloatingDecimal(0, -1).Value() == 0.0
  {
    hide Exp;
    assert ReadNat(n.digits) == 0 && "0"[..0] == "";
  }

  lemma ZeroText(n: Number, scale: int)
    requires n.Valid() && n.digits == ""
    ensures ReadPrinted(ScaledText(n, scale)) == Some(RoundHalfAway(n.Value(), scale))
  {
    hide ReadSigned, RoundedUnits, InPlaces, FloatingDecimal.Value, ReadNat, Number.Magnitude, RoundHalfAway;
    ZeroIs(n);
    ZeroUnits(scale);
    RoundSigned(n, scale);
    if scale <= 0 {
      ZeroReads();
    } else {
      hide ScaledText;
      TextValue(n, scale);
    }
  }

  lemma NothingKept(n: Number, scale: int)
    requires n.Valid() && n.digits != "" && n.exp + scale <= 0
    ensures ReadPrinted(ScaledText(n, scale)) == Some(0.0)
    ensures RoundHalfAway(n.Value(), scale) ==
            (if LosesUnit(n, scale) then Signed(n.negative, InPlaces(1, scale)) else 0.0)
    ensures InPlaces(1, scale) > 0.0
  {
    hide ReadSigned, Exp, ReadNat, RoundHalfAway, RoundedUnits, FloatingDecimal.Value, Number.Magnitude;
    ZeroReads();
    RoundSigned(n, scale);
    ExpPositive(10, 0 - scale);
    if n.exp + scale < 0 {
      RoundedBelow(n, scale);
    } else {
      RoundedCut(n, scale);
      NoneKept(n.digits);
    }
  }

  lemma NoneKept(digits: string)
    requires digits != "" && AllDigits(digits)
    ensures KeptUnits(digits, 0) == if digits[0] >= '5' then 1 else 0
  {
    assert digits[..0] == "" && ReadNat("") == 0;
  }

  lemma Hundred()
    ensures KeptUnits("999", 2) == 100
  {
    var s := "99";
    assert "999"[..2] == s && s[..1] == "9" && s[..1][..0] == "";
    assert ReadNat(s[..1]) == 9 && ReadNat(s) == 99;
  }

  lemma HundredText()
    ensures IntegerDigits(100) == "1"
  {
    assert IntegerText(1) == "1";
    assert IntegerText(10) == IntegerText(1) + "0" == "10";
    assert IntegerText(100) == IntegerText(10) + "0" == "100";
    hide IntegerText;
    assert "100"[..2] == "10" && "10"[..1] == "1";
    assert WithoutTrailingZeros("1") == "1";
    assert WithoutTrailingZeros("10") == "1";
  }

  /** 9.99 to one place prints as 1.0, though it rounds to 10. */
  lemma CarryLost()
    ensures var n := Number(false, "999", 1);
      n.Valid() && LosesCarry(n, 1) && ScaledText(n, 1) == Printed("1.0") && RoundHalfAway(n.Value(), 1) == 10.0
  {
    var n := Number(false, "999", 1);
    Hundred();
    HundredText();
    RoundedCut(n, 1);
    RoundSigned(n, 1);
    ExpStep(10, -1);
    assert InPlaces(100, 1) == 10.0;
    hide ReadNat, IntegerDigits, RoundHalfAway, RoundedUnits, KeptUnits, InPlaces, Exp;
    assert Zeros(1) == "0" && Inter("999", 2) == "1";
    var all := "1" + "0";
    assert all[..1] == "1" && all[1..] == "0" && ScaledLayout("1", 1, 1) == "1" + ("." + "0");
  }

  /** 0.6 to no places prints as 0, though it rounds to 1. */
  lemma UnitLost()
    ensures var n := Number(false, "6", 0);
      n.Valid() && LosesUnit(n, 0) && ScaledText(n, 0) == Printed("0") && RoundHalfAway(n.Value(), 0) == 1.0
  {
    hide ReadNat, RoundHalfAway;
    var n := Number(false, "6", 0);
    NothingKept(n, 0);
    ExpStep(10, 0);
  }

  /** 123 to the nearest ten prints as 1202. */
  lemma DigitsRepeated()
    ensures var n := Number(false, "123", 3);
      && n.Valid() && RepeatsDigits(n, -1) && ScaledText(n, -1) == Printed("1202")
      && RoundHalfAway(n.Value(), -1) == 120.0
  {
    var n := Number(false, "123", 3);
    Twelve();
    RoundedCut(n, -1);
    RoundSigned(n, -1);
    ExpStep(10, 0);
    assert InPlaces(12, -1) == 120.0;
    hide ReadNat, IntegerDigits, RoundHalfAway, RoundedUnits, KeptUnits, InPlaces, Exp;
    assert Zeros(1) == "0" && Inter("123", 2) == "12";
  }

  lemma Twelve()
    ensures KeptUnits("123", 2) == 12 && IntegerDigits(12) == "12"
  {
    var s := "12";
    assert "123"[..2] == s && s[..1] == "1" && s[..1][..0] == "";
    assert ReadNat(s[..1]) == 1 && ReadNat(s) == 12;
    assert IntegerText(1) == "1" && IntegerText(12) == IntegerText(1) + "2" == "12";
  }

  /** 12000 to the nearest hundred throws. */
  lemma ScaleThrows()
    ensures var n := Number(false, "12", 5); n.Valid() && RepeatsDigits(n, -2) && ScaledText(n, -2) == OutOfRange
  {}

  /** `Decimal::toString(precision, scale)`; the precision is not used. */
  method ToStringScaled(n: Number, scale: int) returns (result: Printed)
    requires n.Valid()
    ensures result == ScaledText(n, scale)
    ensures n.exp + scale <= 0 ==> result == Printed("0")
    ensures scale >= 0 && n.exp + scale > 0 ==> result.Printed? && PlacesForm(n, scale, result.text)
  {
    hide Inter, ScaledLayout, AllDigits, PlacesForm;
    if scale >= 0 && n.exp + scale > 0 { ScaledTextForm(n, scale); }
    var exp, str, srcDigitStartPos := n.exp, n.Str(), 0;
    if str == "" && exp == 0 {
      str := "0";
    }
    var srcDigitCount, isNegative := |str|, false;
    ShownFirst(n);
    if str[0] == '-' {
      srcDigitStartPos := srcDigitStartPos + 1;
      srcDigitCount := srcDigitCount - 1;
      isNegative := true;
    }
    ghost var digits := Shown(n);
    assert str[srcDigitStartPos..] == digits && srcDigitCount == |digits| && isNegative == n.negative;
    var targetMaxDigitCount := if exp == 0 then scale else exp + scale;
    if targetMaxDigitCount <= 0 {
      return Printed("0");
    }
    InterShown(n, targetMaxDigitCount);
    var interStr := CutDigits(str, srcDigitStartPos, srcDigitCount, targetMaxDigitCount);
    var sign := "";
    if isNegative {
      sign := sign + ['-'];
    }
    assert sign == if n.negative then "-" else "";
    if exp > 0 {
      result := PrintLarge(sign, interStr, exp, scale);
    } else {
      var text := PrintSmall(sign, interStr, exp, scale);
      result := Printed(text);
    }
  }

  lemma ShownFirst(n: Number)
    requires n.Valid()
    ensures Shown(n) != "" && AllDigits(Shown(n)) && Shown(n)[0] != '-'
  {}

  /** The digits to print: cut, and incremented as an integer when the first one cut is at least 5. */
  method CutDigits(str: string, start: nat, count: nat, target: nat) returns (interStr: string)
    requires start + count == |str| && AllDigits(str[start..]) && target > 0
    ensures interStr == Inter(str[start..], target)
  {
    ghost var digits := str[start..];
    var str1 := Substr(str, start, target);
    if count > target {
      var cutDigit := str[start + target];
      assert str1 == digits[..target] && cutDigit == digits[target];
      interStr := IntegerDigits(ReadNat(str1) + (if cutDigit >= '5' then 1 else 0));
    } else {
      assert str1 == digits;
      interStr := str1;
    }
  }

  /** The part before the point, and where the digits go on. */
  method PrintWhole(sign: string, interStr: string, exp: int) returns (result: string, intPost0: nat, consumed: nat)
    requires exp > 0
    ensures consumed == if |interStr| <= exp then |interStr| else exp
    ensures intPost0 == if |interStr| <= exp then exp - |interStr| else exp
    ensures result == sign + (interStr[..consumed] + Zeros(exp - consumed))
  {
    result := sign + Substr(interStr, 0, exp);
    if |interStr| <= exp {
      intPost0, consumed := exp - |interStr|, |interStr|;
      result := PushZeros(result, intPost0);
    } else {
      intPost0, consumed := exp, exp;
      NoZeros();
    }
    assert Substr(interStr, 0, exp) == interStr[..consumed];
  }

  /** The digits and zeros of `ScaledLayout`, cut at the point. */
  lemma PaddedParts(interStr: string, exp: nat, scale: nat, consumed: nat)
    requires |interStr| <= exp + scale && consumed == if |interStr| <= exp then |interStr| else exp
    ensures var all := interStr + Zeros(exp + scale - |interStr|);
      && |all| == exp + scale
      && all[..exp] == interStr[..consumed] + Zeros(exp - consumed)
      && all[exp..] == interStr[consumed..] + Zeros(scale - (|interStr| - consumed))
  {}

  /** The part behind the point: the digits left over and zeros, or the digits from `intPost0` on. */
  method AppendPlaces(head: string, interStr: string, consumed: nat, intPost0: nat, scale: int) returns (r: Printed)
    requires consumed <= |interStr|
    ensures r ==
            var remain := |interStr| - consumed;
            if remain < scale then Printed(head + (interStr[consumed..] + Zeros(scale - remain)))
            else if intPost0 > |interStr| then OutOfRange
            else Printed(head + interStr[intPost0..])
  {
    hide Zeros;
    var remain := |interStr| - consumed;
    var result := head;
    if remain < scale {
      result := result + interStr[consumed..];
      result := PushZeros(result, scale - remain);
      assert result == head + (interStr[consumed..] + Zeros(scale - remain));
    } else if intPost0 > |interStr| {
      return OutOfRange;
    } else {
      result := result + interStr[intPost0..];
    }
    return Printed(result);
  }

  lemma Dotted(sign: string, a: string, b: string)
    ensures sign + a + ['.'] + b == sign + (a + ("." + b))
  {}

  /** Digits, zeros and digits again. */
  lemma Repeats(sign: string, inter: string, exp: int, consumed: nat)
    requires |inter| <= exp <= 2 * |inter| && consumed == |inter|
    ensures sign + (inter[..consumed] + Zeros(exp - consumed)) + inter[exp - |inter|..] ==
            sign + RepeatedLayout(inter, exp)
  {
    assert inter[..consumed] == inter;
  }

  /** The layout of a value with digits before the point, in the parts it is written in. */
  lemma LayoutParts(sign: string, inter: string, exp: int, scale: nat, consumed: nat, head: string)
    requires exp > 0 && |inter| <= exp + scale && consumed == if |inter| <= exp then |inter| else exp
    requires head == sign + (inter[..consumed] + Zeros(exp - consumed))
    ensures scale == 0 ==> head == sign + ScaledLayout(inter, exp, scale)
    ensures scale > 0 ==>
              head + ['.'] + (inter[consumed..] + Zeros(scale - (|inter| - consumed))) ==
              sign + ScaledLayout(inter, exp, scale)
  {
    PaddedParts(inter, exp, scale, consumed);
    var all := inter + Zeros(exp + scale - |inter|);
    Dotted(sign, all[..exp], all[exp..]);
    hide Zeros;
    assert all[..exp] + "" == all[..exp];
  }

  /** A value with digits before the point. */
  method PrintLarge(sign: string, interStr: string, exp: int, scale: int) returns (printed: Printed)
    requires exp > 0 && |interStr| <= exp + scale
    ensures printed == WithSign(sign, AnyLayout(interStr, exp, scale))
  {
    hide Zeros, ScaledLayout, RepeatedLayout;
    var result, intPost0, consumed := PrintWhole(sign, interStr, exp);
    if scale >= 0 {
      LayoutParts(sign, interStr, exp, scale, consumed, result);
    } else if exp <= 2 * |interStr| {
      Repeats(sign, interStr, exp, consumed);
    }
    if scale > 0 {
      result := result + ['.'];
    }
    if scale == 0 {
      return Printed(result);
    }
    NoZeros();
    assert interStr[consumed..] + "" == interStr[consumed..];
    printed := AppendPlaces(result, interStr, consumed, intPost0, scale);
  }

  /** A value below one. */
  method PrintSmall(sign: string, interStr: string, exp: int, scale: int) returns (result: string)
    requires exp <= 0 && |interStr| <= exp + scale && exp + scale > 0
    ensures result == sign + ScaledLayout(interStr, exp, scale)
  {
    if 0 - exp >= scale {
      return "0";
    }
    result := sign + ['0'] + ['.'];
    if exp == 0 {
      result := result + interStr;
      result := PushZeros(result, scale - |interStr|);
      assert result == sign + ("0." + (interStr + Zeros(scale - |interStr|)));
    } else {
      result := PushZeros(result, 0 - exp);
      assert Substr(interStr, 0, exp + scale) == interStr;
      result := result + Substr(interStr, 0, exp + scale);
      assert result == sign + ("0." + Zeros(0 - exp) + interStr);
    }
  }
}
