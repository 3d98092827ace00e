/** The form of a number's text, apart from what it denotes: which digits and how many there are before
    and behind the point, and when there is an exponent. A value and this form leave only one text. */
module TextForm {
  import opened Powers
  import opened ShortestDecimal
  import opened DecimalText
  import TC = ToChars

  /** Digits without a superfluous zero in front. */
  predicate WholePart(s: string) { s != "" && AllDigits(s) && (|s| > 1 ==> s[0] != '0') }

  /** Digits, and perhaps a point and more digits. */
  predicate PlainForm(s: string) {
    var p := IndexOf(s, '.');
    WholePart(s[..p]) && (p < |s| ==> p + 1 < |s| && AllDigits(s[p + 1..]))
  }

  /** Plain, and no zero at the end of the places. */
  predicate FixedForm(s: string) { PlainForm(s) && (IndexOf(s, '.') < |s| ==> s[|s| - 1] != '0') }

  /** A sign and two digits, or three when the first of them is not zero. */
  predicate ExponentForm(s: string) {
    && |s| in {3, 4} && s[0] in "+-" && AllDigits(s[1..])
    && (|s| == 4 ==> s[1] != '0')
  }

  /** One digit other than zero, places that do not end in zero, and an exponent. */
  predicate ScientificForm(s: string) {
    var e := IndexOf(s, 'e');
    && e < |s| && FixedForm(s[..e]) && s[0] != '0' && IndexOf(s[..e], '.') == 1
    && ExponentForm(s[e + 1..])
  }

  /** The number of places behind the point. */
  function Places(s: string): nat {
    var p := IndexOf(s, '.');
    if p < |s| then |s| - p - 1 else 0
  }

  lemma PointForm(whole: string, fraction: string)
    requires WholePart(whole) && fraction != "" && AllDigits(fraction)
    ensures var s := whole + "." + fraction;
      && IndexOf(s, '.') == |whole| && PlainForm(s) && Places(s) == |fraction| && 'e' !in s
      && s[..|whole|] == whole && s[|whole| + 1..] == fraction
  {
    var s := whole + "." + fraction;
    DigitsHave(whole, '.');
    DigitsHave(whole, 'e');
    DigitsHave(fraction, 'e');
    assert s[..|whole|] == whole && s[|whole| + 1..] == fraction;
    IndexOfIs(s, '.', |whole|);
  }

  lemma WholeForm(whole: string)
    requires WholePart(whole)
    ensures IndexOf(whole, '.') == |whole| && FixedForm(whole) && Places(whole) == 0
    ensures 'e' !in whole && '.' !in whole
  {
    DigitsHave(whole, '.');
    DigitsHave(whole, 'e');
    assert whole[..|whole|] == whole;
    IndexOfIs(whole, '.', |whole|);
  }

  // ---------- digits of a number ----------

  lemma LastDigit(m: nat, len: nat)
    requires len > 0
    ensures Digits(m, len)[len - 1] == '0' <==> m % 10 == 0
  {}

  lemma {:induction false} LeadingDigit(m: nat, len: nat)
    requires len > 0 && Pow(10, len - 1) <= m < Pow(10, len)
    ensures Digits(m, len)[0] != '0'
  {
    if len == 1 {
      assert m % 10 == m && m > 0 by { assert Pow(10, 0) == 1 && Pow(10, 1) == 10; }
    } else {
      assert Pow(10, len - 1) == 10 * Pow(10, len - 2) && Pow(10, len) == 10 * Pow(10, len - 1);
      LeadingDigit(m / 10, len - 1);
      assert Digits(m, len)[0] == Digits(m / 10, len - 1)[0];
    }
  }

  lemma ZeroPrefix()
    ensures WholePart("0")
  {}

  lemma DigitsJoin(a: string, b: string)
    requires AllDigits(a) && AllDigits(b)
    ensures AllDigits(a + b)
  {}

  lemma DigitsPart(s: string, i: nat, j: nat)
    requires AllDigits(s) && i <= j <= |s|
    ensures AllDigits(s[i..j])
  {}

  lemma ZerosAreDigits(n: nat)
    ensures AllDigits(Zeros(n)) && |Zeros(n)| == n
  {}

  // ---------- the two layouts ----------

  /** A decimal has `len` digits, and does not end in zero unless it is a whole number. */
  predicate Tidy(d: FloatingDecimal, len: nat) {
    && len > 0 && Pow(10, len - 1) <= d.mantissa < Pow(10, len)
    && (d.exponent < 0 ==> d.mantissa % 10 != 0)
  }

  lemma FixedTextForm(d: FloatingDecimal, len: nat)
    requires Tidy(d, len)
    ensures FixedForm(FixedText(d, len)) && 'e' !in FixedText(d, len)
  {
    hide Pow, Digits, Zeros, AllDigits;
    var point, digits := d.exponent + len, Digits(d.mantissa, len);
    LastDigit(d.mantissa, len);
    LeadingDigit(d.mantissa, len);
    if point <= 0 {
      ZeroPrefix();
      ZerosAreDigits(-point);
      DigitsJoin(Zeros(-point), digits);
      PointForm("0", Zeros(-point) + digits);
      assert "0." + Zeros(-point) + digits == "0" + "." + (Zeros(-point) + digits);
    } else if d.exponent < 0 {
      DigitsPart(digits, 0, point);
      DigitsPart(digits, point, len);
      assert digits[0..point] == digits[..point] && digits[point..len] == digits[point..];
      PointForm(digits[..point], digits[point..]);
    } else {
      ZerosAreDigits(d.exponent);
      DigitsJoin(digits, Zeros(d.exponent));
      WholeForm(digits + Zeros(d.exponent));
    }
  }

  lemma SignedExponentForm(x: int)
    requires -1000 < x < 1000
    ensures ExponentForm(SignedExponentText(x))
  {
    hide Pow, Digits;
    var m := if x < 0 then -x else x;
    var digits := Digits(m, if m >= 100 then 3 else 2);
    assert SignedExponentText(x)[1..] == digits;
    if m >= 100 {
      Hundreds();
      LeadingDigit(m, 3);
    }
  }

  lemma Hundreds()
    ensures Pow(10, 2) == 100 && Pow(10, 3) == 1000
  {}

  lemma ScientificTextForm(mantissa: nat, len: nat, exp: int)
    requires len > 0 && Pow(10, len - 1) <= mantissa < Pow(10, len) && mantissa % 10 != 0 && -1000 < exp < 1000
    ensures ScientificForm(ScientificText(mantissa, len, exp)) && 'e' in ScientificText(mantissa, len, exp)
  {
    hide Pow, Digits, AllDigits, SignedExponentText, ExponentForm;
    var digits, tail := Digits(mantissa, len), SignedExponentText(exp);
    LastDigit(mantissa, len);
    LeadingDigit(mantissa, len);
    SignedExponentForm(exp);
    DigitsPart(digits, 0, 1);
    DigitsPart(digits, 1, len);
    assert digits[0..1] == digits[..1] && digits[1..len] == digits[1..];
    var head := digits[..1] + (if len > 1 then "." + digits[1..] else "");
    if len > 1 {
      PointForm(digits[..1], digits[1..]);
      assert head == digits[..1] + "." + digits[1..];
    } else {
      WholeForm(digits[..1]);
      assert head == digits[..1];
    }
    var s := ScientificText(mantissa, len, exp);
    assert s == head + "e" + tail && s[..|head|] == head && s[|head| + 1..] == tail;
    IndexOfIs(s, 'e', |head|);
  }

  // ---------- the choice between them ----------

  /** A value with `len` digits lies between the powers of ten of its first digit's place. */
  lemma ValueBetween(d: FloatingDecimal, len: nat)
    requires len > 0 && Pow(10, len - 1) <= d.mantissa < Pow(10, len)
    ensures Exp(10, d.exponent + len - 1) <= d.Value() < Exp(10, d.exponent + len)
  {
    hide Pow, Exp;
    ExpPositive(10, d.exponent);
    ExpAdd(10, d.exponent, len - 1);
    ExpAdd(10, d.exponent, len);
    ExpPow(10, len - 1);
    ExpPow(10, len);
    Between(Pow(10, len - 1), d.mantissa, Pow(10, len), Exp(10, d.exponent), Exp(10, d.exponent + len - 1),
            Exp(10, d.exponent + len), d.Value());
  }

  lemma Between(a: nat, m: nat, b: nat, t: real, x: real, y: real, v: real)
    requires a <= m < b && t > 0.0 && x == t * a as real && y == t * b as real && v == m as real * t
    ensures x <= v < y
  {
    RealAtMost(a as real, m as real, t);
    RealMulLess(m as real, b as real, t);
  }

  /** Below a power of ten or not, by the place of the first digit. */
  lemma PlaceDecides(d: FloatingDecimal, len: nat, k: int)
    requires len > 0 && Pow(10, len - 1) <= d.mantissa < Pow(10, len)
    ensures Exp(10, k) <= d.Value() <==> k <= d.exponent + len - 1
  {
    hide Pow, Exp, FloatingDecimal.Value;
    ValueBetween(d, len);
    var place := d.exponent + len - 1;
    if k <= place { Exp10Monotone(k, place); } else { Exp10Monotone(place + 1, k); }
  }

  /** The text has an exponent exactly when the value is below 10^-4 or not below 10^15, and its form
      is the fixed or the scientific one. */
  lemma PlainTextForm(v: FloatingDecimal)
    requires TC.Displayable(v) && (v.exponent == 0 || v.mantissa % 10 != 0)
    ensures 'e' !in TC.PlainText(v) <==> Exp(10, -4) <= v.Value() < Exp(10, 15)
    ensures if 'e' in TC.PlainText(v) then ScientificForm(TC.PlainText(v)) else FixedForm(TC.PlainText(v))
  {
    hide Pow, Exp, FloatingDecimal.Value, FixedText, ScientificText, FixedForm, ScientificForm;
    var len := TC.DecimalLength(v.mantissa);
    PlaceDecides(v, len, -4);
    PlaceDecides(v, len, 15);
    if -4 <= v.exponent + len - 1 < 15 {
      FixedTextForm(v, len);
    } else {
      var m := if v.exponent == 0 then TC.StripZeros(v.mantissa) else v.mantissa;
      ScientificTextForm(m, TC.DecimalLength(m), v.exponent + len - 1);
    }
  }
}
