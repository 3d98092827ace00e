/** The text of a decimal: the two layouts the printer chooses between, written the plain way,
    and a reader that gives every such text its value. */
module DecimalText {
  import opened Options
  import opened Powers
  import opened ShortestDecimal

  // ---------- digits ----------

  function DigitChar(d: nat): char
    requires d < 10
  {
    '0' + d as char
  }

  predicate IsDigit(c: char) { '0' <= c <= '9' }

  predicate AllDigits(s: string) { forall i | 0 <= i < |s| :: IsDigit(s[i]) }

  /** The last `len` decimal digits of `n`. */
  function Digits(n: nat, len: nat): (s: string)
    ensures |s| == len && AllDigits(s)
  {
    if len == 0 then "" else Digits(n / 10, len - 1) + [DigitChar(n % 10)]
  }

  function Zeros(n: nat): string { seq(n, _ => '0') }

  function ReadNat(s: string): nat
    requires AllDigits(s)
  {
    if s == "" then 0 else ReadNat(s[..|s| - 1]) * 10 + (s[|s| - 1] - '0') as nat
  }

  lemma {:induction false} ReadDigits(n: nat, len: nat)
    requires n < Pow(10, len)
    ensures ReadNat(Digits(n, len)) == n
  {
    if len > 0 {
      assert n / 10 < Pow(10, len - 1);
      ReadDigits(n / 10, len - 1);
      hide Pow;
      assert Digits(n, len)[..len - 1] == Digits(n / 10, len - 1);
    }
  }

  lemma {:induction false} ReadZeros(s: string, z: nat)
    requires AllDigits(s)
    ensures AllDigits(s + Zeros(z)) && ReadNat(s + Zeros(z)) == ReadNat(s) * Pow(10, z)
  {
    hide ReadNat, Pow;
    PowTen(z);
    if z == 0 {
      assert s + Zeros(0) == s;
    } else {
      ReadZeros(s, z - 1);
      assert s + Zeros(z) == (s + Zeros(z - 1)) + "0";
      ReadSnoc(s + Zeros(z - 1), '0');
      MulAssociative(ReadNat(s), 10, Pow(10, z - 1));
    }
  }

  lemma PowTen(z: nat)
    ensures Pow(10, z) == if z == 0 then 1 else 10 * Pow(10, z - 1)
  {}

  lemma ReadSnoc(s: string, c: char)
    requires AllDigits(s) && IsDigit(c)
    ensures AllDigits(s + [c]) && ReadNat(s + [c]) == ReadNat(s) * 10 + (c - '0') as nat
  {
    assert (s + [c])[..|s|] == s;
  }

  lemma {:induction false} ReadLeadingZeros(z: nat, s: string)
    requires AllDigits(s)
    ensures AllDigits(Zeros(z) + s) && ReadNat(Zeros(z) + s) == ReadNat(s)
  {
    if s == "" {
      assert Zeros(z) + s == "" + Zeros(z);
      ReadZeros("", z);
    } else {
      ReadLeadingZeros(z, s[..|s| - 1]);
      var t := Zeros(z) + s;
      assert t[..|t| - 1] == Zeros(z) + s[..|s| - 1];
      assert AllDigits(t);
    }
  }

  /** Taking the low digits off the end, and the high ones off the front. */
  lemma {:induction false} SplitDigits(n: nat, len: nat, low: nat)
    requires low <= len
    ensures Pow(10, low) > 0
    ensures Digits(n, len) == Digits(n / Pow(10, low), len - low) + Digits(n, low)
  {
    PowPositive(10, low);
    if low == 0 {
      assert n / Pow(10, 0) == n;
    } else {
      SplitDigits(n / 10, len - 1, low - 1);
      PowPositive(10, low - 1);
      DivDiv(n, 10, Pow(10, low - 1));
      assert Pow(10, low) == 10 * Pow(10, low - 1);
      assert Digits(n, low) == Digits(n / 10, low - 1) + Digits(n, low)[low - 1..];
      assert Digits(n, len) == Digits(n / 10, len - 1) + Digits(n, low)[low - 1..];
      hide Digits, Pow;
    }
  }

  lemma {:induction false} DigitsOfRemainder(n: nat, k: nat, low: nat)
    requires k >= low
    ensures Pow(10, k) > 0 && Digits(n % Pow(10, k), low) == Digits(n, low)
  {
    PowPositive(10, k);
    if low > 0 {
      DigitsOfRemainder(n / 10, k - 1, low - 1);
      PowPositive(10, k - 1);
      RemainderTenth(n, Pow(10, k - 1));
    }
  }

  lemma RemainderTenth(n: nat, p: nat)
    requires p > 0
    ensures (n % (10 * p)) / 10 == (n / 10) % p && (n % (10 * p)) % 10 == n % 10
  {
    var q := n / 10;
    assert q == q / p * p + q % p;
    var r := 10 * (q % p) + n % 10;
    assert n == q / p * (10 * p) + r by { MulAssociative(q / p, 10, p); }
    assert q % p + 1 <= p;
    assert r < 10 * p;
    assert (q / p + 1) * (10 * p) == q / p * (10 * p) + 10 * p;
    DivUnique(n, 10 * p, q / p);
    assert n % (10 * p) == r;
  }

  // ---------- the reader ----------

  function IndexOf(s: string, c: char): (i: nat)
    ensures i <= |s|
    ensures c !in s[..i] && (i < |s| ==> s[i] == c)
  {
    if s == "" || s[0] == c then 0 else
      var i := IndexOf(s[1..], c);
      assert s[..i + 1] == [s[0]] + s[1..][..i];
      i + 1
  }

  lemma {:induction false} IndexOfIs(s: string, c: char, i: nat)
    requires i <= |s| && c !in s[..i] && (i < |s| ==> s[i] == c)
    ensures IndexOf(s, c) == i
  {
    if i > 0 {
      assert s[..i][0] == s[0];
      assert s[1..][..i - 1] == s[..i][1..];
      IndexOfIs(s[1..], c, i - 1);
    }
  }

  /** `e`, a sign and digits. */
  function ReadExponent(s: string): Option<int> {
    if |s| < 2 || (s[0] != '+' && s[0] != '-') || !AllDigits(s[1..]) then None
    else Some(if s[0] == '-' then 0 - ReadNat(s[1..]) else ReadNat(s[1..]))
  }

  /** Digits with at most one point among them, as a mantissa and an exponent. */
  function ReadMantissa(s: string): Option<FloatingDecimal> {
    var p := IndexOf(s, '.');
    var whole, fraction := s[..p], if p < |s| then s[p + 1..] else "";
    if whole == "" || !AllDigits(whole) || !AllDigits(fraction) then None
    else
      assert AllDigits(whole + fraction);
      Some(FloatingDecimal(ReadNat(whole + fraction), -|fraction|))
  }

  /** The value of an unsigned decimal text, if it is one. */
  function ReadUnsigned(s: string): Option<FloatingDecimal> {
    var e := IndexOf(s, 'e');
    var m := ReadMantissa(s[..e]);
    if e == |s| then m
    else
      var x := ReadExponent(s[e + 1..]);
      if m.None? || x.None? then None else Some(m.value.(exponent := m.value.exponent + x.value))
  }

  predicate Lacks(s: string, c: char) { c !in s }

  lemma DigitsHave(s: string, c: char)
    requires AllDigits(s) && !IsDigit(c)
    ensures c !in s
  {}

  // ---------- the two layouts ----------

  /** Fixed point: the digits with zeros around them or a point inserted. */
  function FixedText(d: FloatingDecimal, len: nat): string
  {
    var point := d.exponent + len;
    var digits := Digits(d.mantissa, len);
    if point <= 0 then "0." + Zeros(-point) + digits
    else if d.exponent < 0 then digits[..point] + "." + digits[point..]
    else digits + Zeros(d.exponent)
  }

  function SignedExponentText(x: int): string
    requires -1000 < x < 1000
  {
    var m := if x < 0 then -x else x;
    (if x < 0 then "-" else "+") + Digits(m, if m >= 100 then 3 else 2)
  }

  /** Scientific: one digit, a point if there are more, and the power of ten of the first digit. */
  function ScientificText(mantissa: nat, len: nat, exp: int): string
    requires len > 0 && -1000 < exp < 1000
  {
    var digits := Digits(mantissa, len);
    digits[..1] + (if len > 1 then "." + digits[1..] else "") + "e" + SignedExponentText(exp)
  }

  lemma PointedReads(whole: string, fraction: string)
    requires whole != "" && AllDigits(whole) && AllDigits(fraction)
    ensures AllDigits(whole + fraction)
    ensures ReadMantissa(whole + "." + fraction) == Some(FloatingDecimal(ReadNat(whole + fraction), -|fraction|))
    ensures Lacks(whole + "." + fraction, 'e')
  {
    var s := whole + "." + fraction;
    DigitsHave(whole, '.');
    DigitsHave(whole, 'e');
    DigitsHave(fraction, 'e');
    assert s[..|whole|] == whole;
    IndexOfIs(s, '.', |whole|);
    assert s[|whole| + 1..] == fraction;
  }

  lemma PlainReads(whole: string)
    requires whole != "" && AllDigits(whole)
    ensures ReadMantissa(whole) == Some(FloatingDecimal(ReadNat(whole), 0))
    ensures Lacks(whole, 'e')
  {
    DigitsHave(whole, '.');
    DigitsHave(whole, 'e');
    assert whole[..|whole|] == whole;
    IndexOfIs(whole, '.', |whole|);
    assert whole + "" == whole;
  }

  lemma NoExponentReads(s: string)
    requires Lacks(s, 'e')
    ensures ReadUnsigned(s) == ReadMantissa(s)
  {
    assert s[..|s|] == s;
    IndexOfIs(s, 'e', |s|);
  }

  lemma BelowOneReads(digits: string, zeros: nat)
    requires AllDigits(digits)
    ensures ReadUnsigned("0." + Zeros(zeros) + digits)
         == Some(FloatingDecimal(ReadNat(digits), -(zeros + |digits|)))
  {
    hide ReadMantissa, ReadUnsigned, ReadNat;
    ReadLeadingZeros(zeros, digits);
    var fraction := Zeros(zeros) + digits;
    ReadLeadingZeros(1, fraction);
    assert Zeros(1) == "0";
    PointedReads("0", fraction);
    assert "0." + Zeros(zeros) + digits == "0" + "." + fraction;
    NoExponentReads("0" + "." + fraction);
  }

  lemma WithPointReads(digits: string, point: nat)
    requires AllDigits(digits) && 0 < point <= |digits|
    ensures ReadUnsigned(digits[..point] + "." + digits[point..])
         == Some(FloatingDecimal(ReadNat(digits), point - |digits|))
  {
    hide ReadMantissa, ReadUnsigned, ReadNat;
    PointedReads(digits[..point], digits[point..]);
    assert digits[..point] + digits[point..] == digits;
    NoExponentReads(digits[..point] + "." + digits[point..]);
  }

  /** Reading a fixed-point text gives back the decimal's value. */
  lemma FixedTextReads(d: FloatingDecimal, len: nat)
    requires len > 0 && d.mantissa < Pow(10, len)
    ensures ReadUnsigned(FixedText(d, len)).Some?
    ensures ReadUnsigned(FixedText(d, len)).value.Value() == d.Value()
  {
    hide Digits, ReadNat;
    hide FloatingDecimal.Value, ReadMantissa, ReadUnsigned, Pow;
    var point := d.exponent + len;
    var digits := Digits(d.mantissa, len);
    ReadDigits(d.mantissa, len);
    if point <= 0 {
      BelowOneReads(digits, -point);
    } else if d.exponent < 0 {
      WithPointReads(digits, point);
    } else {
      ReadZeros(digits, d.exponent);
      PlainReads(digits + Zeros(d.exponent));
      NoExponentReads(digits + Zeros(d.exponent));
      MoveZeros(d.mantissa, d.exponent, 0);
    }
  }

  lemma ExponentReads(x: int)
    requires -1000 < x < 1000
    ensures ReadExponent(SignedExponentText(x)) == Some(x)
  {
    var m := if x < 0 then -x else x;
    var n := if m >= 100 then 3 else 2;
    assert Pow(10, 3) == 1000 && Pow(10, 2) == 100;
    ReadDigits(m, n);
    var s := SignedExponentText(x);
    assert s[1..] == Digits(m, n);
  }

  /** Reading a scientific text gives back its digits, scaled to its exponent. */
  lemma ScientificTextReads(mantissa: nat, len: nat, exp: int)
    requires len > 0 && mantissa < Pow(10, len) && -1000 < exp < 1000
    ensures ReadUnsigned(ScientificText(mantissa, len, exp)) == Some(FloatingDecimal(mantissa, exp - (len - 1)))
  {
    hide Digits, ReadNat;
    hide ReadMantissa, ReadExponent, Pow, SignedExponentText;
    var digits := Digits(mantissa, len);
    ReadDigits(mantissa, len);
    var head := digits[..1] + (if len > 1 then "." + digits[1..] else "");
    HeadReads(digits, head);
    ExponentReads(exp);
    var s := head + "e" + SignedExponentText(exp);
    assert s[..|head|] == head && s[|head|] == 'e' && s[|head| + 1..] == SignedExponentText(exp);
    IndexOfIs(s, 'e', |head|);
    assert s == ScientificText(mantissa, len, exp);
  }

  lemma HeadReads(digits: string, head: string)
    requires digits != "" && AllDigits(digits)
    requires head == digits[..1] + (if |digits| > 1 then "." + digits[1..] else "")
    ensures ReadMantissa(head) == Some(FloatingDecimal(ReadNat(digits), 1 - |digits|))
    ensures Lacks(head, 'e')
  {
    hide ReadMantissa, ReadNat, Lacks;
    if |digits| == 1 {
      assert head == digits;
      PlainReads(digits);
    } else {
      SeveralDigitsRead(digits);
      assert head == digits[..1] + "." + digits[1..];
    }
  }

  lemma SeveralDigitsRead(digits: string)
    requires |digits| > 1 && AllDigits(digits)
    ensures ReadMantissa(digits[..1] + "." + digits[1..]) == Some(FloatingDecimal(ReadNat(digits), 1 - |digits|))
    ensures Lacks(digits[..1] + "." + digits[1..], 'e')
  {
    hide ReadMantissa, ReadNat, Lacks;
    PointedReads(digits[..1], digits[1..]);
    assert digits[..1] + digits[1..] == digits;
  }
}
