/** `decimalLength`, `to_chars_df` and `to_chars`: writing a decimal into a character buffer with
    digit pairs, eight-digit chunks and power-of-two moves, proved equal to the plain layouts. */
module ToChars {
  import opened Powers
  import opened ShortestDecimal
  import opened DecimalText

  // ---------- lengths ----------

  lemma PowersOfTenTable()
    ensures Pow(10, 0) == 1 && Pow(10, 1) == 10 && Pow(10, 2) == 100 && Pow(10, 3) == 1000
    ensures Pow(10, 4) == 10000 && Pow(10, 5) == 100000 && Pow(10, 6) == 1000000
    ensures Pow(10, 7) == 10000000 && Pow(10, 8) == 100000000 && Pow(10, 9) == 1000000000
    ensures Pow(10, 10) == 10000000000 && Pow(10, 11) == 100000000000 && Pow(10, 12) == 1000000000000
    ensures Pow(10, 13) == 10000000000000 && Pow(10, 14) == 100000000000000
    ensures Pow(10, 15) == 1000000000000000 && Pow(10, 16) == 10000000000000000 && Pow(10, 17) == TEN17
  {}

  /** The number of decimal digits, by the thresholds of the source. */
  function DecimalLength(v: nat): (n: nat)
    requires 0 < v < TEN17
    ensures 1 <= n <= 17 && Pow(10, n - 1) <= v < Pow(10, n)
  {
    PowersOfTenTable();
    if v >= 10000000000000000 then 17
    else if v >= 1000000000000000 then 16
    else if v >= 100000000000000 then 15
    else if v >= 10000000000000 then 14
    else if v >= 1000000000000 then 13
    else if v >= 100000000000 then 12
    else if v >= 10000000000 then 11
    else if v >= 1000000000 then 10
    else if v >= 100000000 then 9
    else if v >= 10000000 then 8
    else if v >= 1000000 then 7
    else if v >= 100000 then 6
    else if v >= 10000 then 5
    else if v >= 1000 then 4
    else if v >= 100 then 3
    else if v >= 10 then 2
    else 1
  }

  /** Up to 17 digits, the first of them at a power of ten of at most three digits. */
  predicate Displayable(v: FloatingDecimal) {
    0 < v.mantissa < TEN17 && -1000 < v.exponent + DecimalLength(v.mantissa) - 1 < 1000
  }

  /** With `len` digits, a quotient by `10^i` that still has `k` more digits leaves room for them. */
  lemma RoomFor(v: nat, len: nat, i: nat, k: nat)
    requires v < Pow(10, len)
    ensures Pow(10, i) > 0
    ensures v / Pow(10, i) >= Pow(10, k) ==> i + k < len
  {
    hide Pow;
    PowPositive(10, i);
    PowAdd(10, i, k);
    AtMostQuotient(Pow(10, k), v, Pow(10, i));
    PowLess(10, i + k, len, v);
  }

  lemma PowLess(b: nat, j: nat, k: nat, v: nat)
    requires b > 0 && v < Pow(b, k)
    ensures Pow(b, j) <= v ==> j < k
  {
    if j >= k { PowMonotone(b, k, j); }
  }

  // ---------- writing digits ----------

  /** The ten lines of the table of all two-digit numbers. */
  function TableRow(k: nat): string
    requires k < 10
  {
    match k
    case 0 => "00010203040506070809"
    case 1 => "10111213141516171819"
    case 2 => "20212223242526272829"
    case 3 => "30313233343536373839"
    case 4 => "40414243444546474849"
    case 5 => "50515253545556575859"
    case 6 => "60616263646566676869"
    case 7 => "70717273747576777879"
    case 8 => "80818283848586878889"
    case _ => "90919293949596979899"
  }

  function TableRows(n: nat): string
    requires n <= 10
  {
    if n == 0 then "" else TableRows(n - 1) + TableRow(n - 1)
  }

  const DIGIT_TABLE: string := TableRows(10)

  /** A tens digit in front of every units digit. */
  function WithUnits(t: char): string {
    [t, '0', t, '1', t, '2', t, '3', t, '4', t, '5', t, '6', t, '7', t, '8', t, '9']
  }

  lemma RowIs(k: nat)
    requires k < 10
    ensures TableRow(k) == WithUnits(DigitChar(k))
  {}

  lemma UnitsIn(t: char, d: nat)
    requires d < 10
    ensures |WithUnits(t)| == 20 && WithUnits(t)[2 * d] == t && WithUnits(t)[2 * d + 1] == DigitChar(d)
  {}

  lemma {:induction false} RowInTable(n: nat, k: nat, d: nat)
    requires k < n <= 10 && d < 10
    ensures |TableRows(n)| == 20 * n
    ensures TableRows(n)[20 * k + 2 * d] == DigitChar(k) && TableRows(n)[20 * k + 2 * d + 1] == DigitChar(d)
  {
    hide TableRow, WithUnits;
    RowIs(n - 1);
    UnitsIn(DigitChar(n - 1), d);
    if n > 1 { RowInTable(n - 1, if k < n - 1 then k else 0, d); }
  }

  /** Entry `c` of the table is `c` in two digits. */
  lemma DigitTable(c: nat)
    requires c < 100
    ensures |DIGIT_TABLE| == 200 && DIGIT_TABLE[2 * c..2 * c + 2] == Digits(c, 2)
  {
    hide TableRows, Digits;
    PairDigits(c);
    RowInTable(10, c / 10, c % 10);
    assert 2 * c == 20 * (c / 10) + 2 * (c % 10);
  }

  /** Overwrites a stretch of the buffer. */
  method Copy(result: array<char>, at: nat, text: string)
    requires at + |text| <= result.Length
    modifies result
    ensures result[..] == old(result[..at]) + text + old(result[at + |text|..])
  {
    forall i | 0 <= i < |text| { result[at + i] := text[i]; }
  }

  method WritePair(result: array<char>, at: nat, c: nat)
    requires c < 100 && at + 2 <= result.Length
    modifies result
    ensures result[..] == old(result[..at]) + Digits(c, 2) + old(result[at + 2..])
  {
    DigitTable(c);
    Copy(result, at, DIGIT_TABLE[2 * c..2 * c + 2]);
  }

  /** Two digits more on the left of the low digits already written. */
  lemma TwoMore(n: nat, i: nat)
    ensures Pow(10, i) > 0 && Pow(10, i + 2) > 0
    ensures Digits(n, i + 2) == Digits((n / Pow(10, i)) % 100, 2) + Digits(n, i)
    ensures n / Pow(10, i + 2) == n / Pow(10, i) / 100
  {
    hide Pow, Digits;
    PowersOfTenTable();
    PowAdd(10, i, 2);
    PowPositive(10, i);
    SplitDigits(n, i + 2, i);
    DivDiv(n, Pow(10, i), 100);
    DigitsOfRemainder(n / Pow(10, i), 2, 2);
  }

  /** The buffer after the low `i` digits of `n` were written before `end`. */
  ghost predicate Written(s: string, before: string, end: nat, n: nat, i: nat) {
    && i <= end <= |before|
    && s == before[..end - i] + Digits(n, i) + before[end..]
  }

  lemma NothingWritten(before: string, end: nat, n: nat)
    requires end <= |before|
    ensures Written(before, before, end, n, 0)
  {}

  lemma WrittenTwoMore(s: string, before: string, end: nat, n: nat, i: nat, at: nat, c: nat)
    requires Written(s, before, end, n, i) && at + i + 2 == end
    requires Pow(10, i) > 0 && c == (n / Pow(10, i)) % 100
    ensures |s| == |before|
    ensures Written(s[..at] + Digits(c, 2) + s[at + 2..], before, end, n, i + 2)
  {
    hide Digits;
    hide Pow;
    TwoMore(n, i);
    assert s[..at] == before[..at];
    assert s[at + 2..] == Digits(n, i) + before[end..];
  }

  /** One more pair of the digits of `n`, in front of the `i` already in place before `end`. */
  method WriteNextPair(result: array<char>, end: nat, ghost n: nat, i: nat, c: nat, ghost before: string)
    requires i + 2 <= end <= result.Length
    requires Pow(10, i) > 0 && c == (n / Pow(10, i)) % 100
    requires Written(result[..], before, end, n, i)
    modifies result
    ensures Written(result[..], before, end, n, i + 2)
    ensures Pow(10, i + 2) > 0 && n / Pow(10, i + 2) == n / Pow(10, i) / 100
  {
    hide Pow, Digits, Written;
    TwoMore(n, i);
    WrittenTwoMore(result[..], before, end, n, i, end - i - 2, c);
    WritePair(result, end - i - 2, c);
  }

  /** Four digits of `n` at once, in front of the `i` already in place. */
  method WriteFour(result: array<char>, end: nat, ghost n: nat, i: nat, c: nat, ghost before: string)
    requires i + 4 <= end <= result.Length
    requires Pow(10, i) > 0 && c == (n / Pow(10, i)) % 10000
    requires Written(result[..], before, end, n, i)
    modifies result
    ensures Written(result[..], before, end, n, i + 4)
    ensures Pow(10, i + 4) > 0 && n / Pow(10, i + 4) == n / Pow(10, i) / 10000
  {
    hide Pow, Written;
    FourDigits(n / Pow(10, i));
    WriteNextPair(result, end, n, i, c % 100, before);
    WriteNextPair(result, end, n, i + 2, c / 100, before);
  }

  lemma FourDigits(q: int)
    requires q >= 0
    ensures q % 10000 % 100 == q % 100
    ensures q % 10000 / 100 == q / 100 % 100
    ensures q / 100 / 100 == q / 10000
  {
    TwoParts(q, q / 10000, q % 10000 / 100, q % 10000 % 100, 100);
  }

  lemma EightDigits(q: int)
    requires q >= 0
    ensures q % 100000000 % 10000 == q % 10000
    ensures q % 100000000 / 10000 % 10000 == q / 10000 % 10000
    ensures q / 10000 / 10000 == q / 100000000
  {
    var m := q % 100000000 / 10000;
    TwoParts(q, q / 100000000, m, q % 100000000 % 10000, 10000);
    RemainderIs(m, 10000, 0, m);
  }

  /** `q` in base `d`: two low digits and the rest. */
  lemma TwoParts(q: nat, k: nat, m: nat, s: nat, d: nat)
    requires m < d && s < d && q == (k * d + m) * d + s
    ensures q % d == s && q / d % d == m && q / d / d == k
  {
    RemainderIs(q, d, k * d + m, s);
    RemainderIs(k * d + m, d, k, m);
  }

  /** Writes low digits before `end`, eight and four at a time and then two, until fewer than two
      pairs remain. Returns what is left of `output` and how many digits were written. */
  method WriteLowDigits(result: array<char>, end: nat, output: nat, ghost len: nat)
      returns (output2: nat, i: nat)
    requires 0 < output < TEN17 && output < Pow(10, len) && len <= end <= result.Length
    modifies result
    ensures i < len && Pow(10, i) > 0 && output2 == output / Pow(10, i) && 0 < output2 < 100
    ensures Written(result[..], old(result[..]), end, output, i)
  {
    hide Pow, Written;
    PowersOfTenTable();
    ghost var before := result[..];
    NothingWritten(before, end, output);
    RoomFor(output, len, 0, 0);
    output2, i := output, 0;
    if output / 0x1_0000_0000 != 0 {
      // eight digits at once, so that the rest fits in 32 bits
      RoomFor(output, len, 0, 8);
      EightDigits(output);
      var low := output % 100000000;
      WriteFour(result, end, output, 0, low % 10000, before);
      WriteFour(result, end, output, 4, low / 10000 % 10000, before);
      output2, i := output / 100000000, 8;
    }
    assert output2 < 0x1_0000_0000;
    while output2 >= 10000
      invariant i < len && Pow(10, i) > 0 && 0 < output2 == output / Pow(10, i)
      invariant Written(result[..], before, end, output, i)
      decreases output2
    {
      RoomFor(output, len, i, 4);
      WriteFour(result, end, output, i, output2 - 10000 * (output2 / 10000), before);
      output2, i := output2 / 10000, i + 4;
    }
    if output2 >= 100 {
      RoomFor(output, len, i, 2);
      WriteNextPair(result, end, output, i, output2 % 100, before);
      output2, i := output2 / 100, i + 2;
    }
  }

  /** Moves `n` characters one place to the left. */
  method MoveLeft(result: array<char>, to: nat, n: nat)
    requires to + n < result.Length
    modifies result
    ensures result[..] == old(result[..to]) + old(result[to + 1..to + 1 + n]) + old(result[to + n..])
  {
    forall i | 0 <= i < n { result[to + i] := result[to + 1 + i]; }
  }

  lemma SliceOfSlice(s: string, a: nat, b: nat, c: nat, d: nat)
    requires a <= b <= |s| && c <= d <= b - a
    ensures s[a..b][c..d] == s[a + c..a + d]
  {
    var t := s[a..b];
    assert forall i | 0 <= i < d - c :: t[c..d][i] == t[c + i] == s[a + c + i];
  }

  /** The buffer after the first `done` of the digits at `base + 1` moved one place to the left. */
  ghost predicate Moved(s: string, before: string, base: nat, digits: string, done: nat) {
    && done <= |digits| && base + 1 + |digits| <= |before|
    && before[base + 1..base + 1 + |digits|] == digits
    && s == before[..base] + digits[..done] + before[base + done..]
  }

  lemma NothingMoved(before: string, base: nat, digits: string)
    requires base + 1 + |digits| <= |before| && before[base + 1..base + 1 + |digits|] == digits
    ensures Moved(before, before, base, digits, 0)
  {}

  lemma MovedFurther(s: string, before: string, base: nat, digits: string, done: nat, n: nat)
    requires done + n < |digits| && base + 1 + |digits| <= |before| && Moved(s, before, base, digits, done)
    ensures |s| == |before|
    ensures Moved(s[..base + done] + s[base + done + 1..base + done + 1 + n] + s[base + done + n..],
                  before, base, digits, done + n)
  {
    SliceOfSlice(before, base + 1, base + 1 + |digits|, done, done + n);
    assert s[base + done..] == before[base + done..];
    SliceOfSlice(before, base + done, |before|, 1, 1 + n);
    SliceOfSlice(s, base + done, |s|, 1, 1 + n);
    assert s[base + done..|s|] == before[base + done..|before|];
    assert s[base + done + 1..base + done + 1 + n] == digits[done..done + n];
    assert s[base + done + n..] == s[base + done..][n..] == before[base + done + n..];
    assert s[..base + done] == before[..base] + digits[..done];
  }

  /** One of those moves, if the bit for it is set. */
  method MoveIf(bit: bool, n: nat, result: array<char>, base: nat, done: nat, ghost digits: string,
          ghost before: string)
      returns (done': nat)
    requires (if bit then done + n else done) < |digits| && base + 1 + |digits| <= result.Length == |before|
    requires Moved(result[..], before, base, digits, done)
    modifies result
    ensures done' == (if bit then done + n else done) && Moved(result[..], before, base, digits, done')
  {
    hide Moved;
    done' := done;
    if bit {
      MovedFurther(result[..], before, base, digits, done, n);
      MoveLeft(result, base + done, n);
      done' := done + n;
    }
  }

  /** Moves the first `nexp` digits one place to the left, 8, 4, 2 and 1 of them as the bits of
      `nexp` say. */
  method MoveByBits(result: array<char>, base: nat, ghost digits: string, nexp: nat)
    requires 0 < nexp < 16 && nexp < |digits| && base + 1 + |digits| <= result.Length
    requires result[base + 1..base + 1 + |digits|] == digits
    modifies result
    ensures Moved(result[..], old(result[..]), base, digits, nexp)
  {
    hide Moved;
    ghost var before := result[..];
    NothingMoved(before, base, digits);
    Bits(nexp);
    var done := MoveIf(nexp / 8 % 2 == 1, 8, result, base, 0, digits, before);
    done := MoveIf(nexp / 4 % 2 == 1, 4, result, base, done, digits, before);
    done := MoveIf(nexp / 2 % 2 == 1, 2, result, base, done, digits, before);
    done := MoveIf(nexp % 2 == 1, 1, result, base, done, digits, before);
  }

  lemma Bits(n: nat)
    requires n < 16
    ensures n == 8 * (n / 8 % 2) + 4 * (n / 4 % 2) + 2 * (n / 2 % 2) + n % 2
  {}

  /** Opens a gap after the first `nexp` of the digits at `base + 1` and puts the point in it. */
  method InsertPoint(result: array<char>, base: nat, ghost digits: string, nexp: nat)
    requires 0 < nexp < 16 && nexp < |digits| && base + 1 + |digits| <= result.Length
    requires result[base + 1..base + 1 + |digits|] == digits
    modifies result
    ensures result[..base] == old(result[..base])
    ensures result[base..base + 1 + |digits|] == digits[..nexp] + "." + digits[nexp..]
  {
    ghost var before := result[..];
    MoveByBits(result, base, digits, nexp);
    label moved:
    Pointed(result[..], before, base, digits, nexp);
    result[base + nexp] := '.';
    assert result[..] == old@moved(result[..])[base + nexp := '.'];
  }

  lemma Pointed(moved: string, before: string, base: nat, digits: string, nexp: nat)
    requires nexp < |digits| && Moved(moved, before, base, digits, nexp)
    ensures var after := moved[base + nexp := '.'];
      && after[..base] == before[..base]
      && after[base..base + 1 + |digits|] == digits[..nexp] + "." + digits[nexp..]
  {
    var last := base + 1 + |digits|;
    var after := moved[base + nexp := '.'];
    SliceOfSlice(before, base + 1, last, nexp, |digits|);
    assert moved[base..base + nexp] == digits[..nexp];
    assert moved[base + nexp + 1..last] == before[base + nexp + 1..last];
    assert after[base..last] == moved[base..base + nexp] + "." + moved[base + nexp + 1..last];
  }

  /** All digits of `v` at `at`. */
  method WriteDigits(result: array<char>, at: nat, v: nat, olength: nat)
    requires 0 < v < TEN17 && olength == DecimalLength(v) && at + olength <= result.Length
    modifies result
    ensures result[..] == old(result[..at]) + Digits(v, olength) + old(result[at + olength..])
  {
    hide Pow, Digits, DecimalLength, Written;
    ghost var before := result[..];
    var output2, i := WriteLowDigits(result, at + olength, v, olength);
    ghost var written := result[..];
    LeadingDigits(v, olength, i);
    TopDigits(v, olength, i);
    if output2 >= 10 {
      WrittenInFront(written, before, at, v, olength, i, Digits(output2, 2));
      WritePair(result, at, output2);
      assert result[..] == written[..at] + Digits(output2, 2) + written[at + 2..];
    } else {
      WrittenInFront(written, before, at, v, olength, i, [DigitChar(output2)]);
      result[at] := DigitChar(output2);
      assert result[..] == written[..at] + [DigitChar(output2)] + written[at + 1..];
    }
  }

  /** The leading digits in front of the low ones that are already written. */
  lemma WrittenInFront(s: string, before: string, at: nat, v: nat, olength: nat, i: nat, top: string)
    requires i <= olength && at + olength <= |before| && Written(s, before, at + olength, v, i) && |top| == olength - i
    ensures |s| == |before|
    ensures s[..at] + top + s[at + |top|..] == before[..at] + (top + Digits(v, i)) + before[at + olength..]
  {
    hide Digits;
    assert s[..at] == before[..at] && s[at + |top|..] == Digits(v, i) + before[at + olength..];
  }

  /** What stands in front of the digits after a copy of `0.000000`. */
  lemma LeadingZeros(s: string, before: string, rest: string, zeros: nat)
    requires s == before + "0.000000" + rest && zeros <= 6
    ensures |before| + 2 + zeros <= |s| && s[..|before| + 2 + zeros] == before + ("0." + Zeros(zeros))
  {}

  /** 0.000ddd */
  method FixedBelowOne(mantissa: nat, olength: nat, zeros: nat, result: array<char>, base: nat)
    requires 0 < mantissa < TEN17 && olength == DecimalLength(mantissa) && zeros <= 3
    requires base + 24 <= result.Length
    modifies result
    ensures result[..base] == old(result[..base])
    ensures result[base..base + 2 + zeros + olength] == "0." + Zeros(zeros) + Digits(mantissa, olength)
  {
    hide Pow, Digits, DecimalLength;
    ghost var before, tail := result[..base], result[base + 8..];
    Copy(result, base, "0.000000");
    ghost var lead, copied := "0." + Zeros(zeros), result[..];
    LeadingZeros(copied, before, tail, zeros);
    hide Zeros;
    WriteDigits(result, base + 2 + zeros, mantissa, olength);
    ghost var after := result[..];
    Parts(after, before, lead, Digits(mantissa, olength), copied[base + 2 + zeros + olength..]);
    assert result[..base] == after[..base];
    assert result[base..base + 2 + zeros + olength] == after[base..base + 2 + zeros + olength];
  }

  /** dddd.ddd */
  method FixedWithPoint(mantissa: nat, olength: nat, nexp: nat, result: array<char>, base: nat)
    requires 0 < mantissa < TEN17 && olength == DecimalLength(mantissa) && 0 < nexp < 16 && nexp < olength
    requires base + 24 <= result.Length
    modifies result
    ensures result[..base] == old(result[..base])
    ensures result[base..base + 1 + olength]
         == Digits(mantissa, olength)[..nexp] + "." + Digits(mantissa, olength)[nexp..]
  {
    hide Pow, Digits, DecimalLength;
    ghost var before := result[..base + 1];
    WriteDigits(result, base + 1, mantissa, olength);
    Middle(result[..], before, Digits(mantissa, olength));
    assert result[..base] == before[..base];
    InsertPoint(result, base, Digits(mantissa, olength), nexp);
  }

  /** ddd000 */
  method FixedWhole(mantissa: nat, olength: nat, zeros: nat, result: array<char>, base: nat)
    requires 0 < mantissa < TEN17 && olength == DecimalLength(mantissa) && olength + zeros <= 16
    requires base + 24 <= result.Length
    modifies result
    ensures result[..base] == old(result[..base])
    ensures result[base..base + olength + zeros] == Digits(mantissa, olength) + Zeros(zeros)
  {
    hide Pow, Digits, DecimalLength;
    ghost var before := result[..base];
    Copy(result, base, Zeros(16));
    assert result[base + olength..base + olength + zeros] == Zeros(zeros);
    ghost var rest := result[base + olength + zeros..];
    assert result[base + olength..] == Zeros(zeros) + rest && result[..base] == before;
    WriteDigits(result, base, mantissa, olength);
    Parts(result[..], before, Digits(mantissa, olength), Zeros(zeros), rest);
  }

  lemma Parts(s: string, a: string, b: string, c: string, d: string)
    requires s == a + b + (c + d) || s == (a + b) + c + d
    ensures s[..|a|] == a && s[|a|..|a| + |b| + |c|] == b + c
  {
    assert a + b + (c + d) == (a + b) + c + d;
  }

  /** Fixed-point output at `base`. */
  method ToCharsDf(v: FloatingDecimal, olength: nat, result: array<char>, base: nat) returns (n: nat)
    requires 0 < v.mantissa < TEN17 && olength == DecimalLength(v.mantissa)
    requires -4 <= v.exponent + olength - 1 < 15
    requires base + 24 <= result.Length
    modifies result
    ensures base + n <= result.Length && result[base..base + n] == FixedText(v, olength)
    ensures result[..base] == old(result[..base])
  {
    hide Pow, Digits, DecimalLength;
    var exp, nexp := v.exponent, v.exponent + olength;
    if nexp <= 0 {
      FixedBelowOne(v.mantissa, olength, -nexp, result, base);
      n := olength + (2 - nexp);
    } else if exp < 0 {
      FixedWithPoint(v.mantissa, olength, nexp, result, base);
      n := olength + 1;
    } else {
      FixedWhole(v.mantissa, olength, exp, result, base);
      n := olength + exp;
    }
  }

  lemma Middle(s: string, before: string, text: string)
    requires before + text <= s
    ensures s[..|before|] == before && s[|before|..|before| + |text|] == text
  {}

  /** What is left after the low digits is one or two digits, the leading ones. */
  lemma LeadingDigits(v: nat, len: nat, i: nat)
    requires 0 < v < TEN17 && len == DecimalLength(v) && i < len
    requires Pow(10, i) > 0 && v / Pow(10, i) < 100
    ensures len - i <= 2 && (v / Pow(10, i) >= 10 <==> len - i == 2)
  {
    hide Pow, DecimalLength;
    var k := len - 1 - i;
    PowersOfTenTable();
    PowAdd(10, k, i);
    AtMostQuotient(Pow(10, k), v, Pow(10, i));
    if k >= 2 {
      PowMonotone(10, 2, k);
    }
    RoomFor(v, len, i, 1);
  }

  lemma TopDigits(v: nat, len: nat, i: nat)
    requires i < len && Pow(10, i) > 0 && v / Pow(10, i) < 100
    requires len - i <= 2 && (v / Pow(10, i) >= 10 <==> len - i == 2)
    ensures v / Pow(10, i) >= 10 ==> Digits(v, len) == Digits(v / Pow(10, i), 2) + Digits(v, i)
    ensures v / Pow(10, i) < 10 ==> Digits(v, len) == [DigitChar(v / Pow(10, i))] + Digits(v, i)
  {
    hide Pow, Digits;
    SplitDigits(v, len, i);
    if v / Pow(10, i) < 10 {
      OneDigit(v / Pow(10, i));
    }
  }

  lemma OneDigit(q: nat)
    requires q < 10
    ensures Digits(q, 1) == [DigitChar(q)]
  {
    assert Digits(q / 10, 0) == "";
  }

  // ---------- scientific layout and the choice between the two ----------

  /** The mantissa without its trailing zeros. */
  function StripZeros(m: nat): (r: nat)
    requires m > 0
    ensures 0 < r <= m && r % 10 != 0
  {
    if m % 10 == 0 then StripZeros(m / 10) else m
  }

  /** The text the printer aims at: fixed point for exponents -4 to 14, scientific otherwise, and
      then without trailing zeros when the exponent was exactly zero. */
  function PlainText(v: FloatingDecimal): string
    requires Displayable(v)
  {
    var len := DecimalLength(v.mantissa);
    var exp := v.exponent + len - 1;
    if -4 <= exp < 15 then FixedText(v, len)
    else
      var m := if v.exponent == 0 then StripZeros(v.mantissa) else v.mantissa;
      ScientificText(m, DecimalLength(m), exp)
  }

  /** Digits, point and exponent at `base`. */
  method WriteScientific(result: array<char>, base: nat, output: nat, olength: nat, exp: int) returns (n: nat)
    requires 0 < output < TEN17 && olength == DecimalLength(output) && -1000 < exp < 1000
    requires base + 24 <= result.Length
    modifies result
    ensures base + n <= result.Length && result[base..base + n] == ScientificText(output, olength, exp)
    ensures result[..base] == old(result[..base])
  {
    hide Pow, Digits, DecimalLength, SignedExponentText;
    ghost var before := result[..base];
    var m := WriteMantissa(result, base, output, olength);
    ghost var head := result[base..base + m];
    var x := WriteExponent(result, base + m, exp);
    n := m + x;
    assert result[..base + m] == before + head;
    assert result[base..base + n] == head + SignedPart(exp);
  }

  ghost function SignedPart(exp: int): string
    requires -1000 < exp < 1000
  {
    "e" + SignedExponentText(exp)
  }

  /** The digits, leaving room for the point after the first one. */
  method WriteSpacedDigits(result: array<char>, base: nat, output: nat, olength: nat)
    requires 0 < output < TEN17 && olength == DecimalLength(output)
    requires base + 19 <= result.Length
    modifies result
    ensures [result[base]] + result[base + 2..base + olength + 1] == Digits(output, olength)
    ensures result[..base] == old(result[..base])
  {
    hide Pow, Digits, DecimalLength, AllDigits;
    ghost var before := result[..];
    var output2, i := WriteLowDigits(result, base + olength + 1, output, olength);
    LeadingDigits(output, olength, i);
    TopDigits(output, olength, i);
    ghost var low := Digits(output, i);
    assert result[..base] == before[..base];
    assert result[base + olength + 1 - i..base + olength + 1] == low;
    hide Written;
    if output2 >= 10 {
      PairDigits(output2);
      result[base + olength - i] := DigitChar(output2 % 10);
      result[base] := DigitChar(output2 / 10);
      assert result[base + 2..base + olength + 1] == [DigitChar(output2 % 10)] + low;
    } else {
      result[base] := DigitChar(output2);
      assert result[base + 2..base + olength + 1] == low;
    }
  }

  /** The digits, with the point after the first one. */
  method WriteMantissa(result: array<char>, base: nat, output: nat, olength: nat) returns (n: nat)
    requires 0 < output < TEN17 && olength == DecimalLength(output)
    requires base + 19 <= result.Length
    modifies result
    ensures n == if olength > 1 then olength + 1 else 1
    ensures var digits := Digits(output, olength);
      result[base..base + n] == digits[..1] + (if olength > 1 then "." + digits[1..] else "")
    ensures result[..base] == old(result[..base])
  {
    hide Pow, Digits, DecimalLength, AllDigits;
    WriteSpacedDigits(result, base, output, olength);
    if olength > 1 {
      result[base + 1] := '.';
      n := olength + 1;
      assert result[base..base + n] == [result[base]] + "." + result[base + 2..base + n];
    } else {
      n := 1;
    }
  }

  lemma PairDigits(c: nat)
    requires c < 100
    ensures Digits(c, 2) == [DigitChar(c / 10), DigitChar(c % 10)]
  {
    OneDigit(c / 10);
    assert Digits(c, 2) == Digits(c / 10, 1) + [DigitChar(c % 10)];
  }

  lemma TripleDigits(c: nat)
    requires c < 1000
    ensures Digits(c, 3) == Digits(c / 10, 2) + [DigitChar(c % 10)]
  {}

  /** `e`, the sign and two or three digits. */
  method WriteExponent(result: array<char>, base: nat, exp: int) returns (n: nat)
    requires -1000 < exp < 1000 && base + 5 <= result.Length
    modifies result
    ensures base + n <= result.Length && result[base..base + n] == "e" + SignedExponentText(exp)
    ensures result[..base] == old(result[..base])
  {
    hide Digits;
    ghost var before := result[..base];
    var x := if exp < 0 then -exp else exp;
    result[base] := 'e';
    result[base + 1] := if exp < 0 then '-' else '+';
    ghost var sgn := if exp < 0 then "-" else "+";
    ghost var head := before + "e" + sgn;
    assert result[..base + 2] == head;
    if x >= 100 {
      WritePair(result, base + 2, x / 10);
      ghost var two := result[..];
      assert two[..base + 4] == head + Digits(x / 10, 2);
      result[base + 4] := DigitChar(x % 10);
      TripleDigits(x);
      assert result[..base + 5] == two[..base + 4] + [DigitChar(x % 10)];
      ExponentParts(result[..], before, sgn, Digits(x, 3));
      n := 5;
    } else {
      WritePair(result, base + 2, x);
      assert result[..base + 4] == head + Digits(x, 2);
      ExponentParts(result[..], before, sgn, Digits(x, 2));
      n := 4;
    }
    assert result[..base] == result[..][..base] && result[base..base + n] == result[..][base..base + n];
  }

  lemma ExponentParts(s: string, before: string, sgn: string, digits: string)
    requires |sgn| == 1 && |before| + 2 + |digits| <= |s|
    requires s[..|before| + 2 + |digits|] == before + "e" + sgn + digits
    ensures s[..|before|] == before && s[|before|..|before| + 2 + |digits|] == "e" + (sgn + digits)
  {
    var k := |before| + 2 + |digits|;
    assert s[..k][..|before|] == s[..|before|] && s[..k][|before|..] == s[|before|..k];
  }

  /** Prints `v` with its sign, and returns how many characters were written. */
  method ToCharsSigned(v: FloatingDecimal, sign: bool, result: array<char>) returns (n: nat)
    requires Displayable(v)
    requires result.Length >= 25
    modifies result
    ensures n <= result.Length && result[..n] == (if sign then "-" else "") + PlainText(v)
  {
    hide Pow, DecimalLength, FixedText, ScientificText;
    var output := v.mantissa;
    var olength := DecimalLength(output);
    LengthRange(output);
    var exp := v.exponent + olength - 1;
    var index := 0;
    if sign {
      result[0] := '-';
      index := 1;
    }
    ghost var prefix := if sign then "-" else "";
    assert result[..index] == prefix;
    if -4 <= exp < 15 {
      n := ToCharsDf(v, olength, result, index);
      n := n + index;
    } else {
      if v.exponent == 0 {
        output, olength := StripTrailingZeros(output, olength);
      }
      n := WriteScientific(result, index, output, olength, exp);
      n := n + index;
    }
    assert result[..n] == result[..index] + result[index..n];
    assert result[..index] == prefix;
  }

  /** The loop that drops trailing zeros: an odd number ends in none, and is not divided. */
  method StripTrailingZeros(m: nat, mlength: nat) returns (output: nat, olength: nat)
    requires 0 < m < TEN17 && mlength == DecimalLength(m)
    ensures 0 < output < TEN17 && output == StripZeros(m) && olength == DecimalLength(output)
  {
    hide DecimalLength, StripZeros;
    output, olength := m, mlength;
    while output % 2 == 0
      invariant 0 < output < TEN17 && olength == DecimalLength(output)
      invariant StripZeros(output) == StripZeros(m)
      decreases output
    {
      var q := output / 10;
      if output - 10 * q != 0 {
        StripDone(output);
        return;
      }
      StripStep(output, q);
      output, olength := q, olength - 1;
    }
    StripDone(output);
  }

  lemma StripStep(m: nat, q: nat)
    requires 0 < m < TEN17 && q == m / 10 && m - 10 * q == 0
    ensures 0 < q < m && StripZeros(q) == StripZeros(m) && DecimalLength(q) == DecimalLength(m) - 1
  {
    hide DecimalLength;
    LengthOfTenth(m);
  }

  lemma StripDone(m: nat)
    requires m > 0 && (m % 2 != 0 || m - 10 * (m / 10) != 0)
    ensures StripZeros(m) == m
  {
    NotTenfold(m, m / 10);
  }

  lemma NotTenfold(m: nat, q: nat)
    requires q == m / 10 && (m % 2 != 0 || m - 10 * q != 0)
    ensures m % 10 != 0
  {
    if m % 10 == 0 {
      assert m == 2 * (5 * q);
      EvenIs(5 * q);
    }
  }

  lemma EvenIs(h: nat)
    ensures 2 * h % 2 == 0
  {}

  lemma LengthRange(v: nat)
    requires 0 < v < TEN17
    ensures 1 <= DecimalLength(v) <= 17
  {}

  lemma LengthOfTenth(v: nat)
    requires 0 < v < TEN17 && v % 10 == 0
    ensures 0 < v / 10 < TEN17 && DecimalLength(v / 10) == DecimalLength(v) - 1
  {}
}
