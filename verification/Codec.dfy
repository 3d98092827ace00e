/** Decoding of immediate values: base-128 varints, big-endian words, length-prefixed bytes and
    counted arrays, each with the encoder it inverts. */
module Codec {
  import opened Operands
  import opened Powers

  type Bytes = seq<byte>

  // ---------- varints ----------

  /** Base-128 little-endian digits, all but the last with the high bit set. */
  function Varint(n: nat): Bytes
  {
    if n < 128 then [n] else [128 + n % 128] + Varint(n / 128)
  }

  /** The value of the varint at `pos` and the position after it. Bytes past the end are not there
      to be read, and a value of `limit` or more does not fit the target type. */
  function ReadVarint(code: Bytes, pos: nat, limit: nat): (r: Result<(nat, nat)>)
    requires pos <= |code|
    ensures r.Ok? ==> pos < r.value.1 <= |code| && r.value.0 < limit
  {
    var v :- VarintAt(code, pos);
    if v.0 < limit then Ok(v) else Err(Malformed)
  }

  function VarintAt(code: Bytes, pos: nat): (r: Result<(nat, nat)>)
    requires pos <= |code|
    ensures r.Ok? ==> pos < r.value.1 <= |code|
    decreases |code| - pos
  {
    if pos == |code| then Err(Malformed)
    else if code[pos] < 128 then Ok((code[pos], pos + 1))
    else
      var rest :- VarintAt(code, pos + 1);
      Ok((code[pos] - 128 + 128 * rest.0, rest.1))
  }

  /** `code` has `bytes` at `pos`. */
  predicate At(code: Bytes, pos: nat, bytes: Bytes) {
    pos + |bytes| <= |code| && code[pos..pos + |bytes|] == bytes
  }

  lemma AtAppend(code: Bytes, pos: nat, a: Bytes, b: Bytes)
    requires At(code, pos, a + b)
    ensures At(code, pos, a) && At(code, pos + |a|, b)
  {
    var s := code[pos..pos + |a + b|];
    assert s[..|a|] == a && s[|a|..] == b;
    assert forall i | 0 <= i < |a| :: code[pos + i] == s[i];
    assert forall i | 0 <= i < |b| :: s[|a|..][i] == b[i];
    var q := pos + |a|;
    assert forall i | q <= i < q + |b| :: code[i] == s[i - pos];
  }

  lemma {:induction false} VarintRoundTrip(code: Bytes, pos: nat, n: nat)
    requires At(code, pos, Varint(n))
    ensures VarintAt(code, pos) == Ok((n, pos + |Varint(n)|))
    decreases n
  {
    assert code[pos] == code[pos..pos + |Varint(n)|][0];
    if n >= 128 {
      AtAppend(code, pos, [128 + n % 128], Varint(n / 128));
      VarintRoundTrip(code, pos + 1, n / 128);
    }
  }

  /** `DecodeVarint`: accumulates seven bits at a time. Or-ing in the shifted bits is adding them,
      because they start above everything accumulated so far. */
  method DecodeVarint(code: Bytes, data: nat, limit: nat) returns (r: Result<(nat, nat)>)
    requires data <= |code|
    ensures r == ReadVarint(code, data, limit)
  {
    var value: nat, p, shift := 0, data, 0;
    assert Pow(2, 0) == 1;
    while p < |code| && code[p] >= 128
      invariant data <= p <= |code|
      invariant VarintAt(code, data) == Shifted(VarintAt(code, p), value, shift)
      decreases |code| - p
    {
      ShiftStep(VarintAt(code, p + 1), value, shift, code[p] - 128);
      PowPositive(2, shift);
      MulAtMost(0, code[p] - 128, Pow(2, shift));
      value := value + (code[p] - 128) * Pow(2, shift);
      shift := shift + 7;
      p := p + 1;
    }
    if p == |code| {
      return Err(Malformed);
    }
    MulAtMost(0, code[p], Pow(2, shift));
    value := value + code[p] * Pow(2, shift);
    return if value < limit then Ok((value, p + 1)) else Err(Malformed);
  }

  /** A varint read so far, followed by the rest of it. */
  ghost function Shifted(r: Result<(nat, nat)>, value: nat, shift: nat): Result<(nat, nat)> {
    match r case Ok(v) => Ok((value + v.0 * Pow(2, shift), v.1)) case Err(f) => Err(f)
  }

  lemma ShiftStep(rest: Result<(nat, nat)>, value: nat, shift: nat, bits: nat)
    ensures Shifted(if rest.Ok? then Ok((bits + 128 * rest.value.0, rest.value.1)) else rest, value, shift)
         == Shifted(rest, value + bits * Pow(2, shift), shift + 7)
  {
    PowAdd(2, shift, 7);
    assert Pow(2, 7) == 128;
    hide Pow;
    if rest.Ok? {
      SevenMore(bits, rest.value.0, Pow(2, shift));
    }
  }

  lemma SevenMore(bits: nat, v: nat, p: nat)
    ensures (bits + 128 * v) * p == bits * p + v * (p * 128)
  {
    assert (bits + 128 * v) * p == bits * p + 128 * v * p;
    assert 128 * v * p == v * (p * 128);
  }

  // ---------- fixed-width words ----------

  /** `width` bytes, most significant first. */
  function BigEndian(n: nat, width: nat): (s: Bytes)
    ensures |s| == width
  {
    if width == 0 then [] else BigEndian(n / 256, width - 1) + [n % 256]
  }

  function FromBigEndian(s: Bytes): nat {
    if s == [] then 0 else FromBigEndian(s[..|s| - 1]) * 256 + s[|s| - 1]
  }

  lemma {:induction false} BigEndianRoundTrip(n: nat, width: nat)
    requires n < Pow(256, width)
    ensures FromBigEndian(BigEndian(n, width)) == n
  {
    if width > 0 {
      BigEndianRoundTrip(n / 256, width - 1);
      assert BigEndian(n, width)[..width - 1] == BigEndian(n / 256, width - 1);
    }
  }

  lemma {:induction false} BigEndianBound(s: Bytes)
    ensures FromBigEndian(s) < Pow(256, |s|)
  {
    if s != [] { BigEndianBound(s[..|s| - 1]); }
  }

  function ReadWord(code: Bytes, pos: nat, width: nat): (r: Result<(nat, nat)>)
    requires pos <= |code|
    ensures r.Ok? ==> pos <= r.value.1 <= |code| && r.value.0 < Pow(256, width)
  {
    if pos + width > |code| then Err(Malformed)
    else
      BigEndianBound(code[pos..pos + width]);
      Ok((FromBigEndian(code[pos..pos + width]), pos + width))
  }

  // ---------- strings ----------

  const LIMIT32: nat := 0x1_0000_0000
  const LIMIT31: nat := 0x8000_0000
  const LIMIT63: nat := 0x8000_0000_0000_0000
  const LIMIT64: nat := 0x1_0000_0000_0000_0000

  function Counted(s: Bytes): Bytes { Varint(|s|) + s }

  function ReadCounted(code: Bytes, pos: nat): (r: Result<(Bytes, nat)>)
    requires pos <= |code|
    ensures r.Ok? ==> pos < r.value.1 <= |code|
  {
    var n :- ReadVarint(code, pos, LIMIT32);
    if n.1 + n.0 > |code| then Err(Malformed) else Ok((code[n.1..n.1 + n.0], n.1 + n.0))
  }

  lemma CountedRoundTrip(code: Bytes, pos: nat, s: Bytes)
    requires At(code, pos, Counted(s)) && |s| < LIMIT32
    ensures ReadCounted(code, pos) == Ok((s, pos + |Counted(s)|))
  {
    AtAppend(code, pos, Varint(|s|), s);
    VarintRoundTrip(code, pos, |s|);
  }
}
