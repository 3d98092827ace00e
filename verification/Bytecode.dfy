/** The code's bytes written out: what each opcode, each type code, each aggregate and each stage marker
    stands for, without reference to an encoder. */
module Bytecode {
  import opened Options
  import opened Operands
  import opened Operators
  import opened Codec
  import opened Wire
  import Powers
  import opened Pipeline
  import opened ChainWire

  const TYPE_CODES: map<byte, Type> := map[
    0x01 := INT32, 0x02 := INT64, 0x03 := BOOL, 0x04 := FLOAT, 0x05 := DOUBLE,
    0x06 := DECIMAL, 0x07 := STRING, 0x08 := DATE, 0x09 := TIMESTAMP]

  const OPCODES: map<byte, TypedOp> := map[
    0x81 := POS, 0x82 := NEG, 0x83 := ADD, 0x84 := SUB, 0x85 := MUL, 0x86 := DIV, 0x87 := MOD,
    0x91 := EQ, 0x92 := GE, 0x93 := GT, 0x94 := LE, 0x95 := LT, 0x96 := NE,
    0xA1 := IS_NULL, 0xA2 := IS_TRUE, 0xA3 := IS_FALSE,
    0xB1 := MIN, 0xB2 := MAX, 0xB3 := ABS, 0xB4 := ABS_C]

  lemma CodesAre(b: byte)
    ensures b in TYPE_CODES ==> TypeOfCode(b) == Some(TYPE_CODES[b]) && 1 <= b <= 9
    ensures b !in TYPE_CODES ==> TypeOfCode(b) == None
  {}

  lemma OpcodesAre(b: byte)
    ensures b in OPCODES ==> TypedOpOf(b) == Some(OPCODES[b]) && b >= 0x81
    ensures b < 0x81 || b >= 0xF0 ==> TypedOpOf(b) == None
  {}

  /** An opcode with a type byte is the entry of that operator's table, if there is one. */
  lemma TypedOpcodes(p: Prims, code: Bytes, pos: nat)
    requires pos + 1 < |code| && code[pos] in OPCODES && code[pos + 1] in TYPE_CODES
    ensures var o := TableEntry(OPCODES[code[pos]], TYPE_CODES[code[pos + 1]]);
      if o.Some? then DecodeOne(p, code, pos) == Ok((Emit(o.value), pos + 2)) else DecodeOne(p, code, pos).Err?
  {
    hide TableEntry, TypedOpOf, TypeOfCode, FunSignature, AddCastOperator, DecodeConst, DecodeConstN, DecodeVar;
    OpcodesAre(code[pos]);
    CodesAre(code[pos + 1]);
  }

  /** The opcodes of one byte: the end marker, NULL of a type, the two truth constants, NOT, AND and OR. */
  lemma PlainOpcodes(p: Prims, code: Bytes, pos: nat)
    requires pos < |code|
    ensures code[pos] == 0x00 ==> DecodeOne(p, code, pos) == Ok((Stop, pos + 1))
    ensures code[pos] in TYPE_CODES ==> DecodeOne(p, code, pos) == Ok((Emit(NullOp(TYPE_CODES[code[pos]])), pos + 1))
    ensures code[pos] == 0x13 ==> DecodeOne(p, code, pos) == Ok((Emit(ConstBoolOp(true)), pos + 1))
    ensures code[pos] == 0x23 ==> DecodeOne(p, code, pos) == Ok((Emit(ConstBoolOp(false)), pos + 1))
    ensures code[pos] == 0x51 ==> DecodeOne(p, code, pos) == Ok((Emit(NotOp), pos + 1))
    ensures code[pos] == 0x52 ==> DecodeOne(p, code, pos) == Ok((Emit(AndOp), pos + 1))
    ensures code[pos] == 0x53 ==> DecodeOne(p, code, pos) == Ok((Emit(OrOp), pos + 1))
  {
    hide TypedOpOf, AddOperatorByType, AddCastOperator, AddFunOperator, DecodeVar, ReadVarint, ReadCounted, ReadWord;
    OpcodesAre(code[pos]);
  }

  const VARIABLES: map<byte, Type> := map[
    0x31 := INT32, 0x32 := INT64, 0x33 := BOOL, 0x34 := FLOAT, 0x35 := DOUBLE,
    0x36 := DECIMAL, 0x37 := STRING, 0x38 := DATE, 0x39 := TIMESTAMP]

  /** Opcodes followed by a varint `n` that ends before `end`: integers, negated integers, dates,
      timestamps, and columns. */
  lemma NumberOpcodes(p: Prims, code: Bytes, pos: nat, n: nat, end: nat)
    requires pos < |code| && VarintAt(code, pos + 1) == Ok((n, end)) && n < 0x8000_0000
    ensures code[pos] == 0x11 ==> DecodeOne(p, code, pos) == Ok((Emit(ConstOp(INT32, Int32(n))), end))
    ensures code[pos] == 0x12 ==> DecodeOne(p, code, pos) == Ok((Emit(ConstOp(INT64, Int64(n))), end))
    ensures code[pos] == 0x18 ==> DecodeOne(p, code, pos) == Ok((Emit(ConstOp(DATE, Int64(n))), end))
    ensures code[pos] == 0x19 ==> DecodeOne(p, code, pos) == Ok((Emit(ConstOp(TIMESTAMP, Int64(n))), end))
    ensures code[pos] == 0x21 ==> DecodeOne(p, code, pos) == Ok((Emit(ConstOp(INT32, Int32(0 - n))), end))
    ensures code[pos] == 0x22 ==> DecodeOne(p, code, pos) == Ok((Emit(ConstOp(INT64, Int64(0 - n))), end))
    ensures code[pos] in VARIABLES ==> DecodeOne(p, code, pos) == Ok((Emit(IndexedVarOp(VARIABLES[code[pos]], n)), end))
  {
    hide TypedOpOf, AddOperatorByType, AddCastOperator, AddFunOperator, VarintAt, ReadCounted, ReadWord;
    OpcodesAre(code[pos]);
  }

  lemma StringOpcode(p: Prims, code: Bytes, pos: nat)
    requires pos < |code| && code[pos] == 0x17 && ReadCounted(code, pos + 1).Ok?
    ensures var v := ReadCounted(code, pos + 1).value;
      DecodeOne(p, code, pos) == Ok((Emit(ConstOp(STRING, Operand.String(v.0))), v.1))
  {
    hide TypedOpOf, AddOperatorByType, AddCastOperator, AddFunOperator, ReadVarint, ReadCounted, ReadWord;
    OpcodesAre(code[pos]);
  }

  /** A cast names its destination in the high half of a byte and its source in the low half; 0xFC is
      the checked one. */
  lemma CastOpcodes(p: Prims, code: Bytes, pos: nat)
    requires pos + 1 < |code| && code[pos] in {0xF0, 0xFC}
    requires code[pos + 1] / 16 in TYPE_CODES && code[pos + 1] % 16 in TYPE_CODES
    ensures var dst, src := TYPE_CODES[code[pos + 1] / 16], TYPE_CODES[code[pos + 1] % 16];
      var o := CastEntry(code[pos] == 0xFC, dst, src);
      if dst == src then DecodeOne(p, code, pos) == Ok((Nothing, pos + 2))
      else if o.Some? then DecodeOne(p, code, pos) == Ok((Emit(o.value), pos + 2))
      else DecodeOne(p, code, pos).Err?
  {
    hide TypedOpOf, AddCastOperator, AddOperatorByType, AddFunOperator, DecodeConst, DecodeConstN, DecodeVar;
    OpcodesAre(code[pos]);
    CastByte(code[pos] == 0xFC, code[pos + 1]);
  }

  lemma CastByte(check: bool, b: byte)
    requires b / 16 in TYPE_CODES && b % 16 in TYPE_CODES
    ensures var dst, src := TYPE_CODES[b / 16], TYPE_CODES[b % 16];
      var o := CastEntry(check, dst, src);
      if dst == src then AddCastOperator(check, b) == Ok(Nothing)
      else if o.Some? then AddCastOperator(check, b) == Ok(Emit(o.value))
      else AddCastOperator(check, b).Err?
  {
    hide TypeOfCode, CastEntry;
    CodesAre(b / 16);
    CodesAre(b % 16);
    SameCode(b / 16, b % 16);
    NoTemporalCasts(check, b / 16, b % 16);
  }

  lemma SameCode(b: byte, c: byte)
    requires b in TYPE_CODES && c in TYPE_CODES
    ensures TYPE_CODES[b] == TYPE_CODES[c] <==> b == c
  {
    hide TypeOfCode;
    CodesAre(b);
    CodesAre(c);
    CodeOf(b);
    CodeOf(c);
  }

  lemma CodeOf(b: byte)
    requires b in TYPE_CODES
    ensures TYPE_CODES[b].Code() == b
  {}

  lemma NoTemporalCasts(check: bool, b: byte, c: byte)
    requires b in TYPE_CODES && c in TYPE_CODES
    ensures b >= 8 ==> CastEntry(check, TYPE_CODES[b], TYPE_CODES[c]).None?
  {}

  lemma FunctionOpcode(p: Prims, code: Bytes, pos: nat)
    requires pos + 1 < |code| && code[pos] == 0xF1
    ensures var sig := FunSignature(code[pos + 1]);
      if sig.Some? then DecodeOne(p, code, pos) == Ok((Emit(FunOp(code[pos + 1], sig.value)), pos + 2))
      else DecodeOne(p, code, pos).Err?
  {
    hide TypedOpOf, AddCastOperator, AddOperatorByType, FunSignature, DecodeConst, DecodeConstN, DecodeVar;
    OpcodesAre(code[pos]);
  }

  /** Floating-point constants are words, most significant byte first, and decimals are texts that the
      library reads. */
  lemma LiteralOpcodes(p: Prims, code: Bytes, pos: nat)
    requires pos < |code|
    ensures code[pos] == 0x14 && pos + 5 <= |code| ==>
              var n := FromBigEndian(code[pos + 1..pos + 5]);
              n < 0x1_0000_0000 && DecodeOne(p, code, pos) == Ok((Emit(ConstOp(FLOAT, Float(n))), pos + 5))
    ensures code[pos] == 0x15 && pos + 9 <= |code| ==>
              var n := FromBigEndian(code[pos + 1..pos + 9]);
              n < 0x1_0000_0000_0000_0000 && DecodeOne(p, code, pos) == Ok((Emit(ConstOp(DOUBLE, Double(n))), pos + 9))
    ensures code[pos] == 0x16 && ReadCounted(code, pos + 1).Ok? ==>
              var v := ReadCounted(code, pos + 1).value;
              match FromLibrary(p.decimalOf(v.0))
              case Ok(d) => DecodeOne(p, code, pos) == Ok((Emit(ConstOp(DECIMAL, Operand.Decimal(d))), v.1))
              case Err(f) => DecodeOne(p, code, pos) == Err(f)
  {
    hide TypedOpOf, AddOperatorByType, AddCastOperator, AddFunOperator, VarintAt, ReadCounted, FromBigEndian;
    hide Powers.Pow;
    OpcodesAre(code[pos]);
    Word4();
    Word8();
    if pos + 5 <= |code| { BigEndianBound(code[pos + 1..pos + 5]); }
    if pos + 9 <= |code| { BigEndianBound(code[pos + 1..pos + 9]); }
  }

  // ---------- aggregates and stages ----------

  const COUNTS: map<byte, Type> := map[
    0x11 := INT32, 0x12 := INT64, 0x13 := BOOL, 0x14 := FLOAT, 0x15 := DOUBLE,
    0x16 := DECIMAL, 0x17 := STRING, 0x18 := DATE, 0x19 := TIMESTAMP]
  const SUMS: map<byte, Type> := map[0x21 := INT32, 0x22 := INT64, 0x24 := FLOAT, 0x25 := DOUBLE, 0x26 := DECIMAL]
  const MAXIMA: map<byte, Type> := map[
    0x31 := INT32, 0x32 := INT64, 0x34 := FLOAT, 0x35 := DOUBLE, 0x36 := DECIMAL, 0x37 := STRING,
    0x38 := DATE, 0x39 := TIMESTAMP]
  const MINIMA: map<byte, Type> := map[
    0x41 := INT32, 0x42 := INT64, 0x44 := FLOAT, 0x45 := DOUBLE, 0x46 := DECIMAL, 0x47 := STRING,
    0x48 := DATE, 0x49 := TIMESTAMP]

  lemma CountBytes(b: byte)
    ensures b in COUNTS <==> b / 16 == 1 && b % 16 in TYPE_CODES
    ensures b in COUNTS ==> COUNTS[b] == TYPE_CODES[b % 16]
  {}

  lemma SumBytes(b: byte)
    ensures b in SUMS <==> b / 16 == 2 && b % 16 in TYPE_CODES && Numeric(TYPE_CODES[b % 16])
    ensures b in SUMS ==> SUMS[b] == TYPE_CODES[b % 16]
  {}

  lemma MaximumBytes(b: byte)
    ensures b in MAXIMA <==> b / 16 == 3 && b % 16 in TYPE_CODES && !TYPE_CODES[b % 16].BOOL?
    ensures b in MAXIMA ==> MAXIMA[b] == TYPE_CODES[b % 16]
  {}

  lemma MinimumBytes(b: byte)
    ensures b in MINIMA <==> b / 16 == 4 && b % 16 in TYPE_CODES && !TYPE_CODES[b % 16].BOOL?
    ensures b in MINIMA ==> MINIMA[b] == TYPE_CODES[b % 16]
  {}

  /** The aggregate each byte stands for, and no other byte does. */
  lemma AggregateBytes(b: byte, index: int)
    ensures AggOfByte(b, index) ==
            if b == 0x10 then Some(CountAll)
            else if b in COUNTS then Some(Count(COUNTS[b], index))
            else if b in SUMS then Some(Fold(Add, SUMS[b], index))
            else if b in MAXIMA then Some(Fold(Max, MAXIMA[b], index))
            else if b in MINIMA then Some(Fold(Min, MINIMA[b], index))
            else None
  {
    hide TypeOfCode, Numeric;
    CodesAre(b % 16);
    CountBytes(b);
    SumBytes(b);
    MaximumBytes(b);
    MinimumBytes(b);
  }

  /** The markers of the four stages. Filters and projections go on with an expression, groups with
      counted column indices behind their tag, and both aggregations with counted aggregates. */
  lemma StageMarkers(p: Prims, code: Bytes, pos: nat, order: Order)
    requires pos < |code|
    ensures code[pos] in {0x71, 0x72} && DecodeFrom(p, code, pos + 1).Ok? ==>
              var v := DecodeFrom(p, code, pos + 1).value;
              DecodeStage(p, code, pos, order) == Ok((if code[pos] == 0x71 then Filter(v.0) else Project(v.0), v.1))
    ensures code[pos] == 0x73 && pos + 1 < |code| && code[pos + 1] == 0x61 && Counting(ReadIndex, code, pos + 2).Ok? ==>
              var v := Counting(ReadIndex, code, pos + 2).value;
              && v.1 <= |code|
              && (Counting(ReadAgg, code, v.1).Ok? ==>
                    var w := Counting(ReadAgg, code, v.1).value;
                    DecodeStage(p, code, pos, order) == Ok((Grouped(v.0, w.0, order), w.1)))
    ensures code[pos] == 0x74 && Counting(ReadAgg, code, pos + 1).Ok? ==>
              var w := Counting(ReadAgg, code, pos + 1).value;
              DecodeStage(p, code, pos, order) == Ok((Ungrouped(w.0), w.1))
    ensures code[pos] !in {0x71, 0x72, 0x73, 0x74} ==> DecodeStage(p, code, pos, order).Err?
  {
    hide DecodeFrom, Elements;
    ReadersBounded();
    if pos + 2 <= |code| && Counting(ReadIndex, code, pos + 2).Ok? { CountingBounded(ReadIndex, code, pos + 2); }
  }

  // ---------- numbers ----------

  /** The first byte of a word counts most. */
  lemma {:induction false} WordPlaces(b: byte, rest: Bytes)
    ensures FromBigEndian([b] + rest) == b * Powers.Pow(256, |rest|) + FromBigEndian(rest)
  {
    var s := [b] + rest;
    if rest == [] {
      assert s[..0] == [];
    } else {
      var n := |rest| - 1;
      WordPlaces(b, rest[..n]);
      assert s[..|s| - 1] == [b] + rest[..n] && s[|s| - 1] == rest[n];
      Powers.MulAssociative(b, Powers.Pow(256, n), 256);
    }
  }

  /** The first byte of a varint counts least; each one has seven bits, and the last one is below 128. */
  lemma VarintPlaces(code: Bytes, pos: nat)
    requires pos < |code|
    ensures code[pos] < 128 ==> VarintAt(code, pos) == Ok((code[pos], pos + 1))
    ensures code[pos] >= 128 && VarintAt(code, pos + 1).Ok? ==>
              var rest := VarintAt(code, pos + 1).value;
              VarintAt(code, pos) == Ok((code[pos] - 128 + 128 * rest.0, rest.1))
  {}

  // ---------- three programs ----------

  /** The bytes of 'abc' > 'a'. */
  const STRING_COMPARISON: Bytes := [0x17, 0x03, 0x61, 0x62, 0x63, 0x17, 0x01, 0x61, 0x93, 0x07]

  /** The bytes of int64(21). */
  const WIDENING: Bytes := [0x11, 0x15, 0xF0, 0x21]

  /** The bytes of t0 + t1 in double precision. */
  const DOUBLE_SUM: Bytes := [0x35, 0x00, 0x35, 0x01, 0x83, 0x05]

  lemma DecodeNext(p: Prims, code: Bytes, pos: nat, op: Operator, next: nat)
    requires pos < |code| && DecodeOne(p, code, pos) == Ok((Emit(op), next))
    ensures pos < next <= |code|
    ensures DecodeFrom(p, code, pos) ==
            var r := DecodeFrom(p, code, next); if r.Err? then r else Ok(([op] + r.value.0, r.value.1))
  {
    hide DecodeOne;
  }

  lemma DecodeEnd(p: Prims, code: Bytes)
    ensures DecodeFrom(p, code, |code|) == Ok(([], |code|))
  {}

  /** One operator on a stack, and the rest of the code. */
  lemma RunOne(p: Prims, op: Operator, rest: seq<Operator>, s: seq<Operand>, v: Operand, tuple: Option<Tuple>)
    requires |s| >= Arity(op) && Apply(p, op, s[|s| - Arity(op)..], tuple) == Ok(v)
    ensures Exec(p, [op] + rest, s, tuple) == Exec(p, rest, s[..|s| - Arity(op)] + [v], tuple)
  {
    hide Apply;
    assert ([op] + rest)[1..] == rest;
  }

  lemma RunNone(p: Prims, s: seq<Operand>, tuple: Option<Tuple>)
    ensures Exec(p, [], s, tuple) == Ok(s)
  {}

  /** One operand and a unary operator. */
  lemma RunTwo(p: Prims, first: Operator, op: Operator, v: Operand, r: Operand, tuple: Option<Tuple>)
    requires Arity(first) == 0 && Arity(op) == 1
    requires Apply(p, first, [], tuple) == Ok(v) && Apply(p, op, [v], tuple) == Ok(r)
    ensures Exec(p, [first] + ([op] + []), [], tuple) == Ok([r])
  {
    hide Apply, Exec, Arity;
    RunOne(p, first, [op] + [], [], v, tuple);
    assert [][..0] + [v] == [v] && [v][0..] == [v];
    RunOne(p, op, [], [v], r, tuple);
    assert [v][..0] + [r] == [r];
    RunNone(p, [r], tuple);
  }

  /** Two operands and a binary operator. */
  lemma RunThree(p: Prims, first: Operator, second: Operator, op: Operator, v: Operand, w: Operand,
          tuple: Option<Tuple>)
    requires Arity(first) == 0 && Arity(second) == 0 && Arity(op) == 2
    requires Apply(p, first, [], tuple) == Ok(v) && Apply(p, second, [], tuple) == Ok(w)
    requires Apply(p, op, [v, w], tuple).Ok?
    ensures Exec(p, [first] + ([second] + ([op] + [])), [], tuple) == Ok([Apply(p, op, [v, w], tuple).value])
  {
    hide Apply, Exec, Arity;
    var r := Apply(p, op, [v, w], tuple).value;
    assert [v, w][0..] == [v, w] && [v][1..] == [] && [v][..1] == [v];
    RunOne(p, first, [second] + ([op] + []), [], v, tuple);
    assert [][..0] + [v] == [v];
    RunOne(p, second, [op] + [], [v], w, tuple);
    assert [v] + [w] == [v, w];
    RunOne(p, op, [], [v, w], r, tuple);
    assert [v, w][..0] + [r] == [r];
    RunNone(p, [r], tuple);
  }

  /** Three operators, two operands and what is done with them, one after the other. */
  lemma DecodeThree(p: Prims, code: Bytes, a: Operator, b: Operator, c: Operator, m: nat, n: nat)
    requires 0 < m < n < |code|
    requires DecodeOne(p, code, 0) == Ok((Emit(a), m)) && DecodeOne(p, code, m) == Ok((Emit(b), n))
    requires DecodeOne(p, code, n) == Ok((Emit(c), |code|))
    ensures DecodeFrom(p, code, 0) == Ok(([a] + ([b] + ([c] + [])), |code|))
  {
    hide DecodeOne, DecodeFrom;
    DecodeNext(p, code, 0, a, m);
    DecodeNext(p, code, m, b, n);
    DecodeNext(p, code, n, c, |code|);
    DecodeEnd(p, code);
  }

  /** A string of fewer than 128 bytes. */
  lemma ShortString(p: Prims, code: Bytes, pos: nat, s: Bytes)
    requires pos + 2 + |s| <= |code| && |s| < 128 && code[pos] == 0x17 && code[pos + 1] == |s|
    requires code[pos + 2..pos + 2 + |s|] == s
    ensures DecodeOne(p, code, pos) == Ok((Emit(ConstOp(STRING, Operand.String(s))), pos + 2 + |s|))
  {
    hide DecodeOne;
    StringOpcode(p, code, pos);
  }

  /** It is true. */
  lemma StringComparison(p: Prims)
    ensures var r := DecodeFrom(p, STRING_COMPARISON, 0);
      r.Ok? && r.value.1 == 10 && Exec(p, r.value.0, [], None) == Ok([Bool(true)])
  {
    hide DecodeOne, DecodeFrom, Exec, Apply;
    var code, x: Bytes, y: Bytes := STRING_COMPARISON, [0x61, 0x62, 0x63], [0x61];
    var abc, a, gt := ConstOp(STRING, Operand.String(x)), ConstOp(STRING, Operand.String(y)), BinaryOp(Gt, STRING);
    assert code[2..5] == x && code[7..8] == y;
    ShortString(p, code, 0, x);
    ShortString(p, code, 5, y);
    TypedOpcodes(p, code, 8);
    DecodeThree(p, code, abc, a, gt, 5, 8);
    Comparison(p, x, y);
    RunThree(p, abc, a, gt, Operand.String(x), Operand.String(y), None);
  }

  lemma Comparison(p: Prims, x: Bytes, y: Bytes)
    requires x == [0x61, 0x62, 0x63] && y == [0x61]
    ensures Apply(p, BinaryOp(Gt, STRING), [Operand.String(x), Operand.String(y)], None) == Ok(Bool(true))
    ensures Apply(p, ConstOp(STRING, Operand.String(x)), [], None) == Ok(Operand.String(x))
    ensures Apply(p, ConstOp(STRING, Operand.String(y)), [], None) == Ok(Operand.String(y))
  {
    assert CompareBytes(x, y) == 1 by { assert x[1..] == [0x62, 0x63] && y[1..] == []; }
  }

  /** It is 21. */
  lemma Widening(p: Prims)
    ensures var r := DecodeFrom(p, WIDENING, 0);
      r.Ok? && r.value.1 == 4 && Exec(p, r.value.0, [], None) == Ok([Int64(21)])
  {
    hide DecodeOne, DecodeFrom, Exec;
    var code, literal, cast := WIDENING, ConstOp(INT32, Int32(21)), CastOp(false, INT64, INT32);
    VarintPlaces(code, 1);
    NumberOpcodes(p, code, 0, 21, 2);
    CastOpcodes(p, code, 2);
    DecodeNext(p, code, 0, literal, 2);
    DecodeNext(p, code, 2, cast, 4);
    DecodeEnd(p, code);
    RunTwo(p, literal, cast, Int32(21), Int64(21), None);
  }

  /** It adds the columns, the first one first. */
  lemma DoubleSum(p: Prims, x: Float64, y: Float64)
    ensures var r := DecodeFrom(p, DOUBLE_SUM, 0);
      && r.Ok? && r.value.1 == 6
      && Exec(p, r.value.0, [], Some([Double(x), Double(y)])) == Ok([Double(p.doubles(Add, x, y))])
  {
    hide DecodeOne, DecodeFrom, Exec, Apply;
    var code, first, second, sum := DOUBLE_SUM, IndexedVarOp(DOUBLE, 0), IndexedVarOp(DOUBLE, 1), BinaryOp(Add, DOUBLE);
    VarintPlaces(code, 1);
    VarintPlaces(code, 3);
    NumberOpcodes(p, code, 0, 0, 2);
    NumberOpcodes(p, code, 2, 1, 4);
    TypedOpcodes(p, code, 4);
    DecodeThree(p, code, first, second, sum, 2, 4);
    Columns(p, x, y);
    RunThree(p, first, second, sum, Double(x), Double(y), Some([Double(x), Double(y)]));
  }

  lemma Columns(p: Prims, x: Float64, y: Float64)
    ensures var tuple := Some([Double(x), Double(y)]);
      && Apply(p, IndexedVarOp(DOUBLE, 0), [], tuple) == Ok(Double(x))
      && Apply(p, IndexedVarOp(DOUBLE, 1), [], tuple) == Ok(Double(y))
      && Apply(p, BinaryOp(Add, DOUBLE), [Double(x), Double(y)], tuple) == Ok(Double(p.doubles(Add, x, y)))
  {}
}
