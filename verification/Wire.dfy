/** The bytecode of expressions: the decoder of `OperatorVector`, an encoder for every instruction it
    understands, and the proof that decoding inverts encoding. */
module Wire {
  import opened Options
  import opened Operands
  import opened Operators
  import opened Codec
  import opened Powers

  const EOE: byte := 0x00

  /** What one instruction contributes. */
  datatype Decoded = Emit(op: Operator) | Nothing | Stop

  function TypeOfCode(b: byte): Option<Type> {
    match b
    case 1 => Some(INT32) case 2 => Some(INT64) case 3 => Some(BOOL) case 4 => Some(FLOAT) case 5 => Some(DOUBLE)
    case 6 => Some(DECIMAL) case 7 => Some(STRING) case 8 => Some(DATE) case 9 => Some(TIMESTAMP)
    case _ => None
  }

  function TypedOpOf(b: byte): Option<TypedOp> {
    match b
    case 0x81 => Some(POS) case 0x82 => Some(NEG) case 0x83 => Some(ADD) case 0x84 => Some(SUB)
    case 0x85 => Some(MUL) case 0x86 => Some(DIV) case 0x87 => Some(MOD)
    case 0x91 => Some(EQ) case 0x92 => Some(GE) case 0x93 => Some(GT) case 0x94 => Some(LE)
    case 0x95 => Some(LT) case 0x96 => Some(NE)
    case 0xA1 => Some(IS_NULL) case 0xA2 => Some(IS_TRUE) case 0xA3 => Some(IS_FALSE)
    case 0xB1 => Some(MIN) case 0xB2 => Some(MAX) case 0xB3 => Some(ABS) case 0xB4 => Some(ABS_C)
    case _ => None
  }

  function OpcodeOf(op: TypedOp): byte {
    match op
    case POS => 0x81 case NEG => 0x82 case ADD => 0x83 case SUB => 0x84
    case MUL => 0x85 case DIV => 0x86 case MOD => 0x87
    case EQ => 0x91 case GE => 0x92 case GT => 0x93 case LE => 0x94 case LT => 0x95 case NE => 0x96
    case IS_NULL => 0xA1 case IS_TRUE => 0xA2 case IS_FALSE => 0xA3
    case MIN => 0xB1 case MAX => 0xB2 case ABS => 0xB3 case ABS_C => 0xB4
  }

  /** `AddOperatorByType`. The tables without temporal entries are shorter than the type codes. */
  function AddOperatorByType(op: TypedOp, b: byte): Result<Decoded> {
    var t := TypeOfCode(b);
    if b == 0 then Err(UnknownCode)
    else if t.None? then Err(Malformed)
    else match TableEntry(op, t.value)
      case Some(o) => Ok(Emit(o))
      case None => Err(if Temporal(t.value) then Malformed else UnknownCode)
  }

  /** `AddCastOperator`: equal types add nothing. */
  function AddCastOperator(check: bool, b: byte): Result<Decoded> {
    var dst, src := b / 16, b % 16;
    if dst == src then Ok(Nothing)
    else if dst >= 8 || src >= 10 then Err(Malformed)
    else if dst == 0 || src == 0 then Err(UnknownCode)
    else match CastEntry(check, TypeOfCode(dst).value, TypeOfCode(src).value)
      case Some(o) => Ok(Emit(o))
      case None => Err(UnknownCode)
  }

  function AddFunOperator(b: byte): Result<Decoded> {
    match FunSignature(b)
    case Some(sig) => Ok(Emit(FunOp(b, sig)))
    case None => Err(UnknownCode)
  }

  /** The byte after an opcode, handed to one of the functions above. */
  function Second(code: Bytes, pos: nat, add: byte -> Result<Decoded>): Result<(Decoded, nat)> {
    if pos + 1 >= |code| then Err(Malformed)
    else
      var d :- add(code[pos + 1]);
      Ok((d, pos + 2))
  }

  /** CONST<t>, with the immediate at `pos`. */
  function DecodeConst(p: Prims, t: Type, code: Bytes, pos: nat): (r: Result<(Decoded, nat)>)
    requires pos <= |code|
    ensures r.Ok? ==> pos <= r.value.1 <= |code|
  {
    match t
    case INT32 => var v :- ReadVarint(code, pos, LIMIT31); Ok((Emit(ConstOp(t, Int32(v.0))), v.1))
    case BOOL => Ok((Emit(ConstBoolOp(true)), pos))
    case FLOAT => var v :- ReadWord(code, pos, 4); Word4(); Ok((Emit(ConstOp(t, Float(v.0))), v.1))
    case DOUBLE => var v :- ReadWord(code, pos, 8); Word8(); Ok((Emit(ConstOp(t, Double(v.0))), v.1))
    case DECIMAL =>
      var v :- ReadCounted(code, pos);
      var d :- FromLibrary(p.decimalOf(v.0));
      Ok((Emit(ConstOp(t, Operand.Decimal(d))), v.1))
    case STRING => var v :- ReadCounted(code, pos); Ok((Emit(ConstOp(t, Operand.String(v.0))), v.1))
    case _ => var v :- ReadVarint(code, pos, LIMIT63); Ok((Emit(ConstOp(t, Int64(v.0))), v.1))
  }

  lemma Word4() ensures Pow(256, 4) == LIMIT32 {}

  lemma Word8()
    ensures Pow(256, 8) == LIMIT64
  {
    Word4();
    PowAdd(256, 4, 4);
  }

  /** CONST_N<t>: the negated immediate, or false. */
  function DecodeConstN(t: Type, code: Bytes, pos: nat): (r: Result<(Decoded, nat)>)
    requires pos <= |code|
    ensures r.Ok? ==> pos <= r.value.1 <= |code|
  {
    match t
    case INT32 => var v :- ReadVarint(code, pos, LIMIT31); Ok((Emit(ConstOp(t, Int32(0 - v.0))), v.1))
    case INT64 => var v :- ReadVarint(code, pos, LIMIT63); Ok((Emit(ConstOp(t, Int64(0 - v.0))), v.1))
    case BOOL => Ok((Emit(ConstBoolOp(false)), pos))
    case _ => Err(UnknownCode)
  }

  /** VAR<t>: a column index. */
  function DecodeVar(t: Type, code: Bytes, pos: nat): (r: Result<(Decoded, nat)>)
    requires pos <= |code|
    ensures r.Ok? ==> pos <= r.value.1 <= |code|
  {
    var v :- ReadVarint(code, pos, LIMIT31);
    Ok((Emit(IndexedVarOp(t, v.0)), v.1))
  }

  /** One turn of the decoder's loop. */
  function DecodeOne(p: Prims, code: Bytes, pos: nat): (r: Result<(Decoded, nat)>)
    requires pos < |code|
    ensures r.Ok? ==> pos < r.value.1 <= |code|
  {
    var b := code[pos];
    var t := TypeOfCode(b % 16);
    var op := TypedOpOf(b);
    if b == EOE then Ok((Stop, pos + 1))
    else if op.Some? then Second(code, pos, (x: byte) => AddOperatorByType(op.value, x))
    else if b == 0x51 then Ok((Emit(NotOp), pos + 1))
    else if b == 0x52 then Ok((Emit(AndOp), pos + 1))
    else if b == 0x53 then Ok((Emit(OrOp), pos + 1))
    else if b == 0xF0 then Second(code, pos, (x: byte) => AddCastOperator(false, x))
    else if b == 0xFC then Second(code, pos, (x: byte) => AddCastOperator(true, x))
    else if b == 0xF1 then Second(code, pos, (x: byte) => AddFunOperator(x))
    else if t.None? then Err(UnknownCode)
    else if b / 16 == 0 then Ok((Emit(NullOp(t.value)), pos + 1))
    else if b / 16 == 1 then DecodeConst(p, t.value, code, pos + 1)
    else if b / 16 == 2 then DecodeConstN(t.value, code, pos + 1)
    else if b / 16 == 3 then
      DecodeVar(t.value, code, pos + 1)
    else Err(UnknownCode)
  }

  /** The operators from `pos` to the end marker or the end of the code, and where they end. */
  function DecodeFrom(p: Prims, code: Bytes, pos: nat): (r: Result<(seq<Operator>, nat)>)
    requires pos <= |code|
    ensures r.Ok? ==> pos <= r.value.1 <= |code|
    decreases |code| - pos
  {
    if pos == |code| then Ok(([], pos))
    else
      var d :- DecodeOne(p, code, pos);
      if d.0.Stop? then Ok(([], d.1))
      else
        var rest :- DecodeFrom(p, code, d.1);
        Ok((if d.0.Emit? then [d.0.op] + rest.0 else rest.0, rest.1))
  }

  /** The decoded operators of one expression. */
  class OperatorVector {
    var vector: seq<Operator>

    constructor ()
      ensures vector == []
    {
      vector := [];
    }

    method Release()
      modifies this
      ensures vector == []
    {
      vector := [];
    }

    method Add(op: Operator)
      modifies this
      ensures vector == old(vector) + [op]
    {
      vector := vector + [op];
    }

    /** Replaces the contents by the operators at `start` and returns the position after them. */
    method Decode(p: Prims, code: Bytes, start: nat) returns (r: Result<nat>)
      requires start <= |code|
      modifies this
      ensures match DecodeFrom(p, code, start)
              case Ok(v) => r == Ok(v.1) && vector == v.0
              case Err(f) => r == Err(f)
    {
      Release();
      var pos := start;
      AfterNothing(DecodeFrom(p, code, start));
      while pos < |code|
        invariant start <= pos <= |code|
        invariant DecodeFrom(p, code, start) == After(vector, DecodeFrom(p, code, pos))
        decreases |code| - pos
      {
        ghost var before := vector;
        var d := DecodeOne(p, code, pos);
        if d.Err? {
          return Err(d.error);
        }
        if d.value.0.Stop? {
          assert before + [] == before;
          return Ok(d.value.1);
        }
        if d.value.0.Emit? {
          Add(d.value.0.op);
        }
        AfterOne(before, d.value.0, DecodeFrom(p, code, d.value.1));
        pos := d.value.1;
      }
      assert vector + [] == vector;
      return Ok(pos);
    }
  }

  ghost function After(ops: seq<Operator>, r: Result<(seq<Operator>, nat)>): Result<(seq<Operator>, nat)> {
    match r case Ok(v) => Ok((ops + v.0, v.1)) case Err(f) => Err(f)
  }

  lemma AfterNothing(r: Result<(seq<Operator>, nat)>)
    ensures After([], r) == r
  {
    if r.Ok? { assert [] + r.value.0 == r.value.0; }
  }

  lemma AfterOne(ops: seq<Operator>, d: Decoded, rest: Result<(seq<Operator>, nat)>)
    ensures d.Emit? && rest.Ok? ==> ops + ([d.op] + rest.value.0) == (ops + [d.op]) + rest.value.0
  {}

  // ---------- the encoder ----------

  /** Every instruction the decoder understands. */
  datatype Instr =
    | INull(t: Type)
    | IConstInt32(i: int32)
    | IConstInt64(l: int64)
    | IConstBool(b: bool)
    | IConstFloat(f: Float32)
    | IConstDouble(d: Float64)
    | IConstDecimal(text: Bytes)
    | IConstString(s: Bytes)
    | IConstTime(t: Type, v: nat)
    | IVar(t: Type, index: nat)
    | ITyped(op: TypedOp, t: Type)
    | INot | IAnd | IOr
    | ICast(check: bool, dst: Type, src: Type)
    | IFun(code: byte)
  {
    /** The most negative integers have no encoding; tables decide which typed codes exist. */
    predicate Encodable() {
      match this
      case IConstInt32(i) => i > -0x8000_0000
      case IConstInt64(l) => l > -0x8000_0000_0000_0000
      case IConstDecimal(text) => |text| < LIMIT32
      case IConstString(s) => |s| < LIMIT32
      case IConstTime(t, v) => Temporal(t) && v < LIMIT63
      case IVar(_, index) => index < LIMIT31
      case ITyped(op, t) => TableEntry(op, t).Some?
      case ICast(check, dst, src) => dst == src || CastEntry(check, dst, src).Some?
      case IFun(code) => FunSignature(code).Some?
      case _ => true
    }

    function Encode(): Bytes {
      match this
      case INull(t) => [t.Code()]
      case IConstInt32(i) => if i >= 0 then [0x11] + Varint(i) else [0x21] + Varint(0 - i)
      case IConstInt64(l) => if l >= 0 then [0x12] + Varint(l) else [0x22] + Varint(0 - l)
      case IConstBool(b) => [if b then 0x13 else 0x23]
      case IConstFloat(f) => [0x14] + BigEndian(f, 4)
      case IConstDouble(d) => [0x15] + BigEndian(d, 8)
      case IConstDecimal(text) => [0x16] + Counted(text)
      case IConstString(s) => [0x17] + Counted(s)
      case IConstTime(t, v) => [0x10 + t.Code()] + Varint(v)
      case IVar(t, index) => [0x30 + t.Code()] + Varint(index)
      case ITyped(op, t) => [OpcodeOf(op), t.Code()]
      case INot => [0x51] case IAnd => [0x52] case IOr => [0x53]
      case ICast(check, dst, src) => [if check then 0xFC else 0xF0, 16 * dst.Code() + src.Code()]
      case IFun(code) => [0xF1, code]
    }

    /** The operator it stands for; an identity cast stands for none, and the
        text of a decimal may be refused. */
    function Meaning(p: Prims): Result<Decoded>
      requires Encodable()
    {
      match this
      case INull(t) => Ok(Emit(NullOp(t)))
      case IConstInt32(i) => Ok(Emit(ConstOp(INT32, Int32(i))))
      case IConstInt64(l) => Ok(Emit(ConstOp(INT64, Int64(l))))
      case IConstBool(b) => Ok(Emit(ConstBoolOp(b)))
      case IConstFloat(f) => Ok(Emit(ConstOp(FLOAT, Float(f))))
      case IConstDouble(d) => Ok(Emit(ConstOp(DOUBLE, Double(d))))
      case IConstDecimal(text) => var d :- FromLibrary(p.decimalOf(text));
        Ok(Emit(ConstOp(DECIMAL, Operand.Decimal(d))))
      case IConstString(s) => Ok(Emit(ConstOp(STRING, Operand.String(s))))
      case IConstTime(t, v) => Ok(Emit(ConstOp(t, Int64(v))))
      case IVar(t, index) => Ok(Emit(IndexedVarOp(t, index)))
      case ITyped(op, t) => Ok(Emit(TableEntry(op, t).value))
      case INot => Ok(Emit(NotOp)) case IAnd => Ok(Emit(AndOp)) case IOr => Ok(Emit(OrOp))
      case ICast(check, dst, src) => Ok(if dst == src then Nothing else Emit(CastEntry(check, dst, src).value))
      case IFun(code) => Ok(Emit(FunOp(code, FunSignature(code).value)))
    }
  }

  lemma TypeCodes(t: Type)
    ensures TypeOfCode(t.Code()) == Some(t) && 1 <= t.Code() <= 9
  {}

  lemma Opcodes(op: TypedOp)
    ensures TypedOpOf(OpcodeOf(op)) == Some(op) && OpcodeOf(op) >= 0x81
  {}

  lemma FirstByte(code: Bytes, pos: nat, b: byte, rest: Bytes)
    requires At(code, pos, [b] + rest)
    ensures pos < |code| && code[pos] == b && At(code, pos + 1, rest)
  {
    AtAppend(code, pos, [b], rest);
    assert code[pos..pos + 1][0] == b;
  }

  lemma WordRoundTrip(code: Bytes, pos: nat, n: nat, width: nat)
    requires n < Pow(256, width) && At(code, pos, BigEndian(n, width))
    ensures ReadWord(code, pos, width) == Ok((n, pos + width))
  {
    BigEndianRoundTrip(n, width);
  }

  /** What was decoded and the position after it. */
  function Placed<T>(r: Result<T>, pos: nat): Result<(T, nat)> {
    match r case Ok(v) => Ok((v, pos)) case Err(f) => Err(f)
  }

  ghost predicate Decodes(p: Prims, i: Instr, code: Bytes, pos: nat)
    requires i.Encodable()
  {
    pos < |code| && DecodeOne(p, code, pos) == Placed(i.Meaning(p), pos + |i.Encode()|)
  }

  /** The opcodes whose low four bits are a type. */
  lemma Dispatch(p: Prims, t: Type, code: Bytes, pos: nat)
    requires pos < |code|
    ensures code[pos] == 0x10 + t.Code() ==> DecodeOne(p, code, pos) == DecodeConst(p, t, code, pos + 1)
    ensures code[pos] == 0x20 + t.Code() ==> DecodeOne(p, code, pos) == DecodeConstN(t, code, pos + 1)
    ensures code[pos] == 0x30 + t.Code() ==> DecodeOne(p, code, pos) == DecodeVar(t, code, pos + 1)
  {
    hide DecodeConst, DecodeConstN, DecodeVar, TypedOpOf, TypeOfCode, AddOperatorByType, AddCastOperator,
      AddFunOperator;
    LowOpcodes(code[pos]);
    TypeCodes(t);
    assert (0x10 + t.Code()) % 16 == (0x20 + t.Code()) % 16 == (0x30 + t.Code()) % 16 == t.Code();
  }

  lemma NumberAt(code: Bytes, pos: nat, b: byte, n: nat)
    requires At(code, pos, [b] + Varint(n))
    ensures pos < |code| && code[pos] == b
    ensures VarintAt(code, pos + 1) == Ok((n, pos + |[b] + Varint(n)|))
  {
    hide Varint, VarintAt, At;
    FirstByte(code, pos, b, Varint(n));
    VarintRoundTrip(code, pos + 1, n);
  }

  lemma NonNegativeRoundTrip(p: Prims, i: Instr, code: Bytes, pos: nat)
    requires i.Encodable() && At(code, pos, i.Encode())
    requires (i.IConstInt32? && i.i >= 0) || (i.IConstInt64? && i.l >= 0) || i.IConstTime? || i.IVar?
    ensures Decodes(p, i, code, pos)
  {
    hide Varint, VarintAt, At, DecodeOne;
    match i
    case IConstInt32(v) => NumberAt(code, pos, 0x11, v); Dispatch(p, INT32, code, pos);
    case IConstInt64(v) => NumberAt(code, pos, 0x12, v); Dispatch(p, INT64, code, pos);
    case IConstTime(t, v) => NumberAt(code, pos, 0x10 + t.Code(), v); Dispatch(p, t, code, pos);
    case IVar(t, v) => NumberAt(code, pos, 0x30 + t.Code(), v); Dispatch(p, t, code, pos);
  }

  lemma NegativeRoundTrip(p: Prims, i: Instr, code: Bytes, pos: nat)
    requires i.Encodable() && At(code, pos, i.Encode())
    requires (i.IConstInt32? && i.i < 0) || (i.IConstInt64? && i.l < 0)
    ensures Decodes(p, i, code, pos)
  {
    hide Varint, VarintAt, At, DecodeOne;
    match i
    case IConstInt32(v) => NumberAt(code, pos, 0x21, 0 - v); Dispatch(p, INT32, code, pos);
    case IConstInt64(v) => NumberAt(code, pos, 0x22, 0 - v); Dispatch(p, INT64, code, pos);
  }

  lemma WordConstRoundTrip(p: Prims, i: Instr, code: Bytes, pos: nat)
    requires i.Encodable() && At(code, pos, i.Encode())
    requires i.IConstFloat? || i.IConstDouble?
    ensures Decodes(p, i, code, pos)
  {
    hide BigEndian, FromBigEndian, ReadWord, At, DecodeOne, Pow;
    if i.IConstFloat? {
      FirstByte(code, pos, 0x14, BigEndian(i.f, 4));
      Dispatch(p, FLOAT, code, pos);
      Word4();
      WordRoundTrip(code, pos + 1, i.f, 4);
    } else {
      FirstByte(code, pos, 0x15, BigEndian(i.d, 8));
      Dispatch(p, DOUBLE, code, pos);
      Word8();
      WordRoundTrip(code, pos + 1, i.d, 8);
    }
  }

  lemma CountedConstRoundTrip(p: Prims, i: Instr, code: Bytes, pos: nat)
    requires i.Encodable() && At(code, pos, i.Encode())
    requires i.IConstDecimal? || i.IConstString?
    ensures Decodes(p, i, code, pos)
  {
    hide Counted, ReadCounted, At, DecodeOne;
    if i.IConstDecimal? {
      FirstByte(code, pos, 0x16, Counted(i.text));
      Dispatch(p, DECIMAL, code, pos);
      CountedRoundTrip(code, pos + 1, i.text);
    } else {
      FirstByte(code, pos, 0x17, Counted(i.s));
      Dispatch(p, STRING, code, pos);
      CountedRoundTrip(code, pos + 1, i.s);
    }
  }

  lemma TypedRoundTrip(p: Prims, op: TypedOp, t: Type, code: Bytes, pos: nat)
    requires TableEntry(op, t).Some? && At(code, pos, [OpcodeOf(op), t.Code()])
    ensures Decodes(p, ITyped(op, t), code, pos)
  {
    hide At, TypedOpOf, TypeOfCode, OpcodeOf, TableEntry;
    assert [OpcodeOf(op), t.Code()] == [OpcodeOf(op)] + [t.Code()];
    FirstByte(code, pos, OpcodeOf(op), [t.Code()]);
    SecondByte(code, pos + 1, t.Code());
    Opcodes(op);
    TypeCodes(t);
  }

  lemma TwoByteRoundTrip(p: Prims, i: Instr, code: Bytes, pos: nat)
    requires i.Encodable() && At(code, pos, i.Encode())
    requires i.ICast? || i.IFun?
    ensures Decodes(p, i, code, pos)
  {
    hide At, TypedOpOf, TypeOfCode, FunSignature;
    var s := i.Encode();
    assert s == [s[0]] + [s[1]];
    FirstByte(code, pos, s[0], [s[1]]);
    SecondByte(code, pos + 1, s[1]);
    LowOpcodes(s[0]);
    if i.ICast? {
      TypeCodes(i.dst);
      TypeCodes(i.src);
      Nibbles(i.dst.Code(), i.src.Code());
    }
  }

  lemma OneByteRoundTrip(p: Prims, i: Instr, code: Bytes, pos: nat)
    requires At(code, pos, i.Encode())
    requires i.INull? || i.IConstBool? || i.INot? || i.IAnd? || i.IOr?
    ensures Decodes(p, i, code, pos)
  {
    SecondByte(code, pos, i.Encode()[0]);
  }

  lemma Nibbles(hi: nat, lo: nat)
    requires lo < 16
    ensures (16 * hi + lo) / 16 == hi && (16 * hi + lo) % 16 == lo
  {}

  /** Decoding one encoded instruction, wherever it stands and whatever its immediate contains. */
  lemma InstrRoundTrip(p: Prims, i: Instr, code: Bytes, pos: nat)
    requires i.Encodable() && At(code, pos, i.Encode())
    ensures Decodes(p, i, code, pos)
  {
    hide Decodes, At, DecodeOne, Instr.Meaning, Varint, OpcodeOf;
    if (i.IConstInt32? && i.i < 0) || (i.IConstInt64? && i.l < 0) {
      NegativeRoundTrip(p, i, code, pos);
    } else if i.IConstInt32? || i.IConstInt64? || i.IConstTime? || i.IVar? {
      NonNegativeRoundTrip(p, i, code, pos);
    } else if i.IConstFloat? || i.IConstDouble? {
      WordConstRoundTrip(p, i, code, pos);
    } else if i.IConstDecimal? || i.IConstString? {
      CountedConstRoundTrip(p, i, code, pos);
    } else if i.ITyped? {
      TypedRoundTrip(p, i.op, i.t, code, pos);
    } else if i.ICast? || i.IFun? {
      TwoByteRoundTrip(p, i, code, pos);
    } else {
      OneByteRoundTrip(p, i, code, pos);
    }
  }

  lemma LowOpcodes(b: byte)
    ensures b < 0x81 || b >= 0xF0 ==> TypedOpOf(b).None?
  {}

  lemma SecondByte(code: Bytes, pos: nat, b: byte)
    requires At(code, pos, [b])
    ensures pos < |code| && code[pos] == b
  {
    assert code[pos..pos + 1][0] == b;
  }

  function EncodeAll(instrs: seq<Instr>): Bytes {
    if instrs == [] then [] else instrs[0].Encode() + EncodeAll(instrs[1..])
  }

  predicate AllEncodable(instrs: seq<Instr>) { forall i | i in instrs :: i.Encodable() }

  /** The operators of a list of instructions, or the first one's refusal. */
  function OperatorsOf(p: Prims, instrs: seq<Instr>): Result<seq<Operator>>
    requires AllEncodable(instrs)
  {
    if instrs == [] then Ok([])
    else
      var d :- instrs[0].Meaning(p);
      var rest :- OperatorsOf(p, instrs[1..]);
      Ok((if d.Emit? then [d.op] else []) + rest)
  }

  lemma DecodeStep(p: Prims, i: Instr, code: Bytes, pos: nat)
    requires i.Encodable() && Decodes(p, i, code, pos)
    ensures i.Meaning(p).Err? ==> DecodeFrom(p, code, pos) == Err(i.Meaning(p).error)
    ensures i.Meaning(p).Ok? ==>
              && pos + |i.Encode()| <= |code|
              && DecodeFrom(p, code, pos) ==
                 var m := i.Meaning(p).value;
                 After(if m.Emit? then [m.op] else [], DecodeFrom(p, code, pos + |i.Encode()|))
  {
    hide DecodeOne, Instr.Encode, Instr.Encodable;
    var next := pos + |i.Encode()|;
    if i.Meaning(p).Ok? {
      NeverStops(p, i);
      assert DecodeOne(p, code, pos) == Ok((i.Meaning(p).value, next));
      AfterNothing(DecodeFrom(p, code, next));
    }
  }

  lemma NeverStops(p: Prims, i: Instr)
    requires i.Encodable() && i.Meaning(p).Ok?
    ensures !i.Meaning(p).value.Stop?
  {}

  lemma EndMarker(p: Prims, code: Bytes, pos: nat)
    requires At(code, pos, [EOE])
    ensures pos < |code| && DecodeFrom(p, code, pos) == Ok(([], pos + 1))
  {
    SecondByte(code, pos, EOE);
  }

  /** Wire round trip: an encoded expression followed by the end marker decodes to its operators,
      and the decoder stops right after the marker whatever comes next. */
  lemma {:induction false} ExpressionRoundTrip(p: Prims, instrs: seq<Instr>, code: Bytes, pos: nat)
    requires AllEncodable(instrs) && At(code, pos, EncodeAll(instrs) + [EOE])
    ensures pos <= |code| && DecodeFrom(p, code, pos) == Placed(OperatorsOf(p, instrs), pos + |EncodeAll(instrs)| + 1)
  {
    hide DecodeOne, DecodeFrom, Instr.Encode, Instr.Meaning, Instr.Encodable, At, Decodes;
    if instrs == [] {
      assert EncodeAll(instrs) + [EOE] == [EOE];
      EndMarker(p, code, pos);
    } else {
      var s, rest := instrs[0].Encode(), instrs[1..];
      assert EncodeAll(instrs) + [EOE] == s + (EncodeAll(rest) + [EOE]);
      AtAppend(code, pos, s, EncodeAll(rest) + [EOE]);
      InstrRoundTrip(p, instrs[0], code, pos);
      DecodeStep(p, instrs[0], code, pos);
      ExpressionRoundTrip(p, rest, code, pos + |s|);
    }
  }
}
