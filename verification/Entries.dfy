/** What every entry of the operator tables does to values, written out by name: numbers that are not
    integers, truth values, strings, casts, truth tests and numbered functions. The entries for
    integers are in `Calculations`. */
module Entries {
  import opened Options
  import opened Operands
  import opened Operators
  import opened Calculations

  // ---------- which entries exist ----------

  lemma TypedEntriesExist(op: TypedOp, t: Type)
    ensures TableEntry(op, t).Some? <==>
            || op in {EQ, NE, LT, LE, GT, GE, IS_NULL, IS_TRUE, IS_FALSE}
            || (op in {MIN, MAX} && t in {INT32, INT64, BOOL, FLOAT, DOUBLE, DECIMAL, STRING})
            || (op in {ADD, SUB} && t in {INT32, INT64, FLOAT, DOUBLE, DECIMAL, STRING})
            || (op in {POS, NEG, MUL, DIV, ABS, ABS_C} && t in {INT32, INT64, FLOAT, DOUBLE, DECIMAL})
            || (op == MOD && t in {INT32, INT64})
  {}

  /** What an entry makes of one value, or of two, the first one first. */
  function Applied(p: Prims, op: TypedOp, t: Type, v: Operand, w: Operand): Result<Operand>
    requires TableEntry(op, t).Some?
  {
    Apply(p, TableEntry(op, t).value, if Arity(TableEntry(op, t).value) == 1 then [v] else [v, w], None)
  }

  // ---------- floating-point numbers and decimals ----------

  /** The primitive of an opcode's name. */
  function NameOf(op: TypedOp): Calc
    requires !IsTest(op)
  {
    match op
    case POS => Pos case NEG => Neg case ABS => Abs case ABS_C => AbsCheck
    case ADD => Add case SUB => Sub case MUL => Mul case DIV => Div case MOD => Mod
    case MIN => Min case MAX => Max
    case EQ => Eq case NE => Ne case LT => Lt case LE => Le case GT => Gt case _ => Ge
  }

  predicate IsRelation(op: TypedOp) { op in {EQ, NE, LT, LE, GT, GE} }

  /** The calculation an entry hands its values to. */
  lemma EntryCalculates(p: Prims, op: TypedOp, t: Type, v: Operand, w: Operand)
    requires !IsTest(op) && TableEntry(op, t).Some? && v != Null && w != Null
    requires Conforms(v, t.Variant()) && Conforms(w, t.Variant())
    ensures Applied(p, op, t, v, w) ==
            if IsUnary(op) then Calculate(p, NameOf(op), v, v)
            else if op in {DIV, MOD} then DivMod(p, NameOf(op), v, w)
            else Calculate(p, if op == SUB && t == STRING then Add else NameOf(op), v, w)
  {
    hide Calculate, DivMod, Cast, Call;
  }

  function FloatExpected(p: Prims, op: TypedOp, x: Float32, y: Float32): Operand
    requires !IsTest(op)
  {
    if IsRelation(op) then Bool(p.floatTest(NameOf(op), x, y))
    else if IsUnary(op) then Float(p.floats(NameOf(op), x, x))
    else if op == DIV && p.floatZero(y) then Null
    else Float(p.floats(NameOf(op), x, y))
  }

  function DoubleExpected(p: Prims, op: TypedOp, x: Float64, y: Float64): Operand
    requires !IsTest(op)
  {
    if IsRelation(op) then Bool(p.doubleTest(NameOf(op), x, y))
    else if IsUnary(op) then Double(p.doubles(NameOf(op), x, x))
    else if op == DIV && p.doubleZero(y) then Null
    else Double(p.doubles(NameOf(op), x, y))
  }

  function DecimalExpected(p: Prims, op: TypedOp, x: Decimal, y: Decimal): Operand
    requires !IsTest(op)
  {
    if IsRelation(op) then Bool(p.decimalTest(NameOf(op), x, y))
    else if IsUnary(op) then Operand.Decimal(p.decimals(NameOf(op), x, x))
    else if op == DIV && p.decimalZero(y) then Null
    else Operand.Decimal(p.decimals(NameOf(op), x, y))
  }

  lemma FloatEntries(p: Prims, op: TypedOp, x: Float32, y: Float32)
    requires !IsTest(op) && TableEntry(op, FLOAT).Some?
    ensures Applied(p, op, FLOAT, Float(x), Float(y)) == Ok(FloatExpected(p, op, x, y))
  {
    hide Applied, TableEntry;
    TypedEntriesExist(op, FLOAT);
    EntryCalculates(p, op, FLOAT, Float(x), Float(y));
  }

  lemma DoubleEntries(p: Prims, op: TypedOp, x: Float64, y: Float64)
    requires !IsTest(op) && TableEntry(op, DOUBLE).Some?
    ensures Applied(p, op, DOUBLE, Double(x), Double(y)) == Ok(DoubleExpected(p, op, x, y))
  {
    hide Applied, TableEntry;
    TypedEntriesExist(op, DOUBLE);
    EntryCalculates(p, op, DOUBLE, Double(x), Double(y));
  }

  lemma DecimalEntries(p: Prims, op: TypedOp, x: Decimal, y: Decimal)
    requires !IsTest(op) && TableEntry(op, DECIMAL).Some?
    ensures Applied(p, op, DECIMAL, Operand.Decimal(x), Operand.Decimal(y)) == Ok(DecimalExpected(p, op, x, y))
  {
    hide Applied, TableEntry;
    TypedEntriesExist(op, DECIMAL);
    EntryCalculates(p, op, DECIMAL, Operand.Decimal(x), Operand.Decimal(y));
  }

  /** DIV<DOUBLE> of two integers, of either width: both become doubles first. */
  lemma MixedDivision(p: Prims, m: int, n: int, wide: bool, wide': bool)
    requires FitsWidth(wide, m) && FitsWidth(wide', n)
    ensures Applied(p, DIV, DOUBLE, Integer(wide, m), Integer(wide', n)) ==
            Ok(if p.doubleZero(p.intDouble(n)) then Null else Double(p.doubles(Div, p.intDouble(m), p.intDouble(n))))
  {
    hide Cast, Call, Calculate;
  }

  // ---------- truth values ----------

  /** False comes before true. */
  function BoolExpected(op: TypedOp, x: bool, y: bool): bool
    requires IsRelation(op) || op in {MIN, MAX}
  {
    match op
    case EQ => x == y
    case NE => x != y
    case LT => !x && y
    case LE => !x || y
    case GT => x && !y
    case GE => x || !y
    case MIN => x && y
    case _ => x || y
  }

  lemma BoolEntries(p: Prims, op: TypedOp, x: bool, y: bool)
    requires IsRelation(op) || op in {MIN, MAX}
    ensures Applied(p, op, BOOL, Bool(x), Bool(y)) == Ok(Bool(BoolExpected(op, x, y)))
  {
    hide Applied, TableEntry;
    TypedEntriesExist(op, BOOL);
    EntryCalculates(p, op, BOOL, Bool(x), Bool(y));
  }

  // ---------- strings ----------

  /** The order of strings: a proper prefix comes first, and otherwise the first byte that differs
      decides. */
  predicate Before(x: seq<byte>, y: seq<byte>) {
    || (|x| < |y| && y[..|x|] == x)
    || exists k :: 0 <= k < |x| && k < |y| && x[..k] == y[..k] && x[k] < y[k]
  }

  lemma BeforeEmpty(x: seq<byte>, y: seq<byte>)
    requires x == [] || y == []
    ensures Before(x, y) <==> x == [] && y != []
  {
    if x == [] && y != [] { assert y[..0] == x; }
  }

  lemma BeforeTails(x: seq<byte>, y: seq<byte>)
    requires x != [] && y != [] && x[0] == y[0]
    ensures Before(x, y) <==> Before(x[1..], y[1..])
  {
    var s, t := x[1..], y[1..];
    assert x == [x[0]] + s && y == [y[0]] + t;
    if |x| < |y| && y[..|x|] == x {
      assert t[..|s|] == y[..|x|][1..] == s;
    }
    if |s| < |t| && t[..|s|] == s {
      assert y[..|x|] == [y[0]] + t[..|s|] == x;
    }
    if k :| 0 <= k < |x| && k < |y| && x[..k] == y[..k] && x[k] < y[k] {
      assert k > 0 && s[..k - 1] == x[..k][1..] == y[..k][1..] == t[..k - 1] && s[k - 1] < t[k - 1];
    }
    if k :| 0 <= k < |s| && k < |t| && s[..k] == t[..k] && s[k] < t[k] {
      assert x[..k + 1] == [x[0]] + s[..k] == y[..k + 1] && x[k + 1] < y[k + 1];
    }
  }

  lemma SameHead(x: seq<byte>, y: seq<byte>, k: nat)
    requires 0 < k <= |x| && k <= |y|
    ensures x[..k] == y[..k] ==> x[0] == y[0]
  {
    assert x[..k][0] == x[0] && y[..k][0] == y[0];
  }

  lemma BeforeHeads(x: seq<byte>, y: seq<byte>)
    requires x != [] && y != [] && x[0] != y[0]
    ensures Before(x, y) <==> x[0] < y[0]
  {
    forall k | 0 < k <= |x| && k <= |y|
      ensures x[..k] != y[..k]
    {
      SameHead(x, y, k);
    }
    assert x[..|x|] == x && x[..0] == y[..0];
  }

  /** The comparison of the code is that order. */
  lemma {:induction false} CompareIsOrder(x: seq<byte>, y: seq<byte>)
    ensures CompareBytes(x, y) < 0 <==> Before(x, y)
    ensures CompareBytes(x, y) > 0 <==> Before(y, x)
    ensures CompareBytes(x, y) == 0 <==> x == y
  {
    hide Before;
    BytesEqual(x, y);
    if x == [] || y == [] {
      BeforeEmpty(x, y);
      BeforeEmpty(y, x);
    } else if x[0] != y[0] {
      BeforeHeads(x, y);
      BeforeHeads(y, x);
    } else {
      BeforeTails(x, y);
      BeforeTails(y, x);
      CompareIsOrder(x[1..], y[1..]);
    }
  }

  /** SUB of strings is concatenation too, as in the table. */
  function StringExpected(op: TypedOp, x: seq<byte>, y: seq<byte>): Operand
    requires IsRelation(op) || op in {MIN, MAX, ADD, SUB}
  {
    match op
    case EQ => Bool(x == y)
    case NE => Bool(x != y)
    case LT => Bool(Before(x, y))
    case LE => Bool(Before(x, y) || x == y)
    case GT => Bool(Before(y, x))
    case GE => Bool(Before(y, x) || x == y)
    case MIN => String(if Before(y, x) then y else x)
    case MAX => String(if Before(x, y) then y else x)
    case _ => String(x + y)
  }

  lemma StringEntries(p: Prims, op: TypedOp, x: seq<byte>, y: seq<byte>)
    requires IsRelation(op) || op in {MIN, MAX, ADD, SUB}
    ensures Applied(p, op, STRING, String(x), String(y)) == Ok(StringExpected(op, x, y))
  {
    hide Applied, TableEntry, CompareBytes, Before;
    CompareIsOrder(x, y);
    TypedEntriesExist(op, STRING);
    EntryCalculates(p, op, STRING, String(x), String(y));
  }

  // ---------- casts ----------

  lemma CastsExist(check: bool, dst: Type, src: Type)
    ensures CastEntry(check, dst, src).Some? <==>
            && dst != src && dst in {INT32, INT64, BOOL, FLOAT, DOUBLE, DECIMAL, STRING}
            && src in (if dst.BOOL? then {INT32, INT64, FLOAT, DOUBLE, DECIMAL}
                       else {INT32, INT64, BOOL, FLOAT, DOUBLE, DECIMAL, STRING})
  {}

  predicate IsWhole(t: Type) { t in {INT32, INT64, BOOL} }

  function CastTo(p: Prims, check: bool, dst: Type, src: Type, v: Operand): Result<Operand>
    requires CastEntry(check, dst, src).Some?
  {
    Apply(p, CastEntry(check, dst, src).value, [v], None)
  }

  /** Casts among integers and truth values keep the number: widening exactly, a truth value as 0 or 1;
      and a number is true when it is not 0. */
  lemma WholeCasts(p: Prims, check: bool, x: int32, y: int64, b: bool)
    ensures CastTo(p, check, INT64, INT32, Int32(x)) == Ok(Int64(x))
    ensures CastTo(p, check, INT32, BOOL, Bool(b)) == Ok(Int32(if b then 1 else 0))
    ensures CastTo(p, check, INT64, BOOL, Bool(b)) == Ok(Int64(if b then 1 else 0))
    ensures CastTo(p, check, BOOL, INT32, Int32(x)) == Ok(Bool(x != 0))
    ensures CastTo(p, check, BOOL, INT64, Int64(y)) == Ok(Bool(y != 0))
  {
    hide Calculate, DivMod, Call;
  }

  /** A 64-bit integer that fits 32 bits is kept. Another one is refused by the checked cast, and by the
      unchecked one made the one 32-bit integer congruent to it modulo 2^32. */
  lemma NarrowingCast(p: Prims, check: bool, y: int64)
    ensures FitsInt32(y) ==> CastTo(p, check, INT32, INT64, Int64(y)) == Ok(Int32(y))
    ensures !FitsInt32(y) && check ==> CastTo(p, check, INT32, INT64, Int64(y)) == Err(ExceedsLimits)
    ensures !FitsInt32(y) && !check ==>
              forall i: int32 :: CastTo(p, check, INT32, INT64, Int64(y)) == Ok(Int32(i)) <==> SameLowPart(y, i)
  {
    hide Calculate, DivMod, Call;
    LowPart(y);
    forall i: int32 | SameLowPart(y, i)
      ensures i == Wrap32(y)
    {
      OneLowPart(y, i, Wrap32(y));
    }
  }

  predicate SameLowPart(n: int, i: int32) { (n - i) % 0x1_0000_0000 == 0 }

  lemma LowPart(n: int)
    ensures SameLowPart(n, Wrap32(n))
  {}

  lemma OneLowPart(n: int, i: int32, j: int32)
    requires SameLowPart(n, i) && SameLowPart(n, j)
    ensures i == j
  {
    assert (i - j) % 0x1_0000_0000 == 0;
  }

  /** A cast that the library makes: what it returns, or that it throws. */
  function LibraryCast(p: Prims, check: bool, dst: Type, v: Operand): Result<Operand> {
    match dst
    case INT32 => (match FromLibrary(p.toInt32(check, v)) case Ok(x) => Ok(Int32(x)) case Err(f) => Err(f))
    case INT64 => (match FromLibrary(p.toInt64(check, v)) case Ok(x) => Ok(Int64(x)) case Err(f) => Err(f))
    case BOOL => (match FromLibrary(p.toBool(v)) case Ok(x) => Ok(Bool(x)) case Err(f) => Err(f))
    case FLOAT => (match FromLibrary(p.toFloat(v)) case Ok(x) => Ok(Float(x)) case Err(f) => Err(f))
    case DOUBLE => (match FromLibrary(p.toDouble(v)) case Ok(x) => Ok(Double(x)) case Err(f) => Err(f))
    case DECIMAL => (match FromLibrary(p.toDecimal(v)) case Ok(x) => Ok(Operand.Decimal(x)) case Err(f) => Err(f))
    case _ => Ok(String(p.toStr(v)))
  }

  lemma OtherCasts(p: Prims, check: bool, dst: Type, src: Type, v: Operand)
    requires CastEntry(check, dst, src).Some? && !(IsWhole(dst) && IsWhole(src))
    requires v != Null && Conforms(v, src.Variant())
    ensures Apply(p, CastEntry(check, dst, src).value, [v], None) == LibraryCast(p, check, dst, v)
  {
    hide Calculate, DivMod, Call;
  }

  // ---------- truth tests ----------

  /** IS_NULL tells NULL from all values. IS_TRUE and IS_FALSE of NULL are both false. */
  lemma TestsOfNull(p: Prims, t: Type, v: Operand)
    ensures Applied(p, IS_NULL, t, v, v) == Ok(Bool(v == Null))
    ensures Applied(p, IS_TRUE, t, Null, Null) == Applied(p, IS_FALSE, t, Null, Null) == Ok(Bool(false))
  {}

  /** A number is true when it is not 0 and false when it is; a string is never true and always false;
      a decimal is tested the same way by both. */
  lemma TruthTests(p: Prims, t: Type, v: Operand)
    requires v != Null && Conforms(v, t.Variant())
    ensures var yes, no := Applied(p, IS_TRUE, t, v, v), Applied(p, IS_FALSE, t, v, v);
      match v
      case Int32(x) => yes == Ok(Bool(x != 0)) && no == Ok(Bool(x == 0))
      case Int64(x) => yes == Ok(Bool(x != 0)) && no == Ok(Bool(x == 0))
      case Bool(b) => yes == Ok(Bool(b)) && no == Ok(Bool(!b))
      case Float(x) => yes == Ok(Bool(p.floatTrue(x))) && no == Ok(Bool(!p.floatTrue(x)))
      case Double(x) => yes == Ok(Bool(p.doubleTrue(x))) && no == Ok(Bool(!p.doubleTrue(x)))
      case Decimal(x) => yes == no == Ok(Bool(p.decimalTrue(x)))
      case String(_) => yes == Ok(Bool(false)) && no == Ok(Bool(true))
      case Null => false
  {
    hide Calculate, DivMod, Cast, Call;
  }

  // ---------- numbered functions ----------

  const ONE_DOUBLE := {0x01, 0x02, 0x07, 0x08, 0x09, 0x0A, 0x0B, 0x0C, 0x0D, 0x0E, 0x0F, 0x10, 0x11}
  const ONE_STRING := {0x22, 0x23, 0x26, 0x28, 0x2A}
  const STRING_AND_NUMBER := {0x24, 0x25, 0x2D, 0x2F}
  const STRING_AND_TWO_NUMBERS := {0x2C, 0x2E}

  /** The functions there are, and what they are given; 0x21 joins two strings, and 0x30 finds one in
      the other. */
  lemma FunctionsExist(code: byte)
    ensures FunSignature(code) ==
            if code in ONE_DOUBLE then Some(Signature([VDouble], VDouble))
            else if code in ONE_STRING then Some(Signature([VString], VString))
            else if code in STRING_AND_NUMBER then Some(Signature([VString, VInt32], VString))
            else if code in STRING_AND_TWO_NUMBERS then Some(Signature([VString, VInt32, VInt32], VString))
            else if code == 0x21 then Some(Signature([VString, VString], VString))
            else if code == 0x30 then Some(Signature([VString, VString], VInt32))
            else None
  {}

  /** Each is the library's function of that number, given all its arguments in their order. */
  lemma FunctionEntries(p: Prims, code: byte, args: seq<Operand>)
    requires FunSignature(code).Some? && Null !in args && AllConform(args, FunSignature(code).value.params)
    ensures var r := Apply(p, FunOp(code, FunSignature(code).value), args, None);
      if code in ONE_DOUBLE then |args| == 1 && args[0].Double? && r == Ok(Double(p.doubleFun(code, args[0].d)))
      else if code == 0x30 then
        match FromLibrary(p.intFun(code, args)) case Ok(n) => r == Ok(Int32(n)) case Err(f) => r == Err(f)
      else
        match FromLibrary(p.stringFun(code, args)) case Ok(s) => r == Ok(String(s)) case Err(f) => r == Err(f)
  {
    FunctionsExist(code);
    hide Calculate, DivMod, Cast;
  }
}
