/** What the primitive calculations promise, and that every table entry is well typed. */
module Calculations {
  import opened Options
  import opened Operands
  import opened Operators
  import opened Expressions

  // ---------- integers ----------

  function Size(x: int): nat { if x < 0 then -x else x }

  /** Division truncated toward zero. */
  function TruncatedDiv(x: int, y: int): int
    requires y != 0
  {
    var q := Size(x) / Size(y);
    if (x < 0) == (y < 0) then q else -q
  }

  /** The remainder is what truncated division leaves: smaller than the divisor, with the sign of
      the dividend. */
  lemma RemainderIsTruncated(x: int, y: int)
    requires y != 0
    ensures x == TruncatedDiv(x, y) * y + TruncatedMod(x, y)
    ensures Size(TruncatedMod(x, y)) < Size(y) && (TruncatedMod(x, y) > 0 ==> x > 0) &&
            (TruncatedMod(x, y) < 0 ==> x < 0)
  {}

  // ---------- strings ----------

  /** The byte order is total: zero exactly on equal strings, antisymmetric, and transitive. */
  lemma {:induction false} BytesEqual(x: seq<byte>, y: seq<byte>)
    ensures CompareBytes(x, y) == 0 <==> x == y
  {
    if x != [] && y != [] && x[0] == y[0] {
      BytesEqual(x[1..], y[1..]);
      assert x == [x[0]] + x[1..] && y == [y[0]] + y[1..];
    }
  }

  lemma {:induction false} BytesAntisymmetric(x: seq<byte>, y: seq<byte>)
    ensures CompareBytes(x, y) == -CompareBytes(y, x)
  {
    if x != [] && y != [] && x[0] == y[0] { BytesAntisymmetric(x[1..], y[1..]); }
  }

  lemma {:induction false} BytesTransitive(x: seq<byte>, y: seq<byte>, z: seq<byte>)
    requires CompareBytes(x, y) <= 0 && CompareBytes(y, z) <= 0
    ensures CompareBytes(x, z) <= 0
  {
    if x != [] && y != [] && z != [] && x[0] == y[0] == z[0] { BytesTransitive(x[1..], y[1..], z[1..]); }
  }

  /** A prefix comes before, and otherwise the first difference decides. */
  lemma {:induction false} FirstDifferenceDecides(common: seq<byte>, a: byte, b: byte, x: seq<byte>, y: seq<byte>)
    requires a < b
    ensures CompareBytes(common + [a] + x, common + [b] + y) < 0
    ensures CompareBytes(common, common + [b] + y) < 0
  {
    if common != [] {
      FirstDifferenceDecides(common[1..], a, b, x, y);
      var s, t := common + [a] + x, common + [b] + y;
      assert s[1..] == common[1..] + [a] + x && t[1..] == common[1..] + [b] + y;
    }
  }

  /** MIN and MAX of strings: one of the two, and not above, or not below, either. */
  lemma StringExtremes(p: Prims, x: seq<byte>, y: seq<byte>)
    ensures var lo, hi := Calculate(p, Min, String(x), String(y)), Calculate(p, Max, String(x), String(y));
      && lo in {Ok(String(x)), Ok(String(y))} && hi in {Ok(String(x)), Ok(String(y))}
      && CompareBytes(lo.value.s, x) <= 0 && CompareBytes(lo.value.s, y) <= 0
      && CompareBytes(hi.value.s, x) >= 0 && CompareBytes(hi.value.s, y) >= 0
  {
    hide Calculate, CompareBytes;
    StringCalculations(p, x, y);
    BytesEqual(x, x);
    BytesEqual(y, y);
    BytesAntisymmetric(x, y);
  }

  lemma StringCalculations(p: Prims, x: seq<byte>, y: seq<byte>)
    ensures Calculate(p, Min, String(x), String(y)) == Ok(String(if CompareBytes(x, y) > 0 then y else x))
    ensures Calculate(p, Max, String(x), String(y)) == Ok(String(if CompareBytes(x, y) < 0 then y else x))
  {}

  // ---------- tables ----------

  /** The result variant of a table entry. */
  function EntryResult(op: TypedOp, t: Type): Variant {
    match op
    case EQ => VBool case GE => VBool case GT => VBool case LE => VBool case LT => VBool case NE => VBool
    case IS_NULL => VBool case IS_TRUE => VBool case IS_FALSE => VBool
    case DIV => if t.INT32? || t.INT64? then VDouble else t.Variant()
    case _ => t.Variant()
  }

  predicate IsTest(op: TypedOp) { op in {IS_NULL, IS_TRUE, IS_FALSE} }
  predicate IsUnary(op: TypedOp) { op in {POS, NEG, ABS, ABS_C} }

  /** Every operator a typed opcode stands for is accepted by the checker on operands of its type. */
  lemma EntriesCheck(op: TypedOp, t: Type, schema: seq<Variant>)
    requires TableEntry(op, t).Some?
    ensures var o, v := TableEntry(op, t).value, t.Variant();
      && Arity(o) in {1, 2}
      && OpType(o, if Arity(o) == 1 then [v] else [v, v], schema) == Some(EntryResult(op, t))
  {
    hide TableEntry, OpType;
    if IsTest(op) {
      TestsCheck(op, t, schema);
    } else if IsUnary(op) {
      UnaryCheck(op, t, schema);
    } else {
      BinaryCheck(op, t, schema);
    }
  }

  lemma TestsCheck(op: TypedOp, t: Type, schema: seq<Variant>)
    requires IsTest(op)
    ensures var o := TableEntry(op, t);
      o.Some? && Arity(o.value) == 1 && OpType(o.value, [t.Variant()], schema) == Some(EntryResult(op, t))
  {}

  lemma UnaryCheck(op: TypedOp, t: Type, schema: seq<Variant>)
    requires IsUnary(op) && TableEntry(op, t).Some?
    ensures var o := TableEntry(op, t).value;
      Arity(o) == 1 && OpType(o, [t.Variant()], schema) == Some(EntryResult(op, t))
  {}

  lemma BinaryCheck(op: TypedOp, t: Type, schema: seq<Variant>)
    requires !IsTest(op) && !IsUnary(op) && TableEntry(op, t).Some?
    ensures var o, v := TableEntry(op, t).value, t.Variant();
      Arity(o) == 2 && OpType(o, [v, v], schema) == Some(EntryResult(op, t))
  {}

  /** So is every cast and every numbered function. */
  lemma CastsAndFunctionsCheck(check: bool, dst: Type, src: Type, code: byte, schema: seq<Variant>)
    ensures CastEntry(check, dst, src).Some? ==>
              OpType(CastEntry(check, dst, src).value, [src.Variant()], schema) == Some(dst.Variant())
    ensures FunSignature(code).Some? ==>
              var sig := FunSignature(code).value; OpType(FunOp(code, sig), sig.params, schema) == Some(sig.result)
  {
    if FunSignature(code).Some? {
      var sig := FunSignature(code).value;
      assert sig.result.VDouble? ==> sig.params == [VDouble];
    }
  }

  /** So are NULLs, constants of their type, columns of theirs, NOT, AND and OR of truth values, and
      DIV<DOUBLE> of integers. */
  lemma LeavesAndLogicCheck(t: Type, v: Operand, b: bool, index: int, m: Variant, n: Variant, schema: seq<Variant>)
    ensures OpType(NullOp(t), [], schema) == Some(t.Variant()) && OpType(ConstBoolOp(b), [], schema) == Some(VBool)
    ensures Conforms(v, t.Variant()) ==> OpType(ConstOp(t, v), [], schema) == Some(t.Variant())
    ensures OpType(IndexedVarOp(t, index), [], schema).Some? <==> 0 <= index < |schema| && schema[index] == t.Variant()
    ensures OpType(NotOp, [VBool], schema) == Some(VBool)
    ensures OpType(AndOp, [VBool, VBool], schema) == OpType(OrOp, [VBool, VBool], schema) == Some(VBool)
    ensures m in {VInt32, VInt64} && n in {VInt32, VInt64} ==>
              OpType(BinaryV2Op(Div, DOUBLE), [m, n], schema) == Some(VDouble)
  {}

  // ---------- what the integer entries calculate ----------

  /** What a typed opcode does to two integers, or to the first one, by name. Overflow of 64-bit sums,
      differences and products is reported, and so is that of ABS_C at either width; any other
      overflow is undefined. */
  function IntegerExpected(p: Prims, wide: bool, op: TypedOp, x: int, y: int): Result<Operand>
    requires !IsTest(op) && FitsWidth(wide, x) && FitsWidth(wide, y)
  {
    var overflow := if wide then ExceedsLimits else Undefined;
    match op
    case POS => Exact(wide, x, Undefined)
    case NEG => Exact(wide, -x, Undefined)
    case ABS => Exact(wide, Size(x), Undefined)
    case ABS_C => Exact(wide, Size(x), ExceedsLimits)
    case ADD => Exact(wide, x + y, overflow)
    case SUB => Exact(wide, x - y, overflow)
    case MUL => Exact(wide, x * y, overflow)
    case EQ => Ok(Bool(x == y))
    case NE => Ok(Bool(x != y))
    case LT => Ok(Bool(x < y))
    case LE => Ok(Bool(!(y < x)))
    case GT => Ok(Bool(y < x))
    case GE => Ok(Bool(!(x < y)))
    case MIN => Exact(wide, if x <= y then x else y, Undefined)
    case MAX => Exact(wide, if x <= y then y else x, Undefined)
    case DIV => if y == 0 then Ok(Null) else Ok(Double(p.doubles(Div, p.intDouble(x), p.intDouble(y))))
    case _ => IntegerRemainder(wide, x, y)
  }

  /** NULL for a zero divisor; for the least integer and -1 the processor traps. */
  function IntegerRemainder(wide: bool, x: int, y: int): Result<Operand> {
    if y == 0 then Ok(Null)
    else if y == -1 && !FitsWidth(wide, -x) then Err(Undefined)
    else Exact(wide, x - TruncatedDiv(x, y) * y, Undefined)
  }

  predicate HeldAsInteger(t: Type) { t.Variant() in {VInt32, VInt64} }

  function Arguments(wide: bool, op: TypedOp, x: int, y: int): seq<Operand>
    requires FitsWidth(wide, x) && FitsWidth(wide, y)
  {
    if IsUnary(op) then [Integer(wide, x)] else [Integer(wide, x), Integer(wide, y)]
  }

  lemma UnaryApplied(p: Prims, c: Calc, t: Type, x: int)
    requires HeldAsInteger(t) && FitsWidth(t.Variant().VInt64?, x)
    ensures var v := Integer(t.Variant().VInt64?, x);
      Apply(p, UnaryOp(c, t), [v], None) == Calculate(p, c, v, v)
  {
    hide Calculate;
  }

  lemma BinaryApplied(p: Prims, c: Calc, t: Type, x: int, y: int)
    requires HeldAsInteger(t) && FitsWidth(t.Variant().VInt64?, x) && FitsWidth(t.Variant().VInt64?, y)
    ensures var v, w := Integer(t.Variant().VInt64?, x), Integer(t.Variant().VInt64?, y);
      && Apply(p, BinaryOp(c, t), [v, w], None) == Calculate(p, c, v, w)
      && Apply(p, BinaryV2Op(c, t), [v, w], None) == DivMod(p, c, v, w)
  {
    hide Calculate, DivMod;
  }

  lemma Calculated(p: Prims, c: Calc, wide: bool, x: int, y: int)
    requires FitsWidth(wide, x) && FitsWidth(wide, y)
    ensures Calculate(p, c, Integer(wide, x), Integer(wide, y)) ==
            if c.Relational() then Ok(Bool(Compare(c, x, y)))
            else
              Exact(wide, Arith(c, x, y),
                    if c.AbsCheck? || (wide && c in {Add, Sub, Mul}) then ExceedsLimits else Undefined)
  {
    hide Compare, Arith;
  }

  lemma Remainder(x: int, y: int)
    requires y != 0
    ensures x - TruncatedDiv(x, y) * y == TruncatedMod(x, y)
  {
    hide TruncatedDiv, TruncatedMod;
    RemainderIsTruncated(x, y);
  }

  lemma Divided(p: Prims, wide: bool, x: int, y: int)
    requires FitsWidth(wide, x) && FitsWidth(wide, y)
    ensures DivMod(p, Div, Integer(wide, x), Integer(wide, y)) ==
            if y == 0 then Ok(Null) else Ok(Double(p.doubles(Div, p.intDouble(x), p.intDouble(y))))
    ensures DivMod(p, Mod, Integer(wide, x), Integer(wide, y)) == IntegerRemainder(wide, x, y)
  {
    hide TruncatedMod, TruncatedDiv;
    if y != 0 {
      Remainder(x, y);
      if wide { ModFits64(x, y); } else { ModFits32(x, y); }
    }
  }

  /** The table entry for an integer type calculates what its name says, first operand first. */
  predicate EntryHolds(p: Prims, op: TypedOp, t: Type, x: int, y: int)
    requires !IsTest(op) && TableEntry(op, t).Some?
    requires FitsWidth(t.Variant().VInt64?, x) && FitsWidth(t.Variant().VInt64?, y)
  {
    var o, wide := TableEntry(op, t).value, t.Variant().VInt64?;
    && Arity(o) == |Arguments(wide, op, x, y)|
    && Apply(p, o, Arguments(wide, op, x, y), None) == IntegerExpected(p, wide, op, x, y)
  }

  lemma UnaryEntries(p: Prims, op: TypedOp, t: Type, x: int, y: int)
    requires IsUnary(op) && HeldAsInteger(t) && TableEntry(op, t).Some?
    requires FitsWidth(t.Variant().VInt64?, x) && FitsWidth(t.Variant().VInt64?, y)
    ensures EntryHolds(p, op, t, x, y)
  {
    hide Apply, Calculate, DivMod, IntegerRemainder, Integer, Exact, FitsWidth;
    var c := TableEntry(op, t).value.kind;
    UnaryApplied(p, c, t, x);
    Calculated(p, c, t.Variant().VInt64?, x, x);
  }

  lemma RelationEntries(p: Prims, op: TypedOp, t: Type, x: int, y: int)
    requires op in {EQ, GE, GT, LE, LT, NE} && HeldAsInteger(t) && TableEntry(op, t).Some?
    requires FitsWidth(t.Variant().VInt64?, x) && FitsWidth(t.Variant().VInt64?, y)
    ensures EntryHolds(p, op, t, x, y)
  {
    hide Apply, Calculate, DivMod, IntegerRemainder, Integer, Exact, FitsWidth;
    var c := TableEntry(op, t).value.kind;
    BinaryApplied(p, c, t, x, y);
    Calculated(p, c, t.Variant().VInt64?, x, y);
  }

  lemma ArithmeticEntries(p: Prims, op: TypedOp, t: Type, x: int, y: int)
    requires op in {ADD, SUB, MUL, MIN, MAX} && HeldAsInteger(t) && TableEntry(op, t).Some?
    requires FitsWidth(t.Variant().VInt64?, x) && FitsWidth(t.Variant().VInt64?, y)
    ensures EntryHolds(p, op, t, x, y)
  {
    hide Apply, Calculate, DivMod, IntegerRemainder, Integer, Exact, FitsWidth;
    var c := TableEntry(op, t).value.kind;
    BinaryApplied(p, c, t, x, y);
    Calculated(p, c, t.Variant().VInt64?, x, y);
  }

  lemma DivisionEntries(p: Prims, op: TypedOp, t: Type, x: int, y: int)
    requires op in {DIV, MOD} && HeldAsInteger(t) && TableEntry(op, t).Some?
    requires FitsWidth(t.Variant().VInt64?, x) && FitsWidth(t.Variant().VInt64?, y)
    ensures EntryHolds(p, op, t, x, y)
  {
    hide Apply, Calculate, DivMod, IntegerRemainder, Integer, Exact, FitsWidth;
    BinaryApplied(p, TableEntry(op, t).value.kind, t, x, y);
    Divided(p, t.Variant().VInt64?, x, y);
  }

  /** The table entries for integers of both widths, and for the dates and timestamps held as
      integers, calculate what their names say. */
  lemma IntegerEntries(p: Prims, op: TypedOp, t: Type, x: int, y: int)
    requires !IsTest(op) && HeldAsInteger(t) && TableEntry(op, t).Some?
    requires FitsWidth(t.Variant().VInt64?, x) && FitsWidth(t.Variant().VInt64?, y)
    ensures EntryHolds(p, op, t, x, y)
  {
    hide TableEntry, EntryHolds, FitsWidth;
    if IsUnary(op) {
      UnaryEntries(p, op, t, x, y);
    } else if op in {DIV, MOD} {
      DivisionEntries(p, op, t, x, y);
    } else if op in {EQ, GE, GT, LE, LT, NE} {
      RelationEntries(p, op, t, x, y);
    } else {
      ArithmeticEntries(p, op, t, x, y);
    }
  }
}
