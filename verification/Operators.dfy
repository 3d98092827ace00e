/** The operators of the stack machine: what one operator does to an operand stack, and the run of
    an operator vector. Also the lookup tables that say which operators exist. */
module Operators {
  import opened Options
  import opened Operands

  datatype Test = IsNull | IsTrue | IsFalse

  /** The operator objects. */
  datatype Operator =
    | NullOp(t: Type)
    | ConstOp(t: Type, value: Operand)
    | ConstBoolOp(v: bool)
    | IndexedVarOp(t: Type, index: int)
    | UnaryOp(kind: Calc, t: Type)
    | BinaryOp(kind: Calc, t: Type)
    | BinaryV2Op(kind: Calc, t: Type)
    | SpecialOp(test: Test, t: Type)
    | CastOp(check: bool, dst: Type, src: Type)
    | FunOp(code: byte, signature: Signature)
    | NotOp
    | AndOp
    | OrOp

  /** Parameter and result variants of a numbered function. */
  datatype Signature = Signature(params: seq<Variant>, result: Variant)

  // ---------- one operator ----------

  function Top(s: seq<Operand>): Result<Operand> {
    if s == [] then Err(StackUnderflow) else Ok(s[|s| - 1])
  }

  /** A calculation on non-null arguments, or NULL. */
  function Unary(p: Prims, c: Calc, t: Type, v: Operand): Result<Operand> {
    if v.Null? then Ok(Null)
    else if !Conforms(v, t.Variant()) then Err(WrongVariant)
    else Calculate(p, c, v, v)
  }

  function Binary(p: Prims, c: Calc, t: Type, v0: Operand, v1: Operand): Result<Operand> {
    if v0.Null? || v1.Null? then Ok(Null)
    else if !Conforms(v0, t.Variant()) || !Conforms(v1, t.Variant()) then Err(WrongVariant)
    else Calculate(p, c, v0, v1)
  }

  predicate IsInteger(v: Operand) { v.Int32? || v.Int64? }

  function AsDouble(p: Prims, v: Operand): Operand
    requires IsInteger(v)
  {
    Double(p.intDouble(if v.Int32? then v.i else v.l))
  }

  /** Division and remainder. DIV<DOUBLE> converts two integer operands first. */
  function BinaryV2(p: Prims, c: Calc, t: Type, v0: Operand, v1: Operand): Result<Operand> {
    if v0.Null? || v1.Null? then Ok(Null)
    else if t.DOUBLE? && IsInteger(v0) && IsInteger(v1) then DivMod(p, c, AsDouble(p, v0), AsDouble(p, v1))
    else if !Conforms(v0, t.Variant()) || !Conforms(v1, t.Variant()) then Err(WrongVariant)
    else DivMod(p, c, v0, v1)
  }

  function Special(p: Prims, test: Test, t: Type, v: Operand): Result<Operand> {
    match test
    case IsNull => Ok(Bool(v.Null?))
    case IsTrue =>
      if v.Null? then Ok(Bool(false))
      else if t.STRING? then Ok(Bool(false))
      else if Conforms(v, t.Variant()) then Ok(Bool(Truthy(p, v))) else Err(WrongVariant)
    case IsFalse =>
      if v.Null? then Ok(Bool(false))
      else if t.STRING? then Ok(Bool(true))
      else if Conforms(v, t.Variant()) then Ok(Bool(Falsy(p, v))) else Err(WrongVariant)
  }

  function CastValue(p: Prims, check: bool, dst: Type, src: Type, v: Operand): Result<Operand> {
    if v.Null? then Ok(Null)
    else if !Conforms(v, src.Variant()) then Err(WrongVariant)
    else Cast(p, check, dst.Variant(), v)
  }

  predicate AllConform(vs: seq<Operand>, ts: seq<Variant>) {
    |vs| == |ts| && forall i | 0 <= i < |vs| :: Conforms(vs[i], ts[i])
  }

  function Call(p: Prims, code: byte, sig: Signature, args: seq<Operand>): Result<Operand> {
    if Null in args then Ok(Null)
    else if !AllConform(args, sig.params) then Err(WrongVariant)
    else match sig.result
      case VDouble => if |args| == 1 && args[0].Double? then Ok(Double(p.doubleFun(code, args[0].d)))
        else Err(WrongVariant)
      case VInt32 => var n :- FromLibrary(p.intFun(code, args)); Ok(Int32(n))
      case _ => var s :- FromLibrary(p.stringFun(code, args)); Ok(String(s))
  }

  function NotValue(v: Operand): Result<Operand> {
    match v case Null => Ok(Null) case Bool(b) => Ok(Bool(!b)) case _ => Err(WrongVariant)
  }

  /** The code's AND: the second operand is looked at only when the first does not decide. */
  function AndValue(v0: Operand, v1: Operand): Result<Operand> {
    match v0
    case Bool(b) =>
      if !b then Ok(Bool(false))
      else (match v1 case Null => Ok(Null) case Bool(c) => Ok(Bool(c)) case _ => Err(WrongVariant))
    case Null =>
      (match v1
       case Null => Ok(Null)
       case Bool(c) => Ok(if c then Null else Bool(false))
       case _ => Err(WrongVariant))
    case _ => Err(WrongVariant)
  }

  function OrValue(v0: Operand, v1: Operand): Result<Operand> {
    match v0
    case Bool(b) =>
      if b then Ok(Bool(true))
      else (match v1 case Null => Ok(Null) case Bool(c) => Ok(Bool(c)) case _ => Err(WrongVariant))
    case Null =>
      (match v1
       case Null => Ok(Null)
       case Bool(c) => Ok(if c then Bool(true) else Null)
       case _ => Err(WrongVariant))
    case _ => Err(WrongVariant)
  }

  /** How many operands an operator pops. */
  function Arity(op: Operator): nat {
    match op
    case NullOp(_) => 0 case ConstOp(_, _) => 0 case ConstBoolOp(_) => 0 case IndexedVarOp(_, _) => 0
    case UnaryOp(_, _) => 1 case SpecialOp(_, _) => 1 case CastOp(_, _, _) => 1 case NotOp => 1
    case BinaryOp(_, _) => 2 case BinaryV2Op(_, _) => 2 case AndOp => 2 case OrOp => 2
    case FunOp(_, sig) => |sig.params|
  }

  function LoadVar(tuple: Option<Tuple>, index: int): Result<Operand> {
    if tuple.None? then Err(NoTuple)
    else if 0 <= index < |tuple.value| then Ok(tuple.value[index])
    else Err(BadIndex)
  }

  /** The value an operator pushes, given the operands it popped, first one first. */
  function Apply(p: Prims, op: Operator, args: seq<Operand>, tuple: Option<Tuple>): Result<Operand>
    requires |args| == Arity(op)
  {
    match op
    case NullOp(_) => Ok(Null)
    case ConstOp(_, v) => Ok(v)
    case ConstBoolOp(b) => Ok(Bool(b))
    case IndexedVarOp(_, index) => LoadVar(tuple, index)
    case UnaryOp(c, t) => Unary(p, c, t, args[0])
    case BinaryOp(c, t) => Binary(p, c, t, args[0], args[1])
    case BinaryV2Op(c, t) => BinaryV2(p, c, t, args[0], args[1])
    case SpecialOp(test, t) => Special(p, test, t, args[0])
    case CastOp(check, dst, src) => CastValue(p, check, dst, src, args[0])
    case FunOp(code, sig) => Call(p, code, sig, args)
    case NotOp => NotValue(args[0])
    case AndOp => AndValue(args[0], args[1])
    case OrOp => OrValue(args[0], args[1])
  }

  /** One operator on a stack whose top is its last element. */
  function Step(p: Prims, op: Operator, s: seq<Operand>, tuple: Option<Tuple>): Result<seq<Operand>> {
    var n := Arity(op);
    if |s| < n then Err(StackUnderflow)
    else
      var v :- Apply(p, op, s[|s| - n..], tuple);
      Ok(s[..|s| - n] + [v])
  }

  /** A whole operator vector. */
  function Exec(p: Prims, ops: seq<Operator>, s: seq<Operand>, tuple: Option<Tuple>): Result<seq<Operand>> {
    if ops == [] then Ok(s)
    else
      var s' :- Step(p, ops[0], s, tuple);
      Exec(p, ops[1..], s', tuple)
  }

  lemma {:induction false} ExecAppend(p: Prims, a: seq<Operator>, b: seq<Operator>, s: seq<Operand>,
          tuple: Option<Tuple>)
    ensures Exec(p, a + b, s, tuple) ==
            var r := Exec(p, a, s, tuple); if r.Err? then r else Exec(p, b, r.value, tuple)
  {
    if a == [] {
      assert a + b == b;
    } else {
      assert (a + b)[0] == a[0] && (a + b)[1..] == a[1..] + b;
      var r := Step(p, a[0], s, tuple);
      if r.Ok? {
        ExecAppend(p, a[1..], b, r.value, tuple);
      }
    }
  }

  // ---------- the operator tables ----------

  predicate Numeric(t: Type) { t.INT32? || t.INT64? || t.FLOAT? || t.DOUBLE? || t.DECIMAL? }

  predicate Temporal(t: Type) { t.DATE? || t.TIMESTAMP? }

  /** Opcodes that are followed by a type byte. */
  datatype TypedOp =
    | POS | NEG | ADD | SUB | MUL | DIV | MOD
    | EQ | GE | GT | LE | LT | NE
    | IS_NULL | IS_TRUE | IS_FALSE
    | MIN | MAX | ABS | ABS_C

  /** The entry of an operator table, if the type has one. SUB<STRING> is concatenation, as in the
      table. */
  function TableEntry(op: TypedOp, t: Type): Option<Operator> {
    match op
    case POS => if Numeric(t) then Some(UnaryOp(Pos, t)) else None
    case NEG => if Numeric(t) then Some(UnaryOp(Neg, t)) else None
    case ABS => if Numeric(t) then Some(UnaryOp(Abs, t)) else None
    case ABS_C => if Numeric(t) then Some(UnaryOp(AbsCheck, t)) else None
    case ADD => if Numeric(t) || t.STRING? then Some(BinaryOp(Add, t)) else None
    case SUB => if Numeric(t) then Some(BinaryOp(Sub, t)) else if t.STRING? then Some(BinaryOp(Add, t)) else None
    case MUL => if Numeric(t) then Some(BinaryOp(Mul, t)) else None
    case DIV => if Numeric(t) then Some(BinaryV2Op(Div, t)) else None
    case MOD => if t.INT32? || t.INT64? then Some(BinaryV2Op(Mod, t)) else None
    case MIN => if Temporal(t) then None else Some(BinaryOp(Min, t))
    case MAX => if Temporal(t) then None else Some(BinaryOp(Max, t))
    case EQ => Some(BinaryOp(Eq, t))
    case GE => Some(BinaryOp(Ge, t))
    case GT => Some(BinaryOp(Gt, t))
    case LE => Some(BinaryOp(Le, t))
    case LT => Some(BinaryOp(Lt, t))
    case NE => Some(BinaryOp(Ne, t))
    case IS_NULL => Some(SpecialOp(IsNull, t))
    case IS_TRUE => Some(SpecialOp(IsTrue, t))
    case IS_FALSE => Some(SpecialOp(IsFalse, t))
  }

  /** The entry of a cast table: every pair of two different non-temporal types, except a boolean
      made from a string. */
  function CastEntry(check: bool, dst: Type, src: Type): Option<Operator> {
    if dst == src || Temporal(dst) || Temporal(src) || (dst.BOOL? && src.STRING?) then None
    else Some(CastOp(check, dst, src))
  }

  /** The numbered functions. */
  function FunSignature(code: byte): Option<Signature> {
    if code in {0x01, 0x02} || 0x07 <= code <= 0x11 then Some(Signature([VDouble], VDouble))
    else if code == 0x21 then Some(Signature([VString, VString], VString))
    else if code in {0x22, 0x23, 0x26, 0x28, 0x2A} then Some(Signature([VString], VString))
    else if code in {0x24, 0x25, 0x2D, 0x2F} then Some(Signature([VString, VInt32], VString))
    else if code in {0x2C, 0x2E} then Some(Signature([VString, VInt32, VInt32], VString))
    else if code == 0x30 then Some(Signature([VString, VString], VInt32))
    else None
  }
}
