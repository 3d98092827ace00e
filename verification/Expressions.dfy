/** Expression trees, their SQL meaning, a type checker for operator vectors, and the theorems that
    tie both to the stack machine. */
module Expressions {
  import opened Options
  import opened Operands
  import opened Operators

  // ---------- trees ----------

  /** A tree of operators. A cast from a type to itself has no operator. */
  datatype Expr =
    | Leaf(op: Operator)
    | One(op: Operator, e: Expr)
    | Two(op: Operator, e0: Expr, e1: Expr)
    | Three(op: Operator, e0: Expr, e1: Expr, e2: Expr)
    | SameCast(t: Type, e: Expr)
  {
    predicate WellFormed() {
      match this
      case Leaf(op) => Arity(op) == 0
      case One(op, e) => Arity(op) == 1 && e.WellFormed()
      case Two(op, e0, e1) => Arity(op) == 2 && e0.WellFormed() && e1.WellFormed()
      case Three(op, e0, e1, e2) => Arity(op) == 3 && e0.WellFormed() && e1.WellFormed() && e2.WellFormed()
      case SameCast(_, e) => e.WellFormed()
    }

    /** Postfix code. */
    function Compile(): seq<Operator> {
      match this
      case Leaf(op) => [op]
      case One(op, e) => e.Compile() + [op]
      case Two(op, e0, e1) => e0.Compile() + e1.Compile() + [op]
      case Three(op, e0, e1, e2) => e0.Compile() + e1.Compile() + e2.Compile() + [op]
      case SameCast(_, e) => e.Compile()
    }
  }

  // ---------- SQL meaning ----------

  /** Kleene's three truth values in their order. */
  datatype Truth = False3 | Unknown | True3 {
    function Rank(): int { match this case False3 => 0 case Unknown => 1 case True3 => 2 }
    function And(other: Truth): Truth { if Rank() <= other.Rank() then this else other }
    function Or(other: Truth): Truth { if Rank() <= other.Rank() then other else this }
    function Not(): Truth { match this case False3 => True3 case Unknown => Unknown case True3 => False3 }
    function Value(): Operand { match this case False3 => Bool(false) case Unknown => Null case True3 => Bool(true) }
  }

  function TruthOf(v: Operand): Truth
    requires Conforms(v, VBool)
  {
    match v case Null => Unknown case Bool(b) => if b then True3 else False3
  }

  /** The value of a non-null calculation. */
  function Strict(p: Prims, op: Operator, args: seq<Operand>): Result<Operand>
    requires |args| == Arity(op) && Null !in args
  {
    match op
    case UnaryOp(c, _) => Calculate(p, c, args[0], args[0])
    case BinaryOp(c, _) => Calculate(p, c, args[0], args[1])
    case BinaryV2Op(c, t) =>
      if t.DOUBLE? && IsInteger(args[0]) && IsInteger(args[1]) then
        DivMod(p, c, AsDouble(p, args[0]), AsDouble(p, args[1]))
      else DivMod(p, c, args[0], args[1])
    case CastOp(check, dst, _) => Cast(p, check, dst.Variant(), args[0])
    case FunOp(code, sig) => Call(p, code, sig, args)
    case _ => Ok(Null)
  }

  /** The meaning of a node: three-valued logic for the connectives, two-valued answers from the
      tests, and everything else NULL as soon as an argument is. */
  function Meaning(p: Prims, op: Operator, args: seq<Operand>, tuple: Tuple): Result<Operand>
    requires |args| == Arity(op)
    requires op.NotOp? || op.AndOp? || op.OrOp? ==> forall v | v in args :: Conforms(v, VBool)
  {
    match op
    case NullOp(_) => Ok(Null)
    case ConstOp(_, v) => Ok(v)
    case ConstBoolOp(b) => Ok(Bool(b))
    case IndexedVarOp(_, index) => if 0 <= index < |tuple| then Ok(tuple[index]) else Err(BadIndex)
    case NotOp => Ok(TruthOf(args[0]).Not().Value())
    case AndOp => Ok(TruthOf(args[0]).And(TruthOf(args[1])).Value())
    case OrOp => Ok(TruthOf(args[0]).Or(TruthOf(args[1])).Value())
    case SpecialOp(test, _) =>
      var v := args[0];
      Ok(Bool(match test
              case IsNull => v == Null
              case IsTrue => v != Null && Truthy(p, v)
              case IsFalse => v != Null && Falsy(p, v)))
    case _ => if Null in args then Ok(Null) else Strict(p, op, args)
  }

  // ---------- the type checker ----------

  /** The result variant of an operator on operands of given variants, if it accepts them. Integer
      division yields a double, and DIV<DOUBLE> also takes two integers. */
  function OpType(op: Operator, args: seq<Variant>, schema: seq<Variant>): Option<Variant>
    requires |args| == Arity(op)
  {
    match op
    case NullOp(t) => Some(t.Variant())
    case ConstOp(t, v) => if Conforms(v, t.Variant()) then Some(t.Variant()) else None
    case ConstBoolOp(_) => Some(VBool)
    case IndexedVarOp(t, index) =>
      if 0 <= index < |schema| && schema[index] == t.Variant() then Some(t.Variant()) else None
    case UnaryOp(c, t) => if args[0] == t.Variant() && !c.Relational() && Numeric(t) then Some(t.Variant()) else None
    case BinaryOp(c, t) =>
      if args[0] == args[1] == t.Variant() then Some(if c.Relational() then VBool else t.Variant()) else None
    case BinaryV2Op(c, t) =>
      if c.Div? && t.DOUBLE? && args[0] in {VInt32, VInt64} && args[1] in {VInt32, VInt64} then Some(VDouble)
      else if args[0] != t.Variant() || args[1] != t.Variant() || !Numeric(t) then None
      else if c.Div? then Some(if t.INT32? || t.INT64? then VDouble else t.Variant())
      else if c.Mod? && (t.INT32? || t.INT64?) then Some(t.Variant())
      else None
    case SpecialOp(_, t) => if args[0] == t.Variant() then Some(VBool) else None
    case CastOp(_, dst, src) => if args[0] == src.Variant() then Some(dst.Variant()) else None
    case FunOp(_, sig) =>
      if args == sig.params && (sig.result.VDouble? ==> args == [VDouble]) &&
         (sig.result.VDouble? || sig.result.VInt32? || sig.result.VString?)
      then Some(sig.result) else None
    case NotOp => if args[0] == VBool then Some(VBool) else None
    case AndOp => if args[0] == args[1] == VBool then Some(VBool) else None
    case OrOp => if args[0] == args[1] == VBool then Some(VBool) else None
  }

  /** The abstract machine: operand stacks replaced by stacks of variants. */
  function TypeStep(op: Operator, ts: seq<Variant>, schema: seq<Variant>): Option<seq<Variant>> {
    var n := Arity(op);
    if |ts| < n then None
    else
      var t := OpType(op, ts[|ts| - n..], schema);
      if t.None? then None else Some(ts[..|ts| - n] + [t.value])
  }

  function TypeExec(ops: seq<Operator>, ts: seq<Variant>, schema: seq<Variant>): Option<seq<Variant>> {
    if ops == [] then Some(ts)
    else
      var r := TypeStep(ops[0], ts, schema);
      if r.None? then None else TypeExec(ops[1..], r.value, schema)
  }

  /** The faults that depend on the data and not on the code. */
  predicate DataFault(f: Fault) { f.ExceedsLimits? || f.Undefined? || f.LibraryFault? }

  /** A result of the predicted variant, or a fault no type checker could foresee. */
  predicate Sound(r: Result<Operand>, t: Variant) {
    match r case Ok(v) => Conforms(v, t) case Err(f) => DataFault(f)
  }

  lemma CalculateSound(p: Prims, c: Calc, v: Operand, w: Operand, t: Variant)
    requires v != Null && w != Null && Conforms(v, t) && Conforms(w, t)
    ensures Sound(Calculate(p, c, v, w), if c.Relational() then VBool else t)
  {}

  lemma DivModSound(p: Prims, c: Calc, v: Operand, w: Operand, t: Variant)
    requires v != Null && w != Null && Conforms(v, t) && Conforms(w, t)
    requires t in {VInt32, VInt64, VFloat, VDouble, VDecimal}
    requires c.Div? || (c.Mod? && t in {VInt32, VInt64})
    ensures Sound(DivMod(p, c, v, w), if c.Div? && t in {VInt32, VInt64} then VDouble else t)
  {}

  lemma CastSound(p: Prims, check: bool, dst: Variant, v: Operand)
    ensures Sound(Cast(p, check, dst, v), dst)
  {}

  /** On operands the checker accepts, an operator behaves as its SQL meaning says and yields the
      predicted variant. */
  lemma OperatorSound(p: Prims, op: Operator, args: seq<Operand>, ts: seq<Variant>, tuple: Tuple, schema: seq<Variant>)
    requires |args| == Arity(op) && AllConform(args, ts) && AllConform(tuple, schema)
    requires OpType(op, ts, schema).Some?
    ensures Apply(p, op, args, Some(tuple)) == Meaning(p, op, args, tuple)
    ensures Sound(Meaning(p, op, args, tuple), OpType(op, ts, schema).value)
  {
    hide Calculate, DivMod, Cast;
    match op
    case UnaryOp(c, t) =>
      if args[0] != Null { CalculateSound(p, c, args[0], args[0], t.Variant()); }
    case BinaryOp(c, t) =>
      if Null !in args { CalculateSound(p, c, args[0], args[1], t.Variant()); }
    case BinaryV2Op(c, t) =>
      if Null !in args {
        if t.DOUBLE? && IsInteger(args[0]) && IsInteger(args[1]) {
          DivModSound(p, c, AsDouble(p, args[0]), AsDouble(p, args[1]), VDouble);
        } else {
          DivModSound(p, c, args[0], args[1], t.Variant());
        }
      }
    case CastOp(check, dst, src) =>
      if args[0] != Null { CastSound(p, check, dst.Variant(), args[0]); }
    case _ =>
  }

  /** Type soundness of the machine: code the checker accepts never pops an empty stack, reads a
      wrong variant or misses a column, and leaves values of the predicted variants. */
  lemma {:induction false} MachineSound(p: Prims, ops: seq<Operator>, s: seq<Operand>, ts: seq<Variant>,
                                        tuple: Tuple, schema: seq<Variant>)
    requires AllConform(s, ts) && AllConform(tuple, schema)
    requires TypeExec(ops, ts, schema).Some?
    ensures match Exec(p, ops, s, Some(tuple))
            case Ok(s') => AllConform(s', TypeExec(ops, ts, schema).value)
            case Err(f) => DataFault(f)
  {
    hide Apply, Meaning, OpType;
    if ops != [] {
      var n := Arity(ops[0]);
      var args, targs := s[|s| - n..], ts[|ts| - n..];
      OperatorSound(p, ops[0], args, targs, tuple, schema);
      var r := Step(p, ops[0], s, Some(tuple));
      if r.Ok? {
        MachineSound(p, ops[1..], r.value, TypeStep(ops[0], ts, schema).value, tuple, schema);
      }
    }
  }

  // ---------- compiler correctness ----------

  /** The variant of a tree, if it is well typed. */
  function TypeOf(e: Expr, schema: seq<Variant>): Option<Variant>
    requires e.WellFormed()
  {
    match e
    case Leaf(op) => OpType(op, [], schema)
    case One(op, e) =>
      var t := TypeOf(e, schema);
      if t.None? then None else OpType(op, [t.value], schema)
    case Two(op, e0, e1) =>
      var t0, t1 := TypeOf(e0, schema), TypeOf(e1, schema);
      if t0.None? || t1.None? then None else OpType(op, [t0.value, t1.value], schema)
    case Three(op, e0, e1, e2) =>
      var t0, t1, t2 := TypeOf(e0, schema), TypeOf(e1, schema), TypeOf(e2, schema);
      if t0.None? || t1.None? || t2.None? then None else OpType(op, [t0.value, t1.value, t2.value], schema)
    case SameCast(t, e) =>
      var t0 := TypeOf(e, schema);
      if t0 == Some(t.Variant()) then t0 else None
  }

  /** The SQL value of a well-typed tree on a tuple. Arguments are evaluated left to right, and the
      first failure is the tree's. */
  function Eval(p: Prims, e: Expr, tuple: Tuple, schema: seq<Variant>): (r: Result<Operand>)
    requires e.WellFormed() && AllConform(tuple, schema) && TypeOf(e, schema).Some?
    ensures Sound(r, TypeOf(e, schema).value)
  {
    match e
    case Leaf(op) =>
      OperatorSound(p, op, [], [], tuple, schema);
      Meaning(p, op, [], tuple)
    case One(op, e) =>
      var v :- Eval(p, e, tuple, schema);
      OperatorSound(p, op, [v], [TypeOf(e, schema).value], tuple, schema);
      Meaning(p, op, [v], tuple)
    case Two(op, e0, e1) =>
      var v0 :- Eval(p, e0, tuple, schema);
      var v1 :- Eval(p, e1, tuple, schema);
      OperatorSound(p, op, [v0, v1], [TypeOf(e0, schema).value, TypeOf(e1, schema).value], tuple, schema);
      Meaning(p, op, [v0, v1], tuple)
    case Three(op, e0, e1, e2) =>
      var v0 :- Eval(p, e0, tuple, schema);
      var v1 :- Eval(p, e1, tuple, schema);
      var v2 :- Eval(p, e2, tuple, schema);
      OperatorSound(p, op, [v0, v1, v2],
                    [TypeOf(e0, schema).value, TypeOf(e1, schema).value, TypeOf(e2, schema).value], tuple, schema);
      Meaning(p, op, [v0, v1, v2], tuple)
    case SameCast(_, e) => Eval(p, e, tuple, schema)
  }

  /** What running code that computes `r` does to a stack. */
  function Pushed(s: seq<Operand>, r: Result<Operand>): Result<seq<Operand>> {
    match r case Ok(v) => Ok(s + [v]) case Err(f) => Err(f)
  }

  lemma StepPushes(p: Prims, op: Operator, s: seq<Operand>, args: seq<Operand>, tuple: Tuple)
    requires |args| == Arity(op)
    ensures Exec(p, [op], s + args, Some(tuple)) == Pushed(s, Apply(p, op, args, Some(tuple)))
  {
    var t := s + args;
    assert t[|t| - |args|..] == args && t[..|t| - |args|] == s;
    assert [op][1..] == [];
  }

  /** Compiler correctness: the postfix code of a well-typed tree pushes the tree's SQL value on any
      stack, or fails exactly as the tree does. */
  lemma {:induction false} CompilerCorrect(p: Prims, e: Expr, s: seq<Operand>, tuple: Tuple, schema: seq<Variant>)
    requires e.WellFormed() && AllConform(tuple, schema) && TypeOf(e, schema).Some?
    ensures Exec(p, e.Compile(), s, Some(tuple)) == Pushed(s, Eval(p, e, tuple, schema))
  {
    hide Apply, Meaning, OpType, Exec;
    match e
    case Leaf(op) =>
      OperatorSound(p, op, [], [], tuple, schema);
      StepPushes(p, op, s, [], tuple);
      assert s + [] == s;
    case One(op, e0) =>
      CompilerCorrect(p, e0, s, tuple, schema);
      ExecAppend(p, e0.Compile(), [op], s, Some(tuple));
      var v := Eval(p, e0, tuple, schema);
      if v.Ok? {
        OperatorSound(p, op, [v.value], [TypeOf(e0, schema).value], tuple, schema);
        StepPushes(p, op, s, [v.value], tuple);
      }
    case Two(op, e0, e1) =>
      CompilerCorrect(p, e0, s, tuple, schema);
      if Eval(p, e0, tuple, schema).Ok? {
        CompilerCorrect(p, e1, s + [Eval(p, e0, tuple, schema).value], tuple, schema);
      }
      ExecPair(p, e0.Compile(), e1.Compile(), s, tuple, Eval(p, e0, tuple, schema), Eval(p, e1, tuple, schema));
      ExecAppend(p, e0.Compile() + e1.Compile(), [op], s, Some(tuple));
      var v0, v1 := Eval(p, e0, tuple, schema), Eval(p, e1, tuple, schema);
      if v0.Ok? && v1.Ok? {
        OperatorSound(p, op, [v0.value, v1.value], [TypeOf(e0, schema).value, TypeOf(e1, schema).value], tuple, schema);
        StepPushes(p, op, s, [v0.value, v1.value], tuple);
      }
    case Three(op, e0, e1, e2) =>
      CompilerCorrect(p, e0, s, tuple, schema);
      if Eval(p, e0, tuple, schema).Ok? {
        CompilerCorrect(p, e1, s + [Eval(p, e0, tuple, schema).value], tuple, schema);
      }
      ExecPair(p, e0.Compile(), e1.Compile(), s, tuple, Eval(p, e0, tuple, schema), Eval(p, e1, tuple, schema));
      ExecAppend(p, e0.Compile() + e1.Compile(), e2.Compile(), s, Some(tuple));
      ExecAppend(p, e0.Compile() + e1.Compile() + e2.Compile(), [op], s, Some(tuple));
      var v0, v1, v2 := Eval(p, e0, tuple, schema), Eval(p, e1, tuple, schema), Eval(p, e2, tuple, schema);
      if v0.Ok? && v1.Ok? {
        CompilerCorrect(p, e2, s + [v0.value, v1.value], tuple, schema);
        if v2.Ok? {
          assert s + [v0.value, v1.value] + [v2.value] == s + [v0.value, v1.value, v2.value];
          OperatorSound(p, op, [v0.value, v1.value, v2.value],
                        [TypeOf(e0, schema).value, TypeOf(e1, schema).value, TypeOf(e2, schema).value], tuple, schema);
          StepPushes(p, op, s, [v0.value, v1.value, v2.value], tuple);
        }
      }
    case SameCast(_, e0) =>
      CompilerCorrect(p, e0, s, tuple, schema);
  }

  /** Two pieces of code that each push one value. */
  lemma ExecPair(p: Prims, a: seq<Operator>, b: seq<Operator>, s: seq<Operand>, tuple: Tuple,
                 v0: Result<Operand>, v1: Result<Operand>)
    requires Exec(p, a, s, Some(tuple)) == Pushed(s, v0)
    requires v0.Ok? ==> Exec(p, b, s + [v0.value], Some(tuple)) == Pushed(s + [v0.value], v1)
    ensures Exec(p, a + b, s, Some(tuple)) ==
            if v0.Err? then Err(v0.error) else if v1.Err? then Err(v1.error) else Ok(s + [v0.value, v1.value])
  {
    ExecAppend(p, a, b, s, Some(tuple));
    if v0.Ok? && v1.Ok? {
      assert s + [v0.value] + [v1.value] == s + [v0.value, v1.value];
    }
  }

  // ---------- several expressions in one vector ----------

  function CompileAll(es: seq<Expr>): seq<Operator> {
    if es == [] then [] else es[0].Compile() + CompileAll(es[1..])
  }

  predicate AllTyped(es: seq<Expr>, schema: seq<Variant>) {
    forall e | e in es :: e.WellFormed() && TypeOf(e, schema).Some?
  }

  /** The values of several trees on one tuple; the first failure is everyone's. */
  function EvalAll(p: Prims, es: seq<Expr>, tuple: Tuple, schema: seq<Variant>): Result<seq<Operand>>
    requires AllConform(tuple, schema) && AllTyped(es, schema)
  {
    if es == [] then Ok([])
    else
      var v :- Eval(p, es[0], tuple, schema);
      var vs :- EvalAll(p, es[1..], tuple, schema);
      Ok([v] + vs)
  }

  /** The concatenated code of several expressions leaves their values on the stack in order. */
  lemma {:induction false} ConcatenationCorrect(p: Prims, es: seq<Expr>, s: seq<Operand>, tuple: Tuple,
          schema: seq<Variant>)
    requires AllConform(tuple, schema) && AllTyped(es, schema)
    ensures Exec(p, CompileAll(es), s, Some(tuple)) ==
            match EvalAll(p, es, tuple, schema) case Ok(vs) => Ok(s + vs) case Err(f) => Err(f)
  {
    if es == [] {
      assert s + [] == s;
    } else {
      CompilerCorrect(p, es[0], s, tuple, schema);
      ExecAppend(p, es[0].Compile(), CompileAll(es[1..]), s, Some(tuple));
      var v := Eval(p, es[0], tuple, schema);
      if v.Ok? {
        ConcatenationCorrect(p, es[1..], s + [v.value], tuple, schema);
        var vs := EvalAll(p, es[1..], tuple, schema);
        if vs.Ok? {
          assert s + [v.value] + vs.value == s + ([v.value] + vs.value);
        }
      }
    }
  }

  /** The checker accepts the code of every well-typed tree, at the tree's own variant. */
  lemma {:induction false} CompiledCodeChecks(e: Expr, ts: seq<Variant>, schema: seq<Variant>)
    requires e.WellFormed() && TypeOf(e, schema).Some?
    ensures TypeExec(e.Compile(), ts, schema) == Some(ts + [TypeOf(e, schema).value])
  {
    hide OpType, TypeStep, TypeExec;
    match e
    case Leaf(op) => TypeStepPushes(op, ts, [], schema); assert ts + [] == ts;
    case One(op, e0) =>
      CompiledCodeChecks(e0, ts, schema);
      TypeExecAppend(e0.Compile(), [op], ts, schema);
      TypeStepPushes(op, ts, [TypeOf(e0, schema).value], schema);
    case Two(op, e0, e1) =>
      var t0, t1 := TypeOf(e0, schema).value, TypeOf(e1, schema).value;
      CompiledCodeChecks(e0, ts, schema);
      CompiledCodeChecks(e1, ts + [t0], schema);
      TypeExecAppend(e0.Compile(), e1.Compile(), ts, schema);
      TypeExecAppend(e0.Compile() + e1.Compile(), [op], ts, schema);
      assert ts + [t0] + [t1] == ts + [t0, t1];
      TypeStepPushes(op, ts, [t0, t1], schema);
    case Three(op, e0, e1, e2) =>
      var t0, t1, t2 := TypeOf(e0, schema).value, TypeOf(e1, schema).value, TypeOf(e2, schema).value;
      CompiledCodeChecks(e0, ts, schema);
      CompiledCodeChecks(e1, ts + [t0], schema);
      CompiledCodeChecks(e2, ts + [t0] + [t1], schema);
      TypeExecAppend(e0.Compile(), e1.Compile(), ts, schema);
      TypeExecAppend(e0.Compile() + e1.Compile(), e2.Compile(), ts, schema);
      TypeExecAppend(e0.Compile() + e1.Compile() + e2.Compile(), [op], ts, schema);
      assert ts + [t0] + [t1] + [t2] == ts + [t0, t1, t2];
      TypeStepPushes(op, ts, [t0, t1, t2], schema);
    case SameCast(_, e0) => CompiledCodeChecks(e0, ts, schema);
  }

  lemma TypeStepPushes(op: Operator, ts: seq<Variant>, args: seq<Variant>, schema: seq<Variant>)
    requires |args| == Arity(op) && OpType(op, args, schema).Some?
    ensures TypeExec([op], ts + args, schema) == Some(ts + [OpType(op, args, schema).value])
  {
    var t := ts + args;
    assert t[|t| - |args|..] == args && t[..|t| - |args|] == ts;
    assert [op][1..] == [];
  }

  lemma {:induction false} TypeExecAppend(a: seq<Operator>, b: seq<Operator>, ts: seq<Variant>, schema: seq<Variant>)
    ensures TypeExec(a + b, ts, schema) ==
            var r := TypeExec(a, ts, schema); if r.None? then None else TypeExec(b, r.value, schema)
  {
    if a == [] {
      assert a + b == b;
    } else {
      assert (a + b)[0] == a[0] && (a + b)[1..] == a[1..] + b;
      var r := TypeStep(a[0], ts, schema);
      if r.Some? {
        TypeExecAppend(a[1..], b, r.value, schema);
      }
    }
  }

  // ---------- NULL monotonicity ----------

  /** `w` is `v` with some NULLs filled in. */
  predicate Fills(v: Operand, w: Operand) { v == Null || v == w }

  predicate AllFill(s: seq<Operand>, t: seq<Operand>) {
    |s| == |t| && forall i | 0 <= i < |s| :: Fills(s[i], t[i])
  }

  lemma ApplyMonotone(p: Prims, op: Operator, args: seq<Operand>, more: seq<Operand>, tuple: Tuple, fuller: Tuple)
    requires !op.SpecialOp? && |args| == Arity(op)
    requires AllFill(args, more) && AllFill(tuple, fuller)
    requires Apply(p, op, args, Some(tuple)).Ok?
    ensures var r := Apply(p, op, more, Some(fuller));
      r.Err? || Fills(Apply(p, op, args, Some(tuple)).value, r.value)
  {
    hide Calculate, DivMod, Cast;
    if op.FunOp? && Null !in args {
      assert args == more;
    }
  }

  /** One operator, on a stack and a tuple with some of their NULLs filled in. */
  lemma StepMonotone(p: Prims, op: Operator, s: seq<Operand>, t: seq<Operand>, tuple: Tuple, fuller: Tuple)
    requires !op.SpecialOp? && AllFill(s, t) && AllFill(tuple, fuller)
    requires Step(p, op, s, Some(tuple)).Ok?
    ensures var q := Step(p, op, t, Some(fuller));
      q.Err? || AllFill(Step(p, op, s, Some(tuple)).value, q.value)
  {
    hide Apply;
    var n := Arity(op);
    ApplyMonotone(p, op, s[|s| - n..], t[|t| - n..], tuple, fuller);
  }

  /** Filling in NULLs, in a tuple or on the stack, never changes a value that code without the
      NULL tests has already determined: the run fails or leaves the same non-null values. */
  lemma {:induction false} NullMonotone(p: Prims, ops: seq<Operator>, s: seq<Operand>, t: seq<Operand>, tuple: Tuple,
          fuller: Tuple)
    requires forall op | op in ops :: !op.SpecialOp?
    requires AllFill(s, t) && AllFill(tuple, fuller)
    requires Exec(p, ops, s, Some(tuple)).Ok?
    ensures var r := Exec(p, ops, t, Some(fuller));
      r.Err? || AllFill(Exec(p, ops, s, Some(tuple)).value, r.value)
  {
    if ops != [] {
      hide Step, AllFill;
      assert ops[0] in ops;
      StepMonotone(p, ops[0], s, t, tuple, fuller);
      var r, q := Step(p, ops[0], s, Some(tuple)), Step(p, ops[0], t, Some(fuller));
      if q.Ok? {
        NullMonotone(p, ops[1..], r.value, q.value, tuple, fuller);
      }
    }
  }
}
