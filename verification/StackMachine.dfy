/** The operand stack and the runner, as the objects the engine keeps. */
module StackMachine {
  import opened Options
  import opened Operands
  import opened Operators
  import opened Expressions
  import opened Codec
  import opened Wire

  /** `OperandStack`: the top is the last element. */
  class OperandStack {
    var stack: seq<Operand>
    var tuple: Option<Tuple>

    constructor ()
      ensures stack == [] && tuple == None
    {
      stack, tuple := [], None;
    }

    method Pop()
      requires stack != []
      modifies this`stack
      ensures stack == old(stack[..|stack| - 1])
    {
      stack := stack[..|stack| - 1];
    }

    method Get() returns (v: Operand)
      requires stack != []
      ensures v == stack[|stack| - 1]
    {
      v := stack[|stack| - 1];
    }

    method Push(v: Operand)
      modifies this`stack
      ensures stack == old(stack) + [v]
    {
      stack := stack + [v];
    }

    method BindTuple(t: Option<Tuple>)
      modifies this`tuple
      ensures tuple == t
    {
      tuple := t;
    }

    method Clear()
      modifies this`stack
      ensures stack == []
    {
      stack := [];
    }

    /** Pushes the value an operator computed, or reports its fault. */
    method PushResult(r: Result<Operand>) returns (fault: Option<Fault>)
      modifies this`stack
      ensures match r case Ok(v) => fault == None && stack == old(stack) + [v] case Err(f) => fault == Some(f)
    {
      match r
      case Ok(v) => Push(v); fault := None;
      case Err(f) => fault := Some(f);
    }
  }

  /** One operator's call: pop the operands, last one first, then push the result. */
  method Execute(p: Prims, op: Operator, st: OperandStack) returns (fault: Option<Fault>)
    modifies st`stack
    ensures match Step(p, op, old(st.stack), st.tuple)
            case Ok(s) => fault == None && st.stack == s
            case Err(f) => fault == Some(f)
  {
    hide Unary, Binary, BinaryV2, Special, CastValue, NotValue, AndValue, OrValue, Call, LoadVar;
    ghost var before, n := st.stack, Arity(op);
    if |st.stack| < Arity(op) {
      return Some(StackUnderflow);
    }
    ghost var args := before[|before| - n..];
    match op
    case NullOp(_) => fault := st.PushResult(Ok(Null));
    case ConstOp(_, v) => fault := st.PushResult(Ok(v));
    case ConstBoolOp(b) => fault := st.PushResult(Ok(Bool(b)));
    case IndexedVarOp(_, index) => fault := st.PushResult(LoadVar(st.tuple, index));
    case UnaryOp(c, t) =>
      var v := st.Get();
      st.Pop();
      fault := st.PushResult(Unary(p, c, t, v));
    case SpecialOp(test, t) =>
      var v := st.Get();
      st.Pop();
      fault := st.PushResult(Special(p, test, t, v));
    case CastOp(check, dst, src) =>
      var v := st.Get();
      st.Pop();
      fault := st.PushResult(CastValue(p, check, dst, src, v));
    case NotOp =>
      var v := st.Get();
      st.Pop();
      fault := st.PushResult(NotValue(v));
    case BinaryOp(c, t) =>
      var v0, v1 := PopTwo(st);
      fault := st.PushResult(Binary(p, c, t, v0, v1));
    case BinaryV2Op(c, t) =>
      var v0, v1 := PopTwo(st);
      fault := st.PushResult(BinaryV2(p, c, t, v0, v1));
    case AndOp =>
      var v0, v1 := PopTwo(st);
      fault := st.PushResult(AndValue(v0, v1));
    case OrOp =>
      var v0, v1 := PopTwo(st);
      fault := st.PushResult(OrValue(v0, v1));
    case FunOp(code, sig) =>
      var popped := PopMany(st, |sig.params|);
      fault := st.PushResult(Call(p, code, sig, popped));
  }

  method PopTwo(st: OperandStack) returns (v0: Operand, v1: Operand)
    requires |st.stack| >= 2
    modifies st`stack
    ensures [v0, v1] == old(st.stack[|st.stack| - 2..]) && st.stack == old(st.stack[..|st.stack| - 2])
  {
    v1 := st.Get();
    st.Pop();
    v0 := st.Get();
    st.Pop();
  }

  method PopMany(st: OperandStack, n: nat) returns (args: seq<Operand>)
    requires |st.stack| >= n
    modifies st`stack
    ensures args == old(st.stack[|st.stack| - n..]) && st.stack == old(st.stack[..|st.stack| - n])
  {
    ghost var before := st.stack;
    args := [];
    for i := 0 to n
      invariant st.stack == before[..|before| - i] && args == before[|before| - i..]
    {
      var v := st.Get();
      st.Pop();
      args := [v] + args;
    }
  }

  /** `Runner`: an operator vector and the stack it runs on. */
  class Runner {
    const stack: OperandStack
    const operators: OperatorVector
    ghost const Repr: set<object>

    ghost predicate Valid() {
      Repr == {this, stack, operators} && this as object != stack && this as object != operators &&
        stack as object != operators
    }

    constructor ()
      ensures Valid() && fresh(Repr) && operators.vector == []
    {
      stack := new OperandStack();
      operators := new OperatorVector();
      Repr := {this, stack, operators};
    }

    method Decode(p: Prims, code: Bytes, start: nat) returns (r: Result<nat>)
      requires Valid() && start <= |code|
      modifies operators
      ensures match DecodeFrom(p, code, start)
              case Ok(v) => r == Ok(v.1) && operators.vector == v.0
              case Err(f) => r == Err(f)
    {
      r := operators.Decode(p, code, start);
    }

    method BindTuple(t: Option<Tuple>)
      requires Valid()
      modifies stack`tuple
      ensures stack.tuple == t
    {
      stack.BindTuple(t);
    }

    /** Clears the stack and runs the operators in order, stopping at the first fault. */
    method Run(p: Prims) returns (fault: Option<Fault>)
      requires Valid()
      modifies stack`stack
      ensures match Exec(p, operators.vector, [], stack.tuple)
              case Ok(s) => fault == None && stack.stack == s
              case Err(f) => fault == Some(f)
    {
      stack.Clear();
      var ops := operators.vector;
      var i := 0;
      while i < |ops|
        invariant 0 <= i <= |ops|
        invariant Exec(p, ops, [], stack.tuple) == Exec(p, ops[i..], stack.stack, stack.tuple)
      {
        assert ops[i..][0] == ops[i] && ops[i..][1..] == ops[i + 1..];
        fault := Execute(p, ops[i], stack);
        if fault.Some? {
          return;
        }
        i := i + 1;
      }
      fault := None;
    }

    /** The top of the stack. */
    method Get() returns (r: Result<Operand>)
      requires Valid()
      ensures r == Top(stack.stack)
    {
      if stack.stack == [] {
        return Err(StackUnderflow);
      }
      var v := stack.Get();
      return Ok(v);
    }

    /** A tuple of everything on the stack, bottom first. */
    method GetAll() returns (t: Tuple)
      requires Valid()
      ensures t == stack.stack
    {
      t := stack.stack;
    }
  }

  // ---------- from bytes to values ----------

  /** Expression trees labelled with wire instructions. */
  datatype Source =
    | SLeaf(i: Instr)
    | SOne(i: Instr, s: Source)
    | STwo(i: Instr, s0: Source, s1: Source)
    | SThree(i: Instr, s0: Source, s1: Source, s2: Source)
  {
    /** Instructions in the order they are sent. */
    function Postfix(): seq<Instr> {
      match this
      case SLeaf(i) => [i]
      case SOne(i, s) => s.Postfix() + [i]
      case STwo(i, s0, s1) => s0.Postfix() + s1.Postfix() + [i]
      case SThree(i, s0, s1, s2) => s0.Postfix() + s1.Postfix() + s2.Postfix() + [i]
    }

    /** Instructions that exist, with as many arguments as they take; an identity cast takes one. */
    predicate WellFormed(p: Prims) {
      && i.Encodable() && i.Meaning(p).Ok?
      && var m := i.Meaning(p).value;
         match this
         case SLeaf(_) => m.Emit? && Arity(m.op) == 0
         case SOne(_, s) => (m.Emit? ==> Arity(m.op) == 1) && s.WellFormed(p)
         case STwo(_, s0, s1) => m.Emit? && Arity(m.op) == 2 && s0.WellFormed(p) && s1.WellFormed(p)
         case SThree(_, s0, s1, s2) =>
           m.Emit? && Arity(m.op) == 3 && s0.WellFormed(p) && s1.WellFormed(p) && s2.WellFormed(p)
    }

    function ToExpr(p: Prims): (e: Expr)
      requires WellFormed(p)
      ensures e.WellFormed()
    {
      var m := i.Meaning(p).value;
      match this
      case SLeaf(_) => Leaf(m.op)
      case SOne(_, s) => if m.Emit? then One(m.op, s.ToExpr(p)) else SameCast(i.dst, s.ToExpr(p))
      case STwo(_, s0, s1) => Two(m.op, s0.ToExpr(p), s1.ToExpr(p))
      case SThree(_, s0, s1, s2) => Three(m.op, s0.ToExpr(p), s1.ToExpr(p), s2.ToExpr(p))
    }
  }

  function Joined(a: Result<seq<Operator>>, b: Result<seq<Operator>>): Result<seq<Operator>> {
    if a.Err? then a else if b.Err? then b else Ok(a.value + b.value)
  }

  lemma {:induction false} OperatorsOfAppend(p: Prims, a: seq<Instr>, b: seq<Instr>)
    requires AllEncodable(a) && AllEncodable(b)
    ensures AllEncodable(a + b) && OperatorsOf(p, a + b) == Joined(OperatorsOf(p, a), OperatorsOf(p, b))
  {
    hide Instr.Encodable, Instr.Meaning;
    if a == [] {
      assert a + b == b;
      var r := OperatorsOf(p, b);
      if r.Ok? { assert [] + r.value == r.value; }
    } else {
      OperatorsOfAppend(p, a[1..], b);
      assert (a + b)[0] == a[0] && (a + b)[1..] == a[1..] + b;
      var d, x, y := a[0].Meaning(p), OperatorsOf(p, a[1..]), OperatorsOf(p, b);
      if d.Ok? && x.Ok? && y.Ok? {
        var first := if d.value.Emit? then [d.value.op] else [];
        assert first + (x.value + y.value) == first + x.value + y.value;
      }
    }
  }

  lemma OperatorsOfOne(p: Prims, i: Instr)
    requires i.Encodable() && i.Meaning(p).Ok?
    ensures AllEncodable([i])
    ensures OperatorsOf(p, [i]) == Ok(if i.Meaning(p).value.Emit? then [i.Meaning(p).value.op] else [])
  {
    hide Instr.Encodable, Instr.Meaning;
    assert [i][1..] == [];
    var ops := if i.Meaning(p).value.Emit? then [i.Meaning(p).value.op] else [];
    assert ops + [] == ops;
  }

  /** Decoding a tree's instructions gives the compiled code of the tree, identity casts dropped. */
  lemma {:induction false} PostfixCompiles(p: Prims, s: Source)
    requires s.WellFormed(p)
    ensures AllEncodable(s.Postfix()) && OperatorsOf(p, s.Postfix()) == Ok(s.ToExpr(p).Compile())
  {
    hide Instr.Encodable, Instr.Meaning, OperatorsOf;
    OperatorsOfOne(p, s.i);
    match s
    case SLeaf(i) =>
    case SOne(i, t) =>
      PostfixCompiles(p, t);
      OperatorsOfAppend(p, t.Postfix(), [i]);
      assert t.ToExpr(p).Compile() + [] == t.ToExpr(p).Compile();
    case STwo(i, s0, s1) =>
      PostfixCompiles(p, s0);
      PostfixCompiles(p, s1);
      OperatorsOfAppend(p, s0.Postfix(), s1.Postfix());
      OperatorsOfAppend(p, s0.Postfix() + s1.Postfix(), [i]);
    case SThree(i, s0, s1, s2) =>
      PostfixCompiles(p, s0);
      PostfixCompiles(p, s1);
      PostfixCompiles(p, s2);
      OperatorsOfAppend(p, s0.Postfix(), s1.Postfix());
      OperatorsOfAppend(p, s0.Postfix() + s1.Postfix(), s2.Postfix());
      OperatorsOfAppend(p, s0.Postfix() + s1.Postfix() + s2.Postfix(), [i]);
  }

  /** End to end: the bytes of any well-typed tree, decoded and run on a tuple, compute the tree's
      SQL value. */
  lemma BytesToValue(p: Prims, s: Source, code: Bytes, pos: nat, tuple: Tuple, schema: seq<Variant>)
    requires s.WellFormed(p) && At(code, pos, EncodeAll(s.Postfix()) + [EOE])
    requires AllConform(tuple, schema) && TypeOf(s.ToExpr(p), schema).Some?
    ensures pos <= |code| && DecodeFrom(p, code, pos).Ok?
    ensures var decoded := DecodeFrom(p, code, pos).value;
      && decoded.1 == pos + |EncodeAll(s.Postfix())| + 1
      && Exec(p, decoded.0, [], Some(tuple)) == Pushed([], Eval(p, s.ToExpr(p), tuple, schema))
  {
    hide EncodeAll, OperatorsOf, DecodeFrom, Exec, Eval, TypeOf, Source.Postfix, Source.ToExpr, Source.WellFormed,
      Expr.Compile,
      Expr.WellFormed, AllConform, At;
    PostfixCompiles(p, s);
    ExpressionRoundTrip(p, s.Postfix(), code, pos);
    CompilerCorrect(p, s.ToExpr(p), [], tuple, schema);
  }
}
