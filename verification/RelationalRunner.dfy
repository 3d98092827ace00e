/** The relational runner: decodes a chain into operator objects, passes tuples through it, and gives
    everything back when it is released. */
module RelationalRunner {
  import opened Options
  import opened Operands
  import opened Codec
  import opened Wire
  import opened StackMachine
  import opened Pipeline
  import opened PipelineMeaning
  import opened RelOps
  import opened ChainWire

  /** `Chain`, growing at its end. */
  lemma ChainAppend(stages: seq<Stage>, stage: Stage)
    requires stages != []
    ensures Chain(stages + [stage]) == Tandem(Chain(stages), Op.Leaf(stage))
  {
    assert (stages + [stage])[..|stages|] == stages;
  }

  lemma ChainOfOne(stages: seq<Stage>, stage: Stage)
    requires stages == []
    ensures Chain(stages + [stage]) == Op.Leaf(stage)
  {}

  /** A tandem of two operators, and what it stands for. */
  method InTandem(input: RelOp, output: RelOp, ghost live: Heap) returns (t: RelOp)
    requires input.Valid(live) && output.Valid(live)
    requires input.Repr() !! output.Repr() && input.Owned() !! output.Owned()
    ensures t.Valid(live) && input.Repr() + output.Repr() < t.Repr() && fresh(t.Repr() - input.Repr() - output.Repr())
    ensures t.Spec() == Tandem(input.Spec(), output.Spec())
    ensures t.St(live) == old(Pair(input.St(live), output.St(live))) && t.Owned() == old(input.Owned() + output.Owned())
  {
    var tandem := new TandemOp(input, output, live);
    return T(tandem);
  }

  class RelRunner {
    var op: Option<RelOp>
    ghost var Repr: set<object>

    ghost predicate Valid(live: Heap)
      reads this, Repr
    {
      && this in Repr
      && (op.Some? ==> op.value.Repr() <= Repr && this !in op.value.Repr() && op.value.Valid(live))
    }

    ghost function Owned(): set<Address>
      reads this, Repr
      requires op.Some? ==> op.value.Repr() <= Repr
    {
      if op.Some? then op.value.Owned() else {}
    }

    constructor ()
      ensures Valid(map[]) && op == None && Repr == {this}
    {
      op := None;
      Repr := {this};
    }

    /** Deletes the chain with everything it still caches. */
    method Release(mem: Memory)
      requires Valid(mem.live) && mem !in Repr && mem.Valid()
      modifies this, mem
      ensures mem.Valid() && op == None && Repr == {this} && Valid(mem.live)
      ensures Conserved(old(mem.live), mem.live, old(Owned()), {})
    {
      match op {
        case Some(o) => o.Destroy(mem);
        case None =>
      }
      op := None;
      Repr := {this};
    }

    /** Behind everything decoded so far. */
    method AppendOp(o: RelOp, ghost live: Heap, ghost stages: seq<Stage>)
      requires Valid(live) && o.Valid(live) && o.Repr() !! Repr
      requires Holds(live, stages)
      requires o.Spec().Leaf? && o.St(live) == Fresh(o.Spec()) && o.Owned() == {}
      modifies this
      ensures Valid(live) && fresh(Repr - old(Repr) - o.Repr())
      ensures Holds(live, stages + [o.Spec().stage])
    {
      hide RelOp.St, RelOp.Valid, RelOp.Owned, RelOp.Spec, RelOp.Repr, Chain, Fits;
      if op.Some? {
        ChainAppend(stages, o.Spec().stage);
        var t := InTandem(op.value, o, live);
        op := Some(t);
        Repr := Repr + t.Repr();
      } else {
        ChainOfOne(stages, o.Spec().stage);
        op := Some(o);
        Repr := Repr + o.Repr();
      }
    }

    /** A freshly decoded chain of the given stages. */
    ghost predicate Holds(live: Heap, stages: seq<Stage>)
      requires Valid(live)
      reads this, Repr
    {
      if stages == [] then op.None?
      else
        && op.Some? && op.value.Spec() == Chain(stages)
        && op.value.St(live) == Fresh(Chain(stages)) && op.value.Owned() == {}
    }

    /** Replaces the chain by the decoded one, and frees what the old one cached. */
    method Decode(p: Prims, mem: Memory, code: Bytes, orders: nat -> Order) returns (r: Result<nat>)
      requires Valid(mem.live) && mem !in Repr && mem.Valid() && forall n: nat :: Chooses(orders(n))
      modifies this, mem
      ensures mem.Valid() && Valid(mem.live) && fresh(Repr - {this})
      ensures Conserved(old(mem.live), mem.live, old(Owned()), {}) && Owned() == {}
      ensures match DecodeStages(p, code, 0, orders, 0)
              case Ok(stages) => r == Ok(|code|) && Holds(mem.live, stages)
              case Err(f) => r == Err(f)
    {
      hide RelOp.St, RelOp.Valid, RelOp.Owned, RelOp.Spec, RelOp.Repr, Chain, Fits, Conserved, DecodeStage;
      Release(mem);
      var pos: nat, n: nat := 0, 0;
      ghost var stages := [];
      BehindNothing(DecodeStages(p, code, 0, orders, 0));
      while pos < |code|
        invariant pos <= |code| && Valid(mem.live) && Holds(mem.live, stages) && fresh(Repr - {this}) && mem !in Repr
        invariant DecodeStages(p, code, 0, orders, 0) == Behind(stages, DecodeStages(p, code, pos, orders, n))
        invariant mem.Valid() && Conserved(old(mem.live), mem.live, old(Owned()), {})
        decreases |code| - pos
      {
        var d := DecodeStageOp(p, code, pos, orders(n), mem.live);
        if d.Err? {
          return Err(d.error);
        }
        AppendOp(d.value.0, mem.live, stages);
        ghost var stage := d.value.0.Spec().stage;
        BehindOne(stages, stage, DecodeStages(p, code, d.value.1, orders, n + 1));
        stages := stages + [stage];
        pos, n := d.value.1, n + 1;
      }
      assert stages + [] == stages;
      return Ok(pos);
    }

    method Put(p: Prims, mem: Memory, tuple: Address) returns (r: Result<Option<Address>>)
      requires op.Some? && Valid(mem.live) && mem !in Repr && mem.Valid() && tuple in mem.live && tuple !in Owned()
      modifies Repr - {this}, mem
      ensures mem.Valid() && (r.Ok? ==> Valid(mem.live))
      ensures Outcome(r, Pipeline.Put(p, op.value.Spec(), old(op.value.St(mem.live)), old(mem.live[tuple])),
                      if r.Ok? then op.value.St(mem.live) else Stateless, old(mem.live), mem.live,
                      {tuple} + old(Owned()), Owned())
    {
      r := op.value.Put(p, mem, tuple);
    }

    method Get(p: Prims, mem: Memory) returns (r: Result<Option<Address>>)
      requires op.Some? && Valid(mem.live) && mem !in Repr && mem.Valid()
      modifies Repr - {this}, mem
      ensures mem.Valid() && (r.Ok? ==> Valid(mem.live))
      ensures Outcome(r, Pipeline.Get(p, op.value.Spec(), old(op.value.St(mem.live))),
                      if r.Ok? then op.value.St(mem.live) else Stateless, old(mem.live), mem.live, old(Owned()),
                      Owned())
    {
      r := op.value.Get(p, mem);
    }
  }

  ghost function Behind(stages: seq<Stage>, r: Result<seq<Stage>>): Result<seq<Stage>> {
    match r case Ok(rest) => Ok(stages + rest) case Err(f) => Err(f)
  }

  lemma BehindNothing(r: Result<seq<Stage>>)
    ensures Behind([], r) == r
  {
    if r.Ok? { assert [] + r.value == r.value; }
  }

  lemma BehindOne(stages: seq<Stage>, stage: Stage, rest: Result<seq<Stage>>)
    ensures rest.Ok? ==> stages + ([stage] + rest.value) == stages + [stage] + rest.value
  {}

  /** One turn of the decoder's switch: a new operator object. */
  method DecodeStageOp(p: Prims, code: Bytes, pos: nat, order: Order, ghost live: Heap)
    returns (r: Result<(RelOp, nat)>)
    requires pos < |code| && Chooses(order)
    ensures match DecodeStage(p, code, pos, order)
            case Ok(v) =>
              && r.Ok? && r.value.1 == v.1 && fresh(r.value.0.Repr()) && r.value.0.Valid(live)
              && r.value.0.Spec() == Op.Leaf(v.0) && r.value.0.St(live) == Fresh(Op.Leaf(v.0)) &&
                   r.value.0.Owned() == {}
            case Err(f) => r == Err(f)
  {
    hide DecodeFrom, Counting, Chooses;
    ReadersBounded();
    if code[pos] == FILTER_OP {
      var filter := new Runner();
      var next := filter.Decode(p, code, pos + 1);
      if next.Err? {
        return Err(next.error);
      }
      var o := new FilterOp(filter);
      return Ok((F(o), next.value));
    } else if code[pos] == PROJECT_OP {
      var projects := new Runner();
      var next := projects.Decode(p, code, pos + 1);
      if next.Err? {
        return Err(next.error);
      }
      var o := new ProjectOp(projects);
      return Ok((P(o), next.value));
    } else if code[pos] == GROUPED_AGGREGATE {
      if pos + 1 >= |code| || code[pos + 1] != ARRAY_INT32 {
        return Err(Malformed);
      }
      var indices := DecodeCounted(ReadIndex, code, pos + 2);
      if indices.Err? {
        return Err(indices.error);
      }
      CountingBounded(ReadIndex, code, pos + 2);
      var aggs := DecodeCounted(ReadAgg, code, indices.value.1);
      if aggs.Err? {
        return Err(aggs.error);
      }
      var o := new GroupedAggOp(indices.value.0, aggs.value.0, order);
      return Ok((G(o), aggs.value.1));
    } else if code[pos] == UNGROUPED_AGGREGATE {
      var aggs := DecodeCounted(ReadAgg, code, pos + 1);
      if aggs.Err? {
        return Err(aggs.error);
      }
      var o := new UngroupedAggOp(aggs.value.0);
      return Ok((U(o), aggs.value.1));
    } else {
      return Err(UnknownCode);
    }
  }
}
