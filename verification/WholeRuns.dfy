/** Whole runs: any client's commands against a decoded chain, from its code to the release. */
module WholeRuns {
  import opened Options
  import opened Operands
  import opened Codec
  import opened Pipeline
  import opened PipelineMeaning
  import opened CommandRuns
  import opened RelOps
  import opened ChainWire
  import opened RelationalRunner

  lemma {:induction false} StagesChoose(p: Prims, chain: seq<Sent>, orders: nat -> Order, n: nat)
    requires SendableChain(chain) && forall k: nat :: Chooses(orders(k))
    ensures StagesOf(p, chain, orders, n).Ok? ==> AllChoose(StagesOf(p, chain, orders, n).value)
  {
    hide Chooses;
    if chain != [] { StagesChoose(p, chain[1..], orders, n + 1); }
  }

  /** From bytes to results: the code of a chain decodes to its stages, and a run of them gives out
      the composition of their list functions. */
  lemma CodeToResults(p: Prims, chain: seq<Sent>, orders: nat -> Order, xs: seq<Tuple>)
    requires SendableChain(chain) && chain != [] && forall k: nat :: Chooses(orders(k))
    ensures DecodeStages(p, EncodeChain(chain), 0, orders, 0) == StagesOf(p, chain, orders, 0)
    ensures StagesOf(p, chain, orders, 0).Ok? ==>
              var stages := StagesOf(p, chain, orders, 0).value;
              && AllChoose(stages) && Fits(Chain(stages), Fresh(Chain(stages)))
              && Same(Outputs(Run(p, Chain(stages), Fresh(Chain(stages)), xs)), ChainMeaning(p, stages, xs))
  {
    hide Chooses, ChainMeaning, Run, DecodeStages;
    var code := EncodeChain(chain);
    assert code[0..0 + |code|] == code;
    ChainRoundTrip(p, chain, code, 0, orders, 0);
    StagesChoose(p, chain, orders, 0);
    var stages := StagesOf(p, chain, orders, 0);
    if stages.Ok? { ChainRun(p, stages.value, xs); }
  }

  function AsAnswer(r: Result<Option<Address>>, live: Heap): Result<Option<Tuple>>
    requires r.Ok? && r.value.Some? ==> r.value.value in live
  {
    match r
    case Ok(Some(a)) => Ok(Some(live[a]))
    case Ok(None) => Ok(None)
    case Err(f) => Err(f)
  }

  lemma NothingYet(op: RelOp, live: Heap)
    requires op.Valid(live)
    ensures Conserved(live, live, op.Owned(), op.Owned() + {})
  {
    OwnedLive(op, live);
  }

  lemma OneMore(h: Heap, some: set<Address>, a: Address, t: Tuple)
    requires some <= h.Keys && a !in h
    ensures a !in some && Conserved(h, h[a := t], some, some + {a})
  {}

  lemma MadeLive(h0: Heap, h1: Heap, used: set<Address>, made: set<Address>)
    requires Conserved(h0, h1, used, made)
    ensures made <= h1.Keys
  {}

  // ---------- what the client holds ----------

  ghost function Addresses(given: seq<Address>): set<Address> { set a | a in given }

  /** The tuples handed out, each at an address of its own, hold these rows in this order. */
  ghost predicate GivenRows(live: Heap, given: seq<Address>, rows: seq<Tuple>) {
    && |given| == |rows|
    && (forall i | 0 <= i < |given| :: given[i] in live && live[given[i]] == rows[i])
    && (forall i, j | 0 <= i < j < |given| :: given[i] != given[j])
  }

  /** The held tuples stay as they are. */
  ghost predicate Undisturbed(before: Heap, after: Heap, held: set<Address>) {
    forall a | a in held :: a in before && a in after && after[a] == before[a]
  }

  lemma StillHeld(before: Heap, after: Heap, given: seq<Address>, rows: seq<Tuple>)
    requires GivenRows(before, given, rows) && Undisturbed(before, after, Addresses(given))
    ensures GivenRows(after, given, rows)
  {
    assert forall i | 0 <= i < |given| :: given[i] in Addresses(given);
  }

  function OutSeq(r: Option<Address>): seq<Address> { if r.Some? then [r.value] else [] }

  lemma OneMoreHeld(live: Heap, given: seq<Address>, rows: seq<Tuple>, r: Option<Address>)
    requires GivenRows(live, given, rows) && (r.Some? ==> r.value in live) && Out(r) !! Addresses(given)
    ensures Addresses(given + OutSeq(r)) == Addresses(given) + Out(r)
    ensures GivenRows(live, given + OutSeq(r), rows + Emitted(if r.Some? then Some(live[r.value]) else None))
  {
    assert forall i | 0 <= i < |given| :: given[i] in Addresses(given);
    assert forall a :: a in given + OutSeq(r) <==> a in given || a in OutSeq(r);
  }

  lemma {:induction false} LastResult(answers: seq<Answer>, t: Option<Tuple>)
    ensures Results(answers + [Ok(t)]) == Results(answers) + Emitted(t)
  {
    if answers == [] {
      assert ([] + [Ok(t)])[1..] == [];
    } else {
      LastResult(answers[1..], t);
      assert (answers + [Ok(t)])[1..] == answers[1..] + [Ok(t)];
    }
  }

  /** One call, with the tuples the client holds apart from those the chain works on. */
  lemma Aside(h1: Heap, h2: Heap, handed: set<Address>, used: set<Address>, owned: set<Address>,
              r: Result<Option<Address>>, spec: Stepped, st: State)
    requires Outcome(r, spec, st, h1, h2, used, owned) && handed <= h1.Keys && used !! handed
    ensures r.Ok? ==>
              && Conserved(h1, h2, handed + used, owned + (handed + Out(r.value))) && owned !! handed + Out(r.value)
              && Undisturbed(h1, h2, handed) && Out(r.value) !! handed
  {
    if r.Ok? {
      Untouched(h1, h2, used, owned + Out(r.value), handed);
      ConservedMore(h1, h2, used, owned + Out(r.value), handed);
      assert used + handed == handed + used;
      assert owned + Out(r.value) + handed == owned + (handed + Out(r.value));
    }
  }

  lemma AnswersStep(p: Prims, op: Op, st: State, c: Command, rest: seq<Command>, done: seq<Result<Option<Tuple>>>)
    requires Fits(op, st)
    ensures done + Answers(p, op, st, [c] + rest) ==
            var a := Act(p, op, st, c);
            if a.Err? then done + [Err(a.error)] else (done + [Ok(a.value.1)]) + Answers(p, op, a.value.0, rest)
  {
    hide Act;
    assert ([c] + rest)[1..] == rest;
    var a := Act(p, op, st, c);
    if a.Ok? {
      var more := Answers(p, op, a.value.0, rest);
      assert done + ([Ok(a.value.1)] + more) == (done + [Ok(a.value.1)]) + more;
    }
  }

  lemma NoCommands(p: Prims, op: Op, st: State)
    requires Fits(op, st)
    ensures Answers(p, op, st, []) == []
  {}

  /** One command: a tuple is allocated and put in, or a result is asked for. */
  method Serve(p: Prims, mem: Memory, runner: RelRunner, c: Command, ghost handed: set<Address>)
    returns (r: Result<Option<Address>>)
    requires runner.op.Some? && runner.Valid(mem.live) && mem !in runner.Repr && mem.Valid()
    requires handed <= mem.live.Keys && handed !! runner.Owned()
    modifies runner.Repr - {runner}, mem
    ensures mem.Valid() && (r.Ok? ==> runner.Valid(mem.live))
    ensures r.Ok? ==>
              && Conserved(old(mem.live), mem.live, old(runner.Owned()) + handed,
                           runner.Owned() + (handed + Out(r.value)))
              && runner.Owned() !! handed + Out(r.value)
              && Undisturbed(old(mem.live), mem.live, handed) && Out(r.value) !! handed
    ensures match Act(p, runner.op.value.Spec(), old(runner.op.value.St(mem.live)), c)
            case Err(f) => r == Err(f)
            case Ok(v) =>
              && r.Ok? && runner.op.value.St(mem.live) == v.0
              && (r.value.Some? ==> r.value.value in mem.live) && AsAnswer(r, mem.live) == Ok(v.1)
  {
    hide Conserved, Pipeline.Put, Pipeline.Get, Memory.Valid, Fits, RelOp.St, RelOp.Valid, RelOp.Owned, RelOp.Spec,
      RelOp.Repr;
    ghost var op, heap, own := runner.op.value, mem.live, runner.Owned();
    ghost var st := op.St(heap);
    OwnedLive(op, heap);
    if c.PutTuple? {
      var a := mem.New(c.t);
      ValidElsewhere(op, heap, mem.live);
      OneMore(heap, own + handed, a, c.t);
      ghost var heap2 := mem.live;
      r := runner.Put(p, mem, a);
      Aside(heap2, mem.live, handed, {a} + own, runner.Owned(), r, Act(p, op.Spec(), st, c),
            if r.Ok? then op.St(mem.live) else Stateless);
      if r.Ok? {
        ConservedThen(heap, heap2, mem.live, own + handed, own + handed + {a}, {}, handed + ({a} + own),
                      runner.Owned() + (handed + Out(r.value)), runner.Owned() + (handed + Out(r.value)));
      }
    } else {
      r := runner.Get(p, mem);
      Aside(heap, mem.live, handed, own, runner.Owned(), r, Act(p, op.Spec(), st, c),
            if r.Ok? then op.St(mem.live) else Stateless);
      assert handed + own == own + handed;
    }
  }

  /** Any client: puts tuples it allocates, takes results, keeps what it is handed, and releases the
      chain at the end. The answers are those of the pipeline on values. In a run without a failure the
      tuples given are the results among the answers, in their order and each a tuple of its own, and
      nothing else is left allocated: every other tuple that was put in or made inside has been freed,
      once. */
  method Session(p: Prims, mem: Memory, runner: RelRunner, commands: seq<Command>)
    returns (answers: seq<Answer>, given: seq<Address>, failed: bool)
    requires runner.op.Some? && runner.Valid(mem.live) && mem !in runner.Repr && mem.Valid()
    modifies runner.Repr, mem
    ensures answers == Answers(p, old(runner.op.value.Spec()), old(runner.op.value.St(mem.live)), commands)
    ensures failed == !NoFailure(answers)
    ensures !failed ==>
              && Conserved(old(mem.live), mem.live, old(runner.Owned()), Addresses(given))
              && GivenRows(mem.live, given, Results(answers))
              && runner.op == None
  {
    hide Conserved, Act, Answers, Results, Memory.Valid, Fits, GivenRows, Undisturbed, Addresses;
    hide RelOp.St, RelOp.Valid, RelOp.Owned, RelOp.Spec, RelOp.Repr;
    ghost var heap0, own0, op := mem.live, runner.Owned(), runner.op.value;
    ghost var spec, st0 := op.Spec(), op.St(mem.live);
    NothingYet(op, mem.live);
    answers, given := [], [];
    NothingHeld(mem.live);
    var i := 0;
    while i < |commands|
      invariant 0 <= i <= |commands| && mem.Valid() && runner.Valid(mem.live) && runner.op == Some(op) &&
                mem !in runner.Repr
      invariant runner.Repr == old(runner.Repr)
      invariant |answers| == i
      invariant Answers(p, spec, st0, commands) == answers + Answers(p, spec, op.St(mem.live), commands[i..])
      invariant Conserved(heap0, mem.live, own0, runner.Owned() + Addresses(given)) &&
                runner.Owned() !! Addresses(given)
      invariant NoFailure(answers) && GivenRows(mem.live, given, Results(answers))
    {
      ghost var heap1, own1, st1, handed := mem.live, runner.Owned(), op.St(mem.live), Addresses(given);
      MadeLive(heap0, heap1, own0, own1 + handed);
      assert commands[i..] == [commands[i]] + commands[i + 1..];
      AnswersStep(p, spec, st1, commands[i], commands[i + 1..], answers);
      var r := Serve(p, mem, runner, commands[i], handed);
      if r.Err? {
        answers := answers + [Err(r.error)];
        assert answers[i] == Err(r.error);
        return answers, given, true;
      }
      ConservedThen(heap0, heap1, mem.live, own0, own1 + handed, {}, own1 + handed,
                    runner.Owned() + (handed + Out(r.value)), runner.Owned() + (handed + Out(r.value)));
      StillHeld(heap1, mem.live, given, Results(answers));
      OneMoreHeld(mem.live, given, Results(answers), r.value);
      LastResult(answers, AsAnswer(r, mem.live).value);
      answers, given, i := answers + [AsAnswer(r, mem.live)], given + OutSeq(r.value), i + 1;
    }
    NoCommands(p, spec, op.St(mem.live));
    assert commands[i..] == [] && answers + [] == answers;
    ghost var heap3, handed := mem.live, Addresses(given);
    MadeLive(heap0, heap3, own0, op.Owned() + handed);
    runner.Release(mem);
    LeftAlone(heap3, mem.live, op.Owned(), {}, handed);
    StillHeld(heap3, mem.live, given, Results(answers));
    ConservedThen(heap0, heap3, mem.live, own0, op.Owned() + handed, handed, op.Owned(), {}, handed);
    return answers, given, false;
  }

  lemma NothingHeld(live: Heap)
    ensures GivenRows(live, [], Results([])) && Addresses([]) == {}
  {}

  lemma LeftAlone(before: Heap, after: Heap, used: set<Address>, made: set<Address>, held: set<Address>)
    requires Conserved(before, after, used, made) && held <= before.Keys && held !! used
    ensures Undisturbed(before, after, held)
  {
    Untouched(before, after, used, made, held);
  }

  /** From code to results, by way of the objects: a decoded chain that is given tuples and then asked
      `n` times. When no answer is a failure and the last one is null, the other answers are the
      composition of the stages' list functions; the tuples given hold them, and only they are still
      allocated. */
  method Query(p: Prims, mem: Memory, runner: RelRunner, code: Bytes, orders: nat -> Order, xs: seq<Tuple>, n: nat)
    returns (answers: Result<seq<Answer>>, given: seq<Address>)
    requires runner.Valid(mem.live) && mem !in runner.Repr && mem.Valid()
    requires code != [] && n > 0 && forall k: nat :: Chooses(orders(k))
    modifies runner.Repr, mem
    ensures match DecodeStages(p, code, 0, orders, 0)
            case Err(f) => answers == Err(f) && Conserved(old(mem.live), mem.live, old(runner.Owned()), {})
            case Ok(stages) =>
              && stages != [] && AllChoose(stages) && answers.Ok?
              && (NoFailure(answers.value) && Concludes(answers.value) ==>
                    ChainMeaning(p, stages, xs) == Ok(Results(answers.value)))
              && (NoFailure(answers.value) ==>
                    && Conserved(old(mem.live), mem.live, old(runner.Owned()), Addresses(given))
                    && GivenRows(mem.live, given, Results(answers.value)))
  {
    hide Chooses, Conserved, ChainMeaning, Memory.Valid, GivenRows, Addresses, Results;
    hide RelOp.St, RelOp.Valid, RelOp.Owned, RelOp.Spec, RelOp.Repr;
    ghost var heap0, own0 := mem.live, runner.Owned();
    StagesFromCode(p, code, orders);
    var d := runner.Decode(p, mem, code, orders);
    if d.Err? {
      return Err(d.error), [];
    }
    ghost var heap1, stages := mem.live, DecodeStages(p, code, 0, orders, 0).value;
    var commands := Puts(xs) + Gets(n);
    var served, failed;
    served, given, failed := Session(p, mem, runner, commands);
    ChainRun(p, stages, xs);
    CommandsAreTheRun(p, Chain(stages), Fresh(Chain(stages)), xs, n);
    if !failed { ConservedThen(heap0, heap1, mem.live, own0, {}, {}, {}, Addresses(given), Addresses(given)); }
    return Ok(served), given;
  }

  lemma StagesFromCode(p: Prims, code: Bytes, orders: nat -> Order)
    requires code != [] && forall k: nat :: Chooses(orders(k))
    ensures var r := DecodeStages(p, code, 0, orders, 0); r.Ok? ==> r.value != [] && AllChoose(r.value)
  {
    DecodedChoose(p, code, 0, orders, 0);
  }

  lemma {:induction false} DecodedChoose(p: Prims, code: Bytes, pos: nat, orders: nat -> Order, n: nat)
    requires pos <= |code| && forall k: nat :: Chooses(orders(k))
    ensures DecodeStages(p, code, pos, orders, n).Ok? ==> AllChoose(DecodeStages(p, code, pos, orders, n).value)
    decreases |code| - pos
  {
    hide Chooses, DecodeStage;
    if pos < |code| {
      var v := DecodeStage(p, code, pos, orders(n));
      if v.Ok? { DecodedChoose(p, code, v.value.1, orders, n + 1); }
    }
  }
}
