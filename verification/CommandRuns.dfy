/** A client that puts its tuples and then asks for results until there is none: its answers are the
    run of the chain. */
module CommandRuns {
  import opened Options
  import opened Operands
  import opened Pipeline
  import opened PipelineMeaning

  type Answer = Result<Option<Tuple>>

  function Puts(xs: seq<Tuple>): seq<Command> {
    if xs == [] then [] else [PutTuple(xs[0])] + Puts(xs[1..])
  }

  function Gets(n: nat): seq<Command> {
    if n == 0 then [] else [GetTuple] + Gets(n - 1)
  }

  predicate NoFailure(answers: seq<Answer>) { forall a | a in answers :: a.Ok? }

  /** The last answer is a null pointer. */
  predicate Concludes(answers: seq<Answer>) { answers != [] && answers[|answers| - 1] == Ok(None) }

  /** The answers that are not null, in order. */
  function Results(answers: seq<Answer>): seq<Tuple> {
    if answers == [] then []
    else (if answers[0].Ok? then Emitted(answers[0].value) else []) + Results(answers[1..])
  }

  lemma FirstAnswer(p: Prims, op: Op, st: State, c: Command, rest: seq<Command>)
    requires Fits(op, st)
    ensures Answers(p, op, st, [c] + rest) ==
            var a := Act(p, op, st, c);
            if a.Err? then [Err(a.error)] else [Ok(a.value.1)] + Answers(p, op, a.value.0, rest)
  {
    hide Act;
    assert ([c] + rest)[1..] == rest;
  }

  lemma OneFailure(f: Fault)
    ensures !NoFailure([Err(f)]) && !Concludes([Err(f)])
  {
    assert Answer.Err(f) in [Answer.Err(f)];
  }

  lemma OneMoreAnswer(t: Option<Tuple>, rest: seq<Answer>)
    ensures NoFailure([Ok(t)] + rest) == NoFailure(rest)
    ensures rest != [] ==> Concludes([Ok(t)] + rest) == Concludes(rest)
    ensures rest == [] ==> Concludes([Ok(t)] + rest) == t.None?
    ensures Results([Ok(t)] + rest) == Emitted(t) + Results(rest)
  {
    assert ([Ok(t)] + rest)[1..] == rest;
    assert forall a :: a in [Ok(t)] + rest <==> a == Ok(t) || a in rest;
  }

  /** Answers that go on as `b` does, after these results. */
  predicate GoesOn(a: seq<Answer>, results: seq<Tuple>, b: seq<Answer>) {
    NoFailure(a) == NoFailure(b) && Concludes(a) == Concludes(b) && Results(a) == results + Results(b)
  }

  lemma OneMoreResult(t: Option<Tuple>, a: seq<Answer>, results: seq<Tuple>, b: seq<Answer>)
    requires a != [] && GoesOn(a, results, b)
    ensures GoesOn([Ok(t)] + a, Emitted(t) + results, b)
  {
    hide NoFailure, Concludes, Results;
    OneMoreAnswer(t, a);
    Reassociate(Emitted(t), results, Results(b));
  }

  /** The answers to the tuples put in, in front of the others. */
  lemma {:induction false} PutAnswers(p: Prims, op: Op, st: State, xs: seq<Tuple>, rest: seq<Command>)
    requires Fits(op, st) && rest != []
    ensures var a, r := Answers(p, op, st, Puts(xs) + rest), PutAll(p, op, st, xs);
      && a != []
      && (if r.Err? then !NoFailure(a) else GoesOn(a, r.value.1, Answers(p, op, r.value.0, rest)))
    decreases |xs|
  {
    hide Put, PutAll, Fits, Answers, GoesOn, NoFailure;
    if xs == [] {
      NothingPut(p, op, st);
      assert Puts(xs) + rest == rest;
      Nonempty(p, op, st, rest);
      SameAnswers(Answers(p, op, st, rest));
    } else {
      assert Puts(xs) + rest == [PutTuple(xs[0])] + (Puts(xs[1..]) + rest);
      FirstAnswer(p, op, st, PutTuple(xs[0]), Puts(xs[1..]) + rest);
      assert xs == [xs[0]] + xs[1..];
      PutOne(p, op, st, xs[0], xs[1..]);
      var r := Put(p, op, st, xs[0]);
      if r.Err? {
        OneFailure(r.error);
      } else {
        PutAnswers(p, op, r.value.0, xs[1..], rest);
        var more := PutAll(p, op, r.value.0, xs[1..]);
        var a := Answers(p, op, r.value.0, Puts(xs[1..]) + rest);
        if more.Ok? {
          OneMoreResult(r.value.1, a, more.value.1, Answers(p, op, more.value.0, rest));
        } else {
          OneMoreAnswer(r.value.1, a);
        }
      }
    }
  }

  lemma SameAnswers(a: seq<Answer>)
    ensures GoesOn(a, [], a)
  {
    assert [] + Results(a) == Results(a);
  }

  lemma NothingPut(p: Prims, op: Op, st: State)
    requires Fits(op, st)
    ensures PutAll(p, op, st, []) == Ok((st, []))
  {}

  lemma Nonempty(p: Prims, op: Op, st: State, commands: seq<Command>)
    requires Fits(op, st) && commands != []
    ensures Answers(p, op, st, commands) != []
  {
    hide Act, Fits;
  }

  /** A drained chain answers null every time. */
  lemma {:induction false} DrainedAnswers(p: Prims, op: Op, st: State, n: nat)
    requires Fits(op, st) && Idle(st)
    ensures var a := Answers(p, op, st, Gets(n));
      NoFailure(a) && Results(a) == [] && |a| == n && (n > 0 ==> Concludes(a))
    decreases n
  {
    hide Get, Fits, Idle, Results, NoFailure, Concludes;
    NoAnswer();
    if n > 0 {
      DrainedIsFresh(p, op, st);
      FirstAnswer(p, op, st, GetTuple, Gets(n - 1));
      DrainedAnswers(p, op, st, n - 1);
      OneMoreAnswer(None, Answers(p, op, st, Gets(n - 1)));
    }
  }

  /** Asking until there is no result is draining. As many calls as the weight of the cached rows,
      and one more, are enough. */
  lemma {:induction false} GetAnswers(p: Prims, op: Op, st: State, n: nat)
    requires Fits(op, st)
    ensures var a, r := Answers(p, op, st, Gets(n)), Drain(p, op, st);
      && (NoFailure(a) && Concludes(a) ==> r.Ok? && Results(a) == r.value.1)
      && (n > Weight(op, st, 0) ==> (NoFailure(a) && Concludes(a) <==> r.Ok?))
    decreases n
  {
    hide Put, Fits, Weight, Results, NoFailure, Concludes;
    NoAnswer();
    if n > 0 {
      FirstAnswer(p, op, st, GetTuple, Gets(n - 1));
      var r := Get(p, op, st);
      if r.Err? {
        OneFailure(r.error);
      } else {
        DrainStep(p, op, st);
        var rest := Answers(p, op, r.value.0, Gets(n - 1));
        OneMoreAnswer(r.value.1, rest);
        if r.value.1.None? {
          DrainedAnswers(p, op, r.value.0, n - 1);
        } else {
          assert Weight(op, r.value.0, 0) + 0 + 1 <= Weight(op, st, 0);
          GetAnswers(p, op, r.value.0, n - 1);
        }
      }
    }
  }

  lemma NoAnswer()
    ensures !Concludes([]) && NoFailure([]) && Results([]) == []
  {}

  /** Putting tuples in and then asking until there is no result: when no answer is a failure and the
      last one is null, the other answers are exactly the run's results; with enough calls that is
      when the run succeeds. */
  lemma CommandsAreTheRun(p: Prims, op: Op, st: State, xs: seq<Tuple>, n: nat)
    requires Fits(op, st) && n > 0
    ensures var a, r := Answers(p, op, st, Puts(xs) + Gets(n)), Run(p, op, st, xs);
      && (NoFailure(a) && Concludes(a) ==> Outputs(r) == Ok(Results(a)))
      && (PutAll(p, op, st, xs).Ok? && n > Weight(op, PutAll(p, op, st, xs).value.0, 0) ==>
            (NoFailure(a) && Concludes(a) <==> r.Ok?))
      && (PutAll(p, op, st, xs).Err? ==> r.Err? && !NoFailure(a))
  {
    hide PutAll, Drain, Fits, Weight, Answers, Results, NoFailure, Concludes;
    PutAnswers(p, op, st, xs, Gets(n));
    var r := PutAll(p, op, st, xs);
    if r.Ok? { GetAnswers(p, op, r.value.0, n); }
  }
}
