/** What a chain of stages computes: tuples put in, then results taken out until none is left, is the
    composition of the stages' list functions. Tandems are associative, and draining ends. */
module PipelineMeaning {
  import opened Options
  import opened Operands
  import opened Operators
  import opened Pipeline
  import opened Grouping

  type Ran = Result<(State, seq<Tuple>)>

  /** Equal up to which of two failures is met first. */
  ghost predicate Same<T>(r: Result<T>, q: Result<T>) {
    if r.Ok? then q == r else q.Err?
  }

  function Emitted(t: Option<Tuple>): seq<Tuple> {
    if t.Some? then [t.value] else []
  }

  /** Every tuple put in; the results that come out at once. */
  function PutAll(p: Prims, op: Op, st: State, xs: seq<Tuple>): (r: Ran)
    requires Fits(op, st)
    ensures r.Ok? ==> Fits(op, r.value.0)
    decreases |xs|
  {
    if xs == [] then Ok((st, []))
    else
      var a :- Put(p, op, st, xs[0]);
      var rest :- PutAll(p, op, a.0, xs[1..]);
      Ok((rest.0, Emitted(a.1) + rest.1))
  }

  /** Results taken out until none is left. There are at most as many as the weight of the rows. */
  ghost function Drain(p: Prims, op: Op, st: State): (r: Ran)
    requires Fits(op, st)
    ensures r.Ok? ==> Fits(op, r.value.0) && Idle(r.value.0) && |r.value.1| <= Weight(op, st, 0)
    decreases Weight(op, st, 0)
  {
    var a :- Get(p, op, st);
    if a.1.None? then Ok((a.0, []))
    else
      var rest :- Drain(p, op, a.0);
      Ok((rest.0, [a.1.value] + rest.1))
  }

  /** A whole run. */
  ghost function Run(p: Prims, op: Op, st: State, xs: seq<Tuple>): (r: Ran)
    requires Fits(op, st)
    ensures r.Ok? ==> Fits(op, r.value.0) && Idle(r.value.0)
  {
    var a :- PutAll(p, op, st, xs);
    var b :- Drain(p, op, a.0);
    Ok((b.0, a.1 + b.1))
  }

  // ---------- a drained chain ----------

  /** The counters of drawn groups aside, which only index the choices of the hash maps. */
  function Forget(st: State): State {
    match st
    case Groups(m, _) => Groups(m, 0)
    case Pair(i, o) => Pair(Forget(i), Forget(o))
    case _ => st
  }

  /** A drained chain is as freshly decoded, and keeps answering that there is nothing. */
  lemma {:induction false} DrainedIsFresh(p: Prims, op: Op, st: State)
    requires Fits(op, st) && Idle(st)
    ensures Forget(st) == Fresh(op)
    ensures Get(p, op, st) == Ok((st, None))
  {
    match op
    case Leaf(_) =>
    case Tandem(i, o) =>
      DrainedIsFresh(p, i, st.input);
      DrainedIsFresh(p, o, st.output);
  }

  // ---------- a tandem is a composition ----------

  lemma {:induction false} PutAllAppend(p: Prims, op: Op, st: State, xs: seq<Tuple>, ys: seq<Tuple>)
    requires Fits(op, st)
    ensures PutAll(p, op, st, xs + ys) ==
            var a := PutAll(p, op, st, xs);
            if a.Err? then a
            else
              var b := PutAll(p, op, a.value.0, ys);
              if b.Err? then b else Ok((b.value.0, a.value.1 + b.value.1))
    decreases |xs|
  {
    hide Put, Fits;
    if xs == [] {
      assert xs + ys == ys;
      var b := PutAll(p, op, st, ys);
      if b.Ok? { assert [] + b.value.1 == b.value.1; }
    } else {
      assert (xs + ys)[0] == xs[0] && (xs + ys)[1..] == xs[1..] + ys;
      var a := Put(p, op, st, xs[0]);
      if a.Ok? {
        PutAllAppend(p, op, a.value.0, xs[1..], ys);
        var b, c := PutAll(p, op, a.value.0, xs[1..]), PutAll(p, op, st, xs + ys);
        if c.Ok? {
          Reassociate(Emitted(a.value.1), b.value.1, PutAll(p, op, b.value.0, ys).value.1);
        }
      }
    }
  }

  lemma Reassociate(a: seq<Tuple>, b: seq<Tuple>, c: seq<Tuple>)
    ensures a + (b + c) == (a + b) + c
  {}

  /** The input's results put into the output. */
  function Through(p: Prims, i: Op, o: Op, a: State, b: State, xs: seq<Tuple>): Ran
    requires Fits(i, a) && Fits(o, b)
  {
    var x :- PutAll(p, i, a, xs);
    var y :- PutAll(p, o, b, x.1);
    Ok((Pair(x.0, y.0), y.1))
  }

  ghost function Before(ts: seq<Tuple>, r: Ran): Ran {
    if r.Err? then r else Ok((r.value.0, ts + r.value.1))
  }

  lemma BeforeNothing(r: Ran)
    ensures Before([], r) == r
  {
    if r.Ok? { assert [] + r.value.1 == r.value.1; }
  }

  lemma PutTandem(p: Prims, i: Op, o: Op, a: State, b: State, t: Tuple)
    requires Fits(i, a) && Fits(o, b)
    ensures Put(p, Tandem(i, o), Pair(a, b), t) ==
            var x := Put(p, i, a, t);
            if x.Err? then Err(x.error)
            else if x.value.1.None? then Ok((Pair(x.value.0, b), None))
            else
              var y := Put(p, o, b, x.value.1.value);
              if y.Err? then Err(y.error) else Ok((Pair(x.value.0, y.value.0), y.value.1))
  {}

  lemma PutOne(p: Prims, op: Op, st: State, x: Tuple, xs: seq<Tuple>)
    requires Fits(op, st)
    ensures PutAll(p, op, st, [x] + xs) ==
            var a := Put(p, op, st, x);
            if a.Err? then Err(a.error) else Before(Emitted(a.value.1), PutAll(p, op, a.value.0, xs))
  {
    assert ([x] + xs)[1..] == xs;
  }

  /** One tuple that the input keeps or drops. */
  lemma ThroughKept(p: Prims, i: Op, o: Op, a: State, b: State, x: Tuple, xs: seq<Tuple>)
    requires Fits(i, a) && Fits(o, b) && Put(p, i, a, x).Ok? && Put(p, i, a, x).value.1.None?
    ensures Through(p, i, o, a, b, [x] + xs) == Through(p, i, o, Put(p, i, a, x).value.0, b, xs)
  {
    hide Put, PutAll;
    PutOne(p, i, a, x, xs);
    BeforeNothing(PutAll(p, i, Put(p, i, a, x).value.0, xs));
  }

  /** One tuple that goes on to the output. */
  lemma ThroughPassed(p: Prims, i: Op, o: Op, a: State, b: State, x: Tuple, xs: seq<Tuple>)
    requires Fits(i, a) && Fits(o, b) && Put(p, i, a, x).Ok? && Put(p, i, a, x).value.1.Some?
    ensures var r := Put(p, i, a, x).value;
      var y := Put(p, o, b, r.1.value);
      Same(Through(p, i, o, a, b, [x] + xs),
           if y.Err? then Err(y.error) else Before(Emitted(y.value.1), Through(p, i, o, r.0, y.value.0, xs)))
  {
    hide Put, PutAll;
    PutOne(p, i, a, x, xs);
    var r := Put(p, i, a, x).value;
    var rest := PutAll(p, i, r.0, xs);
    if rest.Ok? { PutOne(p, o, b, r.1.value, rest.value.1); }
  }

  lemma {:induction false} PutAllTandem(p: Prims, i: Op, o: Op, a: State, b: State, xs: seq<Tuple>)
    requires Fits(i, a) && Fits(o, b)
    ensures Same(PutAll(p, Tandem(i, o), Pair(a, b), xs), Through(p, i, o, a, b, xs))
    decreases |xs|
  {
    if xs != [] {
      hide Put, PutAll, Through;
      assert xs == [xs[0]] + xs[1..];
      PutTandem(p, i, o, a, b, xs[0]);
      PutOne(p, Tandem(i, o), Pair(a, b), xs[0], xs[1..]);
      var x := Put(p, i, a, xs[0]);
      if x.Err? {
        ThroughFails(p, i, o, a, b, xs);
      } else if x.value.1.None? {
        ThroughKept(p, i, o, a, b, xs[0], xs[1..]);
        PutAllTandem(p, i, o, x.value.0, b, xs[1..]);
        BeforeNothing(PutAll(p, Tandem(i, o), Pair(x.value.0, b), xs[1..]));
      } else {
        ThroughPassed(p, i, o, a, b, xs[0], xs[1..]);
        var y := Put(p, o, b, x.value.1.value);
        if y.Ok? { PutAllTandem(p, i, o, x.value.0, y.value.0, xs[1..]); }
      }
    }
  }

  lemma ThroughFails(p: Prims, i: Op, o: Op, a: State, b: State, xs: seq<Tuple>)
    requires Fits(i, a) && Fits(o, b) && xs != [] && Put(p, i, a, xs[0]).Err?
    ensures Through(p, i, o, a, b, xs).Err?
  {}

  /** A tandem's answer, given the input's: its loop unrolled once. */
  ghost function AfterInput(p: Prims, i: Op, o: Op, x: Stepped, b: State): Stepped
    requires Fits(o, b) && (x.Ok? ==> Fits(i, x.value.0))
  {
    if x.Err? then x
    else if x.value.1.Some? then
      var y := Put(p, o, b, x.value.1.value);
      if y.Err? then y
      else if y.value.1.Some? then Ok((Pair(x.value.0, y.value.0), y.value.1))
      else Get(p, Tandem(i, o), Pair(x.value.0, y.value.0))
    else
      var y := Get(p, o, b);
      if y.Err? then y else Ok((Pair(x.value.0, y.value.0), y.value.1))
  }

  lemma GetTandem(p: Prims, i: Op, o: Op, a: State, b: State)
    requires Fits(i, a) && Fits(o, b)
    ensures Get(p, Tandem(i, o), Pair(a, b)) == AfterInput(p, i, o, Get(p, i, a), b)
  {}

  /** What the input gives up put into the output, then what the output gives up. */
  ghost function DrainThrough(p: Prims, i: Op, o: Op, a: State, b: State): Ran
    requires Fits(i, a) && Fits(o, b)
  {
    var x :- Drain(p, i, a);
    var y :- PutAll(p, o, b, x.1);
    var z :- Drain(p, o, y.0);
    Ok((Pair(x.0, z.0), y.1 + z.1))
  }

  /** One result of the input on its way through the output. */
  lemma DrainThroughStep(p: Prims, i: Op, o: Op, a: State, b: State)
    requires Fits(i, a) && Fits(o, b) && Get(p, i, a).Ok? && Get(p, i, a).value.1.Some?
    requires Put(p, o, b, Get(p, i, a).value.1.value).Ok?
    ensures var x := Get(p, i, a).value;
      var y := Put(p, o, b, x.1.value).value;
      DrainThrough(p, i, o, a, b) == Before(Emitted(y.1), DrainThrough(p, i, o, x.0, y.0))
  {
    hide Get, Put, PutAll, Drain, Fits;
    var x := Get(p, i, a).value;
    var y := Put(p, o, b, x.1.value).value;
    DrainStep(p, i, a);
    var rest := Drain(p, i, x.0);
    if rest.Ok? {
      PutOne(p, o, b, x.1.value, rest.value.1);
      var r := PutAll(p, o, y.0, rest.value.1);
      if r.Ok? {
        var z := Drain(p, o, r.value.0);
        if z.Ok? { Reassociate(Emitted(y.1), r.value.1, z.value.1); }
      }
    }
  }

  /** When the input has nothing left, only the output is drained. */
  lemma DrainThroughLast(p: Prims, i: Op, o: Op, a: State, b: State)
    requires Fits(i, a) && Fits(o, b) && Get(p, i, a).Ok? && Get(p, i, a).value.1.None?
    ensures DrainThrough(p, i, o, a, b) ==
            var x, z := Get(p, i, a).value, Drain(p, o, b);
            if z.Err? then Err(z.error) else Ok((Pair(x.0, z.value.0), z.value.1))
  {
    hide Get, Put, Fits;
    var z := Drain(p, o, b);
    if z.Ok? { assert [] + z.value.1 == z.value.1; }
  }

  lemma DrainStep(p: Prims, op: Op, st: State)
    requires Fits(op, st) && Get(p, op, st).Ok?
    ensures Drain(p, op, st) ==
            var a := Get(p, op, st).value;
            if a.1.None? then Ok((a.0, [])) else Before([a.1.value], Drain(p, op, a.0))
  {}

  lemma {:induction false} DrainTandem(p: Prims, i: Op, o: Op, a: State, b: State)
    requires Fits(i, a) && Fits(o, b)
    ensures Same(Drain(p, Tandem(i, o), Pair(a, b)), DrainThrough(p, i, o, a, b))
    decreases Weight(Tandem(i, o), Pair(a, b), 0)
  {
    var op, st := Tandem(i, o), Pair(a, b);
    GetTandem(p, i, o, a, b);
    var x := Get(p, i, a);
    if x.Ok? && x.value.1.Some? {
      var y := Put(p, o, b, x.value.1.value);
      if y.Ok? {
        DrainThroughStep(p, i, o, a, b);
        StepWeight(p, i, o, a, b);
        DrainTandem(p, i, o, x.value.0, y.value.0);
        if y.value.1.Some? {
          DrainStep(p, op, st);
        } else {
          BeforeNothing(DrainThrough(p, i, o, x.value.0, y.value.0));
          assert Drain(p, op, st) == Drain(p, op, Pair(x.value.0, y.value.0));
        }
      }
    } else if x.Ok? {
      DrainThroughLast(p, i, o, a, b);
      DrainLast(p, i, o, a, b);
    }
  }

  /** Each result the input gives up lowers the weight of the tandem. */
  lemma StepWeight(p: Prims, i: Op, o: Op, a: State, b: State)
    requires Fits(i, a) && Fits(o, b) && Get(p, i, a).Ok? && Get(p, i, a).value.1.Some?
    requires Put(p, o, b, Get(p, i, a).value.1.value).Ok?
    ensures var x := Get(p, i, a).value;
      Weight(Tandem(i, o), Pair(x.0, Put(p, o, b, x.1.value).value.0), 0) < Weight(Tandem(i, o), Pair(a, b), 0)
  {
    hide Get, Put, Fits;
    var x := Get(p, i, a).value;
    PutWeights(p, o, b, x.1.value);
    assert Weight(i, x.0, Leaves(o)) + Leaves(o) + 1 <= Weight(i, a, Leaves(o));
  }

  /** With a drained input, a tandem drains its output, asking the input again every time. */
  lemma {:induction false} DrainLast(p: Prims, i: Op, o: Op, a: State, b: State)
    requires Fits(i, a) && Fits(o, b) && Get(p, i, a).Ok? && Get(p, i, a).value.1.None?
    ensures Drain(p, Tandem(i, o), Pair(a, b)) ==
            var x, z := Get(p, i, a).value, Drain(p, o, b);
            if z.Err? then Err(z.error) else Ok((Pair(x.0, z.value.0), z.value.1))
    decreases Weight(o, b, 0)
  {
    GetTandem(p, i, o, a, b);
    var a', y := Get(p, i, a).value.0, Get(p, o, b);
    DrainedIsFresh(p, i, a');
    if y.Ok? {
      DrainStep(p, Tandem(i, o), Pair(a, b));
      DrainStep(p, o, b);
      if y.value.1.Some? {
        assert Weight(o, y.value.0, 0) + 0 + 1 <= Weight(o, b, 0);
        DrainLast(p, i, o, a', y.value.0);
      }
    }
  }

  /** A run of the input, then a run of the output on its results. */
  ghost function Composed(p: Prims, i: Op, o: Op, a: State, b: State, xs: seq<Tuple>): Ran
    requires Fits(i, a) && Fits(o, b)
  {
    var x :- Run(p, i, a, xs);
    var y :- Run(p, o, b, x.1);
    Ok((Pair(x.0, y.0), y.1))
  }

  /** A tandem composes the runs of its two parts, from whatever states they start. */
  lemma TandemComposes(p: Prims, i: Op, o: Op, a: State, b: State, xs: seq<Tuple>)
    requires Fits(i, a) && Fits(o, b)
    ensures Same(Run(p, Tandem(i, o), Pair(a, b), xs), Composed(p, i, o, a, b, xs))
  {
    hide PutAll, Drain, Put, Get, Fits, Weight;
    PutAllTandem(p, i, o, a, b, xs);
    var x1 := PutAll(p, i, a, xs);
    if x1.Ok? {
      var x2 := Drain(p, i, x1.value.0);
      var y1 := PutAll(p, o, b, x1.value.1);
      if x2.Ok? { PutAllAppend(p, o, b, x1.value.1, x2.value.1); }
      if y1.Ok? {
        DrainTandem(p, i, o, x1.value.0, y1.value.0);
        if x2.Ok? {
          var y2 := PutAll(p, o, y1.value.0, x2.value.1);
          if y2.Ok? {
            var z := Drain(p, o, y2.value.0);
            if z.Ok? { Reassociate(y1.value.1, y2.value.1, z.value.1); }
          }
        }
      }
    }
  }

  // ---------- the list functions ----------

  function KeepAll(p: Prims, ops: seq<Operator>, xs: seq<Tuple>): Result<seq<Tuple>> {
    if xs == [] then Ok([])
    else
      var ok :- Accepts(p, ops, xs[0]);
      var rest :- KeepAll(p, ops, xs[1..]);
      Ok(if ok then [xs[0]] + rest else rest)
  }

  function MapAll(p: Prims, ops: seq<Operator>, xs: seq<Tuple>): Result<seq<Tuple>> {
    if xs == [] then Ok([])
    else
      var t :- Exec(p, ops, [], Some(xs[0]));
      var rest :- MapAll(p, ops, xs[1..]);
      Ok([t] + rest)
  }

  /** The list function of a stage; a grouped stage has drawn `drawn` groups before. */
  ghost function StageMeaning(p: Prims, stage: Stage, drawn: nat, xs: seq<Tuple>): Result<seq<Tuple>>
    requires stage.Grouped? ==> Chooses(stage.order)
  {
    match stage
    case Filter(ops) => KeepAll(p, ops, xs)
    case Project(ops) => MapAll(p, ops, xs)
    case Grouped(indices, aggs, order) =>
      if Foldable(p, indices, aggs, xs) then Ok(DrainedRows(order, drawn, GroupBy(p, indices, aggs, xs)))
      else Err(Undefined)
    case Ungrouped(aggs) =>
      if xs == [] then Ok([])
      else
        var row :- FoldTuples(p, aggs, xs);
        Ok([row])
  }

  /** The composition of the list functions, from a drained state. */
  ghost function Denote(p: Prims, op: Op, st: State, xs: seq<Tuple>): Result<seq<Tuple>>
    requires Fits(op, st)
  {
    match op
    case Leaf(stage) => StageMeaning(p, stage, if st.Groups? then st.drawn else 0, xs)
    case Tandem(i, o) =>
      var ys :- Denote(p, i, st.input, xs);
      Denote(p, o, st.output, ys)
  }

  lemma {:induction false} FilterRun(p: Prims, ops: seq<Operator>, xs: seq<Tuple>)
    ensures PutAll(p, Leaf(Filter(ops)), Stateless, xs) ==
            match KeepAll(p, ops, xs) case Ok(ys) => Ok((Stateless, ys)) case Err(f) => Err(f)
  {
    hide Accepts;
    if xs != [] {
      FilterRun(p, ops, xs[1..]);
      var rest := KeepAll(p, ops, xs[1..]);
      if rest.Ok? { assert [] + rest.value == rest.value; }
    }
  }

  lemma {:induction false} ProjectRun(p: Prims, ops: seq<Operator>, xs: seq<Tuple>)
    ensures PutAll(p, Leaf(Project(ops)), Stateless, xs) ==
            match MapAll(p, ops, xs) case Ok(ys) => Ok((Stateless, ys)) case Err(f) => Err(f)
  {
    hide Exec;
    if xs != [] { ProjectRun(p, ops, xs[1..]); }
  }

  /** Tuples that cannot be grouped cannot be grouped with more tuples either. */
  lemma {:induction false} FoldablePrefix(p: Prims, indices: seq<int>, aggs: seq<Agg>, xs: seq<Tuple>, ys: seq<Tuple>)
    requires Foldable(p, indices, aggs, xs + ys)
    ensures Foldable(p, indices, aggs, xs)
    decreases |ys|
  {
    hide MapTuple, AddAll, FoldTuples, Members;
    if ys == [] {
      assert xs + ys == xs;
    } else {
      var n := |ys| - 1;
      var zs, y := xs + ys[..n], ys[n];
      assert xs + ys == zs + [y];
      assert forall z :: z in zs + [y] <==> z in zs || z == y;
      forall k | k in KeySet(indices, zs)
        ensures FoldTuples(p, aggs, Members(indices, zs, k)).Ok?
      {
        assert k in KeySet(indices, xs + ys);
        LastMember(indices, zs, y, k);
        if MapTuple(y, indices) == Ok(k) {
          LastFold(p, aggs, Members(indices, zs, k), y);
        } else {
          assert Members(indices, zs, k) + [] == Members(indices, zs, k);
        }
      }
      FoldablePrefix(p, indices, aggs, xs, ys[..n]);
    }
  }

  /** Tuples put one after the other into the group-by of others leave the group-by of all of them. */
  lemma {:induction false} GroupedRun(p: Prims, stage: Stage, drawn: nat, xs: seq<Tuple>, ys: seq<Tuple>)
    requires stage.Grouped? && Chooses(stage.order) && Foldable(p, stage.indices, stage.aggs, xs)
    ensures var st := Groups(GroupBy(p, stage.indices, stage.aggs, xs), drawn);
      && Fits(Leaf(stage), st)
      && (PutAll(p, Leaf(stage), st, ys).Ok? <==> Foldable(p, stage.indices, stage.aggs, xs + ys))
      && (Foldable(p, stage.indices, stage.aggs, xs + ys) ==>
            PutAll(p, Leaf(stage), st, ys) == Ok((Groups(GroupBy(p, stage.indices, stage.aggs, xs + ys), drawn), [])))
    decreases |ys|
  {
    hide PutStage, Foldable, Chooses, GroupBy;
    var st := Groups(GroupBy(p, stage.indices, stage.aggs, xs), drawn);
    if ys == [] {
      GroupsFit(p, stage, drawn, xs);
      assert xs + ys == xs;
    } else {
      GroupOneMore(p, stage.indices, stage.aggs, stage.order, xs, ys[0], drawn);
      var zs := xs + [ys[0]];
      assert zs + ys[1..] == xs + ys;
      assert Emitted(None) + [] == [];
      if Foldable(p, stage.indices, stage.aggs, zs) {
        GroupedRun(p, stage, drawn, zs, ys[1..]);
      } else if Foldable(p, stage.indices, stage.aggs, xs + ys) {
        FoldablePrefix(p, stage.indices, stage.aggs, zs, ys[1..]);
      }
    }
  }

  lemma GroupsFit(p: Prims, stage: Stage, drawn: nat, xs: seq<Tuple>)
    requires stage.Grouped? && Chooses(stage.order) && Foldable(p, stage.indices, stage.aggs, xs)
    ensures Fits(Leaf(stage), Groups(GroupBy(p, stage.indices, stage.aggs, xs), drawn))
  {}

  lemma GroupedStep(p: Prims, stage: Stage, st: State)
    requires stage.Grouped? && Fits(Leaf(stage), st) && st.caches != map[]
    ensures var k := stage.order(st.drawn, st.caches);
      var st' := Groups(st.caches - {k}, st.drawn + 1);
      && k in st.caches && Fits(Leaf(stage), st')
      && Drain(p, Leaf(stage), st) == Before([k + st.caches[k]], Drain(p, Leaf(stage), st'))
      && DrawnKeys(stage.order, st.drawn, st.caches) == [k] + DrawnKeys(stage.order, st.drawn + 1, st.caches - {k})
  {
    hide Drain;
    DrainStep(p, Leaf(stage), st);
  }

  /** Draining a grouped stage gives each group once, in the order its map chooses. */
  lemma {:induction false} GroupedDrain(p: Prims, stage: Stage, st: State)
    requires stage.Grouped? && Fits(Leaf(stage), st)
    ensures Drain(p, Leaf(stage), st).Ok?
    ensures Drain(p, Leaf(stage), st).value.1 == DrainedRows(stage.order, st.drawn, st.caches)
    decreases |st.caches|
  {
    var m, order := st.caches, stage.order;
    if m == map[] {
      DrainStep(p, Leaf(stage), st);
    } else {
      GroupedStep(p, stage, st);
      Pick(order, st.drawn, m);
      hide Drain, Chooses, Within, RowsOf, DrawnKeys;
      var k := order(st.drawn, m);
      var st' := Groups(m - {k}, st.drawn + 1);
      GroupedDrain(p, stage, st');
      RowsOfRest(m, k, DrawnKeys(order, st'.drawn, st'.caches));
    }
  }

  lemma RowsOfRest(m: map<Tuple, Tuple>, k: Tuple, keys: seq<Tuple>)
    requires k in m && Within(keys, m - {k})
    ensures Within([k] + keys, m)
    ensures RowsOf(m, [k] + keys) == [k + m[k]] + RowsOf(m - {k}, keys)
  {}

  /** The cache of an ungrouped stage after some tuples. */
  function CacheOf(p: Prims, aggs: seq<Agg>, xs: seq<Tuple>): Result<State> {
    if xs == [] then Ok(Cache(None))
    else
      var row :- FoldTuples(p, aggs, xs);
      Ok(Cache(Some(row)))
  }

  lemma {:induction false} UngroupedRun(p: Prims, aggs: seq<Agg>, xs: seq<Tuple>, ys: seq<Tuple>)
    requires CacheOf(p, aggs, xs).Ok?
    ensures PutAll(p, Leaf(Ungrouped(aggs)), CacheOf(p, aggs, xs).value, ys) ==
            match CacheOf(p, aggs, xs + ys) case Ok(st) => Ok((st, [])) case Err(f) => Err(f)
    decreases |ys|
  {
    hide AddAll;
    if ys == [] {
      assert xs + ys == xs;
    } else {
      var zs := xs + [ys[0]];
      assert zs + ys[1..] == xs + ys;
      LastFold(p, aggs, xs, ys[0]);
      assert Emitted(None) + [] == [];
      if CacheOf(p, aggs, zs).Ok? {
        UngroupedRun(p, aggs, zs, ys[1..]);
      } else {
        FailedFold(p, aggs, zs, ys[1..]);
      }
    }
  }

  lemma {:induction false} FailedFold(p: Prims, aggs: seq<Agg>, xs: seq<Tuple>, ys: seq<Tuple>)
    requires FoldTuples(p, aggs, xs).Err?
    ensures FoldTuples(p, aggs, xs + ys) == FoldTuples(p, aggs, xs)
    decreases |ys|
  {
    if ys == [] {
      assert xs + ys == xs;
    } else {
      var n := |ys| - 1;
      assert xs + ys == (xs + ys[..n]) + [ys[n]];
      LastFold(p, aggs, xs + ys[..n], ys[n]);
      FailedFold(p, aggs, xs, ys[..n]);
    }
  }

  ghost function Outputs(r: Ran): Result<seq<Tuple>> {
    if r.Ok? then Ok(r.value.1) else Err(r.error)
  }

  lemma StageRun(p: Prims, stage: Stage, st: State, xs: seq<Tuple>)
    requires Fits(Leaf(stage), st) && Idle(st)
    ensures Same(Outputs(Run(p, Leaf(stage), st, xs)), Denote(p, Leaf(stage), st, xs))
  {
    hide PutStage, KeepAll, MapAll, FoldTuples, Chooses;
    match stage
    case Filter(ops) =>
      FilterRun(p, ops, xs);
      DrainStep(p, Leaf(stage), Stateless);
      var ys := KeepAll(p, ops, xs);
      if ys.Ok? { assert ys.value + [] == ys.value; }
    case Project(ops) =>
      ProjectRun(p, ops, xs);
      DrainStep(p, Leaf(stage), Stateless);
      var ys := MapAll(p, ops, xs);
      if ys.Ok? { assert ys.value + [] == ys.value; }
    case Grouped(indices, aggs, order) =>
      NothingGrouped(p, indices, aggs);
      GroupedRun(p, stage, st.drawn, [], xs);
      assert [] + xs == xs;
      var a := PutAll(p, Leaf(stage), st, xs);
      if a.Ok? {
        GroupedDrain(p, stage, a.value.0);
        assert [] + Drain(p, Op.Leaf(stage), a.value.0).value.1 == Drain(p, Op.Leaf(stage), a.value.0).value.1;
      }
    case Ungrouped(aggs) =>
      UngroupedRun(p, aggs, [], xs);
      assert [] + xs == xs;
      var a := PutAll(p, Leaf(stage), st, xs);
      if a.Ok? {
        UngroupedDrain(p, aggs, a.value.0);
        assert [] + Emitted(a.value.0.cache) == Emitted(a.value.0.cache);
      }
  }

  lemma NothingGrouped(p: Prims, indices: seq<int>, aggs: seq<Agg>)
    ensures Foldable(p, indices, aggs, []) && GroupBy(p, indices, aggs, []) == map[]
  {}

  lemma UngroupedDrain(p: Prims, aggs: seq<Agg>, st: State)
    requires Fits(Leaf(Ungrouped(aggs)), st)
    ensures Drain(p, Leaf(Ungrouped(aggs)), st) == Ok((Cache(None), Emitted(st.cache)))
  {
    DrainStep(p, Leaf(Ungrouped(aggs)), st);
    DrainStep(p, Leaf(Ungrouped(aggs)), Cache(None));
    if st.cache.Some? { assert [st.cache.value] + [] == [st.cache.value]; }
  }

  /** Pipeline meaning: from any drained state, in runs that do not fail, everything a chain gives
      out is the composition of its stages' list functions, whatever order each grouped stage's map
      is drained in. The run fails exactly when the composition does. */
  lemma {:induction false} RunMeaning(p: Prims, op: Op, st: State, xs: seq<Tuple>)
    requires Fits(op, st) && Idle(st)
    ensures Same(Outputs(Run(p, op, st, xs)), Denote(p, op, st, xs))
  {
    match op
    case Leaf(stage) => StageRun(p, stage, st, xs);
    case Tandem(i, o) =>
      TandemComposes(p, i, o, st.input, st.output, xs);
      hide Run;
      RunMeaning(p, i, st.input, xs);
      var x := Run(p, i, st.input, xs);
      if x.Ok? { RunMeaning(p, o, st.output, x.value.1); }
  }

  // ---------- tandems are associative ----------

  datatype Command = PutTuple(t: Tuple) | GetTuple

  function Act(p: Prims, op: Op, st: State, c: Command): (r: Stepped)
    requires Fits(op, st)
    ensures r.Ok? ==> Fits(op, r.value.0)
  {
    match c case PutTuple(t) => Put(p, op, st, t) case GetTuple => Get(p, op, st)
  }

  /** The answers to a sequence of commands, in which `None` is a null pointer; the first failure
      ends it. */
  function Answers(p: Prims, op: Op, st: State, commands: seq<Command>): seq<Result<Option<Tuple>>>
    requires Fits(op, st)
    decreases |commands|
  {
    if commands == [] then []
    else match Act(p, op, st, commands[0])
      case Err(f) => [Err(f)]
      case Ok(r) => [Ok(r.1)] + Answers(p, op, r.0, commands[1..])
  }

  function ToRight(st: State): State {
    match st
    case Pair(Pair(x, y), z) => Pair(x, Pair(y, z))
    case _ => st
  }

  function RightStep(r: Stepped): Stepped {
    if r.Ok? then Ok((ToRight(r.value.0), r.value.1)) else r
  }

  lemma PutAssociative(p: Prims, a: Op, b: Op, c: Op, x: State, y: State, z: State, t: Tuple)
    requires Fits(a, x) && Fits(b, y) && Fits(c, z)
    ensures RightStep(Put(p, Tandem(Tandem(a, b), c), Pair(Pair(x, y), z), t))
         == Put(p, Tandem(a, Tandem(b, c)), Pair(x, Pair(y, z)), t)
  {
    hide Put;
    PutTandem(p, Tandem(a, b), c, Pair(x, y), z, t);
    PutTandem(p, a, b, x, y, t);
    PutTandem(p, a, Tandem(b, c), x, Pair(y, z), t);
    var r := Put(p, a, x, t);
    if r.Ok? && r.value.1.Some? { PutTandem(p, b, c, y, z, r.value.1.value); }
  }

  /** The left- and the right-nested tandem give the same next result. */
  ghost predicate SameGet(p: Prims, a: Op, b: Op, c: Op, x: State, y: State, z: State)
    requires Fits(a, x) && Fits(b, y) && Fits(c, z)
  {
    RightStep(Get(p, Tandem(Tandem(a, b), c), Pair(Pair(x, y), z)))
    == Get(p, Tandem(a, Tandem(b, c)), Pair(x, Pair(y, z)))
  }

  /** The first part has a result, and the second keeps or drops it. */
  lemma SameGetKept(p: Prims, a: Op, b: Op, c: Op, x: State, y: State, z: State, x': State, y': State, t: Tuple)
    requires Fits(a, x) && Fits(b, y) && Fits(c, z) && Fits(a, x') && Fits(b, y')
    requires Get(p, a, x) == Ok((x', Some(t))) && Put(p, b, y, t) == Ok((y', None))
    requires SameGet(p, a, b, c, x', y', z)
    ensures SameGet(p, a, b, c, x, y, z)
  {
    hide Get, Put;
    var ab, bc := Tandem(a, b), Tandem(b, c);
    assert Get(p, ab, Pair(x, y)) == Get(p, ab, Pair(x', y')) by {
      GetTandem(p, a, b, x, y);
    }
    assert Get(p, Tandem(ab, c), Pair(Pair(x, y), z)) == Get(p, Tandem(ab, c), Pair(Pair(x', y'), z)) by {
      hide *;
      GetTandem(p, ab, c, Pair(x, y), z);
      GetTandem(p, ab, c, Pair(x', y'), z);
    }
    assert Get(p, Tandem(a, bc), Pair(x, Pair(y, z))) == Get(p, Tandem(a, bc), Pair(x', Pair(y', z))) by {
      PutTandem(p, b, c, y, z, t);
      GetTandem(p, a, bc, x, Pair(y, z));
    }
  }

  /** The first part has a result, and the second makes one of it for the third. */
  lemma SameGetPassed(p: Prims, a: Op, b: Op, c: Op, x: State, y: State, z: State, x': State, y': State, t: Tuple,
          u: Tuple)
    requires Fits(a, x) && Fits(b, y) && Fits(c, z) && Fits(a, x') && Fits(b, y')
    requires Get(p, a, x) == Ok((x', Some(t))) && Put(p, b, y, t) == Ok((y', Some(u)))
    requires var s := Put(p, c, z, u);
      s.Ok? ==> SameGet(p, a, b, c, x', y', s.value.0)
    ensures SameGet(p, a, b, c, x, y, z)
  {
    hide Get, Put;
    var ab, bc := Tandem(a, b), Tandem(b, c);
    GetTandem(p, a, b, x, y);
    GetTandem(p, ab, c, Pair(x, y), z);
    GetTandem(p, a, bc, x, Pair(y, z));
    PutTandem(p, b, c, y, z, t);
  }

  /** The first part has a result, which goes through the other two. */
  lemma SameGetFirst(p: Prims, a: Op, b: Op, c: Op, x: State, y: State, z: State)
    requires Fits(a, x) && Fits(b, y) && Fits(c, z)
    requires Get(p, a, x).Ok? && Get(p, a, x).value.1.Some?
    requires var r := Get(p, a, x).value;
      var s := Put(p, Tandem(b, c), Pair(y, z), r.1.value);
      s.Ok? ==> SameGet(p, a, b, c, r.0, s.value.0.input, s.value.0.output)
    ensures SameGet(p, a, b, c, x, y, z)
  {
    hide Get, Put, SameGet;
    var r := Get(p, a, x).value;
    var t := r.1.value;
    var s := Put(p, b, y, t);
    PutTandem(p, b, c, y, z, t);
    if s.Err? {
      SameGetFails(p, a, b, c, x, y, z);
    } else if s.value.1.None? {
      SameGetKept(p, a, b, c, x, y, z, r.0, s.value.0, t);
    } else {
      SameGetPassed(p, a, b, c, x, y, z, r.0, s.value.0, t, s.value.1.value);
    }
  }

  lemma SameGetFails(p: Prims, a: Op, b: Op, c: Op, x: State, y: State, z: State)
    requires Fits(a, x) && Fits(b, y) && Fits(c, z)
    requires Get(p, a, x).Ok? && Get(p, a, x).value.1.Some? && Put(p, b, y, Get(p, a, x).value.1.value).Err?
    ensures SameGet(p, a, b, c, x, y, z)
  {
    hide Get, Put;
    GetTandem(p, a, b, x, y);
    GetTandem(p, Tandem(a, b), c, Pair(x, y), z);
    GetTandem(p, a, Tandem(b, c), x, Pair(y, z));
    PutTandem(p, b, c, y, z, Get(p, a, x).value.1.value);
  }

  /** The first part is drained and the second has a result, which goes through the third. */
  lemma SameGetSecond(p: Prims, a: Op, b: Op, c: Op, x: State, y: State, z: State)
    requires Fits(a, x) && Fits(b, y) && Fits(c, z)
    requires Get(p, a, x).Ok? && Get(p, a, x).value.1.None?
    requires Get(p, b, y).Ok? && Get(p, b, y).value.1.Some?
    requires var r, s := Get(p, a, x).value, Get(p, b, y).value;
      var u := Put(p, c, z, s.1.value);
      u.Ok? ==> SameGet(p, a, b, c, r.0, s.0, u.value.0)
    ensures SameGet(p, a, b, c, x, y, z)
  {
    hide Get, Put, Weight, Idle;
    var ab, bc := Tandem(a, b), Tandem(b, c);
    var r, s := Get(p, a, x).value, Get(p, b, y).value;
    DrainedIsFresh(p, a, r.0);
    GetTandem(p, a, b, x, y);
    GetTandem(p, ab, c, Pair(x, y), z);
    GetTandem(p, a, bc, x, Pair(y, z));
    GetTandem(p, b, c, y, z);
    var u := Put(p, c, z, s.1.value);
    if u.Ok? { GetTandem(p, a, bc, r.0, Pair(s.0, u.value.0)); }
  }

  /** Only the third part is left, or something fails. */
  lemma SameGetThird(p: Prims, a: Op, b: Op, c: Op, x: State, y: State, z: State)
    requires Fits(a, x) && Fits(b, y) && Fits(c, z)
    requires Get(p, a, x).Err? || (Get(p, a, x).value.1.None? && (Get(p, b, y).Err? || Get(p, b, y).value.1.None?))
    ensures SameGet(p, a, b, c, x, y, z)
  {
    hide Get, Put, Weight, Idle;
    GetTandem(p, a, b, x, y);
    GetTandem(p, Tandem(a, b), c, Pair(x, y), z);
    GetTandem(p, a, Tandem(b, c), x, Pair(y, z));
    GetTandem(p, b, c, y, z);
  }

  lemma {:induction false} GetAssociative(p: Prims, a: Op, b: Op, c: Op, x: State, y: State, z: State)
    requires Fits(a, x) && Fits(b, y) && Fits(c, z)
    ensures SameGet(p, a, b, c, x, y, z)
    decreases Weight(Tandem(a, Tandem(b, c)), Pair(x, Pair(y, z)), 0)
  {
    hide SameGet, Get, Put;
    var bc, r, s := Tandem(b, c), Get(p, a, x), Get(p, b, y);
    if r.Ok? && r.value.1.Some? {
      var u := Put(p, bc, Pair(y, z), r.value.1.value);
      if u.Ok? {
        StepWeight(p, a, bc, x, Pair(y, z));
        GetAssociative(p, a, b, c, r.value.0, u.value.0.input, u.value.0.output);
      }
      SameGetFirst(p, a, b, c, x, y, z);
    } else if r.Ok? && s.Ok? && s.value.1.Some? {
      var u := Put(p, c, z, s.value.1.value);
      if u.Ok? {
        StepWeight(p, b, c, y, z);
        assert Weight(a, r.value.0, Leaves(bc)) == 0;
        GetAssociative(p, a, b, c, r.value.0, s.value.0, u.value.0);
      }
      SameGetSecond(p, a, b, c, x, y, z);
    } else {
      SameGetThird(p, a, b, c, x, y, z);
    }
  }

  /** Left- and right-nested tandems of the same three parts answer every sequence of commands
      alike, failures included. */
  lemma {:induction false} TandemsAssociate(p: Prims, a: Op, b: Op, c: Op, x: State, y: State, z: State,
          commands: seq<Command>)
    requires Fits(a, x) && Fits(b, y) && Fits(c, z)
    ensures Answers(p, Tandem(Tandem(a, b), c), Pair(Pair(x, y), z), commands)
         == Answers(p, Tandem(a, Tandem(b, c)), Pair(x, Pair(y, z)), commands)
    decreases |commands|
  {
    if commands != [] {
      var left := Act(p, Tandem(Tandem(a, b), c), Pair(Pair(x, y), z), commands[0]);
      if commands[0].PutTuple? {
        PutAssociative(p, a, b, c, x, y, z, commands[0].t);
      } else {
        GetAssociative(p, a, b, c, x, y, z);
      }
      if left.Ok? {
        var st := left.value.0;
        assert Fits(Tandem(Tandem(a, b), c), st);
        hide Put, Get;
        TandemsAssociate(p, a, b, c, st.input.input, st.input.output, st.output, commands[1..]);
      }
    }
  }

  // ---------- chains ----------

  /** The nesting in which stages are appended one after the other. */
  function Chain(stages: seq<Stage>): Op
    requires stages != []
  {
    var n := |stages| - 1;
    if n == 0 then Op.Leaf(stages[0]) else Tandem(Chain(stages[..n]), Op.Leaf(stages[n]))
  }

  ghost predicate AllChoose(stages: seq<Stage>) {
    forall s | s in stages && s.Grouped? :: Chooses(s.order)
  }

  /** The stages' list functions, first to last. */
  ghost function ChainMeaning(p: Prims, stages: seq<Stage>, xs: seq<Tuple>): Result<seq<Tuple>>
    requires AllChoose(stages)
  {
    if stages == [] then Ok(xs)
    else
      var ys :- StageMeaning(p, stages[0], 0, xs);
      ChainMeaning(p, stages[1..], ys)
  }

  lemma {:induction false} ChainMeaningLast(p: Prims, stages: seq<Stage>, last: Stage, xs: seq<Tuple>)
    requires AllChoose(stages) && AllChoose([last])
    ensures AllChoose(stages + [last])
    ensures ChainMeaning(p, stages + [last], xs) ==
            var ys := ChainMeaning(p, stages, xs);
            if ys.Err? then ys else StageMeaning(p, last, 0, ys.value)
  {
    hide StageMeaning, Chooses;
    assert forall s :: s in stages + [last] <==> s in stages || s == last;
    assert last in [last];
    if stages == [] {
      assert [] + [last] == [last] && [last][1..] == [];
    } else {
      assert (stages + [last])[0] == stages[0] && (stages + [last])[1..] == stages[1..] + [last];
      var ys := StageMeaning(p, stages[0], 0, xs);
      if ys.Ok? { ChainMeaningLast(p, stages[1..], last, ys.value); }
    }
  }

  lemma {:induction false} FreshFits(op: Op, stages: seq<Stage>)
    requires stages != [] && op == Chain(stages) && AllChoose(stages)
    ensures Fits(op, Fresh(op)) && Idle(Fresh(op))
  {
    hide Chooses;
    var n := |stages| - 1;
    assert stages[n] in stages;
    if n > 0 {
      FreshFits(op.input, stages[..n]);
    }
  }

  lemma {:induction false} DenoteChain(p: Prims, stages: seq<Stage>, xs: seq<Tuple>)
    requires stages != [] && AllChoose(stages) && Fits(Chain(stages), Fresh(Chain(stages)))
    ensures Denote(p, Chain(stages), Fresh(Chain(stages)), xs) == ChainMeaning(p, stages, xs)
  {
    hide StageMeaning;
    hide Chooses;
    var n := |stages| - 1;
    assert stages == stages[..n] + [stages[n]];
    assert stages[n] in stages;
    ChainMeaningLast(p, stages[..n], stages[n], xs);
    if n > 0 {
      DenoteChain(p, stages[..n], xs);
    }
  }

  /** A freshly decoded chain: what comes out of a run, first to last stage. */
  lemma ChainRun(p: Prims, stages: seq<Stage>, xs: seq<Tuple>)
    requires stages != [] && AllChoose(stages)
    ensures Fits(Chain(stages), Fresh(Chain(stages)))
    ensures Same(Outputs(Run(p, Chain(stages), Fresh(Chain(stages)), xs)), ChainMeaning(p, stages, xs))
  {
    hide Run, Denote, ChainMeaning, Chooses;
    var op := Chain(stages);
    FreshFits(op, stages);
    DenoteChain(p, stages, xs);
    RunMeaning(p, op, Fresh(op), xs);
  }
}
