/** The relational pipeline on values: stages with state, tandems of stages, `Put` and `Get`, the
    termination measure of draining, and what a whole run computes. */
module Pipeline {
  import opened Options
  import opened Operands
  import opened Operators

  // ---------- aggregates ----------

  datatype Agg =
    | CountAll
    | Count(t: Type, index: int)
    | Fold(kind: Calc, t: Type, index: int)   // SUM, MAX and MIN

  function Column(tuple: Tuple, index: int): Result<Operand> {
    if 0 <= index < |tuple| then Ok(tuple[index]) else Err(BadIndex)
  }

  function Increment(v: Operand): Result<Operand> {
    match v
    case Null => Ok(Int64(1))
    case Int64(n) => if FitsInt64(n + 1) then Ok(Int64(n + 1)) else Err(Undefined)
    case _ => Err(WrongVariant)
  }

  /** `Agg::Add`: the accumulated value with one more tuple. NULL columns are skipped. */
  function AggAdd(p: Prims, agg: Agg, acc: Operand, tuple: Tuple): Result<Operand> {
    match agg
    case CountAll => Increment(acc)
    case Count(_, index) =>
      var v :- Column(tuple, index);
      if v == Null then Ok(acc) else Increment(acc)
    case Fold(c, t, index) =>
      var v :- Column(tuple, index);
      if v == Null then Ok(acc)
      else if !Conforms(v, t.Variant()) then Err(WrongVariant)
      else if acc == Null then Ok(v)
      else if !Conforms(acc, t.Variant()) then Err(WrongVariant)
      else Calculate(p, c, acc, v)
  }

  function Nulls(n: nat): Tuple { seq(n, _ => Null) }

  /** All aggregates of a cache, one after the other. */
  function AddAll(p: Prims, aggs: seq<Agg>, cache: Tuple, tuple: Tuple): (r: Result<Tuple>)
    requires |cache| == |aggs|
    ensures r.Ok? ==> |r.value| == |aggs|
  {
    if aggs == [] then Ok([])
    else
      var v :- AggAdd(p, aggs[0], cache[0], tuple);
      var rest :- AddAll(p, aggs[1..], cache[1..], tuple);
      Ok([v] + rest)
  }

  /** `MapTuple`. */
  function MapTuple(src: Tuple, indices: seq<int>): (r: Result<Tuple>)
    ensures r.Ok? ==> |r.value| == |indices|
  {
    if indices == [] then Ok([])
    else
      var v :- Column(src, indices[0]);
      var rest :- MapTuple(src, indices[1..]);
      Ok([v] + rest)
  }

  // ---------- stages ----------

  /** The order in which a hash map gives up its entries, as a choice that may depend on how many it
      has given up before. */
  type Order = (nat, map<Tuple, Tuple>) -> Tuple

  ghost predicate Chooses(order: Order) {
    forall n: nat, m: map<Tuple, Tuple> :: m != map[] ==> order(n, m) in m
  }

  datatype Stage =
    | Filter(ops: seq<Operator>)
    | Project(ops: seq<Operator>)
    | Grouped(indices: seq<int>, aggs: seq<Agg>, order: Order)
    | Ungrouped(aggs: seq<Agg>)

  /** A chain of stages, as nested tandems. */
  datatype Op = Leaf(stage: Stage) | Tandem(input: Op, output: Op)

  /** The caches of a chain; `drawn` counts the groups a stage has given up. */
  datatype State =
    | Stateless
    | Groups(caches: map<Tuple, Tuple>, drawn: nat)
    | Cache(cache: Option<Tuple>)
    | Pair(input: State, output: State)

  ghost predicate Fits(op: Op, st: State) {
    match op
    case Leaf(Filter(_)) => st.Stateless?
    case Leaf(Project(_)) => st.Stateless?
    case Leaf(Grouped(_, aggs, order)) =>
      st.Groups? && Chooses(order) && forall k | k in st.caches :: |st.caches[k]| == |aggs|
    case Leaf(Ungrouped(aggs)) => st.Cache? && (st.cache.Some? ==> |st.cache.value| == |aggs|)
    case Tandem(i, o) => st.Pair? && Fits(i, st.input) && Fits(o, st.output)
  }

  /** The state of a freshly decoded chain. */
  function Fresh(op: Op): State {
    match op
    case Leaf(Filter(_)) => Stateless
    case Leaf(Project(_)) => Stateless
    case Leaf(Grouped(_, _, _)) => Groups(map[], 0)
    case Leaf(Ungrouped(_)) => Cache(None)
    case Tandem(i, o) => Pair(Fresh(i), Fresh(o))
  }

  /** Nothing cached anywhere. */
  predicate Idle(st: State) {
    match st
    case Stateless => true
    case Groups(m, _) => m == map[]
    case Cache(c) => c.None?
    case Pair(i, o) => Idle(i) && Idle(o)
  }

  /** The filter's verdict: NULL and false both reject. */
  function Accepts(p: Prims, ops: seq<Operator>, tuple: Tuple): Result<bool> {
    var s :- Exec(p, ops, [], Some(tuple));
    var v :- Top(s);
    match v case Null => Ok(false) case Bool(b) => Ok(b) case _ => Err(WrongVariant)
  }

  type Stepped = Result<(State, Option<Tuple>)>

  function PutStage(p: Prims, stage: Stage, st: State, tuple: Tuple): (r: Stepped)
    requires Fits(Leaf(stage), st)
    ensures r.Ok? ==> Fits(Leaf(stage), r.value.0)
  {
    match stage
    case Filter(ops) =>
      var ok :- Accepts(p, ops, tuple);
      Ok((st, if ok then Some(tuple) else None))
    case Project(ops) =>
      var s :- Exec(p, ops, [], Some(tuple));
      Ok((st, Some(s)))
    case Grouped(indices, aggs, _) =>
      var key :- MapTuple(tuple, indices);
      var cache :- AddAll(p, aggs, if key in st.caches then st.caches[key] else Nulls(|aggs|), tuple);
      Ok((Groups(st.caches[key := cache], st.drawn), None))
    case Ungrouped(aggs) =>
      var cache :- AddAll(p, aggs, if st.cache.Some? then st.cache.value else Nulls(|aggs|), tuple);
      Ok((Cache(Some(cache)), None))
  }

  function GetStage(stage: Stage, st: State): (r: (State, Option<Tuple>))
    requires Fits(Leaf(stage), st)
    ensures Fits(Leaf(stage), r.0)
  {
    match stage
    case Filter(_) => (st, None)
    case Project(_) => (st, None)
    case Grouped(_, _, order) =>
      if st.caches == map[] then (st, None)
      else
        var key := order(st.drawn, st.caches);
        (Groups(st.caches - {key}, st.drawn + 1), Some(key + st.caches[key]))
    case Ungrouped(_) => (Cache(None), st.cache)
  }

  // ---------- the termination measure ----------

  function Leaves(op: Op): nat {
    match op case Leaf(_) => 1 case Tandem(i, o) => Leaves(i) + Leaves(o)
  }

  function Rows(st: State): nat {
    match st
    case Groups(m, _) => |m|
    case Cache(c) => if c.Some? then 1 else 0
    case _ => 0
  }

  /** Cached rows, each weighted by its distance to the output end; `after` stages follow. */
  ghost function Weight(op: Op, st: State, after: nat): nat
    requires Fits(op, st)
  {
    match op
    case Leaf(_) => Rows(st) * (after + 1)
    case Tandem(i, o) => Weight(i, st.input, after + Leaves(o)) + Weight(o, st.output, after)
  }

  function Put(p: Prims, op: Op, st: State, tuple: Tuple): (r: Stepped)
    requires Fits(op, st)
    ensures r.Ok? ==> Fits(op, r.value.0)
  {
    match op
    case Leaf(stage) => PutStage(p, stage, st, tuple)
    case Tandem(i, o) =>
      var a :- Put(p, i, st.input, tuple);
      match a.1
      case None => Ok((Pair(a.0, st.output), None))
      case Some(t) =>
        var b :- Put(p, o, st.output, t);
        Ok((Pair(a.0, b.0), b.1))
  }

  /** A tuple put in adds at most one row, at most as far from the output as the first stage. */
  lemma {:induction false} PutAddsOneRow(p: Prims, op: Op, st: State, tuple: Tuple, after: nat)
    requires Fits(op, st) && Put(p, op, st, tuple).Ok?
    ensures Weight(op, Put(p, op, st, tuple).value.0, after) <= Weight(op, st, after) + after + Leaves(op)
    ensures Put(p, op, st, tuple).value.1.Some? ==>
            Weight(op, Put(p, op, st, tuple).value.0, after) <= Weight(op, st, after)
  {
    match op
    case Leaf(stage) =>
      var r := PutStage(p, stage, st, tuple).value;
      if stage.Grouped? {
        var key := MapTuple(tuple, stage.indices).value;
        AddKeySize(st.caches, key, r.0.caches[key]);
      }
      MulRows(Rows(r.0), Rows(st), after + 1);
    case Tandem(i, o) =>
      PutAddsOneRow(p, i, st.input, tuple, after + Leaves(o));
      var a := Put(p, i, st.input, tuple).value;
      if a.1.Some? {
        PutAddsOneRow(p, o, st.output, a.1.value, after);
      }
  }

  /** The cached rows of all stages. */
  function CachedRows(st: State): nat {
    match st
    case Pair(i, o) => CachedRows(i) + CachedRows(o)
    case _ => Rows(st)
  }

  /** A tuple put in adds at most one cached row in all, and none when a result comes out at once. */
  lemma {:induction false} PutCachesOneRow(p: Prims, op: Op, st: State, tuple: Tuple)
    requires Fits(op, st) && Put(p, op, st, tuple).Ok?
    ensures CachedRows(Put(p, op, st, tuple).value.0) <=
            CachedRows(st) + (if Put(p, op, st, tuple).value.1.Some? then 0 else 1)
  {
    match op
    case Leaf(stage) =>
      if stage.Grouped? {
        var key := MapTuple(tuple, stage.indices).value;
        AddKeySize(st.caches, key, PutStage(p, stage, st, tuple).value.0.caches[key]);
      }
    case Tandem(i, o) =>
      PutCachesOneRow(p, i, st.input, tuple);
      var a := Put(p, i, st.input, tuple).value;
      if a.1.Some? {
        PutCachesOneRow(p, o, st.output, a.1.value);
      }
  }

  lemma AddKeySize(m: map<Tuple, Tuple>, key: Tuple, v: Tuple)
    ensures |m[key := v]| == |m| + (if key in m then 0 else 1)
  {
    assert m[key := v].Keys == m.Keys + {key};
  }

  lemma MulRows(x: nat, y: nat, w: nat)
    ensures x <= y + 1 ==> x * w <= y * w + w
    ensures x <= y ==> x * w <= y * w
    ensures x + 1 == y ==> x * w + w == y * w
    ensures x == 0 ==> x * w == 0
  {
    if x <= y {
      SumTimes(x, y - x, w);
    } else {
      SumTimes(y, 1, w);
    }
    SumTimes(x, 1, w);
  }

  lemma SumTimes(x: nat, y: nat, w: nat)
    ensures (x + y) * w == x * w + y * w && y * w >= 0
  {}

  /** The next cached result. In a tandem the input is drained through the output first. Every row
      it returns lowers the weight, which is what makes the drain loop end. */
  function Get(p: Prims, op: Op, st: State): (r: Stepped)
    requires Fits(op, st)
    ensures r.Ok? ==> Fits(op, r.value.0)
    ensures r.Ok? && r.value.1.Some? ==>
              forall after: nat :: Weight(op, r.value.0, after) + after + 1 <= Weight(op, st, after)
    ensures r.Ok? && r.value.1.None? ==> Idle(r.value.0) && forall after: nat :: Weight(op, r.value.0, after) == 0
    decreases op, Weight(op, st, 0)
  {
    match op
    case Leaf(stage) =>
      GetStageWeight(stage, st);
      Ok(GetStage(stage, st))
    case Tandem(i, o) =>
      var a :- Get(p, i, st.input);
      match a.1
      case Some(t) =>
        var b :- Put(p, o, st.output, t);
        PutWeights(p, o, st.output, t);
        var st' := Pair(a.0, b.0);
        assert Weight(i, a.0, Leaves(o)) + Leaves(o) + 1 <= Weight(i, st.input, Leaves(o));
        assert Weight(op, st', 0) < Weight(op, st, 0);
        if b.1.Some? then Ok((st', b.1)) else Get(p, op, st')
      case None =>
        var b :- Get(p, o, st.output);
        Ok((Pair(a.0, b.0), b.1))
  }

  lemma PutWeights(p: Prims, op: Op, st: State, tuple: Tuple)
    requires Fits(op, st) && Put(p, op, st, tuple).Ok?
    ensures forall after: nat ::
              Weight(op, Put(p, op, st, tuple).value.0, after) <= Weight(op, st, after) + after + Leaves(op)
    ensures Put(p, op, st, tuple).value.1.Some? ==>
              forall after: nat :: Weight(op, Put(p, op, st, tuple).value.0, after) <= Weight(op, st, after)
  {
    forall after: nat
      ensures Weight(op, Put(p, op, st, tuple).value.0, after) <= Weight(op, st, after) + after + Leaves(op)
      ensures Put(p, op, st, tuple).value.1.Some? ==>
              Weight(op, Put(p, op, st, tuple).value.0, after) <= Weight(op, st, after)
    {
      PutAddsOneRow(p, op, st, tuple, after);
    }
  }

  lemma GetStageWeight(stage: Stage, st: State)
    requires Fits(Leaf(stage), st)
    ensures var r := GetStage(stage, st);
      && (r.1.Some? ==>
            forall after: nat :: Weight(Leaf(stage), r.0, after) + after + 1 <= Weight(Leaf(stage), st, after))
      && (r.1.None? ==> Idle(r.0) && forall after: nat :: Weight(Leaf(stage), r.0, after) == 0)
  {
    var r := GetStage(stage, st);
    if stage.Grouped? && r.1.Some? {
      assert r.0.caches.Keys == st.caches.Keys - {stage.order(st.drawn, st.caches)};
    }
    forall after: nat
      ensures r.1.Some? ==> Weight(Leaf(stage), r.0, after) + after + 1 <= Weight(Leaf(stage), st, after)
      ensures r.1.None? ==> Weight(Leaf(stage), r.0, after) == 0
    {
      MulRows(Rows(r.0), Rows(st), after + 1);
    }
  }
}
