/** Chains whose expressions are compiled from trees, and the type soundness of whole chains. */
module TypedPipeline {
  import opened Options
  import opened Operands
  import opened Operators
  import opened Expressions
  import opened Pipeline
  import opened PipelineMeaning

  // ---------- stages made from trees ----------

  /** A filter keeps a tuple when its tree's SQL value is true: not when it is false or unknown. */
  lemma FilterMeaning(p: Prims, e: Expr, tuple: Tuple, schema: seq<Variant>)
    requires e.WellFormed() && AllConform(tuple, schema) && TypeOf(e, schema) == Some(VBool)
    ensures Accepts(p, e.Compile(), tuple) ==
            match Eval(p, e, tuple, schema) case Ok(v) => Ok(v == Bool(true)) case Err(f) => Err(f)
  {
    hide Exec;
    hide Eval;
    CompilerCorrect(p, e, [], tuple, schema);
    var v := Eval(p, e, tuple, schema);
    if v.Ok? { assert [] + [v.value] == [v.value]; }
  }

  /** A projection replaces a tuple by the SQL values of its trees, in order. */
  lemma ProjectMeaning(p: Prims, es: seq<Expr>, tuple: Tuple, schema: seq<Variant>)
    requires AllConform(tuple, schema) && AllTyped(es, schema)
    ensures PutStage(p, Project(CompileAll(es)), Stateless, tuple) ==
            match EvalAll(p, es, tuple, schema) case Ok(vs) => Ok((Stateless, Some(vs))) case Err(f) => Err(f)
  {
    hide Exec;
    ConcatenationCorrect(p, es, [], tuple, schema);
    var vs := EvalAll(p, es, tuple, schema);
    if vs.Ok? { assert [] + vs.value == vs.value; }
  }

  /** Filling in NULLs cannot lose a tuple that a filter without NULL tests accepts. */
  lemma FilterMonotone(p: Prims, ops: seq<Operator>, tuple: Tuple, fuller: Tuple)
    requires forall op | op in ops :: !op.SpecialOp?
    requires AllFill(tuple, fuller) && Accepts(p, ops, tuple) == Ok(true)
    ensures Accepts(p, ops, fuller).Err? || Accepts(p, ops, fuller) == Ok(true)
  {
    hide Exec;
    NullMonotone(p, ops, [], [], tuple, fuller);
  }

  // ---------- type soundness of chains ----------

  function AggType(agg: Agg, schema: seq<Variant>): Option<Variant> {
    match agg
    case CountAll => Some(VInt64)
    case Count(_, index) => if 0 <= index < |schema| then Some(VInt64) else None
    case Fold(c, t, index) =>
      if 0 <= index < |schema| && schema[index] == t.Variant() && !c.Relational() then Some(t.Variant()) else None
  }

  function AggTypes(aggs: seq<Agg>, schema: seq<Variant>): (r: Option<seq<Variant>>)
    ensures r.Some? ==> |r.value| == |aggs|
  {
    if aggs == [] then Some([])
    else
      var t, ts := AggType(aggs[0], schema), AggTypes(aggs[1..], schema);
      if t.None? || ts.None? then None else Some([t.value] + ts.value)
  }

  function KeyTypes(indices: seq<int>, schema: seq<Variant>): (r: Option<seq<Variant>>)
    ensures r.Some? ==> |r.value| == |indices|
  {
    if indices == [] then Some([])
    else
      var ts := KeyTypes(indices[1..], schema);
      if 0 <= indices[0] < |schema| && ts.Some? then Some([schema[indices[0]]] + ts.value) else None
  }

  /** Keys are typed exactly when all their columns exist, each with its column's type. */
  lemma {:induction false} KeyTypesExist(indices: seq<int>, schema: seq<Variant>)
    ensures KeyTypes(indices, schema).Some? <==> forall j | 0 <= j < |indices| :: 0 <= indices[j] < |schema|
    ensures KeyTypes(indices, schema).Some? ==>
              forall j | 0 <= j < |indices| ::
                0 <= indices[j] < |schema| && KeyTypes(indices, schema).value[j] == schema[indices[j]]
  {
    if indices != [] {
      KeyTypesExist(indices[1..], schema);
      assert forall j | 1 <= j < |indices| :: indices[j] == indices[1..][j - 1];
      assert forall j | 0 <= j < |indices| - 1 :: indices[1..][j] == indices[j + 1];
    }
  }

  /** What an aggregate needs of a schema: its column, and for sums and extremes of its own type. */
  predicate AggFits(agg: Agg, schema: seq<Variant>) {
    match agg
    case CountAll => true
    case Count(_, index) => 0 <= index < |schema|
    case Fold(c, t, index) => 0 <= index < |schema| && schema[index] == t.Variant() && !c.Relational()
  }

  /** Aggregates are typed exactly when each of them fits: counts as 64-bit integers, and the others as
      their column. */
  lemma {:induction false} AggTypesExist(aggs: seq<Agg>, schema: seq<Variant>)
    ensures AggTypes(aggs, schema).Some? <==> forall j | 0 <= j < |aggs| :: AggFits(aggs[j], schema)
    ensures AggTypes(aggs, schema).Some? ==>
              forall j | 0 <= j < |aggs| ::
                AggTypes(aggs, schema).value[j] == if aggs[j].Fold? then aggs[j].t.Variant() else VInt64
  {
    if aggs != [] {
      AggTypesExist(aggs[1..], schema);
      assert forall j | 1 <= j < |aggs| :: aggs[j] == aggs[1..][j - 1];
      assert forall j | 0 <= j < |aggs| - 1 :: aggs[1..][j] == aggs[j + 1];
    }
  }

  /** The schema a chain makes of a schema, if its code is well typed. */
  function ChainType(op: Op, schema: seq<Variant>): Option<seq<Variant>> {
    match op
    case Leaf(Filter(ops)) =>
      var ts := TypeExec(ops, [], schema);
      if ts.Some? && ts.value != [] && ts.value[|ts.value| - 1] == VBool then Some(schema) else None
    case Leaf(Project(ops)) => TypeExec(ops, [], schema)
    case Leaf(Grouped(indices, aggs, _)) =>
      var ks, ts := KeyTypes(indices, schema), AggTypes(aggs, schema);
      if ks.None? || ts.None? then None else Some(ks.value + ts.value)
    case Leaf(Ungrouped(aggs)) => AggTypes(aggs, schema)
    case Tandem(i, o) =>
      var mid := ChainType(i, schema);
      if mid.None? then None else ChainType(o, mid.value)
  }

  /** Cached rows have the types the chain predicts. */
  ghost predicate TypedState(op: Op, st: State, schema: seq<Variant>)
    requires Fits(op, st)
  {
    match op
    case Leaf(Filter(_)) => true
    case Leaf(Project(_)) => true
    case Leaf(Grouped(indices, aggs, _)) =>
      var ks, ts := KeyTypes(indices, schema), AggTypes(aggs, schema);
      ks.Some? && ts.Some? && forall k | k in st.caches :: AllConform(k, ks.value) && AllConform(st.caches[k], ts.value)
    case Leaf(Ungrouped(aggs)) =>
      var ts := AggTypes(aggs, schema);
      ts.Some? && (st.cache.Some? ==> AllConform(st.cache.value, ts.value))
    case Tandem(i, o) =>
      TypedState(i, st.input, schema) && ChainType(i, schema).Some? &&
        TypedState(o, st.output, ChainType(i, schema).value)
  }

  lemma AggSound(p: Prims, agg: Agg, acc: Operand, tuple: Tuple, schema: seq<Variant>)
    requires AllConform(tuple, schema) && AggType(agg, schema).Some? && Conforms(acc, AggType(agg, schema).value)
    ensures Sound(AggAdd(p, agg, acc, tuple), AggType(agg, schema).value)
  {
    hide Calculate;
    if agg.Fold? && tuple[agg.index] != Null && acc != Null {
      CalculateSound(p, agg.kind, acc, tuple[agg.index], agg.t.Variant());
    }
  }

  lemma {:induction false} AddAllSound(p: Prims, aggs: seq<Agg>, cache: Tuple, tuple: Tuple, schema: seq<Variant>)
    requires AllConform(tuple, schema) && AggTypes(aggs, schema).Some? &&
             AllConform(cache, AggTypes(aggs, schema).value)
    ensures match AddAll(p, aggs, cache, tuple)
            case Ok(row) => AllConform(row, AggTypes(aggs, schema).value)
            case Err(f) => DataFault(f)
  {
    hide AggAdd, AggType;
    if aggs != [] {
      AggSound(p, aggs[0], cache[0], tuple, schema);
      AddAllSound(p, aggs[1..], cache[1..], tuple, schema);
    }
  }

  lemma {:induction false} KeySound(src: Tuple, indices: seq<int>, schema: seq<Variant>)
    requires AllConform(src, schema) && KeyTypes(indices, schema).Some?
    ensures MapTuple(src, indices).Ok? && AllConform(MapTuple(src, indices).value, KeyTypes(indices, schema).value)
  {
    if indices != [] { KeySound(src, indices[1..], schema); }
  }

  lemma NullsConform(ts: seq<Variant>)
    ensures AllConform(Nulls(|ts|), ts)
  {}

  /** The outcome of a step of a typed chain. */
  ghost predicate SoundStep(op: Op, r: Stepped, schema: seq<Variant>)
    requires ChainType(op, schema).Some? && (r.Ok? ==> Fits(op, r.value.0))
  {
    match r
    case Ok(v) => TypedState(op, v.0, schema) && (v.1.Some? ==> AllConform(v.1.value, ChainType(op, schema).value))
    case Err(f) => DataFault(f)
  }

  lemma PutStageSound(p: Prims, stage: Stage, st: State, tuple: Tuple, schema: seq<Variant>)
    requires Fits(Op.Leaf(stage), st) && ChainType(Op.Leaf(stage), schema).Some?
    requires TypedState(Op.Leaf(stage), st, schema) && AllConform(tuple, schema)
    ensures SoundStep(Op.Leaf(stage), PutStage(p, stage, st, tuple), schema)
  {
    hide AddAll, MapTuple, Exec, TypeExec;
    match stage
    case Filter(ops) => MachineSound(p, ops, [], [], tuple, schema);
    case Project(ops) => MachineSound(p, ops, [], [], tuple, schema);
    case Grouped(indices, aggs, _) =>
      KeySound(tuple, indices, schema);
      var key := MapTuple(tuple, indices).value;
      NullsConform(AggTypes(aggs, schema).value);
      AddAllSound(p, aggs, if key in st.caches then st.caches[key] else Nulls(|aggs|), tuple, schema);
    case Ungrouped(aggs) =>
      NullsConform(AggTypes(aggs, schema).value);
      AddAllSound(p, aggs, if st.cache.Some? then st.cache.value else Nulls(|aggs|), tuple, schema);
  }

  lemma GetStageSound(stage: Stage, st: State, schema: seq<Variant>)
    requires Fits(Op.Leaf(stage), st) && ChainType(Op.Leaf(stage), schema).Some?
    requires TypedState(Op.Leaf(stage), st, schema)
    ensures SoundStep(Op.Leaf(stage), Ok(GetStage(stage, st)), schema)
  {
    if stage.Grouped? && st.caches != map[] {
      var k := stage.order(st.drawn, st.caches);
      assert k in st.caches;
      hide Chooses, KeyTypes, AggTypes;
    }
  }

  /** Type soundness of a chain, step by step: a tuple of the schema put in leaves every cache and
      every result of the predicted types, and only the data can make it fail. */
  lemma {:induction false} PutSound(p: Prims, op: Op, st: State, tuple: Tuple, schema: seq<Variant>)
    requires Fits(op, st) && ChainType(op, schema).Some? && TypedState(op, st, schema) && AllConform(tuple, schema)
    ensures SoundStep(op, Put(p, op, st, tuple), schema)
  {
    match op
    case Leaf(stage) => PutStageSound(p, stage, st, tuple, schema);
    case Tandem(i, o) =>
      PutSound(p, i, st.input, tuple, schema);
      var a := Put(p, i, st.input, tuple);
      if a.Ok? && a.value.1.Some? {
        PutSound(p, o, st.output, a.value.1.value, ChainType(i, schema).value);
      }
  }

  lemma {:induction false} GetSound(p: Prims, op: Op, st: State, schema: seq<Variant>)
    requires Fits(op, st) && ChainType(op, schema).Some? && TypedState(op, st, schema)
    ensures SoundStep(op, Get(p, op, st), schema)
    decreases op, Weight(op, st, 0)
  {
    match op
    case Leaf(stage) => GetStageSound(stage, st, schema);
    case Tandem(i, o) =>
      GetTandem(p, i, o, st.input, st.output);
      GetSound(p, i, st.input, schema);
      var mid, a := ChainType(i, schema).value, Get(p, i, st.input);
      if a.Ok? && a.value.1.Some? {
        PutSound(p, o, st.output, a.value.1.value, mid);
        var b := Put(p, o, st.output, a.value.1.value);
        if b.Ok? {
          StepWeight(p, i, o, st.input, st.output);
          GetSound(p, op, Pair(a.value.0, b.value.0), schema);
        }
      } else if a.Ok? {
        GetSound(p, o, st.output, mid);
      }
      hide Get, Put;
  }

  /** A whole run of a typed chain on tuples of its schema yields tuples of the predicted schema, or
      fails because of the data. */
  ghost predicate SoundRun(op: Op, r: Ran, schema: seq<Variant>)
    requires ChainType(op, schema).Some? && (r.Ok? ==> Fits(op, r.value.0))
  {
    match r
    case Ok(v) => TypedState(op, v.0, schema) && forall t | t in v.1 :: AllConform(t, ChainType(op, schema).value)
    case Err(f) => DataFault(f)
  }

  lemma {:induction false} PutAllSound(p: Prims, op: Op, st: State, xs: seq<Tuple>, schema: seq<Variant>)
    requires Fits(op, st) && ChainType(op, schema).Some? && TypedState(op, st, schema)
    requires forall x | x in xs :: AllConform(x, schema)
    ensures SoundRun(op, PutAll(p, op, st, xs), schema)
    decreases |xs|
  {
    hide Put, Fits, TypedState, ChainType;
    if xs != [] {
      PutSound(p, op, st, xs[0], schema);
      var a := Put(p, op, st, xs[0]);
      if a.Ok? { PutAllSound(p, op, a.value.0, xs[1..], schema); }
    }
  }

  lemma {:induction false} DrainSound(p: Prims, op: Op, st: State, schema: seq<Variant>)
    requires Fits(op, st) && ChainType(op, schema).Some? && TypedState(op, st, schema)
    ensures SoundRun(op, Drain(p, op, st), schema)
    decreases Weight(op, st, 0)
  {
    hide Get, Fits, TypedState, ChainType;
    GetSound(p, op, st, schema);
    var a := Get(p, op, st);
    if a.Ok? && a.value.1.Some? {
      assert Weight(op, a.value.0, 0) + 0 + 1 <= Weight(op, st, 0);
      DrainSound(p, op, a.value.0, schema);
    }
  }

  lemma {:induction false} FreshTyped(op: Op, schema: seq<Variant>)
    requires Fits(op, Fresh(op)) && ChainType(op, schema).Some?
    ensures TypedState(op, Fresh(op), schema)
  {
    match op
    case Leaf(_) =>
    case Tandem(i, o) =>
      FreshTyped(i, schema);
      FreshTyped(o, ChainType(i, schema).value);
  }

  lemma RunSound(p: Prims, op: Op, xs: seq<Tuple>, schema: seq<Variant>)
    requires Fits(op, Fresh(op)) && ChainType(op, schema).Some?
    requires forall x | x in xs :: AllConform(x, schema)
    ensures SoundRun(op, Run(p, op, Fresh(op), xs), schema)
  {
    hide PutAll, Drain, Fits, TypedState, ChainType;
    FreshTyped(op, schema);
    PutAllSound(p, op, Fresh(op), xs, schema);
    var a := PutAll(p, op, Fresh(op), xs);
    if a.Ok? { DrainSound(p, op, a.value.0, schema); }
  }
}
