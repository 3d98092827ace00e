/** Queries written with typed expression trees, from their bytes to the rows they mean: list
    functions over the SQL values of the trees. */
module TypedQueries {
  import opened Options
  import opened Operands
  import opened Operators
  import opened Expressions
  import opened Codec
  import opened Wire
  import opened StackMachine
  import opened Pipeline
  import opened PipelineMeaning
  import opened TypedPipeline
  import opened ChainWire
  import opened WholeRuns

  /** A stage with trees where its code has postfix instructions. */
  datatype Node =
    | Where(tree: Source)
    | Select(trees: seq<Source>)
    | GroupRows(indices: seq<int>, aggs: seq<Agg>)
    | AggregateRows(aggs: seq<Agg>)
  {
    predicate WellFormed(p: Prims) {
      match this
      case Where(tree) => tree.WellFormed(p)
      case Select(trees) => AllWellFormed(p, trees)
      case GroupRows(indices, aggs) =>
        IndicesEncodable(indices) && |indices| < LIMIT64 && AggsEncodable(aggs) && |aggs| < LIMIT64
      case AggregateRows(aggs) => AggsEncodable(aggs) && |aggs| < LIMIT64
    }

    /** What is sent for it. */
    function Code(): Sent {
      match this
      case Where(tree) => SendFilter(tree.Postfix())
      case Select(trees) => SendProject(PostfixAll(trees))
      case GroupRows(indices, aggs) => SendGrouped(indices, aggs)
      case AggregateRows(aggs) => SendUngrouped(aggs)
    }

    /** The schema of its rows, if its trees are well typed. */
    function OutType(p: Prims, schema: seq<Variant>): Option<seq<Variant>>
      requires WellFormed(p)
    {
      match this
      case Where(tree) => if TypeOf(tree.ToExpr(p), schema) == Some(VBool) then Some(schema) else None
      case Select(trees) => TypesOf(Exprs(p, trees), schema)
      case GroupRows(indices, aggs) =>
        var ks, ts := KeyTypes(indices, schema), AggTypes(aggs, schema);
        if ks.None? || ts.None? then None else Some(ks.value + ts.value)
      case AggregateRows(aggs) => AggTypes(aggs, schema)
    }

    /** The stage the decoder makes of it. */
    function Stage(p: Prims, order: Order): Stage
      requires WellFormed(p)
    {
      match this
      case Where(tree) => Filter(tree.ToExpr(p).Compile())
      case Select(trees) => Project(CompileAll(Exprs(p, trees)))
      case GroupRows(indices, aggs) => Grouped(indices, aggs, order)
      case AggregateRows(aggs) => Ungrouped(aggs)
    }
  }

  predicate AllWellFormed(p: Prims, trees: seq<Source>) { forall t | t in trees :: t.WellFormed(p) }

  function PostfixAll(trees: seq<Source>): seq<Instr> {
    if trees == [] then [] else trees[0].Postfix() + PostfixAll(trees[1..])
  }

  function Exprs(p: Prims, trees: seq<Source>): (es: seq<Expr>)
    requires AllWellFormed(p, trees)
    ensures forall e | e in es :: e.WellFormed()
  {
    if trees == [] then [] else [trees[0].ToExpr(p)] + Exprs(p, trees[1..])
  }

  function TypesOf(es: seq<Expr>, schema: seq<Variant>): Option<seq<Variant>>
    requires forall e | e in es :: e.WellFormed()
  {
    if es == [] then Some([])
    else
      var t, ts := TypeOf(es[0], schema), TypesOf(es[1..], schema);
      if t.None? || ts.None? then None else Some([t.value] + ts.value)
  }

  lemma {:induction false} TypesOfAll(es: seq<Expr>, schema: seq<Variant>)
    requires (forall e | e in es :: e.WellFormed()) && TypesOf(es, schema).Some?
    ensures AllTyped(es, schema)
  {
    hide TypeOf;
    if es != [] {
      TypesOfAll(es[1..], schema);
      assert es == [es[0]] + es[1..];
    }
  }

  // ---------- what a query means ----------

  predicate Rows(xs: seq<Tuple>, schema: seq<Variant>) { forall x | x in xs :: AllConform(x, schema) }

  /** The rows on which a tree is true: not those on which it is false or NULL. */
  function Chosen(p: Prims, e: Expr, xs: seq<Tuple>, schema: seq<Variant>): Result<seq<Tuple>>
    requires e.WellFormed() && TypeOf(e, schema).Some? && Rows(xs, schema)
  {
    if xs == [] then Ok([])
    else
      var v :- Eval(p, e, xs[0], schema);
      var rest :- Chosen(p, e, xs[1..], schema);
      Ok(if v == Bool(true) then [xs[0]] + rest else rest)
  }

  /** The values of the trees on every row. */
  function Computed(p: Prims, es: seq<Expr>, xs: seq<Tuple>, schema: seq<Variant>): Result<seq<Tuple>>
    requires AllTyped(es, schema) && Rows(xs, schema)
  {
    if xs == [] then Ok([])
    else
      var row :- EvalAll(p, es, xs[0], schema);
      var rest :- Computed(p, es, xs[1..], schema);
      Ok([row] + rest)
  }

  ghost function NodeMeaning(p: Prims, node: Node, order: Order, xs: seq<Tuple>,
          schema: seq<Variant>): Result<seq<Tuple>>
    requires node.WellFormed(p) && node.OutType(p, schema).Some? && Rows(xs, schema) && Chooses(order)
  {
    match node
    case Where(tree) => Chosen(p, tree.ToExpr(p), xs, schema)
    case Select(trees) => TypesOfAll(Exprs(p, trees), schema); Computed(p, Exprs(p, trees), xs, schema)
    case GroupRows(indices, aggs) => StageMeaning(p, Grouped(indices, aggs, order), 0, xs)
    case AggregateRows(aggs) => StageMeaning(p, Ungrouped(aggs), 0, xs)
  }

  ghost predicate Runnable(p: Prims, nodes: seq<Node>, orders: nat -> Order) {
    (forall node | node in nodes :: node.WellFormed(p)) && forall k: nat :: Chooses(orders(k))
  }

  function QueryType(p: Prims, nodes: seq<Node>, schema: seq<Variant>): Option<seq<Variant>>
    requires forall node | node in nodes :: node.WellFormed(p)
  {
    if nodes == [] then Some(schema)
    else
      var mid := nodes[0].OutType(p, schema);
      if mid.None? then None else QueryType(p, nodes[1..], mid.value)
  }

  /** The nodes' list functions, first to last. */
  ghost function QueryMeaning(p: Prims, nodes: seq<Node>, orders: nat -> Order, n: nat, xs: seq<Tuple>,
          schema: seq<Variant>)
      : Result<seq<Tuple>>
    requires Runnable(p, nodes, orders) && QueryType(p, nodes, schema).Some? && Rows(xs, schema)
    decreases |nodes|
  {
    if nodes == [] then Ok(xs)
    else
      var ys := NodeMeaning(p, nodes[0], orders(n), xs, schema);
      if ys.Err? then ys
      else
        NodeSound(p, nodes[0], orders(n), xs, schema);
        QueryMeaning(p, nodes[1..], orders, n + 1, ys.value, nodes[0].OutType(p, schema).value)
  }

  // ---------- a node and its stage ----------

  lemma {:induction false} ChosenIsKept(p: Prims, e: Expr, xs: seq<Tuple>, schema: seq<Variant>)
    requires e.WellFormed() && TypeOf(e, schema) == Some(VBool) && Rows(xs, schema)
    ensures KeepAll(p, e.Compile(), xs) == Chosen(p, e, xs, schema)
  {
    hide Accepts, Eval;
    if xs != [] {
      FilterMeaning(p, e, xs[0], schema);
      ChosenIsKept(p, e, xs[1..], schema);
    }
  }

  lemma {:induction false} ComputedIsMapped(p: Prims, es: seq<Expr>, xs: seq<Tuple>, schema: seq<Variant>)
    requires AllTyped(es, schema) && Rows(xs, schema)
    ensures MapAll(p, CompileAll(es), xs) == Computed(p, es, xs, schema)
  {
    hide Exec, EvalAll, CompileAll;
    if xs != [] {
      ConcatenationCorrect(p, es, [], xs[0], schema);
      var vs := EvalAll(p, es, xs[0], schema);
      if vs.Ok? { assert [] + vs.value == vs.value; }
      ComputedIsMapped(p, es, xs[1..], schema);
    }
  }

  /** A node means what its stage computes. */
  lemma NodeIsStage(p: Prims, node: Node, order: Order, xs: seq<Tuple>, schema: seq<Variant>)
    requires node.WellFormed(p) && node.OutType(p, schema).Some? && Rows(xs, schema) && Chooses(order)
    ensures StageMeaning(p, node.Stage(p, order), 0, xs) == NodeMeaning(p, node, order, xs, schema)
  {
    hide KeepAll, MapAll, Chosen, Computed, Chooses;
    match node
    case Where(tree) => ChosenIsKept(p, tree.ToExpr(p), xs, schema);
    case Select(trees) =>
      TypesOfAll(Exprs(p, trees), schema);
      ComputedIsMapped(p, Exprs(p, trees), xs, schema);
    case _ =>
  }

  lemma {:induction false} CompiledTypes(es: seq<Expr>, ts: seq<Variant>, schema: seq<Variant>)
    requires (forall e | e in es :: e.WellFormed()) && TypesOf(es, schema).Some?
    ensures TypeExec(CompileAll(es), ts, schema) == Some(ts + TypesOf(es, schema).value)
    decreases |es|
  {
    hide TypeExec, TypeOf;
    if es == [] {
      NoCode(ts, schema);
      assert ts + [] == ts;
    } else {
      var t := TypeOf(es[0], schema).value;
      CompiledCodeChecks(es[0], ts, schema);
      TypeExecAppend(es[0].Compile(), CompileAll(es[1..]), ts, schema);
      CompiledTypes(es[1..], ts + [t], schema);
      var rest := TypesOf(es[1..], schema).value;
      assert ts + [t] + rest == ts + ([t] + rest);
    }
  }

  lemma NoCode(ts: seq<Variant>, schema: seq<Variant>)
    ensures TypeExec([], ts, schema) == Some(ts)
  {}

  /** The type checker finds for the stage what the trees say. */
  lemma StageTypes(p: Prims, node: Node, order: Order, schema: seq<Variant>)
    requires node.WellFormed(p) && node.OutType(p, schema).Some?
    ensures ChainType(Op.Leaf(node.Stage(p, order)), schema) == node.OutType(p, schema)
  {
    hide TypeExec, TypeOf;
    match node
    case Where(tree) =>
      CompiledCodeChecks(tree.ToExpr(p), [], schema);
      assert [] + [VBool] == [VBool];
    case Select(trees) =>
      CompiledTypes(Exprs(p, trees), [], schema);
      assert [] + TypesOf(Exprs(p, trees), schema).value == TypesOf(Exprs(p, trees), schema).value;
    case _ =>
  }

  /** Typed rows give typed rows. */
  lemma NodeSound(p: Prims, node: Node, order: Order, xs: seq<Tuple>, schema: seq<Variant>)
    requires node.WellFormed(p) && node.OutType(p, schema).Some? && Rows(xs, schema) && Chooses(order)
    ensures var ys := NodeMeaning(p, node, order, xs, schema); ys.Ok? ==> Rows(ys.value, node.OutType(p, schema).value)
  {
    hide Chooses, StageMeaning, NodeMeaning, Run, ChainType;
    var stage := node.Stage(p, order);
    NodeIsStage(p, node, order, xs, schema);
    StageTypes(p, node, order, schema);
    StageFits(stage);
    RunSound(p, Op.Leaf(stage), xs, schema);
    StageRun(p, stage, Fresh(Op.Leaf(stage)), xs);
  }

  lemma StageFits(stage: Stage)
    requires stage.Grouped? ==> Chooses(stage.order)
    ensures Fits(Op.Leaf(stage), Fresh(Op.Leaf(stage))) && Idle(Fresh(Op.Leaf(stage)))
  {}

  // ---------- the code of a query ----------

  function Codes(nodes: seq<Node>): seq<Sent> {
    if nodes == [] then [] else [nodes[0].Code()] + Codes(nodes[1..])
  }

  ghost function Stages(p: Prims, nodes: seq<Node>, orders: nat -> Order, n: nat): seq<Stage>
    requires forall node | node in nodes :: node.WellFormed(p)
  {
    if nodes == [] then [] else [nodes[0].Stage(p, orders(n))] + Stages(p, nodes[1..], orders, n + 1)
  }

  lemma {:induction false} PostfixAllCompiles(p: Prims, trees: seq<Source>)
    requires AllWellFormed(p, trees)
    ensures AllEncodable(PostfixAll(trees)) && OperatorsOf(p, PostfixAll(trees)) == Ok(CompileAll(Exprs(p, trees)))
  {
    if trees != [] {
      hide OperatorsOf;
      PostfixCompiles(p, trees[0]);
      PostfixAllCompiles(p, trees[1..]);
      OperatorsOfAppend(p, trees[0].Postfix(), PostfixAll(trees[1..]));
    }
  }

  lemma NodeCode(p: Prims, node: Node, order: Order)
    requires node.WellFormed(p)
    ensures node.Code().Encodable() && node.Code().Meaning(p, order) == Ok(node.Stage(p, order))
  {
    hide OperatorsOf;
    match node
    case Where(tree) => PostfixCompiles(p, tree);
    case Select(trees) => PostfixAllCompiles(p, trees);
    case _ =>
  }

  lemma {:induction false} CodesMean(p: Prims, nodes: seq<Node>, orders: nat -> Order, n: nat)
    requires forall node | node in nodes :: node.WellFormed(p)
    ensures SendableChain(Codes(nodes)) && StagesOf(p, Codes(nodes), orders, n) == Ok(Stages(p, nodes, orders, n))
    decreases |nodes|
  {
    hide Sent.Encodable, Sent.Meaning, Node.Code, Node.Stage, Node.WellFormed;
    if nodes != [] {
      NodeCode(p, nodes[0], orders(n));
      CodesMean(p, nodes[1..], orders, n + 1);
      var rest := Codes(nodes[1..]);
      assert ([nodes[0].Code()] + rest)[1..] == rest;
    }
  }

  lemma {:induction false} StagesMean(p: Prims, nodes: seq<Node>, orders: nat -> Order, n: nat, xs: seq<Tuple>,
          schema: seq<Variant>)
    requires Runnable(p, nodes, orders) && QueryType(p, nodes, schema).Some? && Rows(xs, schema)
    ensures AllChoose(Stages(p, nodes, orders, n))
    ensures ChainMeaning(p, Stages(p, nodes, orders, n), xs) == QueryMeaning(p, nodes, orders, n, xs, schema)
    decreases |nodes|
  {
    hide StageMeaning, NodeMeaning, Chooses, Node.WellFormed, Node.OutType, Rows;
    StagesAllChoose(p, nodes, orders, n);
    if nodes != [] {
      var stage, rest := nodes[0].Stage(p, orders(n)), Stages(p, nodes[1..], orders, n + 1);
      assert ([stage] + rest)[1..] == rest;
      StagesAllChoose(p, nodes[1..], orders, n + 1);
      NodeIsStage(p, nodes[0], orders(n), xs, schema);
      NodeSound(p, nodes[0], orders(n), xs, schema);
      var ys := NodeMeaning(p, nodes[0], orders(n), xs, schema);
      if ys.Ok? { StagesMean(p, nodes[1..], orders, n + 1, ys.value, nodes[0].OutType(p, schema).value); }
    }
  }

  lemma {:induction false} StagesAllChoose(p: Prims, nodes: seq<Node>, orders: nat -> Order, n: nat)
    requires Runnable(p, nodes, orders)
    ensures AllChoose(Stages(p, nodes, orders, n))
    decreases |nodes|
  {
    hide Chooses;
    if nodes != [] { StagesAllChoose(p, nodes[1..], orders, n + 1); }
  }

  /** From the bytes of a query to its rows: the code of a chain of typed trees decodes, the stages it
      decodes to compute the list functions over the trees' SQL values, and a run of them gives out
      exactly those rows, or fails as they do. */
  lemma QueryComputes(p: Prims, nodes: seq<Node>, orders: nat -> Order, xs: seq<Tuple>, schema: seq<Variant>)
    requires nodes != [] && Runnable(p, nodes, orders) && QueryType(p, nodes, schema).Some? && Rows(xs, schema)
    ensures SendableChain(Codes(nodes)) && DecodeStages(p, EncodeChain(Codes(nodes)), 0, orders, 0).Ok?
    ensures var stages := DecodeStages(p, EncodeChain(Codes(nodes)), 0, orders, 0).value;
      && stages != [] && AllChoose(stages) && Fits(Chain(stages), Fresh(Chain(stages)))
      && ChainMeaning(p, stages, xs) == QueryMeaning(p, nodes, orders, 0, xs, schema)
      && Same(Outputs(Run(p, Chain(stages), Fresh(Chain(stages)), xs)), QueryMeaning(p, nodes, orders, 0, xs, schema))
  {
    hide Chooses, ChainMeaning, QueryMeaning, Run, DecodeStages, StagesOf, EncodeChain, Chain, Fresh, Fits,
      Node.WellFormed, QueryType, Rows;
    CodesMean(p, nodes, orders, 0);
    StagesMean(p, nodes, orders, 0, xs, schema);
    CodeToResults(p, Codes(nodes), orders, xs);
  }
}
