/** The orders of the hash maps do not show: chains that differ only in them give the same rows, when
    the aggregates behind the first grouped stage do not depend on the order of their tuples. */
module OrderIndependence {
  import opened Options
  import opened Operands
  import opened Operators
  import opened Calculations
  import opened Pipeline
  import opened Grouping
  import opened PipelineMeaning

  /** The same tuples, in any order. */
  predicate Rearranged(xs: seq<Tuple>, ys: seq<Tuple>) { multiset(xs) == multiset(ys) }

  lemma SameElements(xs: seq<Tuple>, ys: seq<Tuple>)
    requires Rearranged(xs, ys)
    ensures |xs| == |ys| && forall x :: x in xs <==> x in ys
  {
    assert |multiset(xs)| == |xs| && |multiset(ys)| == |ys|;
    assert forall x :: x in xs <==> x in multiset(xs);
    assert forall x :: x in ys <==> x in multiset(ys);
  }

  lemma WithoutOne(ys: seq<Tuple>, j: nat)
    requires j < |ys|
    ensures multiset(ys) == multiset(Without(ys, j)) + multiset{ys[j]}
  {
    assert ys == ys[..j] + [ys[j]] + ys[j + 1..];
  }

  /** The rest of a rearranged list, after its first tuple and the same one in the other. */
  lemma FirstElsewhere(xs: seq<Tuple>, ys: seq<Tuple>) returns (j: nat)
    requires Rearranged(xs, ys) && xs != []
    ensures j < |ys| && ys[j] == xs[0] && Rearranged(xs[1..], Without(ys, j))
  {
    SameElements(xs, ys);
    assert xs[0] in ys;
    j :| 0 <= j < |ys| && ys[j] == xs[0];
    WithoutOne(xs, 0);
    WithoutOne(ys, j);
    WithoutFirst(xs);
    assert multiset(xs[1..]) == multiset(xs) - multiset{xs[0]} &&
      multiset(Without(ys, j)) == multiset(ys) - multiset{ys[j]};
  }

  lemma WithoutFirst(ys: seq<Tuple>)
    requires ys != []
    ensures Without(ys, 0) == ys[1..]
  {}

  lemma WithoutLater(ys: seq<Tuple>, j: nat)
    requires 0 < j < |ys|
    ensures Without(ys, j) == [ys[0]] + Without(ys[1..], j - 1)
  {}

  // ---------- filters and projections ----------

  lemma {:induction false} KeepAllCounts(p: Prims, ops: seq<Operator>, xs: seq<Tuple>)
    ensures KeepAll(p, ops, xs).Ok? <==> forall x | x in xs :: Accepts(p, ops, x).Ok?
    ensures KeepAll(p, ops, xs).Ok? ==>
              forall x :: multiset(KeepAll(p, ops, xs).value)[x] ==
                          if Accepts(p, ops, x) == Ok(true) then multiset(xs)[x] else 0
  {
    hide Accepts;
    if xs != [] {
      KeepAllCounts(p, ops, xs[1..]);
      assert xs == [xs[0]] + xs[1..];
    }
  }

  lemma KeepAllRearranged(p: Prims, ops: seq<Operator>, xs: seq<Tuple>, ys: seq<Tuple>)
    requires Rearranged(xs, ys)
    ensures KeepAll(p, ops, xs).Ok? == KeepAll(p, ops, ys).Ok?
    ensures KeepAll(p, ops, xs).Ok? ==> Rearranged(KeepAll(p, ops, xs).value, KeepAll(p, ops, ys).value)
  {
    hide Accepts, KeepAll;
    SameElements(xs, ys);
    KeepAllCounts(p, ops, xs);
    KeepAllCounts(p, ops, ys);
  }

  lemma {:induction false} MapAllSucceeds(p: Prims, ops: seq<Operator>, xs: seq<Tuple>)
    ensures MapAll(p, ops, xs).Ok? <==> forall x | x in xs :: Exec(p, ops, [], Some(x)).Ok?
  {
    hide Exec;
    if xs != [] {
      MapAllSucceeds(p, ops, xs[1..]);
      assert xs == [xs[0]] + xs[1..];
    }
  }

  lemma MapAllFirst(p: Prims, ops: seq<Operator>, x: Tuple, xs: seq<Tuple>)
    ensures MapAll(p, ops, [x] + xs).Ok? <==> Exec(p, ops, [], Some(x)).Ok? && MapAll(p, ops, xs).Ok?
    ensures MapAll(p, ops, [x] + xs).Ok? ==>
              MapAll(p, ops, [x] + xs).value == [Exec(p, ops, [], Some(x)).value] + MapAll(p, ops, xs).value
  {
    hide Exec;
    assert ([x] + xs)[1..] == xs;
  }

  lemma {:induction false} MapAllWithout(p: Prims, ops: seq<Operator>, ys: seq<Tuple>, j: nat)
    requires j < |ys| && MapAll(p, ops, ys).Ok?
    ensures MapAll(p, ops, Without(ys, j)).Ok? && Exec(p, ops, [], Some(ys[j])).Ok?
    ensures multiset(MapAll(p, ops, ys).value)
         == multiset(MapAll(p, ops, Without(ys, j)).value) + multiset{Exec(p, ops, [], Some(ys[j])).value}
  {
    hide Exec, MapAll, Without;
    assert ys == [ys[0]] + ys[1..];
    MapAllFirst(p, ops, ys[0], ys[1..]);
    if j == 0 {
      WithoutFirst(ys);
    } else {
      MapAllWithout(p, ops, ys[1..], j - 1);
      WithoutLater(ys, j);
      MapAllFirst(p, ops, ys[0], Without(ys[1..], j - 1));
    }
  }

  lemma {:induction false} MapAllRearranged(p: Prims, ops: seq<Operator>, xs: seq<Tuple>, ys: seq<Tuple>)
    requires Rearranged(xs, ys)
    ensures MapAll(p, ops, xs).Ok? == MapAll(p, ops, ys).Ok?
    ensures MapAll(p, ops, xs).Ok? ==> Rearranged(MapAll(p, ops, xs).value, MapAll(p, ops, ys).value)
    decreases |xs|
  {
    hide Exec, MapAll, Without;
    SameElements(xs, ys);
    MapAllSucceeds(p, ops, xs);
    MapAllSucceeds(p, ops, ys);
    if xs == [] {
      assert ys == [];
    } else if MapAll(p, ops, xs).Ok? {
      var j := FirstElsewhere(xs, ys);
      MapAllWithout(p, ops, ys, j);
      MapAllRearranged(p, ops, xs[1..], Without(ys, j));
      assert xs == [xs[0]] + xs[1..];
      MapAllFirst(p, ops, xs[0], xs[1..]);
    }
  }

  // ---------- sums over tuples ----------

  /** A number for every tuple, added up. */
  function Weighed(weigh: Tuple -> int, xs: seq<Tuple>): int {
    if xs == [] then 0 else Weighed(weigh, xs[..|xs| - 1]) + weigh(xs[|xs| - 1])
  }

  lemma {:induction false} WeighedFirst(weigh: Tuple -> int, xs: seq<Tuple>)
    requires xs != []
    ensures Weighed(weigh, xs) == weigh(xs[0]) + Weighed(weigh, xs[1..])
  {
    var n := |xs| - 1;
    if n > 0 {
      WeighedFirst(weigh, xs[..n]);
      assert xs[..n][1..] == xs[1..][..n - 1] && xs[1..][n - 1] == xs[n];
    } else {
      assert xs[..n] == [] && xs[1..] == [];
    }
  }

  lemma {:induction false} WeighedWithout(weigh: Tuple -> int, ys: seq<Tuple>, j: nat)
    requires j < |ys|
    ensures Weighed(weigh, ys) == Weighed(weigh, Without(ys, j)) + weigh(ys[j])
  {
    WeighedFirst(weigh, ys);
    if j == 0 {
      assert Without(ys, 0) == ys[1..];
    } else {
      var rest := Without(ys, j);
      WeighedWithout(weigh, ys[1..], j - 1);
      WeighedFirst(weigh, rest);
      assert rest[0] == ys[0] && rest[1..] == Without(ys[1..], j - 1);
    }
  }

  lemma {:induction false} WeighedRearranged(weigh: Tuple -> int, xs: seq<Tuple>, ys: seq<Tuple>)
    requires Rearranged(xs, ys)
    ensures Weighed(weigh, xs) == Weighed(weigh, ys)
    decreases |xs|
  {
    hide Without;
    SameElements(xs, ys);
    if xs != [] {
      var j := FirstElsewhere(xs, ys);
      WeighedFirst(weigh, xs);
      WeighedWithout(weigh, ys, j);
      WeighedRearranged(weigh, xs[1..], Without(ys, j));
    }
  }

  predicate HasValue(x: Tuple, index: int) { 0 <= index < |x| && x[index] != Null }

  lemma {:induction false} ValuesWeighed(xs: seq<Tuple>, index: int)
    ensures |NonNull(xs, index)| == Weighed(x => if HasValue(x, index) then 1 else 0, xs)
  {
    var weigh := x => if HasValue(x, index) then 1 else 0;
    if xs != [] {
      ValuesWeighed(xs[..|xs| - 1], index);
      assert |NonNull(xs[..|xs| - 1], index)| == Weighed(weigh, xs[..|xs| - 1]);
    }
  }

  lemma CountRearranged(xs: seq<Tuple>, ys: seq<Tuple>, index: int)
    requires Rearranged(xs, ys)
    ensures |NonNull(xs, index)| == |NonNull(ys, index)|
  {
    ValuesWeighed(xs, index);
    ValuesWeighed(ys, index);
    WeighedRearranged(x => if HasValue(x, index) then 1 else 0, xs, ys);
  }

  function NumberAt(x: Tuple, index: int): int {
    if 0 <= index < |x| && (x[index].Int32? || x[index].Int64?) then Number(x[index]) else 0
  }

  lemma {:induction false} SumWeighed(wide: bool, xs: seq<Tuple>, index: int)
    requires IntegerColumn(wide, index, xs)
    ensures AllIntegers(wide, NonNull(xs, index))
    ensures Sum(Numbers(wide, NonNull(xs, index))) == Weighed(x => NumberAt(x, index), xs)
  {
    hide Numbers, AllIntegers, IntegerColumn, NonNull;
    var weigh := x => NumberAt(x, index);
    ColumnIntegers(wide, index, xs);
    NoParts(wide, Add);
    if xs == [] {
      NothingHeld(index);
    } else {
      var n := |xs| - 1;
      var ys, x := xs[..n], xs[n];
      assert xs == ys + [x];
      ColumnStep(wide, index, ys, x);
      SumWeighed(wide, ys, index);
      assert Sum(Numbers(wide, NonNull(ys, index))) == Weighed(weigh, ys);
      NonNullStep(ys, x, index);
      if x[index] != Null {
        NumbersLast(wide, NonNull(ys, index), x[index]);
        FoldedLast(Numbers(wide, NonNull(ys, index)), Number(x[index]));
      }
    }
  }

  lemma NothingHeld(index: int)
    ensures NonNull([], index) == []
  {}

  lemma SumRearranged(wide: bool, xs: seq<Tuple>, ys: seq<Tuple>, index: int)
    requires Rearranged(xs, ys) && IntegerColumn(wide, index, xs) && IntegerColumn(wide, index, ys)
    ensures AllIntegers(wide, NonNull(xs, index)) && AllIntegers(wide, NonNull(ys, index))
    ensures Sum(Numbers(wide, NonNull(xs, index))) == Sum(Numbers(wide, NonNull(ys, index)))
  {
    SumWeighed(wide, xs, index);
    SumWeighed(wide, ys, index);
    WeighedRearranged(x => NumberAt(x, index), xs, ys);
  }

  // ---------- extremes ----------

  lemma {:induction false} ValuesAre(xs: seq<Tuple>, index: int, v: Operand)
    ensures v in NonNull(xs, index) <==> exists x | x in xs :: HasValue(x, index) && x[index] == v
  {
    if xs != [] {
      var n := |xs| - 1;
      assert xs == xs[..n] + [xs[n]];
      ValuesAre(xs[..n], index, v);
    }
  }

  lemma ValuesRearranged(xs: seq<Tuple>, ys: seq<Tuple>, index: int)
    requires Rearranged(xs, ys)
    ensures forall v :: v in NonNull(xs, index) <==> v in NonNull(ys, index)
    ensures NonNull(xs, index) == [] <==> NonNull(ys, index) == []
  {
    CountRearranged(xs, ys, index);
    SameElements(xs, ys);
    forall v
      ensures v in NonNull(xs, index) <==> v in NonNull(ys, index)
    {
      ValuesAre(xs, index, v);
      ValuesAre(ys, index, v);
    }
  }

  lemma NumbersAre(wide: bool, vs: seq<Operand>, n: int)
    requires AllIntegers(wide, vs)
    ensures n in Numbers(wide, vs) <==> exists v | v in vs :: Number(v) == n
  {
    if v :| v in vs && Number(v) == n {
      var i :| 0 <= i < |vs| && vs[i] == v;
      assert Numbers(wide, vs)[i] == n;
    }
    if n in Numbers(wide, vs) {
      var i :| 0 <= i < |vs| && Numbers(wide, vs)[i] == n;
      assert vs[i] in vs;
    }
  }

  lemma ExtremesRearranged(wide: bool, vs: seq<Operand>, ws: seq<Operand>)
    requires AllIntegers(wide, vs) && AllIntegers(wide, ws) && vs != [] && forall v :: v in vs <==> v in ws
    ensures ws != [] && Largest(Numbers(wide, vs)) == Largest(Numbers(wide, ws))
    ensures Smallest(Numbers(wide, vs)) == Smallest(Numbers(wide, ws))
  {
    hide Largest, Smallest, Numbers, AllIntegers, Number;
    assert vs[0] in ws;
    NonEmpty(wide, vs);
    NonEmpty(wide, ws);
    var ns, ms := Numbers(wide, vs), Numbers(wide, ws);
    forall n
      ensures n in ns <==> n in ms
    {
      NumbersAre(wide, vs, n);
      NumbersAre(wide, ws, n);
    }
    Extremes(ns);
    Extremes(ms);
  }

  lemma NonEmpty(wide: bool, vs: seq<Operand>)
    requires AllIntegers(wide, vs) && vs != []
    ensures Numbers(wide, vs) != []
  {}

  lemma TextsRearranged(c: Calc, vs: seq<Operand>, ws: seq<Operand>, best: Operand, other: Operand)
    requires ExtremeText(c, vs, best) && ExtremeText(c, ws, other) && forall v :: v in vs <==> v in ws
    ensures best == other
  {
    hide CompareBytes;
    BytesAntisymmetric(best.s, other.s);
    BytesEqual(best.s, other.s);
  }

  // ---------- aggregates ----------

  predicate Extreme(c: Calc) { c.Max? || c.Min? }

  /** Aggregates that do not depend on the order: the counts, sums of integers, and extremes of
      integers, dates, timestamps and strings. */
  predicate Symmetric(agg: Agg) {
    agg.Fold? ==> (IsFold(agg.kind) && HeldAsInteger(agg.t)) || (Extreme(agg.kind) && agg.t.STRING?)
  }

  lemma ColumnRearranged(p: Prims, agg: Agg, xs: seq<Tuple>, ys: seq<Tuple>)
    requires Symmetric(agg) && Rearranged(xs, ys)
    requires FoldColumn(p, agg, xs).Ok? && FoldColumn(p, agg, ys).Ok?
    ensures FoldColumn(p, agg, xs) == FoldColumn(p, agg, ys)
  {
    hide FoldColumn, Rearranged, NonNull, HeldAsInteger;
    match agg
    case CountAll =>
      SameElements(xs, ys);
      CountAllMeaning(p, xs);
      CountAllMeaning(p, ys);
    case Count(t, index) =>
      CountRearranged(xs, ys, index);
      CountMeaning(p, t, index, xs);
      CountMeaning(p, t, index, ys);
    case Fold(c, t, index) =>
      if HeldAsInteger(t) {
        IntegersRearranged(p, c, t, index, xs, ys);
      } else {
        FoldTexts(p, c, index, xs);
        FoldTexts(p, c, index, ys);
        ValuesRearranged(xs, ys, index);
        if NonNull(xs, index) != [] {
          TextsRearranged(c, NonNull(xs, index), NonNull(ys, index), FoldColumn(p, agg, xs).value,
                          FoldColumn(p, agg, ys).value);
        }
      }
  }

  lemma IntegersRearranged(p: Prims, c: Calc, t: Type, index: int, xs: seq<Tuple>, ys: seq<Tuple>)
    requires IsFold(c) && HeldAsInteger(t) && Rearranged(xs, ys)
    requires FoldColumn(p, Fold(c, t, index), xs).Ok? && FoldColumn(p, Fold(c, t, index), ys).Ok?
    ensures FoldColumn(p, Fold(c, t, index), xs) == FoldColumn(p, Fold(c, t, index), ys)
  {
    hide FoldColumn, Rearranged, NonNull, HeldAsInteger, Sum, Largest, Smallest, Numbers, AllIntegers, IntegerColumn,
      PartsFit, Exact;
    var wide := t.Variant().VInt64?;
    FoldHasIntegers(p, c, t, index, xs);
    FoldHasIntegers(p, c, t, index, ys);
    FoldMeaning(p, c, t, index, xs);
    FoldMeaning(p, c, t, index, ys);
    var vs, ws := NonNull(xs, index), NonNull(ys, index);
    SumRearranged(wide, xs, ys, index);
    ValuesRearranged(xs, ys, index);
    if vs != [] {
      ExtremesRearranged(wide, vs, ws);
      NonEmpty(wide, vs);
      NonEmpty(wide, ws);
    } else {
      NoParts(wide, c);
    }
  }

  predicate AllSymmetric(aggs: seq<Agg>) { forall agg | agg in aggs :: Symmetric(agg) }

  lemma FoldRearranged(p: Prims, aggs: seq<Agg>, xs: seq<Tuple>, ys: seq<Tuple>)
    requires AllSymmetric(aggs) && Rearranged(xs, ys)
    requires FoldTuples(p, aggs, xs).Ok? && FoldTuples(p, aggs, ys).Ok?
    ensures FoldTuples(p, aggs, xs) == FoldTuples(p, aggs, ys)
  {
    hide FoldTuples, FoldColumn, Symmetric, Rearranged;
    var r, q := FoldTuples(p, aggs, xs).value, FoldTuples(p, aggs, ys).value;
    forall j | 0 <= j < |aggs|
      ensures r[j] == q[j]
    {
      FoldIsPointwise(p, aggs, xs, j);
      FoldIsPointwise(p, aggs, ys, j);
      ColumnRearranged(p, aggs[j], xs, ys);
    }
    assert r == q;
  }

  // ---------- groups ----------

  lemma {:induction false} MembersCounts(indices: seq<int>, xs: seq<Tuple>, k: Tuple, x: Tuple)
    ensures multiset(Members(indices, xs, k))[x] == if MapTuple(x, indices) == Ok(k) then multiset(xs)[x] else 0
  {
    hide MapTuple;
    if xs != [] {
      var n := |xs| - 1;
      assert xs == xs[..n] + [xs[n]];
      MembersCounts(indices, xs[..n], k, x);
    }
  }

  lemma MembersRearranged(indices: seq<int>, xs: seq<Tuple>, ys: seq<Tuple>, k: Tuple)
    requires Rearranged(xs, ys)
    ensures Rearranged(Members(indices, xs, k), Members(indices, ys, k))
  {
    hide MapTuple, Members;
    forall x
      ensures multiset(Members(indices, xs, k))[x] == multiset(Members(indices, ys, k))[x]
    {
      MembersCounts(indices, xs, k, x);
      MembersCounts(indices, ys, k, x);
    }
  }

  lemma KeysRearranged(indices: seq<int>, xs: seq<Tuple>, ys: seq<Tuple>)
    requires Rearranged(xs, ys)
    ensures KeySet(indices, xs) == KeySet(indices, ys) && KeysExist(indices, xs) == KeysExist(indices, ys)
  {
    hide MapTuple, Rearranged;
    SameElements(xs, ys);
  }

  lemma GroupsRearranged(p: Prims, indices: seq<int>, aggs: seq<Agg>, xs: seq<Tuple>, ys: seq<Tuple>)
    requires AllSymmetric(aggs) && Rearranged(xs, ys)
    requires Foldable(p, indices, aggs, xs) && Foldable(p, indices, aggs, ys)
    ensures GroupBy(p, indices, aggs, xs) == GroupBy(p, indices, aggs, ys)
  {
    hide KeySet, KeysExist, Members, FoldTuples, AllSymmetric, Rearranged;
    KeysRearranged(indices, xs, ys);
    forall k | k in KeySet(indices, xs)
      ensures FoldTuples(p, aggs, Members(indices, xs, k)) == FoldTuples(p, aggs, Members(indices, ys, k))
    {
      MembersRearranged(indices, xs, ys, k);
      FoldRearranged(p, aggs, Members(indices, xs, k), Members(indices, ys, k));
    }
  }

  // ---------- chains ----------

  predicate SymmetricStage(stage: Stage) {
    match stage
    case Filter(_) => true
    case Project(_) => true
    case Grouped(_, aggs, _) => AllSymmetric(aggs)
    case Ungrouped(aggs) => AllSymmetric(aggs)
  }

  /** Two stages that differ at most in the order of a hash map. */
  ghost predicate SameStage(a: Stage, b: Stage) {
    match a
    case Grouped(indices, aggs, _) => b.Grouped? && b.indices == indices && b.aggs == aggs
    case _ => a == b
  }

  lemma StageRearranged(p: Prims, a: Stage, b: Stage, xs: seq<Tuple>, ys: seq<Tuple>)
    requires SameStage(a, b) && AllChoose([a]) && AllChoose([b]) && Rearranged(xs, ys)
    requires SymmetricStage(a) || (xs == ys)
    requires StageMeaning(p, a, 0, xs).Ok? && StageMeaning(p, b, 0, ys).Ok?
    ensures Rearranged(StageMeaning(p, a, 0, xs).value, StageMeaning(p, b, 0, ys).value)
    ensures xs == ys && !a.Grouped? ==> StageMeaning(p, a, 0, xs) == StageMeaning(p, b, 0, ys)
  {
    hide KeepAll, MapAll, Foldable, GroupBy, FoldTuples, DrainedRows, AllSymmetric, Chooses;
    assert a in [a] && b in [b];
    match a
    case Filter(ops) => KeepAllRearranged(p, ops, xs, ys);
    case Project(ops) => MapAllRearranged(p, ops, xs, ys);
    case Grouped(indices, aggs, order) =>
      if xs != ys { GroupsRearranged(p, indices, aggs, xs, ys); }
      OrderIrrelevant(order, b.order, 0, 0, GroupBy(p, indices, aggs, xs));
    case Ungrouped(aggs) =>
      SameElements(xs, ys);
      if xs != ys { FoldRearranged(p, aggs, xs, ys); }
  }

  ghost predicate SameChain(stages: seq<Stage>, others: seq<Stage>) {
    |stages| == |others| && forall i | 0 <= i < |stages| :: SameStage(stages[i], others[i])
  }

  /** Behind the first grouped stage all aggregates are symmetric. */
  ghost predicate SymmetricBehind(stages: seq<Stage>) {
    stages != [] ==>
      if stages[0].Grouped? then forall s | s in stages[1..] :: SymmetricStage(s) else SymmetricBehind(stages[1..])
  }

  lemma ChooseParts(stages: seq<Stage>)
    requires AllChoose(stages) && stages != []
    ensures AllChoose(stages[..1]) && AllChoose([stages[0]]) && AllChoose(stages[1..])
  {}

  lemma {:induction false} ChainRearranged(p: Prims, stages: seq<Stage>, others: seq<Stage>, xs: seq<Tuple>,
          ys: seq<Tuple>)
    requires SameChain(stages, others) && AllChoose(stages) && AllChoose(others) && Rearranged(xs, ys)
    requires forall s | s in stages :: SymmetricStage(s)
    requires ChainMeaning(p, stages, xs).Ok? && ChainMeaning(p, others, ys).Ok?
    ensures Rearranged(ChainMeaning(p, stages, xs).value, ChainMeaning(p, others, ys).value)
    decreases |stages|
  {
    hide StageMeaning, AllChoose, Rearranged, SymmetricStage;
    if stages != [] {
      ChooseParts(stages);
      ChooseParts(others);
      StageRearranged(p, stages[0], others[0], xs, ys);
      ChainRearranged(p, stages[1..], others[1..], StageMeaning(p, stages[0], 0, xs).value,
                      StageMeaning(p, others[0], 0, ys).value);
    }
  }

  /** Whatever the orders in which the hash maps give up their entries, a chain gives the same rows:
      if the aggregates behind the first grouped stage are symmetric, two runs that succeed give out
      the same multiset. */
  lemma {:induction false} OrdersDoNotShow(p: Prims, stages: seq<Stage>, others: seq<Stage>, xs: seq<Tuple>)
    requires SameChain(stages, others) && AllChoose(stages) && AllChoose(others) && SymmetricBehind(stages)
    requires ChainMeaning(p, stages, xs).Ok? && ChainMeaning(p, others, xs).Ok?
    ensures multiset(ChainMeaning(p, stages, xs).value) == multiset(ChainMeaning(p, others, xs).value)
    decreases |stages|
  {
    hide StageMeaning, AllChoose, SymmetricStage;
    if stages != [] {
      ChooseParts(stages);
      ChooseParts(others);
      StageRearranged(p, stages[0], others[0], xs, xs);
      var ys, zs := StageMeaning(p, stages[0], 0, xs).value, StageMeaning(p, others[0], 0, xs).value;
      if stages[0].Grouped? {
        ChainRearranged(p, stages[1..], others[1..], ys, zs);
      } else {
        OrdersDoNotShow(p, stages[1..], others[1..], ys);
      }
    }
  }

  // ---------- success ----------

  /** Symmetric aggregates that also succeed in every order, or in none: all but sums. */
  predicate Steady(agg: Agg) { Symmetric(agg) && (agg.Fold? ==> Extreme(agg.kind)) }

  lemma {:induction false} CountAllSucceeds(p: Prims, xs: seq<Tuple>)
    ensures FoldColumn(p, CountAll, xs).Ok? <==> FitsInt64(|xs|)
  {
    if xs != [] {
      var n := |xs| - 1;
      CountAllSucceeds(p, xs[..n]);
      if FitsInt64(n) { CountAllMeaning(p, xs[..n]); }
    }
  }

  predicate HasColumn(xs: seq<Tuple>, index: int) { forall x: Tuple | x in xs :: 0 <= index < |x| }

  lemma HasColumnStep(xs: seq<Tuple>, x: Tuple, index: int)
    ensures HasColumn([], index)
    ensures HasColumn(xs + [x], index) <==> HasColumn(xs, index) && 0 <= index < |x|
  {
    assert forall y :: y in xs + [x] <==> y in xs || y == x;
  }

  lemma {:induction false} CountSucceeds(p: Prims, t: Type, index: int, xs: seq<Tuple>)
    ensures FoldColumn(p, Count(t, index), xs).Ok? <==> HasColumn(xs, index) && FitsInt64(|NonNull(xs, index)|)
  {
    hide FoldColumn, NonNull, HasColumn;
    if xs == [] {
      HasColumnStep([], [], index);
      NoFold(p, true, Count(t, index), index);
    } else {
      var n := |xs| - 1;
      var ys, x := xs[..n], xs[n];
      assert xs == ys + [x];
      CountSucceeds(p, t, index, ys);
      HasColumnStep(ys, x, index);
      FoldStep(p, Count(t, index), ys, x);
      NonNullStep(ys, x, index);
      if FoldColumn(p, Count(t, index), ys).Ok? { CountMeaning(p, t, index, ys); }
    }
  }

  predicate TextOrNull(x: Tuple, index: int) { 0 <= index < |x| && (x[index] == Null || x[index].String?) }

  predicate TextColumn(xs: seq<Tuple>, index: int) { forall x | x in xs :: TextOrNull(x, index) }

  lemma TextColumnStep(xs: seq<Tuple>, x: Tuple, index: int)
    ensures TextColumn([], index)
    ensures TextColumn(xs + [x], index) <==> TextColumn(xs, index) && TextOrNull(x, index)
  {
    hide TextOrNull;
    assert forall y :: y in xs + [x] <==> y in xs || y == x;
  }

  lemma AddText(p: Prims, c: Calc, index: int, acc: Operand, x: Tuple)
    requires Extreme(c) && (acc == Null || acc.String?)
    ensures var r := AggAdd(p, Fold(c, STRING, index), acc, x);
      && (r.Ok? <==> TextOrNull(x, index))
      && (r.Ok? ==> r.value == Null || r.value.String?)
  {
    hide CompareBytes;
  }

  lemma {:induction false} TextsSucceed(p: Prims, c: Calc, index: int, xs: seq<Tuple>)
    requires Extreme(c)
    ensures var r := FoldColumn(p, Fold(c, STRING, index), xs);
      (r.Ok? <==> TextColumn(xs, index)) && (r.Ok? ==> r.value == Null || r.value.String?)
  {
    hide FoldColumn, AggAdd, TextColumn, TextOrNull;
    var agg := Fold(c, STRING, index);
    if xs == [] {
      TextColumnStep([], [], index);
      NoFold(p, true, agg, index);
    } else {
      var n := |xs| - 1;
      assert xs == xs[..n] + [xs[n]];
      TextsSucceed(p, c, index, xs[..n]);
      TextColumnStep(xs[..n], xs[n], index);
      FoldStep(p, agg, xs[..n], xs[n]);
      var acc := FoldColumn(p, agg, xs[..n]);
      if acc.Ok? { AddText(p, c, index, acc.value, xs[n]); }
    }
  }

  lemma ExtremesSucceed(p: Prims, c: Calc, t: Type, index: int, xs: seq<Tuple>)
    requires Extreme(c) && HeldAsInteger(t)
    ensures FoldColumn(p, Fold(c, t, index), xs).Ok? <==> IntegerColumn(t.Variant().VInt64?, index, xs)
  {
    hide FoldColumn, IntegerColumn, PartsFit, Numbers, NonNull, Folded;
    var wide := t.Variant().VInt64?;
    if IntegerColumn(wide, index, xs) {
      FoldMeaning(p, c, t, index, xs);
      ExtremesFit(wide, c, NonNull(xs, index));
    } else if FoldColumn(p, Fold(c, t, index), xs).Ok? {
      FoldHasIntegers(p, c, t, index, xs);
    }
  }

  lemma ColumnSucceeds(p: Prims, agg: Agg, xs: seq<Tuple>, ys: seq<Tuple>)
    requires Steady(agg) && Rearranged(xs, ys)
    ensures FoldColumn(p, agg, xs).Ok? == FoldColumn(p, agg, ys).Ok?
  {
    hide FoldColumn, Rearranged, NonNull, HeldAsInteger;
    SameElements(xs, ys);
    match agg
    case CountAll =>
      CountAllSucceeds(p, xs);
      CountAllSucceeds(p, ys);
    case Count(t, index) =>
      CountRearranged(xs, ys, index);
      CountSucceeds(p, t, index, xs);
      CountSucceeds(p, t, index, ys);
    case Fold(c, t, index) =>
      if HeldAsInteger(t) {
        ExtremesSucceed(p, c, t, index, xs);
        ExtremesSucceed(p, c, t, index, ys);
      } else {
        TextsSucceed(p, c, index, xs);
        TextsSucceed(p, c, index, ys);
      }
  }

  lemma {:induction false} AddAllSucceeds(p: Prims, aggs: seq<Agg>, cache: Tuple, x: Tuple)
    requires |cache| == |aggs|
    ensures AddAll(p, aggs, cache, x).Ok? <==> forall j | 0 <= j < |aggs| :: AggAdd(p, aggs[j], cache[j], x).Ok?
  {
    hide AggAdd;
    if aggs != [] {
      AddAllSucceeds(p, aggs[1..], cache[1..], x);
      assert forall j | 0 < j < |aggs| :: aggs[j] == aggs[1..][j - 1] && cache[j] == cache[1..][j - 1];
      assert forall j | 0 <= j < |aggs| - 1 :: aggs[1..][j] == aggs[j + 1] && cache[1..][j] == cache[j + 1];
    }
  }

  /** A group folds exactly when each of its columns does. */
  lemma {:induction false} FoldSucceeds(p: Prims, aggs: seq<Agg>, xs: seq<Tuple>)
    ensures FoldTuples(p, aggs, xs).Ok? <==> forall j | 0 <= j < |aggs| :: FoldColumn(p, aggs[j], xs).Ok?
  {
    hide FoldTuples, FoldColumn, AggAdd, AddAll;
    if xs == [] {
      NothingFolds(p, aggs);
    } else {
      var n := |xs| - 1;
      var ys, x := xs[..n], xs[n];
      assert xs == ys + [x];
      FoldSucceeds(p, aggs, ys);
      LastFold(p, aggs, ys, x);
      forall j | 0 <= j < |aggs|
        ensures FoldColumn(p, aggs[j], xs) ==
                var acc := FoldColumn(p, aggs[j], ys); if acc.Err? then acc else AggAdd(p, aggs[j], acc.value, x)
      {
        FoldStep(p, aggs[j], ys, x);
      }
      var acc := FoldTuples(p, aggs, ys);
      if acc.Ok? {
        AddAllSucceeds(p, aggs, acc.value, x);
        forall j | 0 <= j < |aggs|
          ensures FoldColumn(p, aggs[j], ys) == Ok(acc.value[j])
        {
          FoldIsPointwise(p, aggs, ys, j);
        }
      }
    }
  }

  lemma NothingFolds(p: Prims, aggs: seq<Agg>)
    ensures FoldTuples(p, aggs, []).Ok? && forall agg :: FoldColumn(p, agg, []).Ok?
  {}

  predicate AllSteady(aggs: seq<Agg>) { forall agg | agg in aggs :: Steady(agg) }

  lemma GroupSucceeds(p: Prims, aggs: seq<Agg>, xs: seq<Tuple>, ys: seq<Tuple>)
    requires AllSteady(aggs) && Rearranged(xs, ys)
    ensures FoldTuples(p, aggs, xs).Ok? == FoldTuples(p, aggs, ys).Ok?
  {
    hide FoldTuples, FoldColumn, Steady, Rearranged;
    FoldSucceeds(p, aggs, xs);
    FoldSucceeds(p, aggs, ys);
    forall j | 0 <= j < |aggs|
      ensures FoldColumn(p, aggs[j], xs).Ok? == FoldColumn(p, aggs[j], ys).Ok?
    {
      ColumnSucceeds(p, aggs[j], xs, ys);
    }
  }

  lemma GroupsSucceed(p: Prims, indices: seq<int>, aggs: seq<Agg>, xs: seq<Tuple>, ys: seq<Tuple>)
    requires AllSteady(aggs) && Rearranged(xs, ys)
    ensures Foldable(p, indices, aggs, xs) == Foldable(p, indices, aggs, ys)
  {
    hide KeySet, KeysExist, Members, FoldTuples, AllSteady, Rearranged;
    KeysRearranged(indices, xs, ys);
    forall k | k in KeySet(indices, xs)
      ensures FoldTuples(p, aggs, Members(indices, xs, k)).Ok? == FoldTuples(p, aggs, Members(indices, ys, k)).Ok?
    {
      MembersRearranged(indices, xs, ys, k);
      GroupSucceeds(p, aggs, Members(indices, xs, k), Members(indices, ys, k));
    }
  }

  predicate SteadyStage(stage: Stage) {
    match stage
    case Filter(_) => true
    case Project(_) => true
    case Grouped(_, aggs, _) => AllSteady(aggs)
    case Ungrouped(aggs) => AllSteady(aggs)
  }

  lemma SteadyIsSymmetric(stage: Stage)
    requires SteadyStage(stage)
    ensures SymmetricStage(stage)
  {
    hide Symmetric;
  }

  lemma StageSucceeds(p: Prims, a: Stage, b: Stage, xs: seq<Tuple>, ys: seq<Tuple>)
    requires SameStage(a, b) && AllChoose([a]) && AllChoose([b]) && Rearranged(xs, ys)
    requires SteadyStage(a) || xs == ys
    ensures StageMeaning(p, a, 0, xs).Ok? == StageMeaning(p, b, 0, ys).Ok?
  {
    hide KeepAll, MapAll, Foldable, GroupBy, FoldTuples, DrainedRows, AllSteady, Chooses;
    assert a in [a] && b in [b];
    match a
    case Filter(ops) => KeepAllRearranged(p, ops, xs, ys);
    case Project(ops) => MapAllRearranged(p, ops, xs, ys);
    case Grouped(indices, aggs, order) =>
      if xs != ys { GroupsSucceed(p, indices, aggs, xs, ys); }
    case Ungrouped(aggs) =>
      SameElements(xs, ys);
      if xs != ys { GroupSucceeds(p, aggs, xs, ys); }
  }

  ghost predicate SteadyBehind(stages: seq<Stage>) {
    stages != [] ==>
      if stages[0].Grouped? then forall s | s in stages[1..] :: SteadyStage(s) else SteadyBehind(stages[1..])
  }

  lemma {:induction false} ChainSucceeds(p: Prims, stages: seq<Stage>, others: seq<Stage>, xs: seq<Tuple>,
          ys: seq<Tuple>)
    requires SameChain(stages, others) && AllChoose(stages) && AllChoose(others) && Rearranged(xs, ys)
    requires forall s | s in stages :: SteadyStage(s)
    ensures ChainMeaning(p, stages, xs).Ok? == ChainMeaning(p, others, ys).Ok?
    decreases |stages|
  {
    hide StageMeaning, AllChoose, Rearranged, SteadyStage;
    if stages != [] {
      ChooseParts(stages);
      ChooseParts(others);
      StageSucceeds(p, stages[0], others[0], xs, ys);
      if StageMeaning(p, stages[0], 0, xs).Ok? {
        SteadyIsSymmetric(stages[0]);
        StageRearranged(p, stages[0], others[0], xs, ys);
        ChainSucceeds(p, stages[1..], others[1..], StageMeaning(p, stages[0], 0, xs).value,
                      StageMeaning(p, others[0], 0, ys).value);
      }
    }
  }

  /** Without sums behind the first grouped stage, it does not depend on the orders whether a run
      succeeds either. */
  lemma {:induction false} OrdersDoNotFail(p: Prims, stages: seq<Stage>, others: seq<Stage>, xs: seq<Tuple>)
    requires SameChain(stages, others) && AllChoose(stages) && AllChoose(others) && SteadyBehind(stages)
    ensures ChainMeaning(p, stages, xs).Ok? == ChainMeaning(p, others, xs).Ok?
    decreases |stages|
  {
    hide StageMeaning, AllChoose, SteadyStage;
    if stages != [] {
      ChooseParts(stages);
      ChooseParts(others);
      StageSucceeds(p, stages[0], others[0], xs, xs);
      if StageMeaning(p, stages[0], 0, xs).Ok? {
        StageRearranged(p, stages[0], others[0], xs, xs);
        var ys, zs := StageMeaning(p, stages[0], 0, xs).value, StageMeaning(p, others[0], 0, xs).value;
        if stages[0].Grouped? {
          ChainSucceeds(p, stages[1..], others[1..], ys, zs);
        } else {
          OrdersDoNotFail(p, stages[1..], others[1..], ys);
        }
      }
    }
  }

  /** A sum of one, two or three values. */
  lemma SumSteps(p: Prims, a: int64, b: int64, c: int64)
    ensures var r := FoldColumn(p, Fold(Add, INT64, 0), [[Int64(a)], [Int64(b)], [Int64(c)]]);
      r.Ok? <==> FitsInt64(a + b) && FitsInt64(a + b + c)
  {
    hide FoldColumn, AggAdd;
    var agg := Fold(Add, INT64, 0);
    var x, y, z := [Int64(a)], [Int64(b)], [Int64(c)];
    assert [x, y, z] == [x, y] + [z] && [x, y] == [x] + [y] && [x] == [] + [x];
    NoFold(p, true, agg, 0);
    FoldStep(p, agg, [], x);
    FoldStep(p, agg, [x], y);
    FoldStep(p, agg, [x, y], z);
    AddInteger(p, Add, INT64, 0, Null, x);
    AddInteger(p, Add, INT64, 0, Int64(a), y);
    if FitsInt64(a + b) { AddInteger(p, Add, INT64, 0, Int64(a + b), z); }
  }

  /** A sum can fail in one order and not in another. */
  lemma SumsMayFail(p: Prims)
    ensures exists xs, ys :: Rearranged(xs, ys) &&
              FoldColumn(p, Fold(Add, INT64, 0), xs).Ok? && FoldColumn(p, Fold(Add, INT64, 0), ys).Err?
  {
    hide FoldColumn;
    var most: int64 := 0x7FFF_FFFF_FFFF_FFFF;
    var xs, ys := [[Int64(most)], [Int64(-1)], [Int64(1)]], [[Int64(most)], [Int64(1)], [Int64(-1)]];
    SumSteps(p, most, -1, 1);
    SumSteps(p, most, 1, -1);
    assert Rearranged(xs, ys);
  }
}
