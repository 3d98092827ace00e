/** Grouped aggregation against its definition: group the tuples by key, fold each group. */
module Grouping {
  import opened Options
  import opened Operands
  import opened Calculations
  import opened Pipeline

  // ---------- the definition ----------

  predicate KeysExist(indices: seq<int>, xs: seq<Tuple>) {
    forall x | x in xs :: MapTuple(x, indices).Ok?
  }

  /** The tuples with a given key, in order. NULL keys equal each other. */
  function Members(indices: seq<int>, xs: seq<Tuple>, key: Tuple): seq<Tuple> {
    if xs == [] then []
    else
      var last := xs[|xs| - 1];
      Members(indices, xs[..|xs| - 1], key) + (if MapTuple(last, indices) == Ok(key) then [last] else [])
  }

  function KeySet(indices: seq<int>, xs: seq<Tuple>): set<Tuple> {
    set x | x in xs && MapTuple(x, indices).Ok? :: MapTuple(x, indices).value
  }

  /** All aggregates over a list of tuples, from the first to the last. */
  function FoldTuples(p: Prims, aggs: seq<Agg>, xs: seq<Tuple>): (r: Result<Tuple>)
    ensures r.Ok? ==> |r.value| == |aggs|
  {
    if xs == [] then Ok(Nulls(|aggs|))
    else
      var acc :- FoldTuples(p, aggs, xs[..|xs| - 1]);
      AddAll(p, aggs, acc, xs[|xs| - 1])
  }

  /** Every group can be folded. */
  predicate Foldable(p: Prims, indices: seq<int>, aggs: seq<Agg>, xs: seq<Tuple>) {
    && KeysExist(indices, xs)
    && forall k | k in KeySet(indices, xs) :: FoldTuples(p, aggs, Members(indices, xs, k)).Ok?
  }

  /** The table of groups. */
  function GroupBy(p: Prims, indices: seq<int>, aggs: seq<Agg>, xs: seq<Tuple>): (m: map<Tuple, Tuple>)
    requires Foldable(p, indices, aggs, xs)
    ensures forall k | k in m :: |m[k]| == |aggs|
  {
    map k | k in KeySet(indices, xs) :: FoldTuples(p, aggs, Members(indices, xs, k)).value
  }

  lemma GroupKeys(p: Prims, indices: seq<int>, aggs: seq<Agg>, xs: seq<Tuple>)
    requires Foldable(p, indices, aggs, xs)
    ensures KeysExist(indices, xs) && GroupBy(p, indices, aggs, xs).Keys == KeySet(indices, xs)
  {}

  /** A key is the columns at the indices, in their order, and exists when they all do. */
  lemma {:induction false} KeyColumns(src: Tuple, indices: seq<int>)
    ensures MapTuple(src, indices).Ok? <==> forall j | 0 <= j < |indices| :: 0 <= indices[j] < |src|
    ensures MapTuple(src, indices).Ok? ==>
              forall j | 0 <= j < |indices| :: 0 <= indices[j] < |src| &&
                MapTuple(src, indices).value[j] == src[indices[j]]
  {
    if indices != [] {
      KeyColumns(src, indices[1..]);
      assert forall j | 1 <= j < |indices| :: indices[j] == indices[1..][j - 1];
      assert forall j | 0 <= j < |indices| - 1 :: indices[1..][j] == indices[j + 1];
    }
  }

  /** Equality as the stage's hash map has it: the same variant, and the variant's own equality. Two
      zeros are equal, a NaN is not equal to itself, and decimals compare as they are written. */
  predicate SourceEqual(p: Prims, v: Operand, w: Operand) {
    match (v, w)
    case (Float(x), Float(y)) => p.floatTest(Eq, x, y)
    case (Double(x), Double(y)) => p.doubleTest(Eq, x, y)
    case (Decimal(x), Decimal(y)) => p.decimalTest(Eq, x, y)
    case _ => v == w
  }

  predicate SourceEqualKeys(p: Prims, k: Tuple, j: Tuple) {
    |k| == |j| && forall i | 0 <= i < |k| :: SourceEqual(p, k[i], j[i])
  }

  /** No key column holds a floating-point or decimal value. */
  predicate ExactKeys(indices: seq<int>, xs: seq<Tuple>) {
    forall x: Tuple, i | x in xs && i in indices && 0 <= i < |x| :: !x[i].Float? && !x[i].Double? && !x[i].Decimal?
  }

  lemma KeyColumnsExact(indices: seq<int>, xs: seq<Tuple>, k: Tuple, i: nat)
    requires ExactKeys(indices, xs) && k in KeySet(indices, xs) && i < |k|
    ensures !k[i].Float? && !k[i].Double? && !k[i].Decimal?
  {
    var x :| x in xs && MapTuple(x, indices) == Ok(k);
    KeyColumns(x, indices);
    assert indices[i] in indices;
  }

  /** Under `ExactKeys` the stage tells two keys apart exactly when they are different, so that its
      groups are those of `KeySet`. */
  lemma KeysCompareExactly(p: Prims, indices: seq<int>, xs: seq<Tuple>, k: Tuple, j: Tuple)
    requires ExactKeys(indices, xs) && k in KeySet(indices, xs) && j in KeySet(indices, xs)
    ensures SourceEqualKeys(p, k, j) <==> k == j
  {
    hide ExactKeys, KeySet;
    forall i | 0 <= i < |k|
      ensures forall w :: SourceEqual(p, k[i], w) <==> k[i] == w
    {
      KeyColumnsExact(indices, xs, k, i);
    }
  }

  // ---------- the stage refines it ----------

  lemma LastMember(indices: seq<int>, xs: seq<Tuple>, x: Tuple, k: Tuple)
    ensures Members(indices, xs + [x], k) == Members(indices, xs, k) +
            (if MapTuple(x, indices) == Ok(k) then [x] else [])
  {
    assert (xs + [x])[..|xs|] == xs;
  }

  lemma LastFold(p: Prims, aggs: seq<Agg>, xs: seq<Tuple>, x: Tuple)
    ensures FoldTuples(p, aggs, xs + [x]) ==
            var acc := FoldTuples(p, aggs, xs); if acc.Err? then acc else AddAll(p, aggs, acc.value, x)
  {
    assert (xs + [x])[..|xs|] == xs;
  }

  lemma {:induction false} NoMembers(indices: seq<int>, xs: seq<Tuple>, k: Tuple)
    ensures Members(indices, xs, k) == [] <==> k !in KeySet(indices, xs)
  {
    if xs != [] {
      var n := |xs| - 1;
      NoMembers(indices, xs[..n], k);
      assert xs == xs[..n] + [xs[n]];
      assert forall x :: x in xs <==> x in xs[..n] || x == xs[n];
    }
  }

  lemma KeySetAppend(indices: seq<int>, xs: seq<Tuple>, x: Tuple)
    requires MapTuple(x, indices).Ok?
    ensures KeySet(indices, xs + [x]) == KeySet(indices, xs) + {MapTuple(x, indices).value}
  {
    assert forall y :: y in xs + [x] <==> y in xs || y == x;
  }

  /** The fold a group starts from when one more of its tuples arrives. */
  function Start(aggs: seq<Agg>, m: map<Tuple, Tuple>, key: Tuple): Tuple {
    if key in m then m[key] else Nulls(|aggs|)
  }

  /** One more tuple changes the fold of its own group only. */
  lemma OneGroupChanges(p: Prims, indices: seq<int>, aggs: seq<Agg>, xs: seq<Tuple>, x: Tuple)
    requires Foldable(p, indices, aggs, xs) && MapTuple(x, indices).Ok?
    ensures var key := MapTuple(x, indices).value;
      && KeySet(indices, xs + [x]) == KeySet(indices, xs) + {key}
      && (forall k | k != key ::
            FoldTuples(p, aggs, Members(indices, xs + [x], k)) == FoldTuples(p, aggs, Members(indices, xs, k)))
      && |Start(aggs, GroupBy(p, indices, aggs, xs), key)| == |aggs|
      && FoldTuples(p, aggs, Members(indices, xs + [x], key)) ==
           AddAll(p, aggs, Start(aggs, GroupBy(p, indices, aggs, xs), key), x)
  {
    hide MapTuple, AddAll, Members, KeySet, KeysExist;
    var key := MapTuple(x, indices).value;
    KeySetAppend(indices, xs, x);
    LastMember(indices, xs, x, key);
    LastFold(p, aggs, Members(indices, xs, key), x);
    NoMembers(indices, xs, key);
    forall k | k != key
      ensures Members(indices, xs + [x], k) == Members(indices, xs, k)
    {
      LastMember(indices, xs, x, k);
    }
  }

  lemma KeysExistAppend(indices: seq<int>, xs: seq<Tuple>, x: Tuple)
    ensures KeysExist(indices, xs + [x]) <==> KeysExist(indices, xs) && MapTuple(x, indices).Ok?
  {
    assert forall y :: y in xs + [x] <==> y in xs || y == x;
  }

  /** One more tuple: the table after it, or the reason it cannot be added. */
  lemma GroupOneMore(p: Prims, indices: seq<int>, aggs: seq<Agg>, order: Order, xs: seq<Tuple>, x: Tuple, drawn: nat)
    requires Chooses(order) && Foldable(p, indices, aggs, xs)
    ensures var stage, m := Grouped(indices, aggs, order), GroupBy(p, indices, aggs, xs);
      && Fits(Leaf(stage), Groups(m, drawn))
      && (PutStage(p, stage, Groups(m, drawn), x).Ok? <==> Foldable(p, indices, aggs, xs + [x]))
      && (Foldable(p, indices, aggs, xs + [x]) ==>
            PutStage(p, stage, Groups(m, drawn), x) == Ok((Groups(GroupBy(p, indices, aggs, xs + [x]), drawn), None)))
  {
    hide MapTuple, AddAll, Members, KeySet, KeysExist, FoldTuples, Chooses;
    var m := GroupBy(p, indices, aggs, xs);
    KeysExistAppend(indices, xs, x);
    if MapTuple(x, indices).Ok? {
      var key := MapTuple(x, indices).value;
      OneGroupChanges(p, indices, aggs, xs, x);
      var r := AddAll(p, aggs, Start(aggs, m, key), x);
      if r.Ok? {
        assert Foldable(p, indices, aggs, xs + [x]);
        assert m[key := r.value] == GroupBy(p, indices, aggs, xs + [x]);
      } else {
        assert key in KeySet(indices, xs + [x]);
      }
    }
  }

  // ---------- draining ----------

  /** The keys in the order they are drawn. */
  ghost function DrawnKeys(order: Order, n: nat, m: map<Tuple, Tuple>): (keys: seq<Tuple>)
    requires Chooses(order)
    ensures Within(keys, m)
    decreases |m|
  {
    if m == map[] then []
    else
      var k := order(n, m);
      assert (m - {k}).Keys == m.Keys - {k};
      [k] + DrawnKeys(order, n + 1, m - {k})
  }

  predicate Within(keys: seq<Tuple>, m: map<Tuple, Tuple>) {
    forall k | k in keys :: k in m
  }

  /** Key and aggregates of each group, in the order of the keys. */
  ghost function RowsOf(m: map<Tuple, Tuple>, keys: seq<Tuple>): seq<Tuple>
    requires Within(keys, m)
  {
    seq(|keys|, i requires 0 <= i < |keys| => keys[i] + m[keys[i]])
  }

  /** The rows a grouped stage gives up. */
  ghost function DrainedRows(order: Order, n: nat, m: map<Tuple, Tuple>): seq<Tuple>
    requires Chooses(order)
  {
    RowsOf(m, DrawnKeys(order, n, m))
  }

  predicate Distinct(keys: seq<Tuple>) {
    forall i, j | 0 <= i < j < |keys| :: keys[i] != keys[j]
  }

  lemma Pick(order: Order, n: nat, m: map<Tuple, Tuple>)
    requires Chooses(order) && m != map[]
    ensures var k := order(n, m);
      k in m && |m - {k}| + 1 == |m| && forall j :: j in m <==> j in m - {k} || j == k
  {
    assert (m - {order(n, m)}).Keys == m.Keys - {order(n, m)};
  }

  lemma OneMoreKey(k: Tuple, keys: seq<Tuple>, rest: map<Tuple, Tuple>)
    requires Distinct(keys) && k !in rest && forall j :: j in keys <==> j in rest
    ensures Distinct([k] + keys) && forall j :: j in [k] + keys <==> j in rest || j == k
  {
    assert forall i | 0 <= i < |keys| :: keys[i] in rest;
  }

  /** Each group is drawn exactly once. */
  lemma {:induction false} DrawnOnce(order: Order, n: nat, m: map<Tuple, Tuple>)
    requires Chooses(order)
    ensures var keys := DrawnKeys(order, n, m);
      Distinct(keys) && |keys| == |m| && forall k :: k in keys <==> k in m
    decreases |m|
  {
    if m != map[] {
      hide Distinct, Chooses;
      var k := order(n, m);
      var rest := m - {k};
      Pick(order, n, m);
      DrawnOnce(order, n + 1, rest);
      OneMoreKey(k, DrawnKeys(order, n + 1, rest), rest);
    }
  }

  lemma {:induction false} DistinctMultiset(keys: seq<Tuple>, k: Tuple)
    requires Distinct(keys)
    ensures multiset(keys)[k] == if k in keys then 1 else 0
  {
    if keys != [] {
      var n := |keys| - 1;
      assert keys == keys[..n] + [keys[n]];
      assert forall i | 0 <= i < n :: keys[i] != keys[n];
      DistinctMultiset(keys[..n], k);
    }
  }

  lemma RowsOfSplit(m: map<Tuple, Tuple>, a: seq<Tuple>, b: seq<Tuple>)
    requires Within(a + b, m)
    ensures Within(a, m) && Within(b, m) && RowsOf(m, a + b) == RowsOf(m, a) + RowsOf(m, b)
  {
    assert forall k :: k in a || k in b ==> k in a + b;
  }

  lemma WithinBoth(m: map<Tuple, Tuple>, a: seq<Tuple>, b: seq<Tuple>)
    requires Within(a, m) && Within(b, m)
    ensures Within(a + b, m)
  {}

  function Without(keys: seq<Tuple>, j: nat): seq<Tuple>
    requires j < |keys|
  {
    keys[..j] + keys[j + 1..]
  }

  lemma RowsWithout(m: map<Tuple, Tuple>, keys: seq<Tuple>, j: nat)
    requires Within(keys, m) && j < |keys|
    ensures Within(Without(keys, j), m)
    ensures multiset(keys) == multiset(Without(keys, j)) + multiset{keys[j]}
    ensures multiset(RowsOf(m, keys)) == multiset(RowsOf(m, Without(keys, j))) + multiset{keys[j] + m[keys[j]]}
  {
    var one := [keys[j]];
    assert keys == keys[..j] + (one + keys[j + 1..]);
    RowsOfSplit(m, keys[..j], one + keys[j + 1..]);
    RowsOfSplit(m, one, keys[j + 1..]);
    WithinBoth(m, keys[..j], keys[j + 1..]);
    RowsOfSplit(m, keys[..j], keys[j + 1..]);
    assert RowsOf(m, one) == [keys[j] + m[keys[j]]];
    hide RowsOf, Within;
  }

  /** The same keys in another order give the same rows. */
  lemma {:induction false} RowsPermute(m: map<Tuple, Tuple>, a: seq<Tuple>, b: seq<Tuple>)
    requires Within(a, m) && Within(b, m) && multiset(a) == multiset(b)
    ensures multiset(RowsOf(m, a)) == multiset(RowsOf(m, b))
    decreases |a|
  {
    hide RowsOf, Within, Without;
    if a == [] {
      assert |multiset(b)| == 0;
      assert b == [];
    } else {
      assert a[0] in multiset(b);
      var j :| 0 <= j < |b| && b[j] == a[0];
      RowsWithout(m, a, 0);
      RowsWithout(m, b, j);
      assert multiset(Without(a, 0)) == multiset(a) - multiset{a[0]};
      assert multiset(Without(b, j)) == multiset(b) - multiset{a[0]};
      assert |multiset(Without(a, 0))| + 1 == |multiset(a)|;
      RowsPermute(m, Without(a, 0), Without(b, j));
    }
  }

  /** Whatever order the hash map gives its entries up in, the rows are the same. */
  lemma OrderIrrelevant(order: Order, other: Order, n: nat, k: nat, m: map<Tuple, Tuple>)
    requires Chooses(order) && Chooses(other)
    ensures multiset(DrainedRows(order, n, m)) == multiset(DrainedRows(other, k, m))
  {
    hide Chooses, DrawnKeys, RowsOf, Distinct;
    var a, b := DrawnKeys(order, n, m), DrawnKeys(other, k, m);
    DrawnOnce(order, n, m);
    DrawnOnce(other, k, m);
    forall key
      ensures multiset(a)[key] == multiset(b)[key]
    {
      DistinctMultiset(a, key);
      DistinctMultiset(b, key);
    }
    RowsPermute(m, a, b);
  }

  // ---------- what the aggregates are ----------

  /** One aggregate over a list of tuples. */
  function FoldColumn(p: Prims, agg: Agg, xs: seq<Tuple>): Result<Operand> {
    if xs == [] then Ok(Null)
    else
      var acc :- FoldColumn(p, agg, xs[..|xs| - 1]);
      AggAdd(p, agg, acc, xs[|xs| - 1])
  }

  lemma {:induction false} AddAllIsPointwise(p: Prims, aggs: seq<Agg>, cache: Tuple, x: Tuple, j: nat)
    requires |cache| == |aggs| && j < |aggs| && AddAll(p, aggs, cache, x).Ok?
    ensures AggAdd(p, aggs[j], cache[j], x) == Ok(AddAll(p, aggs, cache, x).value[j])
  {
    if j > 0 { AddAllIsPointwise(p, aggs[1..], cache[1..], x, j - 1); }
  }

  /** Column `j` of a folded group is aggregate `j` over its tuples. */
  lemma {:induction false} FoldIsPointwise(p: Prims, aggs: seq<Agg>, xs: seq<Tuple>, j: nat)
    requires j < |aggs| && FoldTuples(p, aggs, xs).Ok?
    ensures FoldColumn(p, aggs[j], xs) == Ok(FoldTuples(p, aggs, xs).value[j])
  {
    if xs != [] {
      FoldIsPointwise(p, aggs, xs[..|xs| - 1], j);
      AddAllIsPointwise(p, aggs, FoldTuples(p, aggs, xs[..|xs| - 1]).value, xs[|xs| - 1], j);
    }
  }

  /** The non-null values of a column. */
  function NonNull(xs: seq<Tuple>, index: int): seq<Operand> {
    if xs == [] then []
    else
      var x := xs[|xs| - 1];
      NonNull(xs[..|xs| - 1], index) + (if 0 <= index < |x| && x[index] != Null then [x[index]] else [])
  }

  /** Non-null values combined from left to right. */
  function Combined(p: Prims, c: Calc, vs: seq<Operand>): Result<Operand> {
    if vs == [] then Ok(Null)
    else if |vs| == 1 then Ok(vs[0])
    else
      var acc :- Combined(p, c, vs[..|vs| - 1]);
      Calculate(p, c, acc, vs[|vs| - 1])
  }

  /** SUM, MAX and MIN of any type combine the non-null values of the column in order. */
  lemma {:induction false} FoldSkipsNulls(p: Prims, c: Calc, t: Type, index: int, xs: seq<Tuple>)
    requires FoldColumn(p, Fold(c, t, index), xs).Ok?
    ensures Combined(p, c, NonNull(xs, index)) == FoldColumn(p, Fold(c, t, index), xs)
    ensures Combined(p, c, NonNull(xs, index)) == Ok(Null) ==> NonNull(xs, index) == []
  {
    hide Calculate, Conforms, Combined;
    NothingCombined(p, c);
    if xs != [] {
      var n := |xs| - 1;
      FoldSkipsNulls(p, c, t, index, xs[..n]);
      var vs, v := NonNull(xs[..n], index), xs[n][index];
      assert vs + [] == vs;
      OneMoreCombined(p, c, vs, v);
      CalculateNotNull(p, c, FoldColumn(p, Fold(c, t, index), xs[..n]).value, v);
    }
  }

  lemma NothingCombined(p: Prims, c: Calc)
    ensures Combined(p, c, []) == Ok(Null)
  {}

  lemma OneMoreCombined(p: Prims, c: Calc, vs: seq<Operand>, v: Operand)
    ensures Combined(p, c, vs + [v]) ==
            if vs == [] then Ok(v)
            else if Combined(p, c, vs).Err? then Combined(p, c, vs)
            else Calculate(p, c, Combined(p, c, vs).value, v)
  {
    assert (vs + [v])[..|vs|] == vs;
  }

  lemma CalculateNotNull(p: Prims, c: Calc, v: Operand, w: Operand)
    ensures Calculate(p, c, v, w) != Ok(Null)
  {}

  function CountValue(n: nat): Operand
    requires FitsInt64(n)
  {
    if n == 0 then Null else Int64(n)
  }

  /** COUNT counts the non-null values; over none it stays NULL. */
  lemma {:induction false} CountMeaning(p: Prims, t: Type, index: int, xs: seq<Tuple>)
    requires FoldColumn(p, Count(t, index), xs).Ok?
    ensures FitsInt64(|NonNull(xs, index)|)
    ensures FoldColumn(p, Count(t, index), xs) == Ok(CountValue(|NonNull(xs, index)|))
  {
    if xs != [] { CountMeaning(p, t, index, xs[..|xs| - 1]); }
  }

  lemma {:induction false} CountAllMeaning(p: Prims, xs: seq<Tuple>)
    requires FoldColumn(p, CountAll, xs).Ok?
    ensures FitsInt64(|xs|) && FoldColumn(p, CountAll, xs) == Ok(CountValue(|xs|))
  {
    if xs != [] { CountAllMeaning(p, xs[..|xs| - 1]); }
  }

  predicate AllIntegers(wide: bool, vs: seq<Operand>) { forall v | v in vs :: if wide then v.Int64? else v.Int32? }

  function Number(v: Operand): int
    requires v.Int32? || v.Int64?
  {
    if v.Int32? then v.i else v.l
  }

  function Numbers(wide: bool, vs: seq<Operand>): seq<int>
    requires AllIntegers(wide, vs)
  {
    seq(|vs|, i requires 0 <= i < |vs| => Number(vs[i]))
  }

  function Sum(ns: seq<int>): int { if ns == [] then 0 else Sum(ns[..|ns| - 1]) + ns[|ns| - 1] }

  function Largest(ns: seq<int>): int
    requires ns != []
  {
    var last, rest := ns[|ns| - 1], ns[..|ns| - 1];
    if rest == [] || Largest(rest) < last then last else Largest(rest)
  }

  function Smallest(ns: seq<int>): int
    requires ns != []
  {
    var last, rest := ns[|ns| - 1], ns[..|ns| - 1];
    if rest == [] || last < Smallest(rest) then last else Smallest(rest)
  }

  lemma {:induction false} Extremes(ns: seq<int>)
    requires ns != []
    ensures forall n | n in ns :: Smallest(ns) <= n <= Largest(ns)
    ensures Smallest(ns) in ns && Largest(ns) in ns
  {
    var n := |ns| - 1;
    assert ns == ns[..n] + [ns[n]];
    if n > 0 { Extremes(ns[..n]); }
  }

  predicate IsFold(c: Calc) { c.Add? || c.Max? || c.Min? }

  /** The sum, the largest or the smallest, as a column of it says: nothing over no values. */
  function FoldedValue(c: Calc, ns: seq<int>): int
    requires IsFold(c) && ns != []
  {
    if c.Add? then Sum(ns) else if c.Max? then Largest(ns) else Smallest(ns)
  }

  function Folded(wide: bool, c: Calc, ns: seq<int>): Result<Operand>
    requires IsFold(c)
  {
    if ns == [] then Ok(Null) else Exact(wide, FoldedValue(c, ns), if wide && c.Add? then ExceedsLimits else Undefined)
  }

  lemma FoldedLast(ns: seq<int>, n: int)
    ensures var ms := ns + [n];
      && Sum(ms) == (if ns == [] then n else Sum(ns) + n)
      && Largest(ms) == (if ns == [] || Largest(ns) < n then n else Largest(ns))
      && Smallest(ms) == (if ns == [] || n < Smallest(ns) then n else Smallest(ns))
  {
    var ms := ns + [n];
    assert ms[..|ms| - 1] == ns && ms[|ms| - 1] == n;
  }

  lemma NumbersLast(wide: bool, vs: seq<Operand>, v: Operand)
    requires AllIntegers(wide, vs) && if wide then v.Int64? else v.Int32?
    ensures AllIntegers(wide, vs + [v]) && Numbers(wide, vs + [v]) == Numbers(wide, vs) + [Number(v)]
    ensures FitsWidth(wide, Number(v)) && Integer(wide, Number(v)) == v
  {}

  /** One more value: the fold of all of them, or a failure when it does not fit. */
  lemma FoldedOneMore(p: Prims, wide: bool, c: Calc, ns: seq<int>, n: int)
    requires IsFold(c) && FitsWidth(wide, n) && (ns != [] ==> FitsWidth(wide, FoldedValue(c, ns)))
    ensures Folded(wide, c, ns + [n]) ==
            if ns == [] then Ok(Integer(wide, n))
              else Calculate(p, c, Integer(wide, FoldedValue(c, ns)), Integer(wide, n))
  {
    hide Calculate, Sum, Largest, Smallest;
    FoldedLast(ns, n);
    if ns != [] { Calculated(p, c, wide, FoldedValue(c, ns), n); }
  }

  /** Every tuple has the column, and it holds NULL or an integer. */
  predicate IntegerColumn(wide: bool, index: int, xs: seq<Tuple>) {
    forall x: Tuple | x in xs :: 0 <= index < |x| && IntegerOrNull(wide, x[index])
  }

  /** Every partial sum fits: of an extreme that is always so. */
  predicate PartsFit(wide: bool, c: Calc, ns: seq<int>)
    requires IsFold(c)
  {
    forall n | 0 < n <= |ns| :: FitsWidth(wide, FoldedValue(c, ns[..n]))
  }

  predicate IntegerOrNull(wide: bool, v: Operand) { v == Null || if wide then v.Int64? else v.Int32? }

  lemma FoldStep(p: Prims, agg: Agg, xs: seq<Tuple>, x: Tuple)
    ensures FoldColumn(p, agg, xs + [x]) ==
            var acc := FoldColumn(p, agg, xs); if acc.Err? then acc else AggAdd(p, agg, acc.value, x)
  {
    assert (xs + [x])[..|xs|] == xs;
  }

  lemma NonNullStep(xs: seq<Tuple>, x: Tuple, index: int)
    ensures NonNull(xs + [x], index) ==
            if 0 <= index < |x| && x[index] != Null then NonNull(xs, index) + [x[index]] else NonNull(xs, index)
  {
    assert (xs + [x])[..|xs|] == xs;
    assert NonNull(xs, index) + [] == NonNull(xs, index);
  }

  lemma AddInteger(p: Prims, c: Calc, t: Type, index: int, acc: Operand, x: Tuple)
    requires HeldAsInteger(t) && IntegerOrNull(t.Variant().VInt64?, acc)
    ensures var wide, r := t.Variant().VInt64?, AggAdd(p, Fold(c, t, index), acc, x);
      if 0 <= index < |x| && IntegerOrNull(wide, x[index]) then
        r == if x[index] == Null then Ok(acc) else if acc == Null then Ok(x[index]) else Calculate(p, c, acc, x[index])
      else r.Err?
  {
    hide Calculate;
  }

  lemma SumIsInteger(p: Prims, c: Calc, wide: bool, v: Operand, w: Operand)
    requires IsFold(c) && v != Null && w != Null && IntegerOrNull(wide, v) && IntegerOrNull(wide, w)
    ensures Calculate(p, c, v, w).Ok? ==> IntegerOrNull(wide, Calculate(p, c, v, w).value)
  {}

  lemma ColumnStep(wide: bool, index: int, xs: seq<Tuple>, x: Tuple)
    ensures IntegerColumn(wide, index, xs + [x]) <==>
            IntegerColumn(wide, index, xs) && 0 <= index < |x| && IntegerOrNull(wide, x[index])
  {
    assert forall y :: y in xs + [x] <==> y in xs || y == x;
  }

  /** A column whose fold succeeds holds integers. */
  lemma {:induction false} FoldHasIntegers(p: Prims, c: Calc, t: Type, index: int, xs: seq<Tuple>)
    requires IsFold(c) && HeldAsInteger(t) && FoldColumn(p, Fold(c, t, index), xs).Ok?
    ensures IntegerColumn(t.Variant().VInt64?, index, xs)
    ensures IntegerOrNull(t.Variant().VInt64?, FoldColumn(p, Fold(c, t, index), xs).value)
  {
    hide Calculate, FoldColumn, AggAdd, IntegerOrNull, IntegerColumn;
    var wide, agg := t.Variant().VInt64?, Fold(c, t, index);
    if xs == [] {
      NoFold(p, wide, agg, index);
    } else {
      var n := |xs| - 1;
      assert xs == xs[..n] + [xs[n]];
      FoldStep(p, agg, xs[..n], xs[n]);
      FoldHasIntegers(p, c, t, index, xs[..n]);
      ColumnStep(wide, index, xs[..n], xs[n]);
      var acc := FoldColumn(p, agg, xs[..n]).value;
      AddInteger(p, c, t, index, acc, xs[n]);
      if xs[n][index] != Null && acc != Null { SumIsInteger(p, c, wide, acc, xs[n][index]); }
    }
  }

  lemma NoFold(p: Prims, wide: bool, agg: Agg, index: int)
    ensures FoldColumn(p, agg, []) == Ok(Null) && NonNull([], index) == []
    ensures IntegerOrNull(wide, Null) && IntegerColumn(wide, index, [])
  {}

  lemma {:induction false} ColumnIntegers(wide: bool, index: int, xs: seq<Tuple>)
    requires IntegerColumn(wide, index, xs)
    ensures AllIntegers(wide, NonNull(xs, index))
  {
    hide NonNull, IntegerColumn, IntegerOrNull, AllIntegers;
    if xs == [] {
      NoValues(wide, index);
    } else {
      var n := |xs| - 1;
      var ys, x := xs[..n], xs[n];
      assert xs == ys + [x];
      ColumnStep(wide, index, ys, x);
      NonNullStep(ys, x, index);
      ColumnIntegers(wide, index, ys);
      if x[index] != Null { OneMoreInteger(wide, NonNull(ys, index), x[index]); }
    }
  }

  lemma NoValues(wide: bool, index: int)
    ensures NonNull([], index) == [] && AllIntegers(wide, [])
  {}

  lemma OneMoreInteger(wide: bool, vs: seq<Operand>, v: Operand)
    requires AllIntegers(wide, vs) && IntegerOrNull(wide, v) && v != Null
    ensures AllIntegers(wide, vs + [v])
  {}

  /** Over a column of 32- or 64-bit integers, dates or timestamps SUM, MAX and MIN are exact over the
      non-null values and NULL over none; they fail exactly when a partial sum does not fit, with the
      fault of that width. */
  lemma {:induction false} FoldMeaning(p: Prims, c: Calc, t: Type, index: int, xs: seq<Tuple>)
    requires IsFold(c) && HeldAsInteger(t) && IntegerColumn(t.Variant().VInt64?, index, xs)
    ensures var wide := t.Variant().VInt64?;
      && AllIntegers(wide, NonNull(xs, index))
      && var ns, r := Numbers(wide, NonNull(xs, index)), FoldColumn(p, Fold(c, t, index), xs);
         && (r.Ok? <==> PartsFit(wide, c, ns))
         && (r.Ok? ==> r == Folded(wide, c, ns))
         && (r.Err? ==> r.error == if wide && c.Add? then ExceedsLimits else Undefined)
  {
    hide Calculate, FoldColumn, AggAdd, Folded, FoldedValue, PartsFit, Numbers, NonNull, IntegerColumn, AllIntegers,
      HeldAsInteger;
    var wide, agg := t.Variant().VInt64?, Fold(c, t, index);
    ColumnIntegers(wide, index, xs);
    NoParts(wide, c);
    NoFold(p, wide, agg, index);
    if xs != [] {
      var n := |xs| - 1;
      var x, ys := xs[n], xs[..n];
      assert xs == ys + [x];
      ColumnStep(wide, index, ys, x);
      FoldMeaning(p, c, t, index, ys);
      FoldStep(p, agg, ys, x);
      NonNullStep(ys, x, index);
      FoldedMore(p, c, t, index, NonNull(ys, index), FoldColumn(p, agg, ys), x);
    }
  }

  /** The last tuple's part in `FoldMeaning`. */
  lemma FoldedMore(p: Prims, c: Calc, t: Type, index: int, vs: seq<Operand>, acc: Result<Operand>, x: Tuple)
    requires IsFold(c) && HeldAsInteger(t) && 0 <= index < |x| && IntegerOrNull(t.Variant().VInt64?, x[index])
    requires var wide := t.Variant().VInt64?;
      && AllIntegers(wide, vs)
      && (acc.Ok? <==> PartsFit(wide, c, Numbers(wide, vs))) && (acc.Ok? ==> acc == Folded(wide, c, Numbers(wide, vs)))
      && (acc.Err? ==> acc.error == if wide && c.Add? then ExceedsLimits else Undefined)
    ensures var wide := t.Variant().VInt64?;
      var ws := if x[index] == Null then vs else vs + [x[index]];
      var r := if acc.Err? then acc else AggAdd(p, Fold(c, t, index), acc.value, x);
      && AllIntegers(wide, ws)
      && (r.Ok? <==> PartsFit(wide, c, Numbers(wide, ws))) && (r.Ok? ==> r == Folded(wide, c, Numbers(wide, ws)))
      && (r.Err? ==> r.error == if wide && c.Add? then ExceedsLimits else Undefined)
  {
    hide Calculate, AggAdd, FoldedValue, PartsFit, Numbers, AllIntegers;
    var wide, v := t.Variant().VInt64?, x[index];
    var ns := Numbers(wide, vs);
    if v != Null {
      NumbersLast(wide, vs, v);
      OneMorePart(wide, c, ns, Number(v));
      if acc.Ok? { FoldedOneMore(p, wide, c, ns, Number(v)); }
    }
    if acc.Ok? { AddInteger(p, c, t, index, acc.value, x); }
  }

  lemma NoParts(wide: bool, c: Calc)
    requires IsFold(c)
    ensures AllIntegers(wide, []) && Numbers(wide, []) == [] && PartsFit(wide, c, [])
    ensures Folded(wide, c, []) == Ok(Null)
  {}

  lemma OneMorePart(wide: bool, c: Calc, ns: seq<int>, n: int)
    requires IsFold(c)
    ensures PartsFit(wide, c, ns + [n]) <==> PartsFit(wide, c, ns) && FitsWidth(wide, FoldedValue(c, ns + [n]))
  {
    hide FoldedValue;
    var ms := ns + [n];
    assert ms[..|ms|] == ms;
    assert forall k | 0 < k <= |ns| :: ms[..k] == ns[..k];
  }

  /** MAX and MIN of integers never fail. */
  lemma ExtremesFit(wide: bool, c: Calc, vs: seq<Operand>)
    requires (c.Max? || c.Min?) && AllIntegers(wide, vs)
    ensures PartsFit(wide, c, Numbers(wide, vs))
  {
    var ns := Numbers(wide, vs);
    forall n | 0 < n <= |ns|
      ensures FitsWidth(wide, FoldedValue(c, ns[..n]))
    {
      Extremes(ns[..n]);
      var k: nat :| k < n && ns[..n][k] == FoldedValue(c, ns[..n]);
      assert ns[k] == Number(vs[k]) && vs[k] in vs;
    }
  }

  /** `best` is one of the values, and none is beyond it in the order of the bytes. */
  predicate ExtremeText(c: Calc, vs: seq<Operand>, best: Operand) {
    && best in vs && best.String?
    && forall v | v in vs ::
         v.String? && if c.Max? then CompareBytes(v.s, best.s) <= 0 else CompareBytes(best.s, v.s) <= 0
  }

  lemma OneMoreText(p: Prims, c: Calc, vs: seq<Operand>, best: Operand, v: Operand)
    requires (c.Max? || c.Min?) && ExtremeText(c, vs, best) && v.String?
    ensures Calculate(p, c, best, v).Ok? && ExtremeText(c, vs + [v], Calculate(p, c, best, v).value)
  {
    hide CompareBytes, Calculate;
    StringExtremes(p, best.s, v.s);
    var r := Calculate(p, c, best, v).value;
    forall w | w in vs
      ensures if c.Max? then CompareBytes(w.s, r.s) <= 0 else CompareBytes(r.s, w.s) <= 0
    {
      if c.Max? { BytesSandwich(w.s, best.s, r.s); } else { BytesSandwich(r.s, best.s, w.s); }
    }
    BytesAntisymmetric(r.s, v.s);
  }

  lemma BytesSandwich(x: seq<byte>, y: seq<byte>, z: seq<byte>)
    requires CompareBytes(x, y) <= 0
    ensures CompareBytes(y, z) <= 0 || CompareBytes(z, y) >= 0 ==> CompareBytes(x, z) <= 0
    ensures CompareBytes(z, x) <= 0 || CompareBytes(x, z) >= 0 ==> CompareBytes(z, y) <= 0
  {
    BytesAntisymmetric(z, y);
    BytesAntisymmetric(x, z);
    if CompareBytes(y, z) <= 0 { BytesTransitive(x, y, z); }
    if CompareBytes(z, x) <= 0 { BytesTransitive(z, x, y); }
  }

  /** MAX and MIN of strings are one of the non-null values, and bound them all; NULL over none. */
  lemma {:induction false} FoldTexts(p: Prims, c: Calc, index: int, xs: seq<Tuple>)
    requires (c.Max? || c.Min?) && FoldColumn(p, Fold(c, STRING, index), xs).Ok?
    ensures var vs, r := NonNull(xs, index), FoldColumn(p, Fold(c, STRING, index), xs).value;
      if vs == [] then r == Null else ExtremeText(c, vs, r)
  {
    hide Calculate, ExtremeText;
    if xs != [] {
      var n := |xs| - 1;
      var v := xs[n][index];
      FoldTexts(p, c, index, xs[..n]);
      var vs := NonNull(xs[..n], index);
      assert vs + [] == vs;
      if v != Null {
        if vs == [] {
          OneText(c, v);
        } else {
          TextNotNull(c, vs, FoldColumn(p, Fold(c, STRING, index), xs[..n]).value);
          OneMoreText(p, c, vs, FoldColumn(p, Fold(c, STRING, index), xs[..n]).value, v);
        }
      }
    }
  }

  lemma OneText(c: Calc, v: Operand)
    requires v.String?
    ensures ExtremeText(c, [] + [v], v)
  {
    BytesEqual(v.s, v.s);
  }

  lemma TextNotNull(c: Calc, vs: seq<Operand>, best: Operand)
    requires ExtremeText(c, vs, best)
    ensures best.String?
  {}

  // ---------- counting over all groups ----------

  function TotalMembers(indices: seq<int>, xs: seq<Tuple>, keys: seq<Tuple>): nat {
    if keys == [] then 0
    else TotalMembers(indices, xs, keys[..|keys| - 1]) + |Members(indices, xs, keys[|keys| - 1])|
  }

  lemma {:induction false} TotalOneMore(indices: seq<int>, xs: seq<Tuple>, x: Tuple, keys: seq<Tuple>)
    requires Distinct(keys) && MapTuple(x, indices).Ok?
    ensures TotalMembers(indices, xs + [x], keys) ==
            TotalMembers(indices, xs, keys) + (if MapTuple(x, indices).value in keys then 1 else 0)
  {
    if keys != [] {
      var n := |keys| - 1;
      TotalOneMore(indices, xs, x, keys[..n]);
      LastMember(indices, xs, x, keys[n]);
      assert keys == keys[..n] + [keys[n]];
      assert forall i | 0 <= i < n :: keys[i] != keys[n];
    }
  }

  /** Every tuple is in exactly one group. */
  lemma {:induction false} GroupsPartition(indices: seq<int>, xs: seq<Tuple>, keys: seq<Tuple>)
    requires Distinct(keys) && KeysExist(indices, xs)
    requires forall k | k in KeySet(indices, xs) :: k in keys
    ensures TotalMembers(indices, xs, keys) == |xs|
  {
    if xs == [] {
      NoTuples(indices, keys);
    } else {
      var n := |xs| - 1;
      assert xs == xs[..n] + [xs[n]];
      KeySetAppend(indices, xs[..n], xs[n]);
      GroupsPartition(indices, xs[..n], keys);
      TotalOneMore(indices, xs[..n], xs[n], keys);
    }
  }

  lemma {:induction false} NoTuples(indices: seq<int>, keys: seq<Tuple>)
    ensures TotalMembers(indices, [], keys) == 0
  {
    if keys != [] { NoTuples(indices, keys[..|keys| - 1]); }
  }

  predicate HasCounts(rows: seq<Tuple>, j: int) {
    forall r: Tuple | r in rows :: 0 <= j < |r| && r[j].Int64?
  }

  /** The sum of a count column over a list of rows. */
  function ColumnTotal(rows: seq<Tuple>, j: int): int
    requires HasCounts(rows, j)
  {
    if rows == [] then 0
    else
      var last := rows[|rows| - 1];
      assert last in rows;
      ColumnTotal(rows[..|rows| - 1], j) + last[j].l
  }

  /** A row of a drained group, and its COUNT_ALL column. */
  lemma CountOfRow(p: Prims, indices: seq<int>, aggs: seq<Agg>, xs: seq<Tuple>, k: Tuple, j: nat)
    requires Foldable(p, indices, aggs, xs) && j < |aggs| && aggs[j] == CountAll && k in KeySet(indices, xs)
    ensures var row := k + GroupBy(p, indices, aggs, xs)[k];
      && |indices| + j < |row|
      && FitsInt64(|Members(indices, xs, k)|)
      && row[|indices| + j] == Int64(|Members(indices, xs, k)|)
  {
    hide AddAll, FoldTuples, FoldColumn, Members;
    KeyLength(indices, xs, k);
    NoMembers(indices, xs, k);
    FoldIsPointwise(p, aggs, Members(indices, xs, k), j);
    CountAllMeaning(p, Members(indices, xs, k));
  }

  lemma KeyLength(indices: seq<int>, xs: seq<Tuple>, k: Tuple)
    requires k in KeySet(indices, xs)
    ensures |k| == |indices|
  {}

  lemma LastRow(m: map<Tuple, Tuple>, keys: seq<Tuple>)
    requires keys != [] && Within(keys, m)
    ensures var rows, n := RowsOf(m, keys), |keys| - 1;
      |rows| == n + 1 && rows[..n] == RowsOf(m, keys[..n]) && rows[n] == keys[n] + m[keys[n]]
  {}

  lemma NoRows(m: map<Tuple, Tuple>, j: int)
    ensures RowsOf(m, []) == [] && HasCounts([], j) && ColumnTotal([], j) == 0
  {}

  lemma AddCount(rows: seq<Tuple>, j: int)
    requires rows != [] && HasCounts(rows[..|rows| - 1], j)
    requires 0 <= j < |rows[|rows| - 1]| && rows[|rows| - 1][j].Int64?
    ensures HasCounts(rows, j)
    ensures ColumnTotal(rows, j) == ColumnTotal(rows[..|rows| - 1], j) + rows[|rows| - 1][j].l
  {
    assert rows == rows[..|rows| - 1] + [rows[|rows| - 1]];
  }

  lemma {:induction false} CountRows(p: Prims, indices: seq<int>, aggs: seq<Agg>, xs: seq<Tuple>, keys: seq<Tuple>,
          j: nat)
    requires Foldable(p, indices, aggs, xs) && j < |aggs| && aggs[j] == CountAll
    requires Within(keys, GroupBy(p, indices, aggs, xs))
    ensures var rows := RowsOf(GroupBy(p, indices, aggs, xs), keys);
      && HasCounts(rows, |indices| + j)
      && ColumnTotal(rows, |indices| + j) == TotalMembers(indices, xs, keys)
  {
    hide Foldable, GroupBy, KeySet, Members, RowsOf, HasCounts, ColumnTotal;
    var m := GroupBy(p, indices, aggs, xs);
    var rows := RowsOf(m, keys);
    if keys == [] {
      NoRows(m, |indices| + j);
    } else {
      var n := |keys| - 1;
      var k := keys[n];
      CountRows(p, indices, aggs, xs, keys[..n], j);
      GroupKeys(p, indices, aggs, xs);
      CountOfRow(p, indices, aggs, xs, k, j);
      LastRow(m, keys);
      AddCount(rows, |indices| + j);
    }
  }

  /** COUNT_ALL over all drained groups adds up to the number of tuples put in. */
  lemma CountsAddUp(p: Prims, indices: seq<int>, aggs: seq<Agg>, order: Order, n: nat, xs: seq<Tuple>, j: nat)
    requires Chooses(order) && Foldable(p, indices, aggs, xs) && j < |aggs| && aggs[j] == CountAll
    ensures var rows := DrainedRows(order, n, GroupBy(p, indices, aggs, xs));
      HasCounts(rows, |indices| + j) && ColumnTotal(rows, |indices| + j) == |xs|
  {
    hide KeySet, DrawnKeys, Foldable, GroupBy, RowsOf, HasCounts, ColumnTotal, Chooses, Distinct, TotalMembers;
    GroupKeys(p, indices, aggs, xs);
    var m := GroupBy(p, indices, aggs, xs);
    DrawnOnce(order, n, m);
    var keys := DrawnKeys(order, n, m);
    CountRows(p, indices, aggs, xs, keys, j);
    GroupsPartition(indices, xs, keys);
  }
}
