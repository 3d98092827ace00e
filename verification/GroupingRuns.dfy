/** A grouped stage under any sequence of commands: what its caches hold when tuples are put in and
    groups are taken out in between, and where the tuples counted have gone. */
module GroupingRuns {
  import opened Options
  import opened Operands
  import opened Pipeline
  import opened Grouping
  import opened PipelineMeaning
  import opened CommandRuns

  /** The tuples without those of one group. */
  function Dropped(indices: seq<int>, xs: seq<Tuple>, key: Tuple): seq<Tuple> {
    if xs == [] then []
    else
      var last := xs[|xs| - 1];
      Dropped(indices, xs[..|xs| - 1], key) + (if MapTuple(last, indices) == Ok(key) then [] else [last])
  }

  lemma {:induction false} DroppedMembers(indices: seq<int>, xs: seq<Tuple>, key: Tuple, k: Tuple)
    ensures Members(indices, Dropped(indices, xs, key), k) == if k == key then [] else Members(indices, xs, k)
  {
    hide MapTuple;
    if xs != [] {
      var n := |xs| - 1;
      DroppedMembers(indices, xs[..n], key, k);
      if MapTuple(xs[n], indices) != Ok(key) {
        LastMember(indices, Dropped(indices, xs[..n], key), xs[n], k);
      } else {
        assert Dropped(indices, xs, key) == Dropped(indices, xs[..n], key);
        assert Members(indices, xs[..n], k) + [] == Members(indices, xs[..n], k);
      }
    }
  }

  lemma {:induction false} DroppedSize(indices: seq<int>, xs: seq<Tuple>, key: Tuple)
    ensures |Dropped(indices, xs, key)| + |Members(indices, xs, key)| == |xs|
    ensures forall x | x in Dropped(indices, xs, key) :: x in xs
  {
    hide MapTuple;
    if xs != [] {
      var n := |xs| - 1;
      DroppedSize(indices, xs[..n], key);
      assert xs == xs[..n] + [xs[n]];
    }
  }

  lemma DroppedKeys(indices: seq<int>, xs: seq<Tuple>, key: Tuple)
    ensures KeySet(indices, Dropped(indices, xs, key)) == KeySet(indices, xs) - {key}
  {
    hide MapTuple, Members, Dropped, KeySet;
    forall k
      ensures k in KeySet(indices, Dropped(indices, xs, key)) <==> k in KeySet(indices, xs) && k != key
    {
      DroppedMembers(indices, xs, key, k);
      NoMembers(indices, Dropped(indices, xs, key), k);
      NoMembers(indices, xs, k);
    }
  }

  /** Taking a group out of the table is grouping the tuples without it. */
  lemma DroppedGroups(p: Prims, indices: seq<int>, aggs: seq<Agg>, xs: seq<Tuple>, key: Tuple)
    requires Foldable(p, indices, aggs, xs)
    ensures Foldable(p, indices, aggs, Dropped(indices, xs, key))
    ensures GroupBy(p, indices, aggs, Dropped(indices, xs, key)) == GroupBy(p, indices, aggs, xs) - {key}
  {
    hide MapTuple, Members, Dropped, KeySet, FoldTuples;
    DroppedKeys(indices, xs, key);
    DroppedSize(indices, xs, key);
    forall k | k != key
      ensures Members(indices, Dropped(indices, xs, key), k) == Members(indices, xs, k)
    {
      DroppedMembers(indices, xs, key, k);
    }
  }

  // ---------- any sequence of commands ----------

  /** The tuples put in whose group has not been given up since: a result starts with the key of the
      group it gives up. */
  function Kept(indices: seq<int>, xs: seq<Tuple>, commands: seq<Command>, answers: seq<Answer>): seq<Tuple>
    decreases |commands|
  {
    if commands == [] || answers == [] then xs
    else
      var now := match commands[0]
        case PutTuple(t) => xs + [t]
        case GetTuple =>
          (match answers[0]
           case Ok(Some(row)) => Dropped(indices, xs, if |indices| <= |row| then row[..|indices|] else row)
           case _ => xs);
      Kept(indices, now, commands[1..], answers[1..])
  }

  /** The state after commands none of which fails. */
  function EndState(p: Prims, op: Op, st: State, commands: seq<Command>): (r: Result<State>)
    requires Fits(op, st)
    ensures r.Ok? ==> Fits(op, r.value)
    decreases |commands|
  {
    if commands == [] then Ok(st)
    else
      var a :- Act(p, op, st, commands[0]);
      EndState(p, op, a.0, commands[1..])
  }

  /** What one command does to a grouped stage whose caches are the group-by of `xs`. */
  lemma OneCommand(p: Prims, stage: Stage, xs: seq<Tuple>, drawn: nat, c: Command)
    requires stage.Grouped? && Chooses(stage.order) && Foldable(p, stage.indices, stage.aggs, xs)
    ensures var st := Groups(GroupBy(p, stage.indices, stage.aggs, xs), drawn);
      && Fits(Leaf(stage), st)
      && var r := Act(p, Leaf(stage), st, c);
         r.Ok? ==>
           var ys := Kept(stage.indices, xs, [c], [Ok(r.value.1)]);
           && Foldable(p, stage.indices, stage.aggs, ys)
           && r.value.0 == Groups(GroupBy(p, stage.indices, stage.aggs, ys),
                                  if r.value.1.Some? then drawn + 1 else drawn)
           && (c.PutTuple? ==> r.value.1.None? && ys == xs + [c.t])
           && (r.value.1.Some? ==>
                 var k := r.value.1.value[..|stage.indices|];
                 k in KeySet(stage.indices, xs) && ys == Dropped(stage.indices, xs, k) &&
                 r.value.1.value == k + GroupBy(p, stage.indices, stage.aggs, xs)[k])
           && (c.GetTuple? && r.value.1.None? ==> ys == xs)
  {
    hide Foldable, Chooses, GroupBy, Dropped;
    GroupsFit(p, stage, drawn, xs);
    var m := GroupBy(p, stage.indices, stage.aggs, xs);
    match c
    case PutTuple(t) =>
      GroupOneMore(p, stage.indices, stage.aggs, stage.order, xs, t, drawn);
      hide PutStage, Fits;
    case GetTuple =>
      if m != map[] {
        var k := stage.order(drawn, m);
        Pick(stage.order, drawn, m);
        GroupKeys(p, stage.indices, stage.aggs, xs);
        KeyLength(stage.indices, xs, k);
        DroppedGroups(p, stage.indices, stage.aggs, xs, k);
        assert (k + m[k])[..|stage.indices|] == k;
        hide KeySet, Fits;
      }
  }

  /** In every state a grouped stage reaches, after any sequence of commands that does not fail, its
      caches are the group-by of the tuples whose group has not been given up since they were put. */
  lemma {:induction false} InterleavedRun(p: Prims, stage: Stage, xs: seq<Tuple>, drawn: nat, commands: seq<Command>)
    requires stage.Grouped? && Chooses(stage.order) && Foldable(p, stage.indices, stage.aggs, xs)
    ensures var st := Groups(GroupBy(p, stage.indices, stage.aggs, xs), drawn);
      && Fits(Leaf(stage), st)
      && var a := Answers(p, Leaf(stage), st, commands);
         NoFailure(a) ==>
           var ys := Kept(stage.indices, xs, commands, a);
           var r := EndState(p, Leaf(stage), st, commands);
           && Foldable(p, stage.indices, stage.aggs, ys)
           && r.Ok? && r.value.Groups? && r.value.caches == GroupBy(p, stage.indices, stage.aggs, ys)
    decreases |commands|
  {
    hide Act, Foldable, Chooses, GroupBy, Dropped, NoFailure;
    GroupsFit(p, stage, drawn, xs);
    if commands != [] {
      var c := commands[0];
      var st := Groups(GroupBy(p, stage.indices, stage.aggs, xs), drawn);
      OneCommand(p, stage, xs, drawn, c);
      var r := Act(p, Leaf(stage), st, c);
      if r.Err? {
        OneFailure(r.error);
      } else {
        var ys := Kept(stage.indices, xs, [c], [Ok(r.value.1)]);
        InterleavedRun(p, stage, ys, r.value.0.drawn, commands[1..]);
        var rest := Answers(p, Leaf(stage), r.value.0, commands[1..]);
        OneMoreAnswer(r.value.1, rest);
        assert ([Ok(r.value.1)] + rest)[1..] == rest;
      }
    }
  }

  function PutCount(commands: seq<Command>): nat {
    if commands == [] then 0 else (if commands[0].PutTuple? then 1 else 0) + PutCount(commands[1..])
  }

  lemma PutCountFirst(c: Command, rest: seq<Command>)
    ensures PutCount([c] + rest) == PutCount([c]) + PutCount(rest)
  {
    assert ([c] + rest)[1..] == rest;
  }

  lemma {:induction false} ColumnTotalFirst(row: Tuple, rows: seq<Tuple>, j: int)
    requires HasCounts(rows, j) && 0 <= j < |row| && row[j].Int64?
    ensures HasCounts([row] + rows, j) && ColumnTotal([row] + rows, j) == row[j].l + ColumnTotal(rows, j)
  {
    var all := [row] + rows;
    assert forall r :: r in all <==> r == row || r in rows;
    if rows == [] {
      assert all[..|all| - 1] == [];
    } else {
      var n := |rows| - 1;
      assert forall r | r in rows[..n] :: r in rows;
      ColumnTotalFirst(row, rows[..n], j);
      assert all[..|all| - 1] == [row] + rows[..n] && all[|all| - 1] == rows[n];
    }
  }

  lemma KeptFirst(indices: seq<int>, xs: seq<Tuple>, commands: seq<Command>, a: Answer, rest: seq<Answer>)
    requires commands != []
    ensures Kept(indices, xs, commands, [a] + rest) ==
            Kept(indices, Kept(indices, xs, [commands[0]], [a]), commands[1..], rest)
  {
    hide Dropped;
    assert ([a] + rest)[1..] == rest;
  }

  /** The count in a result, if there is one, and the tuples kept after it. */
  lemma OneCount(p: Prims, stage: Stage, xs: seq<Tuple>, drawn: nat, c: Command, j: nat)
    requires stage.Grouped? && Chooses(stage.order) && Foldable(p, stage.indices, stage.aggs, xs)
    requires j < |stage.aggs| && stage.aggs[j] == CountAll
    ensures var st, col := Groups(GroupBy(p, stage.indices, stage.aggs, xs), drawn), |stage.indices| + j;
      && Fits(Leaf(stage), st)
      && var r := Act(p, Leaf(stage), st, c);
         r.Ok? ==>
           var ys, row := Kept(stage.indices, xs, [c], [Ok(r.value.1)]), r.value.1;
           && (row.None? ==> |ys| == |xs| + PutCount([c]))
           && (row.Some? ==>
                 PutCount([c]) == 0 && col < |row.value| && row.value[col].Int64? && row.value[col].l + |ys| == |xs|)
  {
    hide Act, Foldable, Chooses, GroupBy, Dropped, Fits;
    OneCommand(p, stage, xs, drawn, c);
    var r := Act(p, Leaf(stage), Groups(GroupBy(p, stage.indices, stage.aggs, xs), drawn), c);
    if r.Ok? && r.value.1.Some? {
      var k := r.value.1.value[..|stage.indices|];
      CountOfRow(p, stage.indices, stage.aggs, xs, k, j);
      DroppedSize(stage.indices, xs, k);
    }
  }

  /** One more answer in front: the counts and the tuples kept add up to the tuples put in. */
  lemma OneMoreCount(indices: seq<int>, xs: seq<Tuple>, commands: seq<Command>, t: Option<Tuple>,
          rest: seq<Answer>, col: nat)
    requires commands != [] && HasCounts(Results(rest), col)
    requires var c, ys := commands[0], Kept(indices, xs, [commands[0]], [Ok(t)]);
      && ColumnTotal(Results(rest), col) + |Kept(indices, ys, commands[1..], rest)| == |ys| + PutCount(commands[1..])
      && (t.None? ==> |ys| == |xs| + PutCount([c]))
      && (t.Some? ==>
            PutCount([c]) == 0 && col < |t.value| && t.value[col].Int64? && t.value[col].l + |ys| == |xs|)
    ensures var a := [Ok(t)] + rest;
      && HasCounts(Results(a), col)
      && ColumnTotal(Results(a), col) + |Kept(indices, xs, commands, a)| == |xs| + PutCount(commands)
  {
    hide HasCounts, ColumnTotal, Kept, Results, PutCount;
    assert commands == [commands[0]] + commands[1..];
    PutCountFirst(commands[0], commands[1..]);
    OneMoreAnswer(t, rest);
    KeptFirst(indices, xs, commands, Ok(t), rest);
    if t.None? {
      assert [] + Results(rest) == Results(rest);
    } else {
      ColumnTotalFirst(t.value, Results(rest), col);
    }
  }

  /** The counts of the groups given up, and the tuples still kept, are the tuples there were. */
  lemma {:induction false} InterleavedCounts(p: Prims, stage: Stage, xs: seq<Tuple>, drawn: nat,
          commands: seq<Command>, j: nat)
    requires stage.Grouped? && Chooses(stage.order) && Foldable(p, stage.indices, stage.aggs, xs)
    requires j < |stage.aggs| && stage.aggs[j] == CountAll
    ensures var st, col := Groups(GroupBy(p, stage.indices, stage.aggs, xs), drawn), |stage.indices| + j;
      && Fits(Leaf(stage), st)
      && var a := Answers(p, Leaf(stage), st, commands);
         NoFailure(a) ==>
           && HasCounts(Results(a), col)
           && ColumnTotal(Results(a), col) + |Kept(stage.indices, xs, commands, a)| == |xs| + PutCount(commands)
    decreases |commands|
  {
    hide Act, Foldable, Chooses, GroupBy, Answers, NoFailure, HasCounts, ColumnTotal, Kept, Results, Fits, PutCount;
    var col, st := |stage.indices| + j, Groups(GroupBy(p, stage.indices, stage.aggs, xs), drawn);
    GroupsFit(p, stage, drawn, xs);
    NoCounts(col);
    if commands == [] {
      NoCommands(p, Leaf(stage), st, stage.indices, xs);
    } else {
      var c := commands[0];
      assert commands == [c] + commands[1..];
      OneCommand(p, stage, xs, drawn, c);
      OneCount(p, stage, xs, drawn, c, j);
      FirstAnswer(p, Leaf(stage), st, c, commands[1..]);
      var r := Act(p, Leaf(stage), st, c);
      if r.Err? {
        OneFailure(r.error);
      } else {
        var ys := Kept(stage.indices, xs, [c], [Ok(r.value.1)]);
        InterleavedCounts(p, stage, ys, r.value.0.drawn, commands[1..], j);
        var rest := Answers(p, Leaf(stage), r.value.0, commands[1..]);
        OneMoreAnswer(r.value.1, rest);
        if NoFailure(rest) {
          OneMoreCount(stage.indices, xs, commands, r.value.1, rest, col);
        }
      }
    }
  }

  lemma NoCommands(p: Prims, op: Op, st: State, indices: seq<int>, xs: seq<Tuple>)
    requires Fits(op, st)
    ensures Answers(p, op, st, []) == [] && Results([]) == [] && Kept(indices, xs, [], []) == xs
    ensures PutCount([]) == 0
  {}

  lemma NoCounts(j: int)
    ensures HasCounts([], j) && ColumnTotal([], j) == 0
  {}

  /** COUNT_ALL is conserved whatever is taken out in between: over the groups given up and the groups
      still cached it adds up to the tuples put in. */
  lemma CountsConserved(p: Prims, stage: Stage, commands: seq<Command>, j: nat)
    requires stage.Grouped? && Chooses(stage.order) && j < |stage.aggs| && stage.aggs[j] == CountAll
    ensures Fits(Leaf(stage), Fresh(Leaf(stage)))
    ensures var col, st := |stage.indices| + j, Fresh(Leaf(stage));
      var a, r := Answers(p, Leaf(stage), st, commands), EndState(p, Leaf(stage), st, commands);
      NoFailure(a) ==>
        && r.Ok? && r.value.Groups?
        && var cached := DrainedRows(stage.order, r.value.drawn, r.value.caches);
           && HasCounts(Results(a), col) && HasCounts(cached, col)
           && ColumnTotal(Results(a), col) + ColumnTotal(cached, col) == PutCount(commands)
  {
    hide Foldable, Chooses, GroupBy, NoFailure, HasCounts, ColumnTotal, Answers, EndState, Kept, DrainedRows;
    NothingGrouped(p, stage.indices, stage.aggs);
    InterleavedRun(p, stage, [], 0, commands);
    InterleavedCounts(p, stage, [], 0, commands, j);
    var st := Fresh(Leaf(stage));
    var a, r := Answers(p, Leaf(stage), st, commands), EndState(p, Leaf(stage), st, commands);
    if NoFailure(a) {
      CountsAddUp(p, stage.indices, stage.aggs, stage.order, r.value.drawn, Kept(stage.indices, [], commands, a), j);
    }
  }
}
