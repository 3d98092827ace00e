/** The code of chains of stages: its decoder, an encoder, and the proof that one inverts the other. */
module ChainWire {
  import opened Options
  import opened Operands
  import opened Operators
  import opened Codec
  import opened Wire
  import opened Pipeline

  const FILTER_OP: byte := 0x71
  const PROJECT_OP: byte := 0x72
  const GROUPED_AGGREGATE: byte := 0x73
  const UNGROUPED_AGGREGATE: byte := 0x74
  const ARRAY_INT32: byte := 0x61

  // ---------- elements ----------

  type Reader<T> = (Bytes, nat) -> Result<(T, nat)>

  /** A reader reads at least one byte and none past the end. */
  ghost predicate Bounded<T>(read: Reader<T>) {
    forall code, pos: nat | read(code, pos).Ok? :: pos < read(code, pos).value.1 <= |code|
  }

  /** `count` elements, one after the other. */
  function Elements<T>(read: Reader<T>, count: nat, code: Bytes, pos: nat): Result<(seq<T>, nat)> {
    if count == 0 then Ok(([], pos))
    else if pos >= |code| then Err(MoreElementsRequired)
    else
      var v :- read(code, pos);
      var rest :- Elements(read, count - 1, code, v.1);
      Ok(([v.0] + rest.0, rest.1))
  }

  lemma {:induction false} ElementsBounded<T>(read: Reader<T>, count: nat, code: Bytes, pos: nat)
    requires Bounded(read) && pos <= |code| && Elements(read, count, code, pos).Ok?
    ensures pos <= Elements(read, count, code, pos).value.1 <= |code|
    ensures |Elements(read, count, code, pos).value.0| == count
  {
    if count > 0 {
      var v := read(code, pos).value;
      ElementsBounded(read, count - 1, code, v.1);
    }
  }

  ghost function Following<T>(done: seq<T>, r: Result<(seq<T>, nat)>): Result<(seq<T>, nat)> {
    match r case Ok(v) => Ok((done + v.0, v.1)) case Err(f) => Err(f)
  }

  lemma FollowingStep<T>(read: Reader<T>, count: nat, code: Bytes, pos: nat, done: seq<T>)
    requires count > 0 && pos < |code|
    ensures Following(done, Elements(read, count, code, pos)) ==
            var v := read(code, pos);
            if v.Err? then Err(v.error) else Following(done + [v.value.0], Elements(read, count - 1, code, v.value.1))
  {
    var v := read(code, pos);
    if v.Ok? {
      var rest := Elements(read, count - 1, code, v.value.1);
      if rest.Ok? { assert done + ([v.value.0] + rest.value.0) == done + [v.value.0] + rest.value.0; }
    }
  }

  /** `DecodeElements`: fills a container until it is full or the code ends. */
  method DecodeElements<T>(read: Reader<T>, count: nat, code: Bytes, start: nat) returns (r: Result<(seq<T>, nat)>)
    requires Bounded(read) && start <= |code|
    ensures r == Elements(read, count, code, start)
  {
    var container, p: nat, i := [], start, 0;
    FollowingNothing(Elements(read, count, code, start));
    while i < count && p < |code|
      invariant 0 <= i <= count && p <= |code|
      invariant Elements(read, count, code, start) == Following(container, Elements(read, count - i, code, p))
    {
      FollowingStep(read, count - i, code, p, container);
      var v := read(code, p);
      if v.Err? {
        return Err(v.error);
      }
      container, p, i := container + [v.value.0], v.value.1, i + 1;
    }
    if i < count {
      return Err(MoreElementsRequired);
    }
    assert container + [] == container;
    return Ok((container, p));
  }

  lemma FollowingNothing<T>(r: Result<(seq<T>, nat)>)
    ensures Following([], r) == r
  {
    if r.Ok? { assert [] + r.value.0 == r.value.0; }
  }

  /** A varint count, then that many elements. */
  function Counting<T>(read: Reader<T>, code: Bytes, pos: nat): Result<(seq<T>, nat)>
    requires pos <= |code|
  {
    var n :- ReadVarint(code, pos, LIMIT64);
    Elements(read, n.0, code, n.1)
  }

  lemma CountingBounded<T>(read: Reader<T>, code: Bytes, pos: nat)
    requires Bounded(read) && pos <= |code| && Counting(read, code, pos).Ok?
    ensures pos < Counting(read, code, pos).value.1 <= |code|
  {
    var n := ReadVarint(code, pos, LIMIT64).value;
    ElementsBounded(read, n.0, code, n.1);
  }

  /** `DecodeArray` and `DecodeVector`. */
  method DecodeCounted<T>(read: Reader<T>, code: Bytes, start: nat) returns (r: Result<(seq<T>, nat)>)
    requires Bounded(read) && start <= |code|
    ensures r == Counting(read, code, start)
  {
    var n := DecodeVarint(code, start, LIMIT64);
    if n.Err? {
      return Err(n.error);
    }
    r := DecodeElements(read, n.value.0, code, n.value.1);
  }

  // ---------- aggregates ----------

  function ReadIndex(code: Bytes, pos: nat): Result<(int, nat)> {
    if pos > |code| then Err(Malformed)
    else
      var v :- ReadVarint(code, pos, LIMIT31);
      Ok((v.0, v.1))
  }

  /** The aggregates of each kind that exist. */
  function AggOfByte(b: byte, index: int): Option<Agg> {
    var t := TypeOfCode(b % 16);
    if b == 0x10 then Some(CountAll)
    else if t.None? then None
    else if b / 16 == 1 then Some(Count(t.value, index))
    else if b / 16 == 2 && Numeric(t.value) then Some(Fold(Add, t.value, index))
    else if b / 16 == 3 && !t.value.BOOL? then Some(Fold(Max, t.value, index))
    else if b / 16 == 4 && !t.value.BOOL? then Some(Fold(Min, t.value, index))
    else None
  }

  /** `DecodeValue` for aggregates: all but COUNT_ALL are followed by a column index. */
  function ReadAgg(code: Bytes, pos: nat): Result<(Agg, nat)> {
    if pos >= |code| then Err(Malformed)
    else if AggOfByte(code[pos], 0).None? then Err(UnknownCode)
    else if code[pos] == 0x10 then Ok((CountAll, pos + 1))
    else
      var v :- ReadIndex(code, pos + 1);
      Ok((AggOfByte(code[pos], v.0).value, v.1))
  }

  lemma ReadersBounded()
    ensures Bounded(ReadIndex) && Bounded(ReadAgg)
  {}

  // ---------- stages ----------

  function DecodeStage(p: Prims, code: Bytes, pos: nat, order: Order): (r: Result<(Stage, nat)>)
    requires pos < |code|
    ensures r.Ok? ==> pos < r.value.1 <= |code|
    ensures r.Ok? && r.value.0.Grouped? ==> r.value.0.order == order
  {
    ReadersBounded();
    if code[pos] == FILTER_OP then
      var v :- DecodeFrom(p, code, pos + 1);
      Ok((Filter(v.0), v.1))
    else if code[pos] == PROJECT_OP then
      var v :- DecodeFrom(p, code, pos + 1);
      Ok((Project(v.0), v.1))
    else if code[pos] == GROUPED_AGGREGATE then
      if pos + 1 >= |code| || code[pos + 1] != ARRAY_INT32 then Err(Malformed)
      else
        var indices :- Counting(ReadIndex, code, pos + 2);
        CountingBounded(ReadIndex, code, pos + 2);
        var aggs :- Counting(ReadAgg, code, indices.1);
        CountingBounded(ReadAgg, code, indices.1);
        Ok((Grouped(indices.0, aggs.0, order), aggs.1))
    else if code[pos] == UNGROUPED_AGGREGATE then
      var aggs :- Counting(ReadAgg, code, pos + 1);
      CountingBounded(ReadAgg, code, pos + 1);
      Ok((Ungrouped(aggs.0), aggs.1))
    else Err(UnknownCode)
  }

  /** The stages from `pos` to the end of the code; `orders` gives each one's map its order. */
  function DecodeStages(p: Prims, code: Bytes, pos: nat, orders: nat -> Order, n: nat): Result<seq<Stage>>
    requires pos <= |code|
    decreases |code| - pos
  {
    if pos == |code| then Ok([])
    else
      var v :- DecodeStage(p, code, pos, orders(n));
      var rest :- DecodeStages(p, code, v.1, orders, n + 1);
      Ok([v.0] + rest)
  }

  // ---------- the encoder ----------

  predicate AggEncodable(agg: Agg) {
    match agg
    case CountAll => true
    case Count(_, index) => 0 <= index < LIMIT31
    case Fold(c, t, index) =>
      0 <= index < LIMIT31 && (if c.Add? then Numeric(t) else (c.Max? || c.Min?) && !t.BOOL?)
  }

  function EncodeAgg(agg: Agg): Bytes
    requires AggEncodable(agg)
  {
    match agg
    case CountAll => [0x10]
    case Count(t, index) => [0x10 + t.Code()] + Varint(index)
    case Fold(c, t, index) => [(if c.Add? then 0x20 else if c.Max? then 0x30 else 0x40) + t.Code()] + Varint(index)
  }

  lemma AggRoundTrip(agg: Agg, code: Bytes, pos: nat)
    requires AggEncodable(agg) && At(code, pos, EncodeAgg(agg))
    ensures ReadAgg(code, pos) == Ok((agg, pos + |EncodeAgg(agg)|))
  {
    hide At, Varint, VarintAt;
    if agg.CountAll? {
      SecondByte(code, pos, 0x10);
    } else {
      TypeCodes(agg.t);
      FirstByte(code, pos, EncodeAgg(agg)[0], Varint(agg.index));
      VarintRoundTrip(code, pos + 1, agg.index);
    }
  }

  predicate AggsEncodable(aggs: seq<Agg>) { forall a | a in aggs :: AggEncodable(a) }

  function EncodeAggs(aggs: seq<Agg>): Bytes
    requires AggsEncodable(aggs)
  {
    if aggs == [] then [] else EncodeAgg(aggs[0]) + EncodeAggs(aggs[1..])
  }

  lemma {:induction false} AggsRoundTrip(aggs: seq<Agg>, code: Bytes, pos: nat)
    requires AggsEncodable(aggs) && At(code, pos, EncodeAggs(aggs))
    ensures Elements(ReadAgg, |aggs|, code, pos) == Ok((aggs, pos + |EncodeAggs(aggs)|))
  {
    hide ReadAgg, EncodeAgg, AggEncodable;
    if aggs != [] {
      AtAppend(code, pos, EncodeAgg(aggs[0]), EncodeAggs(aggs[1..]));
      AggRoundTrip(aggs[0], code, pos);
      NonEmptyCode(aggs[0]);
      AggsRoundTrip(aggs[1..], code, pos + |EncodeAgg(aggs[0])|);
      assert [aggs[0]] + aggs[1..] == aggs;
    }
  }

  lemma NonEmptyCode(agg: Agg)
    requires AggEncodable(agg)
    ensures |EncodeAgg(agg)| > 0
  {}

  predicate IndicesEncodable(indices: seq<int>) { forall j | 0 <= j < |indices| :: 0 <= indices[j] < LIMIT31 }

  function EncodeIndices(indices: seq<int>): Bytes
    requires IndicesEncodable(indices)
  {
    if indices == [] then [] else Varint(indices[0]) + EncodeIndices(indices[1..])
  }

  lemma {:induction false} IndicesRoundTrip(indices: seq<int>, code: Bytes, pos: nat)
    requires IndicesEncodable(indices) && At(code, pos, EncodeIndices(indices))
    ensures Elements(ReadIndex, |indices|, code, pos) == Ok((indices, pos + |EncodeIndices(indices)|))
  {
    hide Varint, VarintAt, At;
    if indices != [] {
      AtAppend(code, pos, Varint(indices[0]), EncodeIndices(indices[1..]));
      VarintRoundTrip(code, pos, indices[0]);
      VarintNonEmpty(indices[0]);
      IndicesRoundTrip(indices[1..], code, pos + |Varint(indices[0])|);
      assert [indices[0]] + indices[1..] == indices;
    }
  }

  lemma VarintNonEmpty(n: nat)
    ensures |Varint(n)| > 0
  {}

  /** Stages as they are sent. Only filters and projections carry expression code, which ends with
      its marker; aggregates have none. */
  datatype Sent =
    | SendFilter(instrs: seq<Instr>)
    | SendProject(instrs: seq<Instr>)
    | SendGrouped(indices: seq<int>, aggs: seq<Agg>)
    | SendUngrouped(aggs: seq<Agg>)
  {
    predicate Encodable() {
      match this
      case SendFilter(instrs) => AllEncodable(instrs)
      case SendProject(instrs) => AllEncodable(instrs)
      case SendGrouped(indices, aggs) =>
        IndicesEncodable(indices) && |indices| < LIMIT64 && AggsEncodable(aggs) && |aggs| < LIMIT64
      case SendUngrouped(aggs) => AggsEncodable(aggs) && |aggs| < LIMIT64
    }

    function Encode(): Bytes
      requires Encodable()
    {
      match this
      case SendFilter(instrs) => [FILTER_OP] + (EncodeAll(instrs) + [EOE])
      case SendProject(instrs) => [PROJECT_OP] + (EncodeAll(instrs) + [EOE])
      case SendGrouped(indices, aggs) =>
        [GROUPED_AGGREGATE] + ([ARRAY_INT32] +
                               ((Varint(|indices|) + EncodeIndices(indices)) + (Varint(|aggs|) + EncodeAggs(aggs))))
      case SendUngrouped(aggs) => [UNGROUPED_AGGREGATE] + (Varint(|aggs|) + EncodeAggs(aggs))
    }

    function Meaning(p: Prims, order: Order): Result<Stage>
      requires Encodable()
    {
      match this
      case SendFilter(instrs) => var ops :- OperatorsOf(p, instrs); Ok(Filter(ops))
      case SendProject(instrs) => var ops :- OperatorsOf(p, instrs); Ok(Project(ops))
      case SendGrouped(indices, aggs) => Ok(Grouped(indices, aggs, order))
      case SendUngrouped(aggs) => Ok(Ungrouped(aggs))
    }
  }

  lemma CountedAggs(aggs: seq<Agg>, code: Bytes, pos: nat)
    requires AggsEncodable(aggs) && |aggs| < LIMIT64 && At(code, pos, Varint(|aggs|) + EncodeAggs(aggs))
    ensures pos <= |code| && Counting(ReadAgg, code, pos) == Ok((aggs, pos + |Varint(|aggs|) + EncodeAggs(aggs)|))
  {
    hide At, Varint, VarintAt, EncodeAggs, EncodeIndices, Elements, AggsEncodable, IndicesEncodable;
    AtAppend(code, pos, Varint(|aggs|), EncodeAggs(aggs));
    VarintRoundTrip(code, pos, |aggs|);
    AggsRoundTrip(aggs, code, pos + |Varint(|aggs|)|);
  }

  lemma CountedIndices(indices: seq<int>, code: Bytes, pos: nat)
    requires IndicesEncodable(indices) && |indices| < LIMIT64 &&
             At(code, pos, Varint(|indices|) + EncodeIndices(indices))
    ensures pos <= |code| && Counting(ReadIndex, code, pos) ==
            Ok((indices, pos + |Varint(|indices|) + EncodeIndices(indices)|))
  {
    hide At, Varint, VarintAt, EncodeAggs, EncodeIndices, Elements, AggsEncodable, IndicesEncodable;
    AtAppend(code, pos, Varint(|indices|), EncodeIndices(indices));
    VarintRoundTrip(code, pos, |indices|);
    IndicesRoundTrip(indices, code, pos + |Varint(|indices|)|);
  }

  lemma GroupedRoundTrip(p: Prims, indices: seq<int>, aggs: seq<Agg>, code: Bytes, pos: nat, order: Order)
    requires SendGrouped(indices, aggs).Encodable() && At(code, pos, SendGrouped(indices, aggs).Encode())
    ensures pos < |code|
    ensures DecodeStage(p, code, pos, order) ==
            Ok((Grouped(indices, aggs, order), pos + |SendGrouped(indices, aggs).Encode()|))
  {
    hide At, Counting, DecodeFrom, EncodeAggs, EncodeIndices, Varint, AggsEncodable, IndicesEncodable;
    var a, b := Varint(|indices|) + EncodeIndices(indices), Varint(|aggs|) + EncodeAggs(aggs);
    FirstByte(code, pos, GROUPED_AGGREGATE, [ARRAY_INT32] + (a + b));
    FirstByte(code, pos + 1, ARRAY_INT32, a + b);
    AtAppend(code, pos + 2, a, b);
    CountedIndices(indices, code, pos + 2);
    CountedAggs(aggs, code, pos + 2 + |a|);
  }

  lemma CodeRoundTrip(p: Prims, s: Sent, code: Bytes, pos: nat, order: Order)
    requires s.Encodable() && (s.SendFilter? || s.SendProject?) && At(code, pos, s.Encode())
    ensures pos < |code| && DecodeStage(p, code, pos, order) == Placed(s.Meaning(p, order), pos + |s.Encode()|)
  {
    hide At, Counting, DecodeFrom, EncodeAll, OperatorsOf, AllEncodable, AggsEncodable;
    FirstByte(code, pos, if s.SendFilter? then FILTER_OP else PROJECT_OP, EncodeAll(s.instrs) + [EOE]);
    ExpressionRoundTrip(p, s.instrs, code, pos + 1);
  }

  lemma StageRoundTrip(p: Prims, s: Sent, code: Bytes, pos: nat, order: Order)
    requires s.Encodable() && At(code, pos, s.Encode())
    ensures pos < |code| && DecodeStage(p, code, pos, order) == Placed(s.Meaning(p, order), pos + |s.Encode()|)
  {
    hide At, Counting, DecodeFrom, EncodeAll, EncodeAggs, EncodeIndices, Varint, OperatorsOf, AllEncodable,
      AggsEncodable, IndicesEncodable;
    match s
    case SendFilter(_) => CodeRoundTrip(p, s, code, pos, order);
    case SendProject(_) => CodeRoundTrip(p, s, code, pos, order);
    case SendGrouped(indices, aggs) => GroupedRoundTrip(p, indices, aggs, code, pos, order);
    case SendUngrouped(aggs) =>
      FirstByte(code, pos, UNGROUPED_AGGREGATE, Varint(|aggs|) + EncodeAggs(aggs));
      CountedAggs(aggs, code, pos + 1);
  }

  predicate SendableChain(chain: seq<Sent>) { forall s | s in chain :: s.Encodable() }

  function EncodeChain(chain: seq<Sent>): Bytes
    requires SendableChain(chain)
  {
    if chain == [] then [] else chain[0].Encode() + EncodeChain(chain[1..])
  }

  function StagesOf(p: Prims, chain: seq<Sent>, orders: nat -> Order, n: nat): (r: Result<seq<Stage>>)
    requires SendableChain(chain)
    ensures r.Ok? ==> |r.value| == |chain|
  {
    if chain == [] then Ok([])
    else
      var stage :- chain[0].Meaning(p, orders(n));
      var rest :- StagesOf(p, chain[1..], orders, n + 1);
      Ok([stage] + rest)
  }

  /** Wire round trip of whole chains: the decoder rebuilds the stages and ends with the code. */
  lemma {:induction false} ChainRoundTrip(p: Prims, chain: seq<Sent>, code: Bytes, pos: nat, orders: nat -> Order,
          n: nat)
    requires SendableChain(chain) && At(code, pos, EncodeChain(chain)) && pos + |EncodeChain(chain)| == |code|
    ensures DecodeStages(p, code, pos, orders, n) == StagesOf(p, chain, orders, n)
    decreases |chain|
  {
    hide At, DecodeStage, Sent.Encode, Sent.Meaning, Sent.Encodable;
    if chain != [] {
      var s := chain[0].Encode();
      AtAppend(code, pos, s, EncodeChain(chain[1..]));
      StageRoundTrip(p, chain[0], code, pos, orders(n));
      ChainRoundTrip(p, chain[1..], code, pos + |s|, orders, n + 1);
    }
  }
}
