/** The relational operators as the objects the engine keeps, over a memory of tuples. Every method
    refines the pipeline on values, and accounts for every tuple: it is owned by the caller, cached,
    or freed, and exactly one of them. */
module RelOps {
  import opened Options
  import opened Operands
  import opened Operators
  import opened StackMachine
  import opened Pipeline
  import Grouping
  import PM = PipelineMeaning

  type Address = nat
  type Heap = map<Address, Tuple>

  /** Allocated tuples. Addresses are never used twice, so deleting one twice, or reading one after
      it was deleted, breaks a precondition. */
  class Memory {
    var live: Heap
    var next: nat

    ghost predicate Valid() reads this {
      forall a | a in live :: a < next
    }

    constructor ()
      ensures Valid() && live == map[]
    {
      live, next := map[], 0;
    }

    method New(t: Tuple) returns (a: Address)
      requires Valid()
      modifies this
      ensures Valid() && a !in old(live) && live == old(live)[a := t]
    {
      a := next;
      live, next := live[a := t], next + 1;
    }

    method Delete(a: Address)
      requires Valid() && a in live
      modifies this
      ensures Valid() && live == old(live) - {a}
    {
      live := live - {a};
    }

    method Set(a: Address, i: nat, v: Operand)
      requires Valid() && a in live && i < |live[a]|
      modifies this
      ensures Valid() && live == old(live)[a := old(live[a])[i := v]]
    {
      live := live[a := live[a][i := v]];
    }
  }

  // ---------- accounting ----------

  /** The tuples `used` are gone unless `made` again; all others are still there, unchanged. */
  ghost predicate Conserved(before: Heap, after: Heap, used: set<Address>, made: set<Address>) {
    && used <= before.Keys
    && made !! before.Keys - used
    && after.Keys == before.Keys - used + made
    && forall a | a in before.Keys - used :: after[a] == before[a]
  }

  function Out(r: Option<Address>): set<Address> { if r.Some? then {r.value} else {} }

  /** A step as the pipeline on values says: the new state, the result handed to the caller, and the
      tuples conserved. */
  ghost predicate Outcome(r: Result<Option<Address>>, spec: Stepped, st: State, before: Heap, after: Heap,
                          used: set<Address>, owned: set<Address>)
  {
    match spec
    case Err(f) => r == Err(f)
    case Ok(v) =>
      && r.Ok? && st == v.0 && r.value.Some? == v.1.Some?
      && (r.value.Some? ==> r.value.value !in owned && r.value.value in after && after[r.value.value] == v.1.value)
      && Conserved(before, after, used, owned + Out(r.value))
  }

  lemma ConservedTwice(a: Heap, b: Heap, c: Heap, used: set<Address>, mid: set<Address>, made: set<Address>,
          kept: set<Address>, rest: set<Address>)
    requires Conserved(a, b, used, kept + mid) && mid !! kept
    requires rest <= a.Keys && rest !! used
    requires Conserved(b, c, mid + rest, made)
    ensures Conserved(a, c, used + rest, kept + made)
  {}

  /** One step after the other: `total` is what is left to account for between them. */
  lemma ConservedThen(a: Heap, b: Heap, c: Heap, used: set<Address>, total: set<Address>, kept: set<Address>,
          mid: set<Address>,
                      made: set<Address>, final: set<Address>)
    requires Conserved(a, b, used, total) && total == kept + mid && mid !! kept
    requires Conserved(b, c, mid, made) && final == kept + made
    ensures Conserved(a, c, used, final)
  {}

  /** Tuples that are not used stay as they are, and apart from new ones. */
  lemma Untouched(before: Heap, after: Heap, used: set<Address>, made: set<Address>, others: set<Address>)
    requires Conserved(before, after, used, made) && others <= before.Keys && others !! used
    ensures others !! made && forall a | a in others :: a in after && after[a] == before[a]
  {}

  /** Tuples that stay can be counted as used and made again. */
  lemma ConservedMore(before: Heap, after: Heap, used: set<Address>, made: set<Address>, others: set<Address>)
    requires Conserved(before, after, used, made) && others <= before.Keys && others !! used
    ensures Conserved(before, after, used + others, made + others)
  {}

  // ---------- aggregation into a cache ----------

  ghost function Prefixed(done: Tuple, r: Result<Tuple>): Result<Tuple> {
    if r.Ok? then Ok(done + r.value) else r
  }

  lemma PrefixedNothing(r: Result<Tuple>)
    ensures Prefixed([], r) == r
  {
    if r.Ok? { assert [] + r.value == r.value; }
  }

  lemma AddAllStep(p: Prims, aggs: seq<Agg>, cache: Tuple, tuple: Tuple, done: Tuple)
    requires |cache| == |aggs| && aggs != []
    ensures var v := AggAdd(p, aggs[0], cache[0], tuple);
      Prefixed(done, AddAll(p, aggs, cache, tuple)) ==
      if v.Err? then Err(v.error) else Prefixed(done + [v.value], AddAll(p, aggs[1..], cache[1..], tuple))
  {
    var v := AggAdd(p, aggs[0], cache[0], tuple);
    if v.Ok? {
      var rest := AddAll(p, aggs[1..], cache[1..], tuple);
      if rest.Ok? { assert done + ([v.value] + rest.value) == done + [v.value] + rest.value; }
    }
  }

  lemma AddAllNothing(p: Prims, cache: Tuple, tuple: Tuple)
    requires cache == []
    ensures AddAll(p, [], cache, tuple) == Ok([])
  {}

  /** `AggOp::AddToCache`: makes a cache of NULLs if there is none, folds the tuple into it column by
      column in place, and deletes the tuple. */
  method AddToCache(p: Prims, mem: Memory, aggs: seq<Agg>, cache: Option<Address>, tuple: Address)
    returns (r: Result<Address>)
    requires mem.Valid() && tuple in mem.live
    requires cache.Some? ==> cache.value in mem.live && cache.value != tuple && |mem.live[cache.value]| == |aggs|
    modifies mem
    ensures mem.Valid()
    ensures match AddAll(p, aggs, if cache.Some? then old(mem.live)[cache.value] else Nulls(|aggs|),
                         old(mem.live[tuple]))
            case Ok(row) =>
              && r.Ok? && r.value != tuple
              && (if cache.Some? then r.value == cache.value else r.value !in old(mem.live))
              && mem.live == old(mem.live)[r.value := row] - {tuple}
            case Err(f) => r == Err(f)
  {
    hide AddAll, AggAdd;
    ghost var heap := mem.live;
    var t := mem.live[tuple];
    var c;
    if cache.Some? {
      c := cache.value;
    } else {
      c := mem.New(Nulls(|aggs|));
    }
    ghost var start := mem.live[c];
    var i := 0;
    PrefixedNothing(AddAll(p, aggs, start, t));
    assert aggs[0..] == aggs && start[0..] == start && start[..0] == [];
    while i < |aggs|
      invariant 0 <= i <= |aggs| == |start|
      invariant mem.Valid() && c in mem.live && |mem.live[c]| == |aggs|
      invariant mem.live[c][i..] == start[i..]
      invariant mem.live == heap[c := mem.live[c]]
      invariant AddAll(p, aggs, start, t) == Prefixed(mem.live[c][..i], AddAll(p, aggs[i..], start[i..], t))
    {
      ghost var row := mem.live[c];
      AddAllStep(p, aggs[i..], start[i..], t, row[..i]);
      assert aggs[i..][1..] == aggs[i + 1..] && start[i..][1..] == start[i + 1..] && start[i] == row[i..][0];
      var v := AggAdd(p, aggs[i], mem.live[c][i], t);
      if v.Err? {
        return Err(v.error);
      }
      mem.Set(c, i, v.value);
      assert mem.live[c][..i + 1] == row[..i] + [v.value];
      assert mem.live[c][i + 1..] == row[i + 1..] == row[i..][1..];
      i := i + 1;
    }
    AddAllNothing(p, start[i..], t);
    assert aggs[i..] == [] && mem.live[c][..i] + [] == mem.live[c];
    assert AddAll(p, aggs, start, t) == Ok(mem.live[c]);
    mem.Delete(tuple);
    return Ok(c);
  }

  /** `MapTuple`: a new tuple with the columns at the given positions. */
  method MapTupleNew(mem: Memory, src: Address, indices: seq<int>) returns (r: Result<Address>)
    requires mem.Valid() && src in mem.live
    modifies mem
    ensures mem.Valid()
    ensures match MapTuple(old(mem.live[src]), indices)
            case Ok(key) => r.Ok? && r.value !in old(mem.live) && mem.live == old(mem.live)[r.value := key]
            case Err(f) => r == Err(f)
  {
    ghost var heap := mem.live;
    var t := mem.live[src];
    var key := mem.New(Nulls(|indices|));
    var i := 0;
    PrefixedNothing(MapTuple(t, indices));
    assert indices[0..] == indices && mem.live[key][..0] == [];
    while i < |indices|
      invariant 0 <= i <= |indices| && mem.Valid() && key in mem.live && |mem.live[key]| == |indices|
      invariant mem.live == heap[key := mem.live[key]]
      invariant MapTuple(t, indices) == Prefixed(mem.live[key][..i], MapTuple(t, indices[i..]))
    {
      ghost var row := mem.live[key];
      var v := Column(t, indices[i]);
      MapTupleStep(t, indices[i..], row[..i]);
      assert indices[i..][1..] == indices[i + 1..];
      if v.Err? {
        return Err(v.error);
      }
      mem.Set(key, i, v.value);
      assert mem.live[key][..i + 1] == row[..i] + [v.value];
      i := i + 1;
    }
    assert mem.live[key][..i] + [] == mem.live[key];
    return Ok(key);
  }

  lemma MapTupleStep(src: Tuple, indices: seq<int>, done: Tuple)
    requires indices != []
    ensures var v := Column(src, indices[0]);
      Prefixed(done, MapTuple(src, indices)) ==
      if v.Err? then Err(v.error) else Prefixed(done + [v.value], MapTuple(src, indices[1..]))
  {
    var v := Column(src, indices[0]);
    if v.Ok? {
      var rest := MapTuple(src, indices[1..]);
      if rest.Ok? { assert done + ([v.value] + rest.value) == done + [v.value] + rest.value; }
    }
  }

  // ---------- stateless operators ----------

  class FilterOp {
    const filter: Runner
    ghost const ops: seq<Operator>
    ghost const Repr: set<object>

    ghost predicate Valid() reads this, Repr {
      && Repr == {this} + filter.Repr && this !in filter.Repr
      && filter.Valid() && filter.operators.vector == ops
    }

    constructor (filter: Runner)
      requires filter.Valid()
      ensures Valid() && Repr == {this} + filter.Repr && ops == filter.operators.vector
    {
      this.filter := filter;
      ops := filter.operators.vector;
      Repr := {this} + filter.Repr;
    }

    /** The tuple itself if the filter is true of it; otherwise the tuple is deleted. */
    method Put(p: Prims, mem: Memory, tuple: Address) returns (r: Result<Option<Address>>)
      requires Valid() && mem !in Repr && mem.Valid() && tuple in mem.live
      modifies Repr, mem
      ensures Valid() && mem.Valid()
      ensures Outcome(r, PutStage(p, Filter(ops), Stateless, old(mem.live[tuple])), Stateless, old(mem.live),
                      mem.live, {tuple}, {})
    {
      filter.BindTuple(Some(mem.live[tuple]));
      var fault := filter.Run(p);
      if fault.Some? {
        return Err(fault.value);
      }
      var v := filter.Get();
      match v {
        case Err(f) => return Err(f);
        case Ok(Bool(b)) =>
          if b {
            return Ok(Some(tuple));
          }
        case Ok(Null) =>
        case Ok(_) => return Err(WrongVariant);
      }
      mem.Delete(tuple);
      return Ok(None);
    }
  }

  class ProjectOp {
    const projects: Runner
    ghost const ops: seq<Operator>
    ghost const Repr: set<object>

    ghost predicate Valid() reads this, Repr {
      && Repr == {this} + projects.Repr && this !in projects.Repr
      && projects.Valid() && projects.operators.vector == ops
    }

    constructor (projects: Runner)
      requires projects.Valid()
      ensures Valid() && Repr == {this} + projects.Repr && ops == projects.operators.vector
    {
      this.projects := projects;
      ops := projects.operators.vector;
      Repr := {this} + projects.Repr;
    }

    /** Deletes the tuple and gives a new one, of everything the code left on the stack. */
    method Put(p: Prims, mem: Memory, tuple: Address) returns (r: Result<Option<Address>>)
      requires Valid() && mem !in Repr && mem.Valid() && tuple in mem.live
      modifies Repr, mem
      ensures Valid() && mem.Valid()
      ensures Outcome(r, PutStage(p, Project(ops), Stateless, old(mem.live[tuple])), Stateless, old(mem.live),
                      mem.live, {tuple}, {})
    {
      projects.BindTuple(Some(mem.live[tuple]));
      var fault := projects.Run(p);
      if fault.Some? {
        return Err(fault.value);
      }
      mem.Delete(tuple);
      var t := projects.GetAll();
      var a := mem.New(t);
      return Ok(Some(a));
    }
  }

  // ---------- aggregation ----------

  class UngroupedAggOp {
    const aggs: seq<Agg>
    var cache: Option<Address>
    ghost const Repr: set<object>

    ghost predicate Valid(live: Heap) reads this {
      Repr == {this} && (cache.Some? ==> cache.value in live && |live[cache.value]| == |aggs|)
    }

    ghost function Owned(): set<Address> reads this { Out(cache) }

    ghost function St(live: Heap): State
      reads this
      requires Valid(live)
    {
      Cache(if cache.Some? then Some(live[cache.value]) else None)
    }

    constructor (aggs: seq<Agg>)
      ensures Valid(map[]) && cache == None && this.aggs == aggs && Repr == {this}
    {
      this.aggs := aggs;
      cache := None;
      Repr := {this};
    }

    method Put(p: Prims, mem: Memory, tuple: Address) returns (r: Result<Option<Address>>)
      requires Valid(mem.live) && mem !in Repr && mem.Valid() && tuple in mem.live && tuple !in Owned()
      modifies Repr, mem
      ensures mem.Valid() && (r.Ok? ==> Valid(mem.live))
      ensures Outcome(r, PutStage(p, Ungrouped(aggs), old(St(mem.live)), old(mem.live[tuple])),
                      if r.Ok? then St(mem.live) else Stateless, old(mem.live), mem.live, {tuple} + old(Owned()),
                      Owned())
    {
      var c := AddToCache(p, mem, aggs, cache, tuple);
      if c.Err? {
        return Err(c.error);
      }
      cache := Some(c.value);
      return Ok(None);
    }

    /** Hands the cache itself to the caller. */
    method Get(mem: Memory) returns (r: Option<Address>)
      requires Valid(mem.live) && mem !in Repr
      modifies Repr
      ensures Valid(mem.live)
      ensures Outcome(Ok(r), Ok(GetStage(Ungrouped(aggs), old(St(mem.live)))), St(mem.live), mem.live, mem.live,
                      old(Owned()), Owned())
    {
      r := cache;
      cache := None;
    }

    method Destroy(mem: Memory)
      requires Valid(mem.live) && mem.Valid()
      modifies mem
      ensures mem.Valid() && Conserved(old(mem.live), mem.live, Owned(), {})
    {
      hide ValidCaches, Injective, Chooses;
      if cache.Some? {
        mem.Delete(cache.value);
      }
    }
  }

  ghost predicate Injective(caches: map<Tuple, Address>) {
    forall j, k | j in caches && k in caches && j != k :: caches[j] != caches[k]
  }

  /** Different groups have different caches, all allocated. */
  ghost predicate ValidCaches(live: Heap, caches: map<Tuple, Address>, width: nat) {
    && (forall k | k in caches :: caches[k] in live && |live[caches[k]]| == width)
    && Injective(caches)
  }

  function ContentsOf(live: Heap, caches: map<Tuple, Address>, ghost width: nat): (m: map<Tuple, Tuple>)
    requires ValidCaches(live, caches, width)
    ensures m.Keys == caches.Keys
  {
    map k | k in caches :: live[caches[k]]
  }

  lemma CacheAt(live: Heap, caches: map<Tuple, Address>, width: nat, key: Tuple)
    requires ValidCaches(live, caches, width) && key in caches
    ensures caches[key] in caches.Values && caches[key] in live && |live[caches[key]]| == width
    ensures ContentsOf(live, caches, width)[key] == live[caches[key]]
  {}

  lemma ValuesWithout(caches: map<Tuple, Address>, key: Tuple)
    requires key in caches
    requires Injective(caches)
    ensures caches[key] in caches.Values
    ensures (caches - {key}).Values == caches.Values - {caches[key]} && Injective(caches - {key})
    ensures (caches - {key}).Keys < caches.Keys
  {
    assert caches[key] in caches.Values && key in caches.Keys;
    var rest := caches - {key};
    forall a | a in caches.Values - {caches[key]}
      ensures a in rest.Values
    {
      var k :| k in caches && caches[k] == a;
      assert k in rest && rest[k] == a;
    }
  }

  lemma ValuesWith(caches: map<Tuple, Address>, key: Tuple, c: Address)
    requires key in caches ==> c == caches[key]
    ensures caches[key := c].Values == caches.Values + {c}
  {
    var more := caches[key := c];
    assert more[key] == c;
    forall a | a in caches.Values
      ensures a in more.Values
    {
      var k :| k in caches && caches[k] == a;
      assert more[k] == a;
    }
  }

  lemma AllocatedCaches(live: Heap, caches: map<Tuple, Address>, width: nat)
    requires ValidCaches(live, caches, width)
    ensures caches.Values <= live.Keys
  {}

  /** A tuple folded into its group's cache. */
  lemma CacheFolded(live: Heap, caches: map<Tuple, Address>, width: nat, tuple: Address, key: Tuple, c: Address,
          row: Tuple)
    requires ValidCaches(live, caches, width) && |row| == width
    requires tuple in live && tuple !in caches.Values && c != tuple
    requires if key in caches then c == caches[key] else c !in live
    ensures var after, caches' := live[c := row] - {tuple}, caches[key := c];
      && ValidCaches(after, caches', width)
      && ContentsOf(after, caches', width) == ContentsOf(live, caches, width)[key := row]
      && Conserved(live, after, {tuple} + caches.Values, caches'.Values)
  {
    hide ValidCaches, ContentsOf;
    ValuesWith(caches, key, c);
    KeptApart(live, caches, width, tuple, key, c, row);
    AllocatedCaches(live, caches, width);
  }

  lemma KeptAllocated(live: Heap, caches: map<Tuple, Address>, width: nat, tuple: Address, key: Tuple, c: Address,
          row: Tuple)
    requires ValidCaches(live, caches, width) && |row| == width
    requires tuple in live && tuple !in caches.Values && c != tuple
    requires if key in caches then c == caches[key] else c !in live
    ensures ValidCaches(live[c := row] - {tuple}, caches[key := c], width)
  {
    assert forall k | k in caches :: caches[k] in caches.Values;
  }

  lemma KeptApart(live: Heap, caches: map<Tuple, Address>, width: nat, tuple: Address, key: Tuple, c: Address,
          row: Tuple)
    requires ValidCaches(live, caches, width) && |row| == width
    requires tuple in live && tuple !in caches.Values && c != tuple
    requires if key in caches then c == caches[key] else c !in live
    ensures var after, caches' := live[c := row] - {tuple}, caches[key := c];
      && ValidCaches(after, caches', width)
      && ContentsOf(after, caches', width) == ContentsOf(live, caches, width)[key := row]
  {
    KeptAllocated(live, caches, width, tuple, key, c, row);
    assert forall k | k in caches :: caches[k] in caches.Values;
  }

  /** A group taken out, as a new tuple. */
  lemma CacheTaken(live: Heap, caches: map<Tuple, Address>, width: nat, key: Tuple, a: Address, row: Tuple)
    requires ValidCaches(live, caches, width) && key in caches && a !in live
    ensures var after, caches' := live[a := row] - {caches[key]}, caches - {key};
      && ValidCaches(after, caches', width) && a !in caches'.Values
      && ContentsOf(after, caches', width) == ContentsOf(live, caches, width) - {key}
      && Conserved(live, after, caches.Values, caches'.Values + {a})
  {
    ValuesWithout(caches, key);
    assert forall k | k in caches :: caches[k] in caches.Values;
  }

  lemma NoneTaken(live: Heap, caches: map<Tuple, Address>, stage: Stage, drawn: nat)
    requires stage.Grouped? && Chooses(stage.order) && ValidCaches(live, caches, |stage.aggs|) && caches == map[]
    ensures var st := Groups(ContentsOf(live, caches, |stage.aggs|), drawn);
      Outcome(Ok(None), Ok(GetStage(stage, st)), st, live, live, caches.Values, caches.Values)
  {}

  lemma OneTaken(live: Heap, caches: map<Tuple, Address>, stage: Stage, drawn: nat, key: Tuple, a: Address)
    requires stage.Grouped? && Chooses(stage.order) && ValidCaches(live, caches, |stage.aggs|)
    requires key in caches && key == stage.order(drawn, ContentsOf(live, caches, |stage.aggs|)) && a !in live
    ensures var n := |stage.aggs|;
      var after, caches' := live[a := key + live[caches[key]]] - {caches[key]}, caches - {key};
      && ValidCaches(after, caches', n)
      && Outcome(Ok(Some(a)), Ok(GetStage(stage, Groups(ContentsOf(live, caches, n), drawn))),
                 Groups(ContentsOf(after, caches', n), drawn + 1), live, after, caches.Values, caches'.Values)
  {
    hide ValidCaches, ContentsOf;
    hide Conserved, Chooses;
    CacheAt(live, caches, |stage.aggs|, key);
    CacheTaken(live, caches, |stage.aggs|, key, a, key + live[caches[key]]);
    AllocatedCaches(live, caches, |stage.aggs|);
    assert caches[key] != a;
  }

  class GroupedAggOp {
    const indices: seq<int>
    const aggs: seq<Agg>
    const order: Order
    var caches: map<Tuple, Address>
    var drawn: nat
    ghost const Repr: set<object>

    ghost predicate Valid(live: Heap) reads this {
      Repr == {this} && Chooses(order) && ValidCaches(live, caches, |aggs|)
    }

    ghost function Owned(): set<Address> reads this { caches.Values }

    ghost function St(live: Heap): State
      reads this
      requires Valid(live)
    {
      Groups(ContentsOf(live, caches, |aggs|), drawn)
    }

    constructor (indices: seq<int>, aggs: seq<Agg>, order: Order)
      requires Chooses(order)
      ensures Valid(map[]) && caches == map[] && drawn == 0 && Repr == {this}
      ensures this.indices == indices && this.aggs == aggs && this.order == order
    {
      this.indices, this.aggs, this.order := indices, aggs, order;
      caches, drawn := map[], 0;
      Repr := {this};
    }

    method Put(p: Prims, mem: Memory, tuple: Address) returns (r: Result<Option<Address>>)
      requires Valid(mem.live) && mem !in Repr && mem.Valid() && tuple in mem.live && tuple !in Owned()
      modifies Repr, mem
      ensures mem.Valid() && (r.Ok? ==> Valid(mem.live))
      ensures Outcome(r, PutStage(p, Grouped(indices, aggs, order), old(St(mem.live)), old(mem.live[tuple])),
                      if r.Ok? then St(mem.live) else Stateless, old(mem.live), mem.live, {tuple} + old(Owned()),
                      Owned())
    {
      hide ValidCaches, Conserved, AddAll, Chooses;
      var at := MapTupleNew(mem, tuple, indices);
      if at.Err? {
        return Err(at.error);
      }
      var key := mem.live[at.value];
      var cache := if key in caches then Some(caches[key]) else None;
      mem.Delete(at.value);
      if key in caches { CacheAt(old(mem.live), caches, |aggs|, key); }
      assert mem.live == old(mem.live);
      var c := AddToCache(p, mem, aggs, cache, tuple);
      if c.Err? {
        return Err(c.error);
      }
      CacheFolded(old(mem.live), caches, |aggs|, tuple, key, c.value, mem.live[c.value]);
      caches := caches[key := c.value];
      assert Owned() + Out(None) == Owned();
      return Ok(None);
    }

    /** One entry of the map, whichever it gives first: a new tuple of key and cache; the cache is
        deleted and the entry erased. */
    method Get(mem: Memory) returns (r: Option<Address>)
      requires Valid(mem.live) && mem !in Repr && mem.Valid()
      modifies Repr, mem
      ensures mem.Valid() && Valid(mem.live)
      ensures Outcome(Ok(r), Ok(GetStage(Grouped(indices, aggs, order), old(St(mem.live)))), St(mem.live),
                      old(mem.live), mem.live, old(Owned()), Owned())
    {
      hide ValidCaches, ContentsOf, Chooses, Outcome;
      if caches == map[] {
        NoneTaken(mem.live, caches, Grouped(indices, aggs, order), drawn);
        return None;
      }
      Grouping.Pick(order, drawn, ContentsOf(mem.live, caches, |aggs|));
      var key := order(drawn, ContentsOf(mem.live, caches, |aggs|));
      CacheAt(mem.live, caches, |aggs|, key);
      var a := mem.New(key + mem.live[caches[key]]);
      OneTaken(old(mem.live), caches, Grouped(indices, aggs, order), drawn, key, a);
      mem.Delete(caches[key]);
      caches, drawn := caches - {key}, drawn + 1;
      return Some(a);
    }

    /** Deletes the caches that were never taken out. */
    method Destroy(mem: Memory)
      requires Valid(mem.live) && mem.Valid() && mem !in Repr
      modifies mem
      ensures mem.Valid() && Conserved(old(mem.live), mem.live, Owned(), {})
    {
      AllocatedCaches(mem.live, caches, |aggs|);
      assert Injective(caches);
      var rest := caches;
      ghost var gone := {};
      assert mem.live - gone == mem.live;
      while rest != map[]
        invariant Injective(rest)
        invariant gone !! rest.Values && gone + rest.Values == caches.Values
        invariant mem.Valid() && mem.live == old(mem.live) - gone
        decreases rest.Keys
      {
        var key :| key in rest;
        ValuesWithout(rest, key);
        mem.Delete(rest[key]);
        gone := gone + {rest[key]};
        rest := rest - {key};
      }
    }
  }

  // ---------- any operator ----------

  /** A pointer to an operator of one of the five classes. */
  datatype RelOp =
    | F(filter: FilterOp)
    | P(project: ProjectOp)
    | G(grouped: GroupedAggOp)
    | U(ungrouped: UngroupedAggOp)
    | T(tandem: TandemOp)
  {
    /** The objects it is made of. */
    ghost function Repr(): set<object> {
      match this
      case F(f) => {f} + f.Repr case P(f) => {f} + f.Repr case G(g) => {g} + g.Repr
      case U(u) => {u} + u.Repr case T(t) => {t} + t.Repr
    }

    /** The chain of stages it stands for. */
    ghost function Spec(): Op {
      match this
      case F(f) => Leaf(Filter(f.ops))
      case P(f) => Leaf(Project(f.ops))
      case G(g) => Leaf(Grouped(g.indices, g.aggs, g.order))
      case U(u) => Leaf(Ungrouped(u.aggs))
      case T(t) => t.spec
    }

    ghost predicate Valid(live: Heap)
      reads Repr()
      decreases Spec(), 2
    {
      match this
      case F(f) => f.Valid()
      case P(f) => f.Valid()
      case G(g) => g.Valid(live)
      case U(u) => u.Valid(live)
      case T(t) => t.Valid(live)
    }

    /** The addresses of its caches. */
    ghost function Owned(): set<Address>
      reads Repr()
    {
      match this
      case F(_) => {} case P(_) => {} case G(g) => g.Owned() case U(u) => u.Owned() case T(t) => t.owned
    }

    /** Its state on values. */
    ghost function St(live: Heap): (st: State)
      requires Valid(live)
      reads Repr()
      ensures Fits(Spec(), st)
      decreases Spec(), 3
    {
      match this
      case F(_) => Stateless
      case P(_) => Stateless
      case G(g) => g.St(live)
      case U(u) => u.St(live)
      case T(t) => t.state
    }

    method Put(p: Prims, mem: Memory, tuple: Address) returns (r: Result<Option<Address>>)
      requires Valid(mem.live) && mem !in Repr() && mem.Valid() && tuple in mem.live && tuple !in Owned()
      modifies Repr(), mem
      ensures mem.Valid() && (r.Ok? ==> Valid(mem.live))
      ensures Outcome(r, Pipeline.Put(p, Spec(), old(St(mem.live)), old(mem.live[tuple])),
                      if r.Ok? then St(mem.live) else Stateless, old(mem.live), mem.live, {tuple} + old(Owned()),
                      Owned())
      decreases Spec(), 1
    {
      match this
      case F(f) => r := f.Put(p, mem, tuple); assert {tuple} + {} == {tuple};
      case P(f) => r := f.Put(p, mem, tuple); assert {tuple} + {} == {tuple};
      case G(g) => r := g.Put(p, mem, tuple);
      case U(u) => r := u.Put(p, mem, tuple);
      case T(t) => r := t.Put(p, mem, tuple);
    }

    /** The base class gives nothing. */
    method Get(p: Prims, mem: Memory) returns (r: Result<Option<Address>>)
      requires Valid(mem.live) && mem !in Repr() && mem.Valid()
      modifies Repr(), mem
      ensures mem.Valid() && (r.Ok? ==> Valid(mem.live))
      ensures Outcome(r, Pipeline.Get(p, Spec(), old(St(mem.live))),
                      if r.Ok? then St(mem.live) else Stateless, old(mem.live), mem.live, old(Owned()), Owned())
      decreases Spec(), 1
    {
      match this
      case F(_) => r := Ok(None);
      case P(_) => r := Ok(None);
      case G(g) => var a := g.Get(mem); r := Ok(a);
      case U(u) => var a := u.Get(mem); r := Ok(a);
      case T(t) => r := t.Get(p, mem);
    }

    method Destroy(mem: Memory)
      requires Valid(mem.live) && mem !in Repr() && mem.Valid()
      modifies mem
      ensures mem.Valid() && Conserved(old(mem.live), mem.live, Owned(), {})
      decreases Spec(), 1
    {
      match this
      case F(_) =>
      case P(_) =>
      case G(g) => g.Destroy(mem);
      case U(u) => u.Destroy(mem);
      case T(t) => t.Destroy(mem);
    }
  }

  /** An operator is indifferent to tuples it does not own. */
  lemma {:induction false} ValidElsewhere(op: RelOp, live: Heap, live': Heap)
    requires op.Valid(live)
    requires forall a | a in op.Owned() :: a in live && a in live' && live'[a] == live[a]
    ensures op.Valid(live') && op.St(live') == op.St(live)
    decreases op.Spec()
  {
    match op
    case F(_) =>
    case P(_) =>
    case G(g) =>
      assert forall k | k in g.caches :: g.caches[k] in g.caches.Values;
    case U(u) =>
    case T(t) =>
      assert t.Valid(live) && t.Parts(live);
      ValidElsewhere(t.input, live, live');
      ValidElsewhere(t.output, live, live');
      assert t.Parts(live') && t.Valid(live');
  }

  lemma {:induction false} OwnedLive(op: RelOp, live: Heap)
    requires op.Valid(live)
    ensures op.Owned() <= live.Keys
    decreases op.Spec()
  {
    match op
    case F(_) =>
    case P(_) =>
    case G(g) => AllocatedCaches(live, g.caches, |g.aggs|);
    case U(u) =>
    case T(t) =>
      assert t.Valid(live) && t.Parts(live);
      OwnedLive(t.input, live);
      OwnedLive(t.output, live);
  }

  class TandemOp {
    const input: RelOp
    const output: RelOp
    ghost const spec: Op
    ghost const Repr: set<object>
    ghost var state: State
    ghost var owned: set<Address>

    /** The parts are separate objects with separate caches. */
    ghost predicate Parts(live: Heap)
      reads this, Repr
      decreases spec, 0
    {
      && Repr == {this} + input.Repr() + output.Repr()
      && this !in input.Repr() && this !in output.Repr() && input.Repr() !! output.Repr()
      && spec == Tandem(input.Spec(), output.Spec())
      && input.Valid(live) && output.Valid(live) && input.Owned() !! output.Owned()
    }

    ghost predicate Valid(live: Heap)
      reads this, Repr
      ensures Valid(live) ==> Fits(spec, state)
      decreases spec, 1
    {
      Parts(live) && state == Pair(input.St(live), output.St(live)) && owned == input.Owned() + output.Owned()
    }

    ghost function Both(live: Heap): (st: State)
      requires Parts(live)
      reads this, Repr
      ensures Fits(spec, st)
    {
      Pair(input.St(live), output.St(live))
    }

    ghost function BothOwned(): set<Address>
      reads Repr, input.Repr(), output.Repr()
    {
      input.Owned() + output.Owned()
    }

    constructor (input: RelOp, output: RelOp, ghost live: Heap)
      requires input.Valid(live) && output.Valid(live)
      requires input.Repr() !! output.Repr() && input.Owned() !! output.Owned()
      ensures Valid(live) && fresh(this) && Repr == {this} + input.Repr() + output.Repr()
      ensures spec == Tandem(input.Spec(), output.Spec())
      ensures state == Pair(old(input.St(live)), old(output.St(live))) &&
              owned == old(input.Owned()) + old(output.Owned())
    {
      this.input, this.output := input, output;
      spec := Tandem(input.Spec(), output.Spec());
      Repr := {this} + input.Repr() + output.Repr();
      state := Pair(input.St(live), output.St(live));
      owned := input.Owned() + output.Owned();
    }

    /** Brings the ghost view of both parts up to date. */
    ghost method Settle(live: Heap)
      requires Parts(live)
      modifies this
      ensures Valid(live) && state == old(Pair(input.St(live), output.St(live)))
      ensures owned == old(input.Owned() + output.Owned())
    {
      state := Pair(input.St(live), output.St(live));
      owned := input.Owned() + output.Owned();
    }

    /** A tuple put into the input; the output and its caches stay as they are. */
    method PutInput(p: Prims, mem: Memory, tuple: Address) returns (r: Result<Option<Address>>)
      requires Parts(mem.live) && mem !in Repr && mem.Valid()
      requires tuple in mem.live && tuple !in input.Owned() && tuple !in output.Owned()
      modifies input.Repr(), mem
      ensures mem.Valid()
      ensures r.Ok? ==>
                && Parts(mem.live)
                && output.St(mem.live) == old(output.St(mem.live)) && output.Owned() == old(output.Owned())
      ensures r.Ok? ==> Out(r.value) !! output.Owned()
      ensures Outcome(r, Pipeline.Put(p, input.Spec(), old(input.St(mem.live)), old(mem.live[tuple])),
                      if r.Ok? then input.St(mem.live) else Stateless, old(mem.live), mem.live,
                      {tuple} + old(input.Owned()), input.Owned())
      decreases spec, 0, 0
    {
      hide Conserved, Pipeline.Put, Memory.Valid, Fits;
      OwnedLive(output, mem.live);
      r := input.Put(p, mem, tuple);
      if r.Ok? {
        Untouched(old(mem.live), mem.live, {tuple} + old(input.Owned()), input.Owned() + Out(r.value), output.Owned());
        ValidElsewhere(output, old(mem.live), mem.live);
      }
    }

    /** A tuple put into the output; the input and its caches stay as they are. */
    method PutOutput(p: Prims, mem: Memory, tuple: Address) returns (r: Result<Option<Address>>)
      requires Parts(mem.live) && mem !in Repr && mem.Valid()
      requires tuple in mem.live && tuple !in input.Owned() && tuple !in output.Owned()
      modifies output.Repr(), mem
      ensures mem.Valid()
      ensures r.Ok? ==>
                && Parts(mem.live)
                && input.St(mem.live) == old(input.St(mem.live)) && input.Owned() == old(input.Owned())
      ensures r.Ok? ==> Out(r.value) !! input.Owned()
      ensures Outcome(r, Pipeline.Put(p, output.Spec(), old(output.St(mem.live)), old(mem.live[tuple])),
                      if r.Ok? then output.St(mem.live) else Stateless, old(mem.live), mem.live,
                      {tuple} + old(output.Owned()), output.Owned())
      decreases spec, 0, 0
    {
      hide Conserved, Pipeline.Put, Memory.Valid, Fits;
      OwnedLive(input, mem.live);
      r := output.Put(p, mem, tuple);
      if r.Ok? {
        Untouched(old(mem.live), mem.live, {tuple} + old(output.Owned()), output.Owned() + Out(r.value), input.Owned());
        ValidElsewhere(input, old(mem.live), mem.live);
      }
    }

    /** Into the input, and what comes out of it into the output. */
    method Put(p: Prims, mem: Memory, tuple: Address) returns (r: Result<Option<Address>>)
      requires Valid(mem.live) && mem !in Repr && mem.Valid() && tuple in mem.live && tuple !in owned
      modifies Repr, mem
      ensures mem.Valid() && (r.Ok? ==> Valid(mem.live))
      ensures Outcome(r, Pipeline.Put(p, spec, old(state), old(mem.live[tuple])),
                      if r.Ok? then state else Stateless, old(mem.live), mem.live, {tuple} + old(owned), owned)
      decreases spec, 0, 1
    {
      hide Conserved, Pipeline.Put, Memory.Valid, Fits;
      hide RelOp.St, RelOp.Valid, RelOp.Owned, RelOp.Spec, RelOp.Repr;
      assert Parts(mem.live);
      ghost var heap0, i0, o0 := mem.live, input.Owned(), output.Owned();
      PM.PutTandem(p, input.Spec(), output.Spec(), input.St(mem.live), output.St(mem.live), mem.live[tuple]);
      OwnedLive(output, mem.live);
      var x := PutInput(p, mem, tuple);
      if x.Err? {
        return x;
      }
      ghost var heap1, i1 := mem.live, input.Owned();
      assert {tuple} + i0 + o0 == {tuple} + (i0 + o0);
      if x.value.None? {
        assert i1 + Out(x.value) == i1;
        ConservedMore(heap0, heap1, {tuple} + i0, i1, o0);
        Settle(mem.live);
        assert owned + Out(None) == i1 + o0;
        return Ok(None);
      }
      r := PutOutput(p, mem, x.value.value);
      if r.Ok? {
        ghost var o2 := output.Owned();
        Settle(mem.live);
        assert Conserved(heap1, mem.live, Out(x.value) + o0, o2 + Out(r.value));
        ConservedTwice(heap0, heap1, mem.live, {tuple} + i0, Out(x.value), o2 + Out(r.value), i1, o0);
        assert i1 + (o2 + Out(r.value)) == i1 + o2 + Out(r.value);
      }
    }

    method GetInput(p: Prims, mem: Memory) returns (r: Result<Option<Address>>)
      requires Parts(mem.live) && mem !in Repr && mem.Valid()
      modifies input.Repr(), mem
      ensures mem.Valid()
      ensures r.Ok? ==>
                && Parts(mem.live)
                && output.St(mem.live) == old(output.St(mem.live)) && output.Owned() == old(output.Owned())
      ensures r.Ok? ==> Out(r.value) !! output.Owned()
      ensures Outcome(r, Pipeline.Get(p, input.Spec(), old(input.St(mem.live))),
                      if r.Ok? then input.St(mem.live) else Stateless, old(mem.live), mem.live, old(input.Owned()),
                      input.Owned())
      decreases spec, 0, 0
    {
      hide Conserved, Pipeline.Get, Memory.Valid, Fits;
      OwnedLive(output, mem.live);
      r := input.Get(p, mem);
      if r.Ok? {
        Untouched(old(mem.live), mem.live, old(input.Owned()), input.Owned() + Out(r.value), output.Owned());
        ValidElsewhere(output, old(mem.live), mem.live);
      }
    }

    method GetOutput(p: Prims, mem: Memory) returns (r: Result<Option<Address>>)
      requires Parts(mem.live) && mem !in Repr && mem.Valid()
      modifies output.Repr(), mem
      ensures mem.Valid()
      ensures r.Ok? ==>
                && Parts(mem.live)
                && input.St(mem.live) == old(input.St(mem.live)) && input.Owned() == old(input.Owned())
      ensures r.Ok? ==> Out(r.value) !! input.Owned()
      ensures Outcome(r, Pipeline.Get(p, output.Spec(), old(output.St(mem.live))),
                      if r.Ok? then output.St(mem.live) else Stateless, old(mem.live), mem.live, old(output.Owned()),
                      output.Owned())
      decreases spec, 0, 0
    {
      hide Conserved, Pipeline.Get, Memory.Valid, Fits;
      OwnedLive(input, mem.live);
      r := output.Get(p, mem);
      if r.Ok? {
        Untouched(old(mem.live), mem.live, old(output.Owned()), output.Owned() + Out(r.value), input.Owned());
        ValidElsewhere(input, old(mem.live), mem.live);
      }
    }

    /** One turn of the drain loop: done with an answer, or nearer to the end. */
    method Turn(p: Prims, mem: Memory) returns (done: bool, r: Result<Option<Address>>)
      requires Parts(mem.live) && mem !in Repr && mem.Valid()
      modifies Repr, mem
      ensures mem.Valid() && (r.Ok? ==> Parts(mem.live)) && (!done ==> r.Ok?)
      ensures done ==>
                Outcome(r, Pipeline.Get(p, spec, old(Both(mem.live))), if r.Ok? then Both(mem.live) else Stateless,
                        old(mem.live), mem.live, old(BothOwned()), BothOwned())
      ensures !done ==>
                && Pipeline.Get(p, spec, old(Both(mem.live))) == Pipeline.Get(p, spec, Both(mem.live))
                && Weight(spec, Both(mem.live), 0) < Weight(spec, old(Both(mem.live)), 0)
                && Conserved(old(mem.live), mem.live, old(BothOwned()), BothOwned())
      decreases spec, 0, 1
    {
      hide Conserved, Pipeline.Get, Pipeline.Put, Memory.Valid, Weight, Fits;
      hide RelOp.St, RelOp.Valid, RelOp.Owned, RelOp.Spec, RelOp.Repr;
      ghost var heap1, i1, o1 := mem.live, input.Owned(), output.Owned();
      ghost var a, b := input.St(mem.live), output.St(mem.live);
      PM.GetTandem(p, input.Spec(), output.Spec(), a, b);
      OwnedLive(output, mem.live);
      var x := GetInput(p, mem);
      if x.Err? {
        return true, x;
      }
      ghost var heap2, i2 := mem.live, input.Owned();
      ConservedMore(heap1, heap2, i1, i2 + Out(x.value), o1);
      if x.value.None? {
        r := GetOutput(p, mem);
        if r.Ok? {
          ConservedThen(heap1, heap2, mem.live, i1 + o1, i2 + Out(x.value) + o1, i2, o1,
                        output.Owned() + Out(r.value), BothOwned() + Out(r.value));
        }
        return true, r;
      }
      r := PutOutput(p, mem, x.value.value);
      if r.Err? {
        return true, r;
      }
      ConservedThen(heap1, heap2, mem.live, i1 + o1, i2 + Out(x.value) + o1, i2, {x.value.value} + o1,
                    output.Owned() + Out(r.value), BothOwned() + Out(r.value));
      PM.StepWeight(p, input.Spec(), output.Spec(), a, b);
      assert r.value.None? ==> BothOwned() + Out(r.value) == BothOwned();
      return r.value.Some?, r;
    }

    /** Drains the input through the output until a result comes out, then drains the output. */
    method Get(p: Prims, mem: Memory) returns (r: Result<Option<Address>>)
      requires Valid(mem.live) && mem !in Repr && mem.Valid()
      modifies Repr, mem
      ensures mem.Valid() && (r.Ok? ==> Valid(mem.live))
      ensures Outcome(r, Pipeline.Get(p, spec, old(state)),
                      if r.Ok? then state else Stateless, old(mem.live), mem.live, old(owned), owned)
      decreases spec, 0, 2
    {
      hide Conserved, Pipeline.Get, Memory.Valid, Weight, Outcome, Fits;
      ghost var heap0, own0 := mem.live, owned;
      assert Parts(mem.live);
      StartCount(this, mem.live);
      var done := false;
      r := Ok(None);
      while !done
        invariant mem.Valid() && (r.Ok? ==> Parts(mem.live)) && (!done ==> r.Ok?)
        invariant !done ==> Pipeline.Get(p, spec, old(state)) == Pipeline.Get(p, spec, Both(mem.live))
        invariant !done ==> Conserved(heap0, mem.live, own0, BothOwned())
        invariant done ==> Outcome(r, Pipeline.Get(p, spec, old(state)), if r.Ok? then Both(mem.live) else Stateless,
                                   heap0, mem.live, own0, BothOwned())
        decreases !done, if done then 0 else Weight(spec, Both(mem.live), 0)
      {
        ghost var heap1, own1 := mem.live, BothOwned();
        done, r := Turn(p, mem);
        if done {
          OutcomeThen(r, Pipeline.Get(p, spec, old(state)), if r.Ok? then Both(mem.live) else Stateless, heap0, heap1,
                      mem.live, own0, own1, BothOwned());
        } else {
          ConservedThen(heap0, heap1, mem.live, own0, own1, {}, own1, BothOwned(), BothOwned());
        }
      }
      if r.Ok? {
        Settle(mem.live);
      } else {
        OutcomeFault(r, Pipeline.Get(p, spec, old(state)), heap0, mem.live, own0, BothOwned(), owned);
      }
    }

    method Destroy(mem: Memory)
      requires Valid(mem.live) && mem !in Repr && mem.Valid()
      modifies mem
      ensures mem.Valid() && Conserved(old(mem.live), mem.live, owned, {})
      decreases spec, 0
    {
      hide Conserved, Memory.Valid;
      assert Parts(mem.live);
      OwnedLive(output, mem.live);
      input.Destroy(mem);
      ghost var heap1 := mem.live;
      Untouched(old(mem.live), heap1, input.Owned(), {}, output.Owned());
      ValidElsewhere(output, old(mem.live), heap1);
      ConservedMore(old(mem.live), heap1, input.Owned(), {}, output.Owned());
      output.Destroy(mem);
      ConservedThen(old(mem.live), heap1, mem.live, owned, {} + output.Owned(), {}, output.Owned(), {}, {});
    }
  }

  lemma OutcomeThen(r: Result<Option<Address>>, spec: Stepped, st: State, a: Heap, b: Heap, c: Heap,
                    used: set<Address>, mid: set<Address>, owned: set<Address>)
    requires Conserved(a, b, used, mid) && Outcome(r, spec, st, b, c, mid, owned)
    ensures Outcome(r, spec, st, a, c, used, owned)
  {
    if spec.Ok? { ConservedThen(a, b, c, used, mid, {}, mid, owned + Out(r.value), owned + Out(r.value)); }
  }

  lemma OutcomeFault(r: Result<Option<Address>>, spec: Stepped, a: Heap, b: Heap, used: set<Address>,
          owned: set<Address>, other: set<Address>)
    requires r.Err? && Outcome(r, spec, Stateless, a, b, used, owned)
    ensures Outcome(r, spec, Stateless, a, b, used, other)
  {}

  lemma StartCount(t: TandemOp, live: Heap)
    requires t.Valid(live)
    ensures Conserved(live, live, t.owned, t.input.Owned() + t.output.Owned())
  {
    OwnedLive(t.input, live);
    OwnedLive(t.output, live);
  }
}
