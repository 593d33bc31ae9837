// Whole runs of hierarchical_frequency_sketch: its counters in terms of the accesses that cover a
// granule, and its average after any calls.
module HierarchicalRuns {
  import opened Bits
  import opened PackedWord
  import opened CounterTable
  import opened CountMinLaws
  import opened UnitGrid
  import opened HierarchicalSketchClass

  /** What has happened to the counters: an access to n bytes at t of a flow, or a halving. */
  datatype Op = Access(flow: nat, t: nat, n: nat) | Age

  function EventsOf(granularity: nat, o: Op): seq<Event>
    requires granularity > 0
  {
    match o
    case Access(flow, t, n) => GranuleBumps(flow, t / granularity * granularity, granularity, Granules(n, granularity))
    case Age => [Halve]
  }

  function LogOf(granularity: nat, ops: seq<Op>): seq<Event>
    requires granularity > 0
  {
    if ops == [] then [] else LogOf(granularity, ops[..|ops| - 1]) + EventsOf(granularity, ops[|ops| - 1])
  }

  /** Granule i of the flow is one of the access's. */
  predicate Covers(granularity: nat, o: Op, flow: nat, i: nat)
    requires granularity > 0
  {
    o.Access? && o.flow == flow && o.t / granularity <= i < o.t / granularity + Granules(o.n, granularity)
  }

  /** The exact counter of granule i of a flow: one more per access that covers it, up to 15, halved
      per reset. */
  function GranuleCount(granularity: nat, ops: seq<Op>, flow: nat, i: nat): (c: nat)
    requires granularity > 0
    ensures c <= LIMIT
  {
    if ops == [] then 0
    else
      var c := GranuleCount(granularity, ops[..|ops| - 1], flow, i);
      var o := ops[|ops| - 1];
      if o.Age? then c / 2 else if Covers(granularity, o, flow, i) then Capped(c + 1) else c
  }

  function GranuleTotal(granularity: nat, ops: seq<Op>, flow: nat, first: nat, cnt: nat): nat
    requires granularity > 0
  {
    if cnt == 0 then 0
    else GranuleTotal(granularity, ops, flow, first, cnt - 1) + GranuleCount(granularity, ops, flow, first + cnt - 1)
  }

  function KeyOf(granularity: nat, flow: nat, i: nat): Key { Key(0, flow, Times(i, granularity), false) }

  // ------------------------------------------------------------ a key is a granule

  lemma KeysApart(granularity: nat, flow: nat, first: nat, j: nat, i: nat)
    requires granularity > 0
    ensures GranuleKey(flow, first * granularity, granularity, j) == KeyOf(granularity, flow, i) <==> first + j == i
  {
    assert (first + j) * granularity == first * granularity + j * granularity;
    if first + j < i {
      MulAtLeast(i - (first + j), granularity);
      assert (i - (first + j)) * granularity == i * granularity - (first + j) * granularity;
    } else if i < first + j {
      MulAtLeast(first + j - i, granularity);
      assert (first + j - i) * granularity == (first + j) * granularity - i * granularity;
    }
  }

  /** An access bumps each granule that it covers once, and no other. */
  lemma {:induction false} BumpsOnce(granularity: nat, flow: nat, first: nat, cnt: nat, flow': nat, i: nat)
    requires granularity > 0
    ensures ResetFree(GranuleBumps(flow, first * granularity, granularity, cnt))
    ensures Tally(GranuleBumps(flow, first * granularity, granularity, cnt), KeyOf(granularity, flow', i))
         == if flow == flow' && first <= i < first + cnt then 1 else 0
  {
    hide Tally, KeyOf, GranuleKey;
    var k := KeyOf(granularity, flow', i);
    if cnt == 0 {
      NoTally(k);
    } else {
      BumpsOnce(granularity, flow, first, cnt - 1, flow', i);
      var front := GranuleBumps(flow, first * granularity, granularity, cnt - 1);
      TallyLast(front, Bump(GranuleKey(flow, first * granularity, granularity, cnt - 1)), k);
      KeyOfFlow(granularity, flow, first * granularity, cnt - 1, flow', i);
      KeysApart(granularity, flow, first, cnt - 1, i);
    }
  }

  lemma KeyOfFlow(granularity: nat, flow: nat, start: nat, j: nat, flow': nat, i: nat)
    ensures GranuleKey(flow, start, granularity, j) == KeyOf(granularity, flow', i) ==> flow == flow'
  {}

  /** The exact counter of a granule's key is the number of accesses that cover the granule, capped
      and aged. */
  lemma {:induction false} ExactIsGranuleCount(granularity: nat, ops: seq<Op>, flow: nat, i: nat)
    requires granularity > 0
    ensures Exact(LogOf(granularity, ops), KeyOf(granularity, flow, i)) == GranuleCount(granularity, ops, flow, i)
  {
    hide Exact, KeyOf, GranuleBumps, Granules;
    var k := KeyOf(granularity, flow, i);
    if ops == [] {
      NothingExact(k);
    } else {
      var front, o := ops[..|ops| - 1], ops[|ops| - 1];
      ExactIsGranuleCount(granularity, front, flow, i);
      match o
      case Age => ExactLast(LogOf(granularity, front), Halve, k);
      case Access(f, t, n) =>
        BumpsOnce(granularity, f, t / granularity, Granules(n, granularity), flow, i);
        ExactAppend(LogOf(granularity, front), EventsOf(granularity, o), k);
    }
  }

  lemma NothingExact(k: Key)
    ensures Exact([], k) == 0
  {}

  lemma {:induction false} ExactSumIsTotal(granularity: nat, ops: seq<Op>, flow: nat, first: nat, cnt: nat)
    requires granularity > 0
    ensures ExactSum(LogOf(granularity, ops), flow, first * granularity, granularity, cnt)
         == GranuleTotal(granularity, ops, flow, first, cnt)
  {
    hide Exact, LogOf, GranuleCount, KeyOf, GranuleKey;
    if cnt > 0 {
      ExactSumIsTotal(granularity, ops, flow, first, cnt - 1);
      KeysApart(granularity, flow, first, cnt - 1, first + cnt - 1);
      ExactIsGranuleCount(granularity, ops, flow, first + cnt - 1);
    }
  }

  // ------------------------------------------------------------ private rows

  /** In row j of a table of `size` words, granule i' of flow' and granule i of flow have the same
      counter. */
  predicate SameCell(hash: (nat, int) -> nat, index: (nat, nat, nat) -> nat, size: nat, granularity: nat,
                     flow': nat, i': nat, flow: nat, i: nat, j: nat)
  {
    var h', h := hash(flow', Times(i', granularity)), hash(flow, Times(i, granularity));
    index(size, h', j) == index(size, h, j) && h' % 4 == h % 4
  }

  /** No other granule that was accessed has this one's counter in row j. */
  ghost predicate Private(hash: (nat, int) -> nat, index: (nat, nat, nat) -> nat, size: nat, granularity: nat,
                          ops: seq<Op>, flow: nat, i: nat, j: nat)
    requires granularity > 0
  {
    forall o, i': nat {:trigger Covers(granularity, o, o.flow, i')} ::
      o in ops && o.Access? && Covers(granularity, o, o.flow, i') && !(o.flow == flow && i' == i) ==>
        !SameCell(hash, index, size, granularity, o.flow, i', flow, i, j)
  }

  lemma {:induction false} BumpIsCovered(granularity: nat, flow: nat, first: nat, cnt: nat, k: Key) returns (i: nat)
    requires granularity > 0 && Bump(k) in GranuleBumps(flow, first * granularity, granularity, cnt)
    ensures first <= i < first + cnt && k == KeyOf(granularity, flow, i)
  {
    if k == GranuleKey(flow, first * granularity, granularity, cnt - 1) {
      i := first + cnt - 1;
      KeysApart(granularity, flow, first, cnt - 1, i);
    } else {
      i := BumpIsCovered(granularity, flow, first, cnt - 1, k);
    }
  }

  lemma {:induction false} BumpedIsAccessed(granularity: nat, ops: seq<Op>, k: Key) returns (o: Op, i: nat)
    requires granularity > 0 && Bump(k) in LogOf(granularity, ops)
    ensures o in ops && o.Access? && Covers(granularity, o, o.flow, i) && k == KeyOf(granularity, o.flow, i)
  {
    hide GranuleBumps, KeyOf, Granules;
    var front, last := ops[..|ops| - 1], ops[|ops| - 1];
    if Bump(k) in LogOf(granularity, front) {
      o, i := BumpedIsAccessed(granularity, front, k);
    } else {
      o := last;
      i := BumpIsCovered(granularity, o.flow, o.t / granularity, Granules(o.n, granularity), k);
    }
  }

  lemma PrivateIsCollisionFree(lay: Layout, granularity: nat, ops: seq<Op>, flow: nat, i: nat, j: nat)
    requires granularity > 0 && |lay.sizes| == 1 && lay.quarters && j < 4
    requires Private(lay.hash, lay.index, lay.sizes[0], granularity, ops, flow, i, j)
    ensures CollisionFree(lay, LogOf(granularity, ops), KeyOf(granularity, flow, i), j)
  {
    hide LogOf, Covers, Layout.Place;
    var k := KeyOf(granularity, flow, i);
    forall k' | Bump(k') in LogOf(granularity, ops) && k' != k ensures !lay.Touches(k', lay.Place(k, j)) {
      var o, i' := BumpedIsAccessed(granularity, ops, k');
      SharedCell(lay, k', j, k, j);
      RowOfPlace(lay, k, j);
    }
  }

  lemma RowOfPlace(lay: Layout, k: Key, j: nat)
    requires k.level < |lay.sizes| && j < 4
    ensures lay.Place(k, j).slot % 4 == j
  {}

  ghost predicate PrivateGranule(hash: (nat, int) -> nat, index: (nat, nat, nat) -> nat, size: nat, granularity: nat,
                                 ops: seq<Op>, flow: nat, i: nat)
    requires granularity > 0
  {
    exists j: nat :: j < 4 && Private(hash, index, size, granularity, ops, flow, i, j)
  }

  /** Each of the granules asked for has a private row. */
  ghost predicate AllGranulesPrivate(hash: (nat, int) -> nat, index: (nat, nat, nat) -> nat, size: nat,
                                     granularity: nat, ops: seq<Op>, flow: nat, first: nat, cnt: nat)
    requires granularity > 0
  {
    forall i: nat :: first <= i < first + cnt ==> PrivateGranule(hash, index, size, granularity, ops, flow, i)
  }

  lemma GranuleIsPrivate(lay: Layout, granularity: nat, ops: seq<Op>, flow: nat, first: nat, i: nat)
    requires granularity > 0 && |lay.sizes| == 1 && lay.quarters
    requires PrivateGranule(lay.hash, lay.index, lay.sizes[0], granularity, ops, flow, first + i)
    ensures GranuleKey(flow, first * granularity, granularity, i).level == 0
    ensures PrivateKey(lay, LogOf(granularity, ops), GranuleKey(flow, first * granularity, granularity, i))
  {
    hide LogOf, Private, CollisionFree, GranuleKey, KeyOf;
    LevelZero(flow, first * granularity, granularity, i);
    var j: nat :| j < 4 && Private(lay.hash, lay.index, lay.sizes[0], granularity, ops, flow, first + i, j);
    PrivateIsCollisionFree(lay, granularity, ops, flow, first + i, j);
    KeysApart(granularity, flow, first, i, first + i);
  }

  lemma GranulesArePrivate(lay: Layout, granularity: nat, ops: seq<Op>, flow: nat, first: nat, cnt: nat)
    requires granularity > 0 && |lay.sizes| == 1 && lay.quarters
    requires AllGranulesPrivate(lay.hash, lay.index, lay.sizes[0], granularity, ops, flow, first, cnt)
    ensures AllPrivate(lay, LogOf(granularity, ops), flow, first * granularity, granularity, cnt)
  {
    hide LogOf, PrivateGranule, PrivateKey, KeyOf;
    forall i: nat | i < cnt
      ensures PrivateKey(lay, LogOf(granularity, ops), GranuleKey(flow, first * granularity, granularity, i))
    {
      assert PrivateGranule(lay.hash, lay.index, lay.sizes[0], granularity, ops, flow, first + i);
      GranuleIsPrivate(lay, granularity, ops, flow, first, i);
    }
  }

  // ------------------------------------------------------------ runs

  datatype Call = Record(flow: nat, t: nat, n: nat) | DoReset

  /** What a run of calls amounts to: the operations, and size_. */
  datatype Effect = Effect(ops: seq<Op>, size: nat)

  /** do_reset takes effect when size_ has reached twenty times the table size. */
  function EffectOf(tableSize: nat, granularity: nat, size: nat, calls: seq<Call>): Effect
    requires granularity > 0
  {
    if calls == [] then Effect([], size)
    else
      var e := EffectOf(tableSize, granularity, size, calls[..|calls| - 1]);
      match calls[|calls| - 1]
      case Record(flow, t, n) => Effect(e.ops + [Access(flow, t, n)], e.size + Granules(n, granularity))
      case DoReset => if e.size >= tableSize * 20 then Effect(e.ops + [Age], e.size / 2) else e
  }

  lemma LogLast(granularity: nat, ops: seq<Op>, o: Op)
    requires granularity > 0
    ensures LogOf(granularity, ops + [o]) == LogOf(granularity, ops) + EventsOf(granularity, o)
  {
    assert (ops + [o])[..|ops|] == ops;
  }

  lemma EffectLast(tableSize: nat, granularity: nat, size: nat, calls: seq<Call>, i: nat)
    requires granularity > 0 && i < |calls|
    ensures
      var e := EffectOf(tableSize, granularity, size, calls[..i]);
      EffectOf(tableSize, granularity, size, calls[..i + 1])
      == match calls[i]
         case Record(flow, t, n) => Effect(e.ops + [Access(flow, t, n)], e.size + Granules(n, granularity))
         case DoReset => if e.size >= tableSize * 20 then Effect(e.ops + [Age], e.size / 2) else e
  {
    assert calls[..i + 1][..i] == calls[..i];
  }

  /** Any sequence of records and do_resets, on a fresh sketch. */
  method PerformAll(s: HierarchicalSketch, calls: seq<Call>)
    requires s.Valid() && s.log == []
    modifies s
    ensures s.Valid() && |s.table| > 0
    ensures |s.table[0]| == |old(s.table[0])|
    ensures
      var e := EffectOf(|s.table[0]|, s.granularity, old(s.size), calls);
      s.log == LogOf(s.granularity, e.ops) && s.size == e.size
  {
    hide LogOf, EventsOf, EffectOf, GranuleBumps, Represents, Granules;
    SoundShape(s.layout, s.table, s.log);
    var tableSize := |s.table[0]|;
    NoEffect(tableSize, s.granularity, s.size);
    assert calls[..0] == [];
    for i := 0 to |calls|
      invariant s.Valid() && s.layout == old(s.layout)
      invariant
        var e := EffectOf(tableSize, s.granularity, old(s.size), calls[..i]);
        s.log == LogOf(s.granularity, e.ops) && s.size == e.size
    {
      SoundShape(s.layout, s.table, s.log);
      EffectLast(tableSize, s.granularity, old(s.size), calls, i);
      Perform(s, calls[i], EffectOf(tableSize, s.granularity, old(s.size), calls[..i]).ops);
    }
    SoundShape(s.layout, s.table, s.log);
    assert calls[..|calls|] == calls;
  }

  lemma NoEffect(tableSize: nat, granularity: nat, size: nat)
    requires granularity > 0
    ensures EffectOf(tableSize, granularity, size, []) == Effect([], size) && LogOf(granularity, []) == []
  {}

  /** One call, after the operations so far. */
  method Perform(s: HierarchicalSketch, c: Call, ghost ops: seq<Op>)
    requires s.Valid() && s.log == LogOf(s.granularity, ops)
    modifies s
    ensures s.Valid() && s.layout == old(s.layout)
    ensures c.Record? ==>
      && s.log == LogOf(s.granularity, ops + [Access(c.flow, c.t, c.n)])
      && s.size == old(s.size) + Granules(c.n, s.granularity)
    ensures c.DoReset? ==>
      if old(s.size) >= s.layout.sizes[0] * 20
      then s.log == LogOf(s.granularity, ops + [Age]) && s.size == old(s.size) / 2
      else s.log == old(s.log) && s.size == old(s.size)
  {
    hide LogOf, GranuleBumps, Represents, Granules;
    SoundShape(s.layout, s.table, s.log);
    match c
    case Record(flow, t, n) =>
      s.RecordAccess(flow, t, n);
      LogLast(s.granularity, ops, Access(flow, t, n));
    case DoReset =>
      var done := s.DoReset();
      SoundShape(s.layout, s.table, s.log);
      LogLast(s.granularity, ops, Age);
  }

  /** For every hash: after any records and do_resets of a fresh sketch, the average that a query
      returns lies between the average of the exact capped, aged granule counts and 15; it is the
      former when each granule asked for has a private row. So a fresh sketch answers 0. */
  method PerformAllThenAsk(s: HierarchicalSketch, calls: seq<Call>, flow: nat, t: nat, n: nat) returns (f: nat)
    requires s.Valid() && s.log == [] && n > 0
    modifies s
    ensures s.Valid() && |s.table| > 0 && Granules(n, s.granularity) > 0
    ensures
      var e := EffectOf(|s.table[0]|, s.granularity, old(s.size), calls);
      var first, cnt := t / s.granularity, Granules(n, s.granularity);
      && GranuleTotal(s.granularity, e.ops, flow, first, cnt) / cnt <= f <= LIMIT
      && (AllGranulesPrivate(s.hash, s.index, |s.table[0]|, s.granularity, e.ops, flow, first, cnt) ==>
            f == GranuleTotal(s.granularity, e.ops, flow, first, cnt) / cnt)
    ensures calls == [] ==> f == 0
  {
    hide LogOf, EffectOf, ExactSum, CellSum, GranuleTotal, Represents, AllPrivate, AllGranulesPrivate, Granules;
    PerformAll(s, calls);
    f := s.Frequency(flow, t, n);
    SoundShape(s.layout, s.table, s.log);
    ghost var e := EffectOf(|s.table[0]|, s.granularity, old(s.size), calls);
    ghost var first, cnt := t / s.granularity, Granules(n, s.granularity);
    ExactSumIsTotal(s.granularity, e.ops, flow, first, cnt);
    if AllGranulesPrivate(s.hash, s.index, |s.table[0]|, s.granularity, e.ops, flow, first, cnt) {
      GranulesArePrivate(s.layout, s.granularity, e.ops, flow, first, cnt);
    }
    if calls == [] {
      NoEffect(|s.table[0]|, s.granularity, old(s.size));
      NothingPrivate(s.hash, s.index, |s.table[0]|, s.granularity, flow, first, cnt);
      DivModUnique(0, cnt, 0, 0);
    }
  }

  lemma {:induction false} NothingPrivate(hash: (nat, int) -> nat, index: (nat, nat, nat) -> nat, size: nat,
                                          granularity: nat, flow: nat, first: nat, cnt: nat)
    requires granularity > 0
    ensures AllGranulesPrivate(hash, index, size, granularity, [], flow, first, cnt)
    ensures GranuleTotal(granularity, [], flow, first, cnt) == 0
  {
    if cnt > 0 { NothingPrivate(hash, index, size, granularity, flow, first, cnt - 1); }
    forall i: nat | first <= i < first + cnt
      ensures PrivateGranule(hash, index, size, granularity, [], flow, i)
    {
      assert Private(hash, index, size, granularity, [], flow, i, 0);
    }
  }
}
