// Whole runs of the two range sketches: the objects, driven by any sequence of calls, are in states
// that the theorems about histories speak of.
module SketchRuns {
  import opened Bits
  import opened PackedWord
  import opened CounterTable
  import opened RangeTree
  import opened UnitGrid
  import GxjRange
  import GxjSampler
  import GxjTheorems
  import IntervalExact
  import IntervalRange
  import opened GxjSketchClass
  import opened IntervalSketchClass

  /** The keys of the block of t fit an int. */
  predicate KeysFit(unitSize: nat, granularity: nat, t: nat)
    requires unitSize > 0 && granularity > 0
  {
    (t / unitSize + 1) * Granules(unitSize, granularity) <= WORD / 2
  }

  // ------------------------------------------------------------ gxj_range_frequency_sketch

  /** Any sequence of accesses, from a fresh sketch: the log is that of the same accesses with
      successive values of the access counter. */
  method RecordAll(s: GxjSketch, accesses: seq<ByteAccess>) returns (ghost h: seq<GxjTheorems.Access>)
    requires s.Valid() && s.log == [] && !s.doingReset
    requires forall a :: a in accesses ==> KeysFit(s.unitSize, s.granularity, a.t)
    modifies s
    ensures s.Valid() && GxjTheorems.AllTaken(s.Grid(), h) && s.log == GxjTheorems.LogOf(s.Grid(), h)
    ensures |h| == |accesses| && forall i :: 0 <= i < |h| ==>
      h[i] == s.AccessTo(accesses[i].unit, accesses[i].t, accesses[i].n, old(s.refCnt) + i + 1)
  {
    hide GxjTheorems.LogOf, GxjTheorems.BumpsOf, CounterTable.Represents;
    h := [];
    NoHistory(s.Grid());
    for i := 0 to |accesses|
      invariant s.Valid() && !s.doingReset && s.refCnt == old(s.refCnt) + i
      invariant GxjTheorems.AllTaken(s.Grid(), h) && s.log == GxjTheorems.LogOf(s.Grid(), h)
      invariant |h| == i && forall k :: 0 <= k < i ==>
        h[k] == s.AccessTo(accesses[k].unit, accesses[k].t, accesses[k].n, old(s.refCnt) + k + 1)
    {
      var a := accesses[i];
      s.RecordAccess(a.unit, a.t, a.n);
      ghost var last := s.AccessTo(a.unit, a.t, a.n, s.refCnt);
      GxjTheorems.LogLast(s.Grid(), h, last);
      h := h + [last];
    }
  }

  lemma NoHistory(g: Grid)
    ensures GxjTheorems.AllTaken(g, []) && GxjTheorems.LogOf(g, []) == []
  {}

  /** The number of accesses whose granules include i, in the block of t. */
  ghost function Covering(unitSize: nat, granularity: nat, accesses: seq<ByteAccess>, unit: nat, block: nat,
                          i: nat): nat
    requires unitSize > 0 && granularity > 0
  {
    if accesses == [] then 0
    else
      var a := accesses[|accesses| - 1];
      Covering(unitSize, granularity, accesses[..|accesses| - 1], unit, block, i)
      + (if a.unit == unit && a.t / unitSize == block
            && LeftGranule(unitSize, granularity, a.t) <= i < RightGranule(unitSize, granularity, a.t, a.n)
         then 1 else 0)
  }

  lemma {:induction false} CoveringIsCoverings(s: GxjSketch, accesses: seq<ByteAccess>, h: seq<GxjTheorems.Access>,
                                               ref: nat, unit: nat, block: nat, i: nat)
    requires s.Valid() && |h| == |accesses|
    requires forall k :: 0 <= k < |h| ==>
      h[k] == s.AccessTo(accesses[k].unit, accesses[k].t, accesses[k].n, ref + k + 1)
    ensures GxjTheorems.Coverings(h, unit, block, i) == Covering(s.unitSize, s.granularity, accesses, unit, block, i)
  {
    hide LeftGranule, RightGranule, CounterTable.Represents;
    if h != [] {
      CoveringIsCoverings(s, accesses[..|accesses| - 1], h[..|h| - 1], ref, unit, block, i);
    }
  }

  /** The number of accesses whose granules include the granule of t. */
  ghost function CoveringAt(unitSize: nat, granularity: nat, accesses: seq<ByteAccess>, unit: nat, t: nat): nat
    requires unitSize > 0 && granularity > 0
  {
    Covering(unitSize, granularity, accesses, unit, t / unitSize, LeftGranule(unitSize, granularity, t))
  }

  /** One granule from t on stays inside the unit. */
  predicate GranuleFits(unitSize: nat, granularity: nat, t: nat)
    requires unitSize > 0
  {
    t % unitSize + granularity < unitSize
  }

  /** For every hash: after any accesses to a fresh sketch, asking for one granule never returns less
      than the number of accesses that covered it, up to 15. */
  method RecordAllThenAsk(s: GxjSketch, accesses: seq<ByteAccess>, unit: nat, t: nat) returns (f: int)
    requires s.Valid() && s.log == [] && !s.doingReset
    requires forall a :: a in accesses ==> KeysFit(s.unitSize, s.granularity, a.t)
    requires KeysFit(s.unitSize, s.granularity, t) && GranuleFits(s.unitSize, s.granularity, t)
    modifies s
    ensures f >= Min(LIMIT, CoveringAt(s.unitSize, s.granularity, accesses, unit, t))
  {
    hide GxjTheorems.LogOf, GxjRange.Estimate, LeftGranule, RightGranule, CounterTable.Represents;
    ghost var ref := s.refCnt;
    ghost var h := RecordAll(s, accesses);
    f := s.Frequency(unit, t, s.granularity);
    ghost var i := LeftGranule(s.unitSize, s.granularity, t);
    NextGranule(s.unitSize, s.granularity, t);
    GxjTheorems.PointNeverUnder(s.layout, s.mixCounters, s.Grid(), h, unit, t / s.unitSize, i);
    CoveringIsCoverings(s, accesses, h, ref, unit, t / s.unitSize, i);
  }

  lemma NextGranule(unitSize: nat, granularity: nat, t: nat)
    requires unitSize > 0 && granularity > 0 && GranuleFits(unitSize, granularity, t)
    ensures RightGranule(unitSize, granularity, t, granularity) == LeftGranule(unitSize, granularity, t) + 1
  {
    var q, x := t / unitSize, t % unitSize;
    assert t == q * unitSize + x;
    DivModUnique(t + granularity, unitSize, q, x + granularity);
    var p, r := x / granularity, x % granularity;
    assert x == p * granularity + r && (p + 1) * granularity == p * granularity + granularity;
    DivModUnique(x + granularity, granularity, p + 1, r);
  }

  /** The visit with which a query for bytes [t, t + n) enters the tree. */
  ghost function QueryRoot(s: GxjSketch, t: nat, n: nat): (v: Visit)
    reads s
    requires s.Configured()
    ensures v.Valid()
    ensures v.left == LeftGranule(s.unitSize, s.granularity, t)
    ensures v.right == RightGranule(s.unitSize, s.granularity, t, n)
  {
    s.Grid().Root(LeftGranule(s.unitSize, s.granularity, t), RightGranule(s.unitSize, s.granularity, t, n))
  }

  /** The block of t, in the unit. */
  ghost function QueryBlock(s: GxjSketch, unit: nat, t: nat): Block
    reads s
    requires s.Configured()
  {
    s.Grid().BlockAt(unit, BlockIndex(s.unitSize, t))
  }

  /** The granules of bytes [t, t + n) are in order, and the counters that a query for them reads
      neither collide nor overflow. */
  ghost predicate ReadsCleanly(s: GxjSketch, unit: nat, t: nat, n: nat)
    reads s
    requires s.Configured()
  {
    var v := QueryRoot(s, t, n);
    v.left < v.right && GxjTheorems.Clean(s.layout, s.log, QueryBlock(s, unit, t), v)
  }

  /** What the accesses of a history contribute to a query: their overlaps and sampling errors. */
  ghost function Contributed(s: GxjSketch, h: seq<GxjTheorems.Access>, unit: nat, t: nat, n: nat): int
    requires s.Configured()
    reads s
  {
    var v := QueryRoot(s, t, n);
    GxjTheorems.Contributions(s.Grid(), h, unit, t / s.unitSize, v.left, v.right)
  }

  /** After any accesses to a fresh sketch, a clean query returns the exact overlaps with all of them
      plus the sampling errors of the partly covered nodes. */
  method RecordAllThenAskRange(s: GxjSketch, accesses: seq<ByteAccess>, unit: nat, t: nat, n: nat)
    returns (f: int, ghost h: seq<GxjTheorems.Access>)
    requires s.Valid() && s.log == [] && !s.doingReset
    requires forall a :: a in accesses ==> KeysFit(s.unitSize, s.granularity, a.t)
    requires KeysFit(s.unitSize, s.granularity, t)
    modifies s
    ensures s.Valid()
    ensures |h| == |accesses| && forall i :: 0 <= i < |h| ==>
      h[i] == s.AccessTo(accesses[i].unit, accesses[i].t, accesses[i].n, old(s.refCnt) + i + 1)
    ensures ReadsCleanly(s, unit, t, n) ==> f == Contributed(s, h, unit, t, n)
  {
    hide GxjTheorems.LogOf, GxjTheorems.Clean, GxjTheorems.Contributions, GxjRange.Estimate,
      LeftGranule, RightGranule, CounterTable.Represents;
    h := RecordAll(s, accesses);
    f := s.Frequency(unit, t, n);
    if ReadsCleanly(s, unit, t, n) {
      ghost var v := QueryRoot(s, t, n);
      GxjTheorems.ErrorDecomposition(s.layout, s.mixCounters, s.Grid(), h, unit, t / s.unitSize, v.left, v.right);
    }
  }

  /** The number of granules that an access and a query share, in one block. */
  ghost function Shared(s: GxjSketch, a: ByteAccess, t: nat, n: nat): nat
    reads s
    requires s.Configured()
  {
    var v, w := QueryRoot(s, a.t, a.n), QueryRoot(s, t, n);
    GxjRange.Overlap(v.left, v.right, w.left, w.right)
  }

  /** A history of accesses explains the state of the sketch. */
  ghost predicate Explains(s: GxjSketch, h: seq<GxjTheorems.Access>)
    reads s
  {
    s.Valid() && GxjTheorems.AllTaken(s.Grid(), h) && s.log == GxjTheorems.LogOf(s.Grid(), h)
  }

  /** The same access, a number of times. */
  method Repeat(s: GxjSketch, ghost h: seq<GxjTheorems.Access>, a: ByteAccess, times: nat)
    requires Explains(s, h) && !s.doingReset && KeysFit(s.unitSize, s.granularity, a.t)
    modifies s`mixCounters, s`size, s`log, s`refCnt
    ensures Explains(s, h + GxjSampler.Repeated(s.AccessTo(a.unit, a.t, a.n, old(s.refCnt)), old(s.refCnt), times))
  {
    hide GxjTheorems.LogOf, GxjTheorems.BumpsOf, GxjSampler.Repeated, CounterTable.Represents;
    ghost var ref := s.refCnt;
    ghost var access := s.AccessTo(a.unit, a.t, a.n, ref);
    GxjSampler.RepeatedNone(h, access, ref);
    for i := 0 to times
      invariant s.Valid() && !s.doingReset && s.refCnt == ref + i
      invariant Explains(s, h + GxjSampler.Repeated(access, ref, i))
    {
      s.RecordAccess(a.unit, a.t, a.n);
      ghost var soFar, last := h + GxjSampler.Repeated(access, ref, i), s.AccessTo(a.unit, a.t, a.n, s.refCnt);
      assert last == access.(ref := ref + i + 1);
      GxjTheorems.LogLast(s.Grid(), soFar, last);
      GxjSampler.RepeatedLast(h, access, ref, i);
    }
  }

  lemma PeriodRead(s: GxjSketch, t0: CounterTable.Tables, h: seq<GxjTheorems.Access>, a: ByteAccess, ref: nat,
                   times: nat, t: nat, n: nat)
    requires s.Configured()
    requires GxjTheorems.AllTaken(s.Grid(), h) && CounterTable.Represents(s.layout, t0, GxjTheorems.LogOf(s.Grid(), h))
    requires Explains(s, h + GxjSampler.Repeated(s.AccessTo(a.unit, a.t, a.n, ref), ref, times))
    requires a.t / s.unitSize == t / s.unitSize && GxjSampler.WholePeriods(times, QueryRoot(s, t, n))
    requires GxjSampler.PowerWidths(QueryRoot(s, t, n))
    requires ReadsCleanly(s, a.unit, t, n)
    ensures CounterTable.Shaped(s.layout.sizes, t0)
    ensures GxjRange.Estimate(s.layout, s.mixCounters, QueryBlock(s, a.unit, t), QueryRoot(s, t, n))
         == GxjRange.Estimate(s.layout, t0, QueryBlock(s, a.unit, t), QueryRoot(s, t, n)) + times * Shared(s, a, t, n)
  {
    hide GxjTheorems.LogOf, GxjTheorems.Clean, GxjRange.Estimate, GxjSampler.WholePeriods, GxjSampler.PowerWidths,
      GxjSampler.Repeated,
      GxjRange.Overlap, LeftGranule, RightGranule, CounterTable.Represents, Pow2, Granules;
    CounterTable.SoundShape(s.layout, t0, GxjTheorems.LogOf(s.Grid(), h));
    var v, access := QueryRoot(s, t, n), s.AccessTo(a.unit, a.t, a.n, ref);
    assert s.Grid().Takes(access.left, access.right) by { assert QueryRoot(s, a.t, a.n).Valid(); }
    GxjSampler.FullPeriod(s.layout, t0, s.mixCounters, s.Grid(), h, access, ref, times, v.left, v.right);
  }

  /** Full periods are exact on the object: between two queries, repeating one access raises the
      answer by exactly `times` times the shared granules, from any access counter, when the
      widths in the query's cover are powers of two and the second query is clean. */
  method RepeatBetweenQueries(s: GxjSketch, ghost h: seq<GxjTheorems.Access>, a: ByteAccess, times: nat, t: nat, n: nat)
    returns (before: int, after: int)
    requires Explains(s, h) && !s.doingReset
    requires KeysFit(s.unitSize, s.granularity, a.t) && KeysFit(s.unitSize, s.granularity, t)
    requires a.t / s.unitSize == t / s.unitSize && GxjSampler.WholePeriods(times, QueryRoot(s, t, n))
    requires GxjSampler.PowerWidths(QueryRoot(s, t, n))
    modifies s`mixCounters, s`size, s`log, s`refCnt
    ensures s.Valid()
    ensures ReadsCleanly(s, a.unit, t, n) ==> after == before + times * Shared(s, a, t, n)
  {
    hide GxjTheorems.LogOf, GxjTheorems.Clean, GxjRange.Estimate, GxjSampler.WholePeriods, GxjSampler.PowerWidths,
      GxjSampler.Repeated, Shared,
      LeftGranule, RightGranule, CounterTable.Represents, Pow2, Granules, ReadsCleanly;
    ghost var t0, ref := s.mixCounters, s.refCnt;
    before := s.Frequency(a.unit, t, n);
    Repeat(s, h, a, times);
    after := s.Frequency(a.unit, t, n);
    if ReadsCleanly(s, a.unit, t, n) { PeriodRead(s, t0, h, a, ref, times, t, n); }
  }

  // ------------------------------------------------------------ interval_sketch

  datatype Call = Record(a: ByteAccess) | TryReset | FinishReset | MustReset

  /** What a run of calls amounts to: the operations on the counters, size_, and doing_reset. */
  datatype Effect = Effect(ops: seq<IntervalExact.ByteOp>, size: nat, doing: bool)

  /** What interval_sketch does with a call. Records are dropped between the start of a background
      reset and its end. One reset runs at a time: a try_reset or must_reset meanwhile is left out,
      and so is the end of a reset that was never started. */
  ghost function StepOf(unitSize: nat, granularity: nat, levels: nat, capacity: int, e: Effect, c: Call): Effect
    requires Holds(unitSize, granularity, levels)
  {
    match c
    case Record(a) =>
      TouchTaken(unitSize, granularity, levels, a);
      var o := IntervalRange.AsTouch(unitSize, granularity, a);
      if e.doing then e
      else
        var bumps := IntervalRange.EventsOf(GridOf(unitSize, granularity, levels), o);
        Effect(e.ops + [IntervalExact.Kept(a)], e.size + |bumps|, false)
    case TryReset => if !e.doing && e.size >= capacity * 2 then e.(doing := true) else e
    case FinishReset => if e.doing then Effect(e.ops + [IntervalExact.Aged], e.size / 2, false) else e
    case MustReset => if e.doing then e else Effect(e.ops + [IntervalExact.Aged], e.size / 2, false)
  }

  ghost function EffectOf(unitSize: nat, granularity: nat, levels: nat, capacity: int, size: nat,
                          calls: seq<Call>): Effect
    requires Holds(unitSize, granularity, levels)
  {
    if calls == [] then Effect([], size, false)
    else
      StepOf(unitSize, granularity, levels, capacity,
             EffectOf(unitSize, granularity, levels, capacity, size, calls[..|calls| - 1]), calls[|calls| - 1])
  }

  lemma TouchTaken(unitSize: nat, granularity: nat, levels: nat, a: ByteAccess)
    requires Holds(unitSize, granularity, levels)
    ensures
      var o := IntervalRange.AsTouch(unitSize, granularity, a);
      GridOf(unitSize, granularity, levels).Takes(o.left, o.right)
  {
    hide Granules, LeftGranule, RightGranule, Pow2;
    HoldsIsValid(unitSize, granularity, levels);
  }

  ghost predicate Logged(g: Grid, log: seq<CounterTable.Event>, ops: seq<IntervalRange.Op>) {
    IntervalRange.AllTaken(g, ops) && log == IntervalRange.LogOf(g, ops)
  }

  /** One more operation in the log. */
  lemma LoggedNext(g: Grid, log: seq<CounterTable.Event>, unitSize: nat, granularity: nat,
                   h: seq<IntervalExact.ByteOp>, o: IntervalExact.ByteOp)
    requires unitSize > 0 && granularity > 0 && Logged(g, log, IntervalExact.OpsOf(unitSize, granularity, h))
    requires var op := IntervalExact.OpOf(unitSize, granularity, o); op.Touch? ==> g.Takes(op.left, op.right)
    ensures Logged(g, log + IntervalRange.EventsOf(g, IntervalExact.OpOf(unitSize, granularity, o)),
                   IntervalExact.OpsOf(unitSize, granularity, h + [o]))
  {
    hide IntervalRange.LogOf, IntervalRange.EventsOf, IntervalExact.OpsOf, IntervalExact.OpOf;
    IntervalExact.OpsLast(unitSize, granularity, h, o);
    var ops := IntervalExact.OpsOf(unitSize, granularity, h);
    IntervalRange.LogLast(g, ops, IntervalExact.OpOf(unitSize, granularity, o));
  }

  /** The sketch is in the state that the effect describes. */
  ghost predicate Shows(s: IntervalSketch, e: Effect)
    reads s
  {
    && s.Valid() && s.doingReset == e.doing && s.size == e.size
    && Logged(s.Grid(), s.log, IntervalExact.OpsOf(s.unitSize, s.granularity, e.ops))
  }

  method Perform(s: IntervalSketch, c: Call, ghost e: Effect)
    requires Shows(s, e) && (c.Record? ==> KeysFit(s.unitSize, s.granularity, c.a.t))
    modifies s
    ensures s.Valid() && s.capacity == old(s.capacity) && s.counterLevel == old(s.counterLevel)
    ensures Shows(s, StepOf(s.unitSize, s.granularity, s.counterLevel, s.capacity, e, c))
  {
    hide IntervalRange.LogOf, IntervalRange.Touched, IntervalExact.OpsOf, LeftGranule, RightGranule,
      CounterTable.Represents, Granules, Pow2;
    match c
    case Record(a) =>
      TouchTaken(s.unitSize, s.granularity, s.counterLevel, a);
      LoggedNext(s.Grid(), s.log, s.unitSize, s.granularity, e.ops, IntervalExact.Kept(a));
      s.RecordAccess(a.unit, a.t, a.n);
    case TryReset =>
      if !s.doingReset { var started := s.TryReset(); }
    case FinishReset =>
      LoggedNext(s.Grid(), s.log, s.unitSize, s.granularity, e.ops, IntervalExact.Aged);
      if s.doingReset { s.FinishReset(); }
    case MustReset =>
      LoggedNext(s.Grid(), s.log, s.unitSize, s.granularity, e.ops, IntervalExact.Aged);
      if !s.doingReset { s.Reset(); }
  }

  /** Any sequence of calls, from a fresh sketch. */
  method PerformAll(s: IntervalSketch, calls: seq<Call>)
    requires s.Valid() && s.log == [] && !s.doingReset
    requires forall c :: c in calls && c.Record? ==> KeysFit(s.unitSize, s.granularity, c.a.t)
    modifies s
    ensures s.Valid() && s.capacity == old(s.capacity) && s.counterLevel == old(s.counterLevel)
    ensures Shows(s, EffectOf(s.unitSize, s.granularity, s.counterLevel, s.capacity, old(s.size), calls))
  {
    hide StepOf, EffectOf, Logged, IntervalExact.OpsOf, CounterTable.Represents, Granules, Pow2;
    NoEffect(s.unitSize, s.granularity, s.counterLevel, s.capacity, s.size);
    NoOps(s.Grid(), s.unitSize, s.granularity);
    assert calls[..0] == [];
    for i := 0 to |calls|
      invariant s.capacity == old(s.capacity) && s.counterLevel == old(s.counterLevel) && s.Valid()
      invariant Shows(s, EffectOf(s.unitSize, s.granularity, s.counterLevel, s.capacity, old(s.size), calls[..i]))
    {
      EffectLast(s.unitSize, s.granularity, s.counterLevel, s.capacity, old(s.size), calls, i);
      Perform(s, calls[i], EffectOf(s.unitSize, s.granularity, s.counterLevel, s.capacity, old(s.size), calls[..i]));
    }
    assert calls[..|calls|] == calls;
  }

  lemma NoEffect(unitSize: nat, granularity: nat, levels: nat, capacity: int, size: nat)
    requires Holds(unitSize, granularity, levels)
    ensures EffectOf(unitSize, granularity, levels, capacity, size, []) == Effect([], size, false)
  {}

  lemma EffectLast(unitSize: nat, granularity: nat, levels: nat, capacity: int, size: nat, calls: seq<Call>, i: nat)
    requires Holds(unitSize, granularity, levels) && i < |calls|
    ensures EffectOf(unitSize, granularity, levels, capacity, size, calls[..i + 1])
         == StepOf(unitSize, granularity, levels, capacity,
                   EffectOf(unitSize, granularity, levels, capacity, size, calls[..i]), calls[i])
  {
    hide StepOf;
    assert calls[..i + 1][..i] == calls[..i];
  }

  lemma NoOps(g: Grid, unitSize: nat, granularity: nat)
    requires unitSize > 0 && granularity > 0
    ensures Logged(g, [], IntervalExact.OpsOf(unitSize, granularity, []))
  {}

  /** The sum of the exact counters of the granules of bytes [t, t + n). */
  ghost function ExactAnswer(unitSize: nat, granularity: nat, h: seq<IntervalExact.ByteOp>,
                             unit: nat, t: nat, n: nat): nat
    requires unitSize > 0 && granularity > 0
  {
    IntervalRange.GranuleSum(IntervalExact.OpsOf(unitSize, granularity, h), unit, BlockIndex(unitSize, t),
                             LeftGranule(unitSize, granularity, t), RightGranule(unitSize, granularity, t, n))
  }

  /** The visit with which a query for bytes [t, t + n) enters the tree. */
  ghost function RootOf(unitSize: nat, granularity: nat, levels: nat, t: nat, n: nat): (v: Visit)
    requires Holds(unitSize, granularity, levels)
    ensures v.Valid()
  {
    TouchTaken(unitSize, granularity, levels, ByteAccess(0, t, n));
    GridOf(unitSize, granularity, levels).Root(
      LeftGranule(unitSize, granularity, t), RightGranule(unitSize, granularity, t, n))
  }

  /** The sum, over the nodes that a query for bytes [t, t + n) covers, of the node's width times the
      capped, aged number of accesses that reach it. */
  ghost function CleanAnswer(unitSize: nat, granularity: nat, levels: nat, h: seq<IntervalExact.ByteOp>,
                             unit: nat, t: nat, n: nat): int
    requires Holds(unitSize, granularity, levels)
  {
    IntervalExact.WeightedSum(unitSize, granularity, h, unit, BlockIndex(unitSize, t),
                              Cover(RootOf(unitSize, granularity, levels, t, n)))
  }

  /** No access kept reaches a node that the query covers. */
  ghost predicate NothingReached(unitSize: nat, granularity: nat, levels: nat, h: seq<IntervalExact.ByteOp>,
                                 unit: nat, t: nat, n: nat)
    requires Holds(unitSize, granularity, levels)
  {
    IntervalExact.Untouched(unitSize, granularity, h, unit, BlockIndex(unitSize, t),
                            Cover(RootOf(unitSize, granularity, levels, t, n)))
  }

  /** No counter that the query reads is shared in all its rows. */
  ghost predicate IntervalReadsCleanly(s: IntervalSketch, unit: nat, t: nat, n: nat)
    reads s
    requires s.Configured()
  {
    IntervalExact.Clean(s.layout, s.log, s.Grid().BlockAt(unit, BlockIndex(s.unitSize, t)),
                        RootOf(s.unitSize, s.granularity, s.counterLevel, t, n))
  }

  /** For every hash: after any calls to a fresh sketch, records dropped by a running reset among them,
      a query never returns less than the sum of the exact capped, aged counters of its granules. When
      it reads cleanly it returns the sum of the node counts by width; so 0 if no access kept reaches a
      node that it covers. */
  method PerformAllThenAsk(s: IntervalSketch, calls: seq<Call>, unit: nat, t: nat, n: nat) returns (f: nat)
    requires s.Valid() && s.log == [] && !s.doingReset
    requires forall c :: c in calls && c.Record? ==> KeysFit(s.unitSize, s.granularity, c.a.t)
    requires KeysFit(s.unitSize, s.granularity, t)
    modifies s
    ensures s.Valid() && s.capacity == old(s.capacity) && s.counterLevel == old(s.counterLevel)
    ensures Shows(s, EffectOf(s.unitSize, s.granularity, s.counterLevel, s.capacity, old(s.size), calls))
    ensures
      var e := EffectOf(s.unitSize, s.granularity, s.counterLevel, s.capacity, old(s.size), calls);
      && f >= ExactAnswer(s.unitSize, s.granularity, e.ops, unit, t, n)
      && (IntervalReadsCleanly(s, unit, t, n) ==>
            f == CleanAnswer(s.unitSize, s.granularity, s.counterLevel, e.ops, unit, t, n)
            && (NothingReached(s.unitSize, s.granularity, s.counterLevel, e.ops, unit, t, n) ==> f == 0))
  {
    hide EffectOf, IntervalRange.LogOf, IntervalRange.Estimate, LeftGranule, RightGranule, CounterTable.Represents,
      IntervalExact.OpsOf, IntervalExact.Clean, IntervalExact.WeightedSum, IntervalExact.Untouched, Cover, Granules,
      Pow2;
    PerformAll(s, calls);
    ghost var h := EffectOf(s.unitSize, s.granularity, s.counterLevel, s.capacity, old(s.size), calls).ops;
    ghost var ops := IntervalExact.OpsOf(s.unitSize, s.granularity, h);
    f := s.Frequency(unit, t, n);
    ghost var v, block := RootOf(s.unitSize, s.granularity, s.counterLevel, t, n), BlockIndex(s.unitSize, t);
    if v.left < v.right {
      IntervalRange.NeverUnderestimates(s.layout, s.mixCounters, s.Grid(), ops, unit, block, v.left, v.right);
    }
    if IntervalReadsCleanly(s, unit, t, n) {
      IntervalExact.CleanQueryExact(s.layout, s.mixCounters, s.Grid(), s.unitSize, s.granularity, h, unit, block,
                                    v.left, v.right);
      if IntervalExact.Untouched(s.unitSize, s.granularity, h, unit, block, Cover(v)) {
        IntervalExact.UntouchedIsZero(s.unitSize, s.granularity, h, unit, block, Cover(v));
      }
    }
  }
}
