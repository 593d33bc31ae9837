// interval_sketch beside range_frequency_sketch: both objects, given the same accesses, are asked for
// the same bytes.
module Comparison {
  import opened Bits
  import opened PackedWord
  import opened UnitGrid
  import opened RangeFrequencySketchClass
  import opened IntervalSketchClass
  import IntervalExact
  import IntervalRange
  import SketchRuns

  /** The access, or the query, stays inside its unit and ends on a granule boundary, or its odd bytes
      reach into a further granule. */
  predicate Aligned(unitSize: nat, granularity: nat, t: nat, n: nat)
    requires unitSize > 0 && granularity > 0
  {
    && t % unitSize + n < unitSize
    && (n % granularity == 0 || t % unitSize % granularity + n % granularity >= granularity)
  }

  /** An aligned access is one that range_frequency_sketch can take, and counts no granule that
      interval_sketch does not touch. */
  lemma AlignedFits(unitSize: nat, granularity: nat, t: nat, n: nat)
    requires unitSize > 0 && granularity > 0 && Aligned(unitSize, granularity, t, n)
    ensures LeftGranule(unitSize, granularity, t) + Granules(n, granularity)
         <= RightGranule(unitSize, granularity, t, n)
    ensures LeftGranule(unitSize, granularity, t) + Granules(n, granularity) <= Granules(unitSize, granularity)
  {
    TouchesAllCounted(unitSize, granularity, ByteAccess(0, t, n));
  }

  method RecordInRange(r: RangeFrequencySketch, accesses: seq<ByteAccess>)
    requires r.Valid() && r.history == []
    requires forall a :: a in accesses ==> Aligned(r.unitSize, r.granularity, a.t, a.n)
    modifies r
    ensures r.Valid() && r.history == accesses
  {
    hide Granules, LeftGranule, RightGranule, Hits;
    assert accesses[..0] == [];
    for i := 0 to |accesses|
      invariant r.Valid() && r.history == accesses[..i]
    {
      var a := accesses[i];
      assert a in accesses;
      AlignedFits(r.unitSize, r.granularity, a.t, a.n);
      var inside := r.RecordAccess(a.unit, a.t, a.n);
      assert accesses[..i + 1] == accesses[..i] + [a];
    }
    assert accesses[..|accesses|] == accesses;
  }

  function AsCalls(accesses: seq<ByteAccess>): (calls: seq<SketchRuns.Call>)
    ensures |calls| == |accesses|
  {
    seq(|accesses|, i requires 0 <= i < |accesses| => SketchRuns.Record(accesses[i]))
  }

  /** Without resets every record counts. */
  lemma {:induction false} EffectOfRecords(unitSize: nat, granularity: nat, levels: nat, capacity: int, size: nat,
                                           accesses: seq<ByteAccess>)
    requires Holds(unitSize, granularity, levels)
    ensures
      var e := SketchRuns.EffectOf(unitSize, granularity, levels, capacity, size, AsCalls(accesses));
      IntervalExact.OpsOf(unitSize, granularity, e.ops) == AsOps(unitSize, granularity, accesses) && !e.doing
  {
    hide IntervalRange.EventsOf, IntervalRange.AsTouch, Granules;
    if accesses != [] {
      var front := accesses[..|accesses| - 1];
      assert AsCalls(accesses)[..|accesses| - 1] == AsCalls(front);
      EffectOfRecords(unitSize, granularity, levels, capacity, size, front);
      IntervalExact.OpsLast(unitSize, granularity,
                            SketchRuns.EffectOf(unitSize, granularity, levels, capacity, size, AsCalls(front)).ops,
                            IntervalExact.Kept(accesses[|accesses| - 1]));
    }
  }

  // ------------------------------------------------------------ the two sums

  lemma {:induction false} CounterSumFirst(unitSize: nat, granularity: nat, h: seq<ByteAccess>, unit: nat,
                                           l: nat, r: nat)
    requires unitSize > 0 && granularity > 0 && l < r
    ensures CounterSum(unitSize, granularity, h, unit, l, r)
         == Hits(unitSize, granularity, h, unit, l) % HALFWORD + CounterSum(unitSize, granularity, h, unit, l + 1, r)
    decreases r - l
  {
    hide Hits;
    if l + 1 < r { CounterSumFirst(unitSize, granularity, h, unit, l, r - 1); }
  }

  /** No counter of the range is above 15. */
  ghost predicate Small(unitSize: nat, granularity: nat, h: seq<ByteAccess>, unit: nat, l: nat, r: nat)
    requires unitSize > 0 && granularity > 0
  {
    forall i :: l <= i < r ==> Hits(unitSize, granularity, h, unit, i) % HALFWORD <= LIMIT
  }

  lemma {:induction false} CappedIsCounter(unitSize: nat, granularity: nat, h: seq<ByteAccess>, unit: nat,
                                           l: nat, r: nat)
    requires unitSize > 0 && granularity > 0
    ensures CappedSum(unitSize, granularity, h, unit, l, r) <= CounterSum(unitSize, granularity, h, unit, l, r)
    ensures CappedSum(unitSize, granularity, h, unit, l, r) == CounterSum(unitSize, granularity, h, unit, l, r)
       <==> Small(unitSize, granularity, h, unit, l, r)
    decreases r - l
  {
    hide Hits, CounterSum;
    if l < r {
      CounterSumFirst(unitSize, granularity, h, unit, l, r);
      CappedIsCounter(unitSize, granularity, h, unit, l + 1, r);
      var first := Hits(unitSize, granularity, h, unit, l) % HALFWORD;
      if Small(unitSize, granularity, h, unit, l + 1, r) && first <= LIMIT {
        assert Small(unitSize, granularity, h, unit, l, r);
      }
    } else {
      NoCounterSum(unitSize, granularity, h, unit, l, r);
    }
  }

  lemma NoCounterSum(unitSize: nat, granularity: nat, h: seq<ByteAccess>, unit: nat, l: nat, r: nat)
    requires unitSize > 0 && granularity > 0 && l >= r
    ensures CounterSum(unitSize, granularity, h, unit, l, r) == 0
  {}

  lemma {:induction false} CappedSumGrows(unitSize: nat, granularity: nat, h: seq<ByteAccess>, unit: nat,
                                          l: nat, m: nat, r: nat)
    requires unitSize > 0 && granularity > 0 && m <= r
    ensures CappedSum(unitSize, granularity, h, unit, l, m) <= CappedSum(unitSize, granularity, h, unit, l, r)
    decreases m - l
  {
    hide Hits;
    if l < m { CappedSumGrows(unitSize, granularity, h, unit, l + 1, m, r); }
  }

  /** The bytes of the query, as both sketches see them. */
  ghost predicate Askable(unitSize: nat, granularity: nat, accesses: seq<ByteAccess>, unit: nat, t: nat, n: nat)
    requires unitSize > 0 && granularity > 0
  {
    && n > 0 && Aligned(unitSize, granularity, t, n) && SketchRuns.KeysFit(unitSize, granularity, t)
    && (forall a :: a in accesses ==>
          Aligned(unitSize, granularity, a.t, a.n) && SketchRuns.KeysFit(unitSize, granularity, a.t))
    && (forall a :: a in accesses && a.unit == unit ==> a.t / unitSize == t / unitSize)
  }

  lemma AskableIsComparable(unitSize: nat, granularity: nat, accesses: seq<ByteAccess>, unit: nat, t: nat, n: nat)
    requires unitSize > 0 && granularity > 0 && Askable(unitSize, granularity, accesses, unit, t, n)
    ensures Comparable(unitSize, granularity, accesses, unit, t / unitSize)
  {}

  /** What interval_sketch answers, in terms of the exact counters. */
  method RecordThenAsk(s: IntervalSketch, accesses: seq<ByteAccess>, unit: nat, t: nat, n: nat) returns (f: nat)
    requires s.Valid() && s.log == [] && !s.doingReset
    requires Askable(s.unitSize, s.granularity, accesses, unit, t, n)
    modifies s
    ensures s.Valid()
    ensures
      var l := LeftGranule(s.unitSize, s.granularity, t);
      f >= CappedSum(s.unitSize, s.granularity, accesses, unit, l, l + Granules(n, s.granularity))
  {
    hide CappedSum, AsOps, Granules, LeftGranule, RightGranule, Pow2, Comparable, SketchRuns.EffectOf,
      IntervalRange.GranuleSum, IntervalRange.LogOf;
    EffectOfRecords(s.unitSize, s.granularity, s.counterLevel, s.capacity, s.size, accesses);
    f := SketchRuns.PerformAllThenAsk(s, AsCalls(accesses), unit, t, n);
    AlignedFits(s.unitSize, s.granularity, t, n);
    AskableIsComparable(s.unitSize, s.granularity, accesses, unit, t, n);
    ghost var l, e := LeftGranule(s.unitSize, s.granularity, t), RightGranule(s.unitSize, s.granularity, t, n);
    SumsDominate(s.unitSize, s.granularity, accesses, unit, t / s.unitSize, l, e);
    CappedSumGrows(s.unitSize, s.granularity, accesses, unit, l, l + Granules(n, s.granularity), e);
  }

  /** For every hash: after the same accesses, interval_sketch answers at least the sum of
      range_frequency_sketch's counters, each cut at 15; so it never answers less than
      range_frequency_sketch as long as none of these is above 15. Accesses of the unit asked for are
      in one block, because range_frequency_sketch does not tell blocks apart. */
  method RecordBothThenAsk(s: IntervalSketch, r: RangeFrequencySketch, accesses: seq<ByteAccess>, unit: nat,
                           t: nat, n: nat)
    returns (fs: nat, fr: nat)
    requires s.Valid() && s.log == [] && !s.doingReset && r.Valid() && r.history == []
    requires r.unitSize == s.unitSize && r.granularity == s.granularity
    requires Askable(s.unitSize, s.granularity, accesses, unit, t, n)
    modifies s, r
    ensures s.unitSize > 0 && s.granularity > 0
    ensures
      var l := LeftGranule(s.unitSize, s.granularity, t);
      var m := l + Granules(n, s.granularity);
      && fr == CounterSum(s.unitSize, s.granularity, accesses, unit, l, m)
      && fs >= CappedSum(s.unitSize, s.granularity, accesses, unit, l, m)
      && (Small(s.unitSize, s.granularity, accesses, unit, l, m) ==> fs >= fr)
  {
    hide CounterSum, CappedSum, Hits, Granules, LeftGranule, Small, IntervalSketch.Valid;
    fs := RecordThenAsk(s, accesses, unit, t, n);
    RecordInRange(r, accesses);
    AlignedFits(s.unitSize, s.granularity, t, n);
    var inside;
    fr, inside := r.Frequency(unit, t, n);
    ghost var l := LeftGranule(s.unitSize, s.granularity, t);
    CappedIsCounter(s.unitSize, s.granularity, accesses, unit, l, l + Granules(n, s.granularity));
  }
}
