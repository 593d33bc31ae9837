// interval_sketch: the class with its tables, size_ and ref_cnt_ updated in place. It differs
// from GxjSketch in what an access bumps and in what a query reads.
module IntervalSketchClass {
  import opened Bits
  import opened PackedWord
  import opened CounterTable
  import opened RangeTree
  import opened UnitGrid
  import opened IntervalRange
  import IntervalExact

  class IntervalSketch {
    const granularity: nat
    const unitSize: nat
    const hash: (nat, int) -> nat
    const index: (nat, nat, nat) -> nat

    var mixCounters: Tables
    var layout: Layout  // hash, index and the sizes of mixCounters
    var counterLevel: nat
    var size: nat
    var refCnt: nat
    var capacity: int
    var doingReset: bool
    ghost var log: seq<Event>

    /** The reserved levels hold the object's own unit, so that the tree theorems apply (HoldsIsValid),
        and row indices are in range. */
    ghost predicate Configured()
      reads this
    {
      && Holds(unitSize, granularity, counterLevel)
      && Grid().Valid()
      && InRange(index)
    }

    ghost predicate Valid()
      reads this
    {
      && Configured()
      && counterLevel == |layout.sizes|
      && !layout.quarters
      && Represents(layout, mixCounters, log)
    }

    function Grid(): Grid
      reads this`counterLevel
      requires granularity > 0
    {
      GridOf(unitSize, granularity, counterLevel)
    }

    /** The constructor allocates through change_capacity; where that throws there is no object to use,
        and the fields stay empty. */
    constructor (capacity: int, granularity: nat, unitSize: nat, hash: (nat, int) -> nat, index: (nat, nat, nat) -> nat)
      requires granularity > 0 && capacity <= INT_MAX && InRange(index)
      ensures this.granularity == granularity && this.unitSize == unitSize
      ensures this.hash == hash && this.index == index
      ensures !doingReset && log == [] && size == 0 && refCnt == 0
      ensures Valid() <==>
        && 0 < capacity <= WORD / 4 && Fits(unitSize, granularity)
        && Levels(unitSize, granularity) <= CeilLog2(capacity) + 1
      ensures Valid() ==> this.capacity == capacity && counterLevel == Levels(unitSize, granularity)
    {
      this.granularity, this.unitSize, this.hash, this.index := granularity, unitSize, hash, index;
      mixCounters, layout, counterLevel := [], Layout(hash, index, false, []), 0;
      size, refCnt, this.capacity, doingReset := 0, 0, 0, false;
      log := [];
      new;
      hide Fits, Holds, Levels;
      var r := ChangeCapacity(capacity, granularity, unitSize);
      FitsIsHeld(unitSize, granularity);
    }

    /** change_capacity: it throws on n <= 0, and on a table size that becomes negative as an int.
        Afterwards every counter is zero. The levels are those of the arguments, while records and
        queries go by the object's own granularity and unit size: it is usable exactly when these levels
        hold its own unit and the tables are large enough for none of them to be empty. */
    method ChangeCapacity(n: int, granularity: nat, unitSize: nat) returns (r: Sizing)
      requires granularity > 0 && this.granularity > 0 && n <= INT_MAX && InRange(index)
      modifies this`mixCounters, this`layout, this`counterLevel, this`size, this`refCnt, this`capacity, this`log
      ensures r.InvalidArgument? <==> n <= 0
      ensures r.InvalidArgument? ==> unchanged(this)
      ensures r.TooLong? <==> n > WORD / 4 && Levels(unitSize, granularity) > 0
      ensures r.TooLong? ==>
        mixCounters == [] && log == [] && !Valid()
        && size == old(size) && refCnt == old(refCnt) && capacity == old(capacity)
      ensures r.Sized? ==>
        counterLevel == Levels(unitSize, granularity) && log == [] && size == 0 && refCnt == 0 && capacity == n
      ensures r.Sized? ==>
        (Valid() <==>
           && n <= WORD / 4 && counterLevel <= CeilLog2(n) + 1
           && Holds(this.unitSize, this.granularity, counterLevel))
    {
      hide LevelsOf, Log2, RoundedUp, Holds, AsUint32;
      if n <= 0 { return InvalidArgument; }
      var quotient := NearestPowerOfTwo(AsUint32(unitSize / granularity));
      counterLevel := LevelsOf(quotient);
      mixCounters, layout, log := [], Layout(hash, index, false, []), [];
      var tableSize := NearestPowerOfTwo(n);
      if tableSize > INT_MAX && counterLevel > 0 {
        LargeRoundsUp(n);
        return TooLong;
      }
      var t, sizes := FreshTables(tableSize, counterLevel);
      mixCounters, layout := t, Layout(hash, index, false, sizes);
      size, refCnt, capacity := 0, 0, n;
      LargeRoundsUp(n);
      TablesNotEmpty(CeilLog2(n), counterLevel, sizes);
      FreshRepresents(layout, mixCounters);
      if Holds(this.unitSize, this.granularity, counterLevel) {
        HoldsIsValid(this.unitSize, this.granularity, counterLevel);
      }
      NoLevels(this.unitSize, this.granularity);
      return Sized;
    }

    // -------------------------------------------------------------- recording

    method IncDyadicCnt(ghost b: Block, ghost v: Visit, unit: nat, base: nat, start: nat, level: nat)
      requires Valid() && v.Valid() && level < counterLevel
      requires b == Block(unit, base) && start == v.start && level == v.level
      modifies this`mixCounters, this`size, this`log
      ensures Valid() && log == old(log) + [Bump(b.DyadicKey(v))] && size == old(size) + 1
      ensures layout == old(layout) && (SameCounters(layout.sizes, old(mixCounters), mixCounters)
                                        <==> RowMin(layout, old(mixCounters), b.DyadicKey(v)) == LIMIT)
    {
      hide Represents, RowMin, SameCounters, Holds, Pow2, Granules;
      var wasAdded;
      SoundShape(layout, mixCounters, log);
      mixCounters, wasAdded := Raise(layout, mixCounters, Key(level, unit, base + start, false), log);
      log := log + [Bump(Key(level, unit, base + start, false))];
      SoundShape(layout, mixCounters, log);
      if wasAdded { size := size + 1; }
    }

    /** inner_record_access: the node is bumped whether or not it is fully covered, and the
        recursion goes on down to single granules. */
    method InnerRecordAccess(unit: nat, base: nat, left: nat, right: nat, start: nat, end: nat, upperLevel: nat)
      requires Valid() && 0 < upperLevel <= counterLevel
      requires Visit(left, right, start, end, upperLevel - 1).Valid()
      modifies this`mixCounters, this`size, this`log
      ensures Valid()
      ensures log == old(log) + Touched(Block(unit, base), Visit(left, right, start, end, upperLevel - 1))
      ensures size == old(size) + |Touched(Block(unit, base), Visit(left, right, start, end, upperLevel - 1))|
      decreases end - start
    {
      hide Valid, Pow2, SameCounters, RowMin, Shaped, Touched, Visit.Left, Visit.Right;
      ghost var b, v := Block(unit, base), Visit(left, right, start, end, upperLevel - 1);
      ghost var x, y := TouchedParts(b, v);
      IncDyadicCnt(b, v, unit, base, start, upperLevel - 1);
      if start == end - 1 { return; }
      var mid := start + (end - start) / 2;
      WideCalls(left, right, start, end, upperLevel - 1, v, mid);
      if mid > left { InnerRecordAccess(unit, base, left, Min(mid, right), start, mid, upperLevel - 1); }
      assert log == old(log) + [Bump(b.DyadicKey(v))] + x;
      if mid < right { InnerRecordAccess(unit, base, Max(left, mid), right, mid, end, upperLevel - 1); }
      Regroup(old(log), [Bump(b.DyadicKey(v))], x, y);
    }

    /** The operation that record_access performs for bytes [t, t + n). */
    function TouchOf(unit: nat, t: nat, n: nat): Op
      requires granularity > 0 && unitSize > 0
    {
      AsTouch(unitSize, granularity, ByteAccess(unit, t, n))
    }

    /** record_access: dropped while a reset runs; otherwise it bumps each tree node that it reaches, once.
        Keys must fit an int. */
    method RecordAccess(unit: nat, t: nat, n: nat)
      requires Valid()
      requires (t / unitSize + 1) * Granules(unitSize, granularity) <= WORD / 2
      modifies this`mixCounters, this`size, this`log, this`refCnt
      ensures Valid()
      ensures doingReset ==> unchanged(this)
      ensures !doingReset ==>
        && refCnt == old(refCnt) + 1
        && Grid().Takes(TouchOf(unit, t, n).left, TouchOf(unit, t, n).right)
        && log == old(log) + EventsOf(Grid(), TouchOf(unit, t, n))
        && size == old(size) + |EventsOf(Grid(), TouchOf(unit, t, n))|
        && log[..|old(log)|] == old(log)
        && IntervalExact.OnePerNode(Grid(), unitSize, granularity, ByteAccess(unit, t, n), log[|old(log)|..])
    {
      hide IntervalExact.OnePerNode, Granules, LeftGranule, RightGranule, Represents, Touched;
      if doingReset { return; }
      var left := LeftGranule(unitSize, granularity, t);
      var right := RightGranule(unitSize, granularity, t, n);
      var end := Granules(unitSize, granularity);
      var base := Times(t / unitSize, end);
      refCnt := refCnt + 1;
      InnerRecordAccess(unit, base, left, right, 0, end, counterLevel);
      IntervalExact.AccessBumpsReached(Grid(), unitSize, granularity, ByteAccess(unit, t, n));
      assert log[|old(log)|..] == EventsOf(Grid(), TouchOf(unit, t, n));
    }

    // -------------------------------------------------------------- querying

    /** get_dyadic_cnt. */
    method GetDyadicCnt(unit: nat, base: nat, start: nat, end: nat, level: nat) returns (n: nat)
      requires Valid() && level < counterLevel && start <= end
      ensures n == Times(RowMin(layout, mixCounters, Key(level, unit, base + start, false)), end - start)
    {
      hide RowMin;
      var range := end - start;
      var frequency := MinCount(layout, mixCounters, Key(level, unit, base + start, false));
      n := Times(frequency, range);
    }

    lemma QueryStep(b: Block, v: Visit)
      requires Valid() && v.Valid() && v.level < counterLevel
      ensures layout.Sound() && Shaped(layout.sizes, mixCounters) && v.level < |layout.sizes|
      ensures v.Exact() ==>
        Estimate(layout, mixCounters, b, v) == Times(RowMin(layout, mixCounters, b.DyadicKey(v)), v.end - v.start)
      ensures !v.Exact() ==>
        Estimate(layout, mixCounters, b, v)
        == (if v.GoesLeft() then Estimate(layout, mixCounters, b, v.Left()) else 0)
           + (if v.GoesRight() then Estimate(layout, mixCounters, b, v.Right()) else 0)
    {
      hide RowMin, Estimate, Represents, Shaped, Layout.Sound, Holds, Pow2, Granules;
      SoundShape(layout, mixCounters, log);
      EstimateStep(layout, mixCounters, b, v);
    }

    /** inner_frequency. */
    method InnerFrequency(unit: nat, base: nat, left: nat, right: nat, start: nat, end: nat, upperLevel: nat)
      returns (sum: nat)
      requires Valid() && 0 < upperLevel <= counterLevel
      requires Visit(left, right, start, end, upperLevel - 1).Valid()
      ensures sum == Estimate(layout, mixCounters, Block(unit, base), Visit(left, right, start, end, upperLevel - 1))
      decreases end - start
    {
      hide Valid, Pow2, RowMin, Estimate, Times, Shaped, Layout.Sound, Visit.GoesLeft, Visit.GoesRight, Visit.Left,
        Visit.Right;
      ghost var b, v := Block(unit, base), Visit(left, right, start, end, upperLevel - 1);
      QueryStep(b, v);
      sum := 0;
      if left == start && right == end {
        sum := GetDyadicCnt(unit, base, start, end, upperLevel - 1);
        return;
      }
      var mid := start + (end - start) / 2;
      Calls(left, right, start, end, upperLevel - 1, v, mid);
      if mid > left {
        var part := InnerFrequency(unit, base, left, Min(mid, right), start, mid, upperLevel - 1);
        sum := sum + part;
      }
      if mid < right {
        var part := InnerFrequency(unit, base, Max(left, mid), right, mid, end, upperLevel - 1);
        sum := sum + part;
      }
    }

    /** frequency: the estimate that the theorems speak of, for the granules of bytes [t, t + n).
        A query that reaches the end of its unit finds nothing. */
    method Frequency(unit: nat, t: nat, n: nat) returns (sum: nat)
      requires Valid()
      requires (t / unitSize + 1) * Granules(unitSize, granularity) <= WORD / 2
      ensures
        var l, r := LeftGranule(unitSize, granularity, t), RightGranule(unitSize, granularity, t, n);
        && sum == Estimate(layout, mixCounters, Grid().BlockAt(unit, t / unitSize), Grid().Root(l, r))
        && (l >= r ==> sum == 0)
    {
      hide Granules, LeftGranule, RightGranule, Represents, Estimate;
      var left := LeftGranule(unitSize, granularity, t);
      var right := RightGranule(unitSize, granularity, t, n);
      var end := Granules(unitSize, granularity);
      var base := Times(t / unitSize, end);
      sum := InnerFrequency(unit, base, left, right, 0, end, counterLevel);
      SoundShape(layout, mixCounters, log);
      if left >= right { WrappedEstimate(layout, mixCounters, Block(unit, base), Grid().Root(left, right)); }
    }

    // -------------------------------------------------------------- aging

    /** reset: every counter of every level is halved, and so are size_ and ref_cnt_. */
    method Reset()
      requires Valid()
      modifies this`mixCounters, this`size, this`log, this`refCnt
      ensures Valid() && log == old(log) + [Halve]
      ensures size == old(size) / 2 && refCnt == old(refCnt) / 2
      ensures PartlyHalved(layout.sizes, old(mixCounters), |mixCounters|, 0, mixCounters)
    {
      mixCounters := HalveAll(layout, mixCounters, log);
      log := log + [Halve];
      size := size / 2;
      refCnt := refCnt / 2;
    }

    /** try_reset up to the start of the background thread. It starts one even while another runs. */
    method TryReset() returns (started: bool)
      requires Valid()
      modifies this`doingReset
      ensures Valid() && (started <==> size >= capacity * 2) && doingReset == (started || old(doingReset))
    {
      if size >= capacity * 2 {
        doingReset := true;
        return true;
      }
      return false;
    }

    /** The body of the background thread. */
    method FinishReset()
      requires Valid() && doingReset
      modifies this`mixCounters, this`size, this`log, this`refCnt, this`doingReset
      ensures Valid() && !doingReset && log == old(log) + [Halve]
      ensures size == old(size) / 2 && refCnt == old(refCnt) / 2
    {
      Reset();
      doingReset := false;
    }
  }
}
