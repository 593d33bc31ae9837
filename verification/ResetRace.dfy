// Queries that run while the background thread of try_reset halves the tables word by word.
// One reset is in flight and records are dropped meanwhile, so the only writer is the reset; each
// counter read of the query may happen at any moment of it.
module ResetRace {
  import opened Bits
  import opened PackedWord
  import opened CounterTable
  import opened RangeTree
  import opened UnitGrid
  import GxjRange
  import IntervalRange

  /** The reset loop's position: the next word to halve. */
  datatype Position = Position(level: nat, x: nat)

  /** One atomic step of the run: nothing is written, the next word is halved, or the loop moves
      on to the next level. */
  ghost predicate Step(t: Tables, p: Position, t': Tables, p': Position) {
    || (t' == t && p' == p)
    || (p.level < |t| && p.x < |t[p.level]|
        && (var table: seq<nat> := t[p.level][p.x := Halved(t[p.level][p.x])];
            t' == t[p.level := table] && p' == Position(p.level, p.x + 1)))
    || (p.level < |t| && p.x == |t[p.level]| && t' == t && p' == Position(p.level + 1, 0))
  }

  /** The successive contents of the tables, from before the reset's first step. */
  ghost predicate ResetRun(run: seq<Tables>, at: seq<Position>) {
    && |run| == |at| > 0 && at[0] == Position(0, 0)
    && forall i :: 0 <= i < |run| - 1 ==> Step(run[i], at[i], run[i + 1], at[i + 1])
  }

  /** At every moment of a run, exactly the words before the position are halved. */
  lemma {:induction false} RunIsPartlyHalved(sizes: seq<nat>, run: seq<Tables>, at: seq<Position>, i: nat)
    requires ResetRun(run, at) && i < |run| && Shaped(sizes, run[0])
    ensures PartlyHalved(sizes, run[0], at[i].level, at[i].x, run[i])
  {
    hide Halved;
    if i > 0 {
      RunIsPartlyHalved(sizes, run, at, i - 1);
      var t, p := run[i - 1], at[i - 1];
      assert Step(run[i - 1], at[i - 1], run[i - 1 + 1], at[i - 1 + 1]);
      if p.level < |t| && p.x < |t[p.level]| { StaysWord(t[p.level][p.x], 0, 0); }
    }
  }

  /** The loop's position stays inside the tables. */
  ghost predicate InLoop(t: Tables, p: Position) {
    p.level <= |t| && (p.level < |t| ==> p.x <= |t[p.level]|)
  }

  lemma {:induction false} StaysInLoop(run: seq<Tables>, at: seq<Position>, i: nat)
    requires ResetRun(run, at) && i < |run|
    ensures InLoop(run[i], at[i])
  {
    hide Halved;
    if i > 0 {
      StaysInLoop(run, at, i - 1);
      assert Step(run[i - 1], at[i - 1], run[i - 1 + 1], at[i - 1 + 1]);
    }
  }

  lemma {:induction false} GoOn(run: seq<Tables>, at: seq<Position>) returns (run': seq<Tables>, at': seq<Position>)
    requires ResetRun(run, at) && InLoop(run[|run| - 1], at[|at| - 1])
    ensures ResetRun(run', at') && run <= run' && at <= at' && at'[|at'| - 1].level == |run'[|run'| - 1]|
    decreases
      |run[|run| - 1]| - at[|at| - 1].level,
      if at[|at| - 1].level < |run[|run| - 1]| then |run[|run| - 1][at[|at| - 1].level]| - at[|at| - 1].x else 0
  {
    hide Halved;
    var t, p := run[|run| - 1], at[|at| - 1];
    run', at' := run, at;
    if p.level < |t| {
      if p.x < |t[p.level]| {
        var table: seq<nat> := t[p.level][p.x := Halved(t[p.level][p.x])];
        run', at' := GoOn(run + [t[p.level := table]], at + [Position(p.level, p.x + 1)]);
      } else {
        run', at' := GoOn(run + [t], at + [Position(p.level + 1, 0)]);
      }
    }
  }

  /** Every run of the reset can go on until all tables are halved. */
  lemma CanFinish(sizes: seq<nat>, run: seq<Tables>, at: seq<Position>)
    returns (run': seq<Tables>, at': seq<Position>)
    requires ResetRun(run, at) && Shaped(sizes, run[0])
    ensures ResetRun(run', at') && run <= run' && at <= at'
    ensures PartlyHalved(sizes, run[0], |run[0]|, 0, run'[|run'| - 1])
  {
    hide Step, PartlyHalved;
    StaysInLoop(run, at, |run| - 1);
    run', at' := GoOn(run, at);
    RunIsPartlyHalved(sizes, run', at', |run'| - 1);
    PastEnd(sizes, run[0], at'[|at'| - 1], run'[|run'| - 1]);
  }

  lemma PastEnd(sizes: seq<nat>, t: Tables, p: Position, t': Tables)
    requires Shaped(sizes, t) && PartlyHalved(sizes, t, p.level, p.x, t') && p.level == |t'|
    ensures PartlyHalved(sizes, t, |t|, 0, t')
  {
    hide Halved;
  }

  /** Reading k's counter of the given row at some moment sees its old value or half of it. */
  lemma MomentRead(lay: Layout, run: seq<Tables>, at: seq<Position>, i: nat, k: Key, row: nat)
    requires lay.Sound() && ResetRun(run, at) && i < |run| && Shaped(lay.sizes, run[0])
    requires k.level < |lay.sizes| && row < 4
    ensures Shaped(lay.sizes, run[i])
    ensures ReadRow(lay, run[0], k, row) / 2 <= ReadRow(lay, run[i], k, row) <= ReadRow(lay, run[0], k, row)
  {
    RunIsPartlyHalved(lay.sizes, run, at, i);
    HalvedReads(lay, run[0], at[i].level, at[i].x, run[i]);
    assert HasCell(lay.sizes, lay.Place(k, row));
  }

  /** An interleaving: the moment of the run at which each counter is read. */
  ghost predicate Interleaving(time: (Key, nat) -> nat, run: seq<Tables>) {
    forall k, row :: time(k, row) < |run|
  }

  ghost predicate Racing(lay: Layout, run: seq<Tables>, at: seq<Position>, time: (Key, nat) -> nat) {
    lay.Sound() && ResetRun(run, at) && Shaped(lay.sizes, run[0]) && Interleaving(time, run)
  }

  ghost function RacedRow(lay: Layout, run: seq<Tables>, at: seq<Position>, time: (Key, nat) -> nat, k: Key,
                          row: nat): nat
    requires Racing(lay, run, at, time) && k.level < |lay.sizes| && row < 4
  {
    MomentRead(lay, run, at, time(k, row), k, row);
    ReadRow(lay, run[time(k, row)], k, row)
  }

  ghost function RacedMin(lay: Layout, run: seq<Tables>, at: seq<Position>, time: (Key, nat) -> nat, k: Key): nat
    requires Racing(lay, run, at, time) && k.level < |lay.sizes|
  {
    Min(Min(RacedRow(lay, run, at, time, k, 0), RacedRow(lay, run, at, time, k, 1)),
        Min(RacedRow(lay, run, at, time, k, 2), RacedRow(lay, run, at, time, k, 3)))
  }

  /** A raced row minimum lies between half the old minimum and the old minimum. */
  lemma RacedMinBetween(lay: Layout, run: seq<Tables>, at: seq<Position>, time: (Key, nat) -> nat, k: Key)
    requires Racing(lay, run, at, time) && k.level < |lay.sizes|
    ensures RowMin(lay, run[0], k) / 2 <= RacedMin(lay, run, at, time, k) <= RowMin(lay, run[0], k)
  {
    hide ReadRow, ResetRun, Shaped;
    MomentRead(lay, run, at, time(k, 0), k, 0);
    MomentRead(lay, run, at, time(k, 1), k, 1);
    MomentRead(lay, run, at, time(k, 2), k, 2);
    MomentRead(lay, run, at, time(k, 3), k, 3);
  }

  /** After the whole reset every row minimum is half the old one. */
  lemma ResetMin(lay: Layout, t: Tables, t': Tables, k: Key)
    requires lay.Sound() && Shaped(lay.sizes, t) && k.level < |lay.sizes|
    requires PartlyHalved(lay.sizes, t, |t|, 0, t')
    ensures RowMin(lay, t', k) == RowMin(lay, t, k) / 2
  {
    HalvedReads(lay, t, |t|, 0, t');
    forall row | 0 <= row < 4 ensures ReadRow(lay, t', k, row) == ReadRow(lay, t, k, row) / 2 {
      assert HasCell(lay.sizes, lay.Place(k, row));
    }
    hide ReadRow, PartlyHalved, Shaped, ReadCell;
  }

  lemma MinAtMoment(lay: Layout, run: seq<Tables>, at: seq<Position>, time: (Key, nat) -> nat, i: nat, k: Key)
    requires Racing(lay, run, at, time) && i < |run| && (forall k, row :: time(k, row) == i)
    requires k.level < |lay.sizes|
    ensures Shaped(lay.sizes, run[i])
    ensures RacedMin(lay, run, at, time, k) == RowMin(lay, run[i], k)
  {
    MomentRead(lay, run, at, i, k, 0);
    hide ReadRow, ResetRun, Shaped;
  }

  // ------------------------------------------------------------ gxj_range_frequency_sketch

  /** inner_frequency with each counter read at its own moment. */
  ghost function RacedGxj(lay: Layout, run: seq<Tables>, at: seq<Position>, time: (Key, nat) -> nat, b: Block,
                          v: Visit): int
    requires Racing(lay, run, at, time) && v.Valid() && v.level < |lay.sizes|
    decreases v.Width()
  {
    Times(RacedMin(lay, run, at, time, b.LazyKey(v)), v.right - v.left)
    + (if v.Exact() then Times(RacedMin(lay, run, at, time, b.DyadicKey(v)), v.Width())
       else (if v.GoesLeft() then RacedGxj(lay, run, at, time, b, v.Left()) else 0)
            + (if v.GoesRight() then RacedGxj(lay, run, at, time, b, v.Right()) else 0))
  }

  lemma RacedGxjStep(lay: Layout, run: seq<Tables>, at: seq<Position>, time: (Key, nat) -> nat, b: Block, v: Visit)
    requires Racing(lay, run, at, time) && v.Valid() && v.level < |lay.sizes|
    ensures v.Exact() ==>
      RacedGxj(lay, run, at, time, b, v)
      == RacedMin(lay, run, at, time, b.LazyKey(v)) * v.Width()
         + RacedMin(lay, run, at, time, b.DyadicKey(v)) * v.Width()
    ensures !v.Exact() ==>
      RacedGxj(lay, run, at, time, b, v)
      == RacedMin(lay, run, at, time, b.LazyKey(v)) * (v.right - v.left)
         + (if v.GoesLeft() then RacedGxj(lay, run, at, time, b, v.Left()) else 0)
         + (if v.GoesRight() then RacedGxj(lay, run, at, time, b, v.Right()) else 0)
  {
    hide RacedMin, Racing;
  }

  /** The three readings of one counter, scaled by n: after the reset, during it, before it. */
  lemma ScaledBetween(lay: Layout, run: seq<Tables>, at: seq<Position>, time: (Key, nat) -> nat, done: Tables,
                      k: Key, n: nat)
    requires Racing(lay, run, at, time) && PartlyHalved(lay.sizes, run[0], |run[0]|, 0, done) && k.level < |lay.sizes|
    ensures RowMin(lay, done, k) * n <= RacedMin(lay, run, at, time, k) * n <= RowMin(lay, run[0], k) * n
  {
    RacedMinBetween(lay, run, at, time, k);
    ResetMin(lay, run[0], done, k);
    hide RowMin, RacedMin;
    MulMonotone(RowMin(lay, done, k), RacedMin(lay, run, at, time, k), n);
    MulMonotone(RacedMin(lay, run, at, time, k), RowMin(lay, run[0], k), n);
  }

  /** Whatever the interleaving, a query of gxj_range_frequency_sketch returns a value between
      that of the fully reset tables and that of the tables before the reset. */
  lemma {:induction false} GxjQueryBetween(lay: Layout, run: seq<Tables>, at: seq<Position>, time: (Key, nat) -> nat,
                                           done: Tables, b: Block, v: Visit)
    requires Racing(lay, run, at, time) && PartlyHalved(lay.sizes, run[0], |run[0]|, 0, done)
    requires v.Valid() && v.left < v.right && v.level < |lay.sizes|
    ensures GxjRange.Estimate(lay, done, b, v) <= RacedGxj(lay, run, at, time, b, v)
         <= GxjRange.Estimate(lay, run[0], b, v)
    decreases v.Width()
  {
    hide RowMin, RacedMin, RacedGxj, GxjRange.Estimate, Step, Interleaving, Layout.Sound;
    RacedGxjStep(lay, run, at, time, b, v);
    GxjRange.EstimateStep(lay, done, b, v);
    GxjRange.EstimateStep(lay, run[0], b, v);
    ScaledBetween(lay, run, at, time, done, b.LazyKey(v), v.right - v.left);
    ScaledBetween(lay, run, at, time, done, b.DyadicKey(v), v.Width());
    if v.GoesLeft() { GxjQueryBetween(lay, run, at, time, done, b, v.Left()); }
    if v.GoesRight() { GxjQueryBetween(lay, run, at, time, done, b, v.Right()); }
  }

  /** A query whose reads all fall at one moment is the query on the tables of that moment. */
  lemma {:induction false} GxjQueryAtMoment(lay: Layout, run: seq<Tables>, at: seq<Position>,
                                            time: (Key, nat) -> nat, i: nat, b: Block, v: Visit)
    requires Racing(lay, run, at, time) && i < |run| && (forall k, row :: time(k, row) == i)
    requires v.Valid() && v.level < |lay.sizes|
    ensures Shaped(lay.sizes, run[i])
    ensures RacedGxj(lay, run, at, time, b, v) == GxjRange.Estimate(lay, run[i], b, v)
    decreases v.Width()
  {
    hide RowMin, RacedMin, RacedGxj, GxjRange.Estimate, Step, Layout.Sound;
    MomentRead(lay, run, at, i, b.LazyKey(v), 0);
    RacedGxjStep(lay, run, at, time, b, v);
    GxjRange.EstimateStep(lay, run[i], b, v);
    MinAtMoment(lay, run, at, time, i, b.LazyKey(v));
    MinAtMoment(lay, run, at, time, i, b.DyadicKey(v));
    if v.GoesLeft() { GxjQueryAtMoment(lay, run, at, time, i, b, v.Left()); }
    if v.GoesRight() { GxjQueryAtMoment(lay, run, at, time, i, b, v.Right()); }
  }

  // ------------------------------------------------------------ interval_sketch

  ghost function RacedInterval(lay: Layout, run: seq<Tables>, at: seq<Position>, time: (Key, nat) -> nat,
                               b: Block, v: Visit): int
    requires Racing(lay, run, at, time) && v.Valid() && v.level < |lay.sizes|
    decreases v.Width()
  {
    if v.Exact() then Times(RacedMin(lay, run, at, time, b.DyadicKey(v)), v.Width())
    else
      (if v.GoesLeft() then RacedInterval(lay, run, at, time, b, v.Left()) else 0)
      + (if v.GoesRight() then RacedInterval(lay, run, at, time, b, v.Right()) else 0)
  }

  lemma RacedIntervalStep(lay: Layout, run: seq<Tables>, at: seq<Position>, time: (Key, nat) -> nat, b: Block, v: Visit)
    requires Racing(lay, run, at, time) && v.Valid() && v.level < |lay.sizes|
    ensures v.Exact() ==>
      RacedInterval(lay, run, at, time, b, v) == RacedMin(lay, run, at, time, b.DyadicKey(v)) * v.Width()
    ensures !v.Exact() ==>
      RacedInterval(lay, run, at, time, b, v)
      == (if v.GoesLeft() then RacedInterval(lay, run, at, time, b, v.Left()) else 0)
         + (if v.GoesRight() then RacedInterval(lay, run, at, time, b, v.Right()) else 0)
  {
    hide RacedMin, Racing;
  }

  lemma Doubled(h: nat, n: nat)
    ensures (2 * h) * n == 2 * (h * n)
    ensures (2 * h + 1) * n == 2 * (h * n) + n
  {}

  /** Halving a counter of weight n loses at most n from twice its half. */
  lemma ScaledHalf(lay: Layout, t: Tables, done: Tables, k: Key, n: nat)
    requires lay.Sound() && Shaped(lay.sizes, t) && PartlyHalved(lay.sizes, t, |t|, 0, done) && k.level < |lay.sizes|
    ensures 2 * (RowMin(lay, done, k) * n) <= RowMin(lay, t, k) * n <= 2 * (RowMin(lay, done, k) * n) + n
  {
    ResetMin(lay, t, done, k);
    hide RowMin;
    var h, c := RowMin(lay, done, k), RowMin(lay, t, k);
    MulMonotone(2 * h, c, n);
    MulMonotone(c, 2 * h + 1, n);
    Doubled(h, n);
  }

  /** A query of interval_sketch lies in the same bounds, and those are close: the reset value is
      half the old one up to half the number of granules. */
  lemma {:induction false} IntervalQueryBetween(lay: Layout, run: seq<Tables>, at: seq<Position>,
                                                time: (Key, nat) -> nat, done: Tables, b: Block, v: Visit)
    requires Racing(lay, run, at, time) && PartlyHalved(lay.sizes, run[0], |run[0]|, 0, done)
    requires v.Valid() && v.left < v.right && v.level < |lay.sizes|
    ensures
      var after, before := IntervalRange.Estimate(lay, done, b, v), IntervalRange.Estimate(lay, run[0], b, v);
      && after <= RacedInterval(lay, run, at, time, b, v) <= before
      && 2 * after <= before <= 2 * after + (v.right - v.left)
    decreases v.Width()
  {
    hide RowMin, RacedMin, RacedInterval, IntervalRange.Estimate, Step, Interleaving, Layout.Sound;
    RacedIntervalStep(lay, run, at, time, b, v);
    IntervalRange.EstimateStep(lay, done, b, v);
    IntervalRange.EstimateStep(lay, run[0], b, v);
    ScaledBetween(lay, run, at, time, done, b.DyadicKey(v), v.Width());
    ScaledHalf(lay, run[0], done, b.DyadicKey(v), v.Width());
    if v.GoesLeft() { IntervalQueryBetween(lay, run, at, time, done, b, v.Left()); }
    if v.GoesRight() { IntervalQueryBetween(lay, run, at, time, done, b, v.Right()); }
  }

  lemma {:induction false} IntervalQueryAtMoment(lay: Layout, run: seq<Tables>, at: seq<Position>,
                                                 time: (Key, nat) -> nat, i: nat, b: Block, v: Visit)
    requires Racing(lay, run, at, time) && i < |run| && (forall k, row :: time(k, row) == i)
    requires v.Valid() && v.level < |lay.sizes|
    ensures Shaped(lay.sizes, run[i])
    ensures RacedInterval(lay, run, at, time, b, v) == IntervalRange.Estimate(lay, run[i], b, v)
    decreases v.Width()
  {
    hide RowMin, RacedMin, RacedInterval, IntervalRange.Estimate, Step, Layout.Sound;
    MomentRead(lay, run, at, i, b.DyadicKey(v), 0);
    RacedIntervalStep(lay, run, at, time, b, v);
    IntervalRange.EstimateStep(lay, run[i], b, v);
    MinAtMoment(lay, run, at, time, i, b.DyadicKey(v));
    if v.GoesLeft() { IntervalQueryAtMoment(lay, run, at, time, i, b, v.Left()); }
    if v.GoesRight() { IntervalQueryAtMoment(lay, run, at, time, i, b, v.Right()); }
  }
}
