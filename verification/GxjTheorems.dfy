// What gxj_range_frequency_sketch promises over whole reset-free histories of accesses.
module GxjTheorems {
  import opened Bits
  import opened PackedWord
  import opened CounterTable
  import opened CountMinLaws
  import opened RangeTree
  import opened UnitGrid
  import opened GxjRange

  /** One record_access: its block of a unit, its granules, and the access counter it drew from. */
  datatype Access = Access(unit: nat, block: nat, left: nat, right: nat, ref: nat)

  ghost predicate AllTaken(g: Grid, h: seq<Access>) {
    forall a :: a in h ==> g.Takes(a.left, a.right)
  }

  /** The bumps of a reset-free history. */
  ghost function LogOf(g: Grid, h: seq<Access>): (log: seq<Event>)
    requires AllTaken(g, h)
  {
    if h == [] then []
    else
      LogOf(g, h[..|h| - 1]) + BumpsOf(g, h[|h| - 1])
  }

  ghost function BumpsOf(g: Grid, a: Access): seq<Event>
    requires g.Takes(a.left, a.right)
  {
    Recorded(g.BlockAt(a.unit, a.block), a.ref, g.Root(a.left, a.right))
  }

  lemma LogLast(g: Grid, h: seq<Access>, a: Access)
    requires AllTaken(g, h) && g.Takes(a.left, a.right)
    ensures AllTaken(g, h + [a]) && LogOf(g, h + [a]) == LogOf(g, h) + BumpsOf(g, a)
  {
    assert (h + [a])[..|h|] == h;
  }

  /** What an access adds to a query when nothing collides: its overlap plus its sampling error. */
  ghost function Contribution(g: Grid, a: Access, unit: nat, block: nat, l: nat, r: nat): int
    requires g.Takes(l, r)
  {
    if a.unit == unit && a.block == block
    then Overlap(a.left, a.right, l, r) + SamplingError(a.ref, a.left, a.right, g.Root(l, r))
    else 0
  }

  ghost function Contributions(g: Grid, h: seq<Access>, unit: nat, block: nat, l: nat, r: nat): int
    requires g.Takes(l, r)
  {
    if h == [] then 0
    else Contributions(g, h[..|h| - 1], unit, block, l, r) + Contribution(g, h[|h| - 1], unit, block, l, r)
  }

  // ------------------------------------------------------------ the ideal reading of a history

  lemma BlocksApart(x: nat, y: nat, n: nat)
    requires x < y
    ensures x * n + n <= y * n
  {
    MulMonotone(x + 1, y, n);
    Distribute(x, 1, n);
  }

  /** Accesses to other units and blocks are never read. */
  lemma ForeignAccess(g: Grid, a: Access, unit: nat, block: nat, v: Visit)
    requires g.Takes(a.left, a.right) && v.Valid() && v.end <= g.granules
    requires a.unit != unit || a.block != block
    ensures Ideal(BumpsOf(g, a), g.BlockAt(unit, block), v) == 0
  {
    var b, root := g.BlockAt(a.unit, a.block), g.Root(a.left, a.right);
    RecordedUnder(b, a.ref, root);
    if a.block < block { BlocksApart(a.block, block, g.granules); }
    if block < a.block { BlocksApart(block, a.block, g.granules); }
    IdealZero(Recorded(b, a.ref, root), g.BlockAt(unit, block), v);
  }

  lemma IdealOfAccess(g: Grid, a: Access, unit: nat, block: nat, l: nat, r: nat)
    requires g.Takes(a.left, a.right) && g.Takes(l, r) && l < r
    ensures Ideal(BumpsOf(g, a), g.BlockAt(unit, block), g.Root(l, r))
         == Contribution(g, a, unit, block, l, r)
  {
    hide Recorded, Ideal, SamplingError;
    var b, va, vq := g.BlockAt(unit, block), g.Root(a.left, a.right), g.Root(l, r);
    if a.unit != unit || a.block != block {
      ForeignAccess(g, a, unit, block, vq);
    } else if a.left < a.right {
      SingleAccess(b, a.ref, va, vq);
    } else {
      WrappedRecordsNothing(b, a.ref, va);
      IdealZero([], b, vq);
      NoError(a.ref, a.left, a.right, vq);
    }
  }

  lemma {:induction false} IdealOfHistory(g: Grid, h: seq<Access>, unit: nat, block: nat, l: nat, r: nat)
    requires AllTaken(g, h) && g.Takes(l, r) && l < r
    ensures Ideal(LogOf(g, h), g.BlockAt(unit, block), g.Root(l, r)) == Contributions(g, h, unit, block, l, r)
  {
    hide Ideal, BumpsOf, Contribution;
    var b, v := g.BlockAt(unit, block), g.Root(l, r);
    if h == [] {
      IdealZero([], b, v);
    } else {
      var a := h[|h| - 1];
      IdealOfHistory(g, h[..|h| - 1], unit, block, l, r);
      IdealSum(LogOf(g, h[..|h| - 1]), BumpsOf(g, a), b, v);
      IdealOfAccess(g, a, unit, block, l, r);
    }
  }

  lemma {:induction false} HistoryHasNoReset(g: Grid, h: seq<Access>)
    requires AllTaken(g, h)
    ensures ResetFree(LogOf(g, h))
  {
    if h != [] {
      var a := h[|h| - 1];
      HistoryHasNoReset(g, h[..|h| - 1]);
      RecordedUnder(g.BlockAt(a.unit, a.block), a.ref, g.Root(a.left, a.right));
    }
  }

  // ------------------------------------------------------------ hashed counters against ideal ones

  /** The key has not been bumped more than its counter can hold, and some row of it is private. */
  ghost predicate Readable(lay: Layout, log: seq<Event>, k: Key) {
    k.level < |lay.sizes| && Tally(log, k) <= LIMIT && exists row :: 0 <= row < 4 && CollisionFree(lay, log, k, row)
  }

  /** Every counter that a query reads is readable. */
  ghost predicate Clean(lay: Layout, log: seq<Event>, b: Block, v: Visit)
    requires v.Valid()
    decreases v.Width()
  {
    && Readable(lay, log, b.LazyKey(v))
    && (v.Exact() ==> Readable(lay, log, b.DyadicKey(v)))
    && (v.GoesLeft() ==> Clean(lay, log, b, v.Left()))
    && (v.GoesRight() ==> Clean(lay, log, b, v.Right()))
  }

  lemma ReadsTally(lay: Layout, t: Tables, log: seq<Event>, k: Key)
    requires Represents(lay, t, log) && ResetFree(log) && Readable(lay, log, k)
    ensures RowMin(lay, t, k) == Tally(log, k)
  {
    hide RowMin;
    var row :| 0 <= row < 4 && CollisionFree(lay, log, k, row);
    CleanRead(lay, t, log, k, row);
    ExactIsTally(log, k);
  }

  lemma {:induction false} CleanEstimate(lay: Layout, t: Tables, log: seq<Event>, b: Block, v: Visit)
    requires Represents(lay, t, log) && ResetFree(log) && v.Valid() && v.level < |lay.sizes| && Clean(lay, log, b, v)
    ensures Estimate(lay, t, b, v) == Ideal(log, b, v)
    decreases v.Width()
  {
    hide RowMin, Represents, Readable;
    ReadsTally(lay, t, log, b.LazyKey(v));
    if v.Exact() { ReadsTally(lay, t, log, b.DyadicKey(v)); }
    if v.GoesLeft() { CleanEstimate(lay, t, log, b, v.Left()); }
    if v.GoesRight() { CleanEstimate(lay, t, log, b, v.Right()); }
  }

  /** Error decomposition: after a reset-free history, a query whose counters neither collide nor
      overflow returns the exact overlaps plus the sampling errors, so lazy counts are exact and
      all error sits in the sampled nodes. */
  lemma ErrorDecomposition(lay: Layout, t: Tables, g: Grid, h: seq<Access>, unit: nat, block: nat, l: nat, r: nat)
    requires AllTaken(g, h) && g.Takes(l, r) && l < r && g.top < |lay.sizes|
    requires Represents(lay, t, LogOf(g, h)) && Clean(lay, LogOf(g, h), g.BlockAt(unit, block), g.Root(l, r))
    ensures Estimate(lay, t, g.BlockAt(unit, block), g.Root(l, r)) == Contributions(g, h, unit, block, l, r)
  {
    hide LogOf, Estimate, Ideal, Contributions, Represents, Clean;
    HistoryHasNoReset(g, h);
    CleanEstimate(lay, t, LogOf(g, h), g.BlockAt(unit, block), g.Root(l, r));
    IdealOfHistory(g, h, unit, block, l, r);
  }

  // ------------------------------------------------------------ point queries, any hash

  /** The one child that a one-granule visit goes on to. */
  function PointChild(v: Visit): (c: Visit)
    requires v.Valid() && v.right == v.left + 1 && !v.Exact()
    ensures c.Valid() && c.right == c.left + 1 && 0 < c.Width() < v.Width() && c.level < v.level
  {
    if v.GoesLeft() then v.Left() else v.Right()
  }

  lemma PointStep(lay: Layout, t: Tables, log: seq<Event>, b: Block, v: Visit)
    requires lay.Sound() && Shaped(lay.sizes, t) && v.level < |lay.sizes| && v.Valid() && v.right == v.left + 1
    ensures
      var lk, dk := b.LazyKey(v), b.DyadicKey(v);
      if v.Exact() then
        && Estimate(lay, t, b, v) == RowMin(lay, t, lk) + RowMin(lay, t, dk)
        && Ideal(log, b, v) == Tally(log, lk) + Tally(log, dk)
      else
        && Estimate(lay, t, b, v) == RowMin(lay, t, lk) + Estimate(lay, t, b, PointChild(v))
        && Ideal(log, b, v) == Tally(log, lk) + Ideal(log, b, PointChild(v))
  {
    hide Estimate, Ideal, Tally, RowMin;
    EstimateStep(lay, t, b, v);
    IdealStep(log, b, v);
  }

  /** A one-granule query reads at least the capped ideal value: it meets one node per level, and
      splitting a count over saturating counters loses nothing below 15. */
  lemma {:induction false} PointNotBelow(lay: Layout, t: Tables, log: seq<Event>, b: Block, v: Visit)
    requires Represents(lay, t, log) && ResetFree(log) && v.Valid() && v.level < |lay.sizes| && v.right == v.left + 1
    ensures Estimate(lay, t, b, v) >= Min(LIMIT, Ideal(log, b, v)) && Ideal(log, b, v) >= 0
    decreases v.Width()
  {
    hide Estimate, Ideal, Tally, RowMin;
    PointStep(lay, t, log, b, v);
    NodeNotBelow(lay, t, log, b.LazyKey(v));
    if v.Exact() {
      NodeNotBelow(lay, t, log, b.DyadicKey(v));
    } else {
      hide PointChild;
      PointNotBelow(lay, t, log, b, PointChild(v));
    }
  }

  lemma NodeNotBelow(lay: Layout, t: Tables, log: seq<Event>, k: Key)
    requires Represents(lay, t, log) && ResetFree(log) && k.level < |lay.sizes|
    ensures Min(LIMIT, Tally(log, k)) <= RowMin(lay, t, k)
  {
    hide RowMin;
    NeverUnder(lay, t, log, k);
    ExactIsTally(log, k);
  }

  lemma {:induction false} PointHasNoError(ref: nat, al: nat, ar: nat, v: Visit)
    requires v.Valid() && v.right == v.left + 1
    ensures SamplingError(ref, al, ar, v) == 0
    decreases v.Width()
  {
    if v.GoesLeft() { PointHasNoError(ref, al, ar, v.Left()); }
    if v.GoesRight() { PointHasNoError(ref, al, ar, v.Right()); }
  }

  predicate Covers(a: Access, unit: nat, block: nat, i: nat) {
    a.unit == unit && a.block == block && a.left <= i < a.right
  }

  /** The exact number of accesses that cover granule i. */
  ghost function Coverings(h: seq<Access>, unit: nat, block: nat, i: nat): nat {
    if h == [] then 0
    else Coverings(h[..|h| - 1], unit, block, i) + (if Covers(h[|h| - 1], unit, block, i) then 1 else 0)
  }

  lemma {:induction false} PointContributions(g: Grid, h: seq<Access>, unit: nat, block: nat, i: nat)
    requires AllTaken(g, h) && g.Takes(i, i + 1)
    ensures Contributions(g, h, unit, block, i, i + 1) == Coverings(h, unit, block, i)
  {
    if h != [] {
      var a := h[|h| - 1];
      PointContributions(g, h[..|h| - 1], unit, block, i);
      PointHasNoError(a.ref, a.left, a.right, g.Root(i, i + 1));
    }
  }

  /** A point query never underestimates, for every hash and every reset-free history. */
  lemma PointNeverUnder(lay: Layout, t: Tables, g: Grid, h: seq<Access>, unit: nat, block: nat, i: nat)
    requires AllTaken(g, h) && g.Takes(i, i + 1) && g.top < |lay.sizes| && Represents(lay, t, LogOf(g, h))
    ensures Estimate(lay, t, g.BlockAt(unit, block), g.Root(i, i + 1)) >= Min(LIMIT, Coverings(h, unit, block, i))
  {
    hide LogOf, Estimate, Ideal, Contributions, Represents, Clean;
    HistoryHasNoReset(g, h);
    PointNotBelow(lay, t, LogOf(g, h), g.BlockAt(unit, block), g.Root(i, i + 1));
    IdealOfHistory(g, h, unit, block, i, i + 1);
    PointContributions(g, h, unit, block, i);
  }
}
