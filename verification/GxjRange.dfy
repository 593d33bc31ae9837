// gxj_range_frequency_sketch as functions: the counters one access bumps, the number one query
// reads, and how the two relate when counters neither collide nor saturate.
module GxjRange {
  import opened Bits
  import opened PackedWord
  import opened CounterTable
  import opened CountMinLaws
  import opened RangeTree
  import opened UnitGrid

  /** try_est_add: the access counter's low bits stand in for a random draw below the width. */
  predicate Sampled(ref: nat, v: Visit)
    requires v.Valid()
  {
    BitAnd(ref, v.Width() - 1) < v.right - v.left
  }

  /** The bumps of inner_record_access, in order. */
  ghost function Recorded(b: Block, ref: nat, v: Visit): seq<Event>
    requires v.Valid()
    decreases v.Width()
  {
    if v.Exact() then [Bump(b.LazyKey(v))]
    else
      (if Sampled(ref, v) then [Bump(b.DyadicKey(v))] else [])
      + (if v.GoesLeft() then Recorded(b, ref, v.Left()) else [])
      + (if v.GoesRight() then Recorded(b, ref, v.Right()) else [])
  }

  /** The value inner_frequency reads from the tables. */
  ghost function Estimate(lay: Layout, t: Tables, b: Block, v: Visit): int
    requires lay.Sound() && Shaped(lay.sizes, t) && v.level < |lay.sizes| && v.Valid()
    decreases v.Width()
  {
    Times(RowMin(lay, t, b.LazyKey(v)), v.right - v.left)
    + (if v.Exact() then Times(RowMin(lay, t, b.DyadicKey(v)), v.Width())
       else (if v.GoesLeft() then Estimate(lay, t, b, v.Left()) else 0)
            + (if v.GoesRight() then Estimate(lay, t, b, v.Right()) else 0))
  }

  /** The same reading from the exact number of bumps per node instead of shared counters. */
  ghost function Ideal(log: seq<Event>, b: Block, v: Visit): int
    requires v.Valid()
    decreases v.Width()
  {
    Times(Tally(log, b.LazyKey(v)), v.right - v.left)
    + (if v.Exact() then Times(Tally(log, b.DyadicKey(v)), v.Width())
       else (if v.GoesLeft() then Ideal(log, b, v.Left()) else 0)
            + (if v.GoesRight() then Ideal(log, b, v.Right()) else 0))
  }

  /** What inner_record_access adds to size_: the width of each covered node, one per sampled node. */
  ghost function SizeGain(ref: nat, v: Visit): nat
    requires v.Valid()
    decreases v.Width()
  {
    if v.Exact() then v.Width()
    else
      (if Sampled(ref, v) then 1 else 0)
      + (if v.GoesLeft() then SizeGain(ref, v.Left()) else 0)
      + (if v.GoesRight() then SizeGain(ref, v.Right()) else 0)
  }

  /** The partly covered nodes that are sampled. */
  ghost function SampledNodes(ref: nat, v: Visit): (n: nat)
    requires v.Valid()
    ensures n <= |Expanded(v)|
    decreases v.Width()
  {
    if v.Exact() then 0
    else
      (if Sampled(ref, v) then 1 else 0)
      + (if v.GoesLeft() then SampledNodes(ref, v.Left()) else 0)
      + (if v.GoesRight() then SampledNodes(ref, v.Right()) else 0)
  }

  /** size_ grows by the granules recorded plus one per sampled node, of which there are at most
      2 * level - 1; an access that crosses the end of its unit leaves it alone. */
  lemma {:induction false} SizeConservation(ref: nat, v: Visit)
    requires v.Valid()
    ensures v.left < v.right ==> SizeGain(ref, v) == v.right - v.left + SampledNodes(ref, v)
    ensures v.left < v.right ==> SampledNodes(ref, v) <= Max(0, 2 * v.level - 1)
    ensures v.left >= v.right ==> SizeGain(ref, v) == 0
    decreases v.Width()
  {
    hide Sampled;
    if v.left < v.right { FewExpanded(v); }
    if v.left >= v.right { NotSampled(ref, v); }
    if v.GoesLeft() { SizeConservation(ref, v.Left()); }
    if v.GoesRight() { SizeConservation(ref, v.Right()); }
  }

  lemma NotSampled(ref: nat, v: Visit)
    requires v.Valid() && v.left >= v.right
    ensures !Sampled(ref, v)
  {}

  /** The number of granules two ranges share. */
  function Overlap(al: int, ar: int, l: int, r: int): nat { Max(0, Min(ar, r) - Max(al, l)) }

  /** What sampling adds to a query, for an access to [al, ar): over the nodes that the query
      covers exactly and the access only partly, the width if sampled, less the true overlap. */
  ghost function SamplingError(ref: nat, al: nat, ar: nat, v: Visit): int
    requires v.Valid()
    decreases v.Width()
  {
    if v.Exact() then NodeError(ref, al, ar, v)
    else
      (if v.GoesLeft() then SamplingError(ref, al, ar, v.Left()) else 0)
      + (if v.GoesRight() then SamplingError(ref, al, ar, v.Right()) else 0)
  }

  ghost function NodeError(ref: nat, al: nat, ar: nat, v: Visit): int
    requires v.Valid()
  {
    var a := Visit(Max(al, v.start), Min(ar, v.end), v.start, v.end, v.level);
    if a.left >= a.right || a.Exact() then 0
    else (if Sampled(ref, a) then v.Width() else 0) - (a.right - a.left)
  }

  // ------------------------------------------------------------ what one step reads

  lemma IdealStep(log: seq<Event>, b: Block, v: Visit)
    requires v.Valid()
    ensures v.Exact() ==>
      Ideal(log, b, v) == Tally(log, b.LazyKey(v)) * v.Width() + Tally(log, b.DyadicKey(v)) * v.Width()
    ensures !v.Exact() ==>
      Ideal(log, b, v)
      == Tally(log, b.LazyKey(v)) * (v.right - v.left)
         + (if v.GoesLeft() then Ideal(log, b, v.Left()) else 0)
         + (if v.GoesRight() then Ideal(log, b, v.Right()) else 0)
  {}

  lemma TimesIs(x: int, y: int)
    ensures Times(x, y) == x * y
  {}

  lemma EstimateStep(lay: Layout, t: Tables, b: Block, v: Visit)
    requires lay.Sound() && Shaped(lay.sizes, t) && v.level < |lay.sizes| && v.Valid()
    ensures v.Exact() ==>
      Estimate(lay, t, b, v)
      == RowMin(lay, t, b.LazyKey(v)) * v.Width() + RowMin(lay, t, b.DyadicKey(v)) * v.Width()
    ensures !v.Exact() ==>
      Estimate(lay, t, b, v)
      == RowMin(lay, t, b.LazyKey(v)) * (v.right - v.left)
         + (if v.GoesLeft() then Estimate(lay, t, b, v.Left()) else 0)
         + (if v.GoesRight() then Estimate(lay, t, b, v.Right()) else 0)
  {
    hide RowMin, Times, Shaped, Layout.Sound;
    TimesIs(RowMin(lay, t, b.LazyKey(v)), v.right - v.left);
    TimesIs(RowMin(lay, t, b.DyadicKey(v)), v.Width());
  }

  /** A query that reaches the end of its unit reads nothing but lazy counters, with a weight that is
      not positive. */
  lemma {:induction false} WrappedEstimate(lay: Layout, t: Tables, b: Block, v: Visit)
    requires lay.Sound() && Shaped(lay.sizes, t) && v.level < |lay.sizes| && v.Valid() && v.left >= v.right
    ensures Estimate(lay, t, b, v) <= 0
    decreases v.Width()
  {
    hide RowMin, Estimate, Shaped, Layout.Sound;
    EstimateStep(lay, t, b, v);
    NotPositive(RowMin(lay, t, b.LazyKey(v)), v.right - v.left);
    if v.GoesLeft() { WrappedEstimate(lay, t, b, v.Left()); }
    if v.GoesRight() { WrappedEstimate(lay, t, b, v.Right()); }
  }

  lemma NotPositive(x: nat, y: int)
    requires y <= 0
    ensures x * y <= 0
  {}

  /** The bumps of a partly covered node: its own sampled one, and those of its children. */
  lemma Parts(b: Block, ref: nat, a: Visit) returns (own: seq<Event>, x: seq<Event>, y: seq<Event>)
    requires a.Valid() && !a.Exact()
    ensures own == if Sampled(ref, a) then [Bump(b.DyadicKey(a))] else []
    ensures x == if a.GoesLeft() then Recorded(b, ref, a.Left()) else []
    ensures y == if a.GoesRight() then Recorded(b, ref, a.Right()) else []
    ensures Recorded(b, ref, a) == own + x + y
  {
    own := if Sampled(ref, a) then [Bump(b.DyadicKey(a))] else [];
    x := if a.GoesLeft() then Recorded(b, ref, a.Left()) else [];
    y := if a.GoesRight() then Recorded(b, ref, a.Right()) else [];
  }

  lemma RecordedExact(b: Block, ref: nat, v: Visit)
    requires v.Valid() && v.Exact()
    ensures Recorded(b, ref, v) == [Bump(b.LazyKey(v))] && SizeGain(ref, v) == v.Width()
  {}

  lemma SizeGainStep(ref: nat, v: Visit)
    requires v.Valid() && !v.Exact()
    ensures SizeGain(ref, v)
         == (if Sampled(ref, v) then 1 else 0)
            + (if v.GoesLeft() then SizeGain(ref, v.Left()) else 0)
            + (if v.GoesRight() then SizeGain(ref, v.Right()) else 0)
  {}

  lemma ErrorStep(ref: nat, al: nat, ar: nat, v: Visit)
    requires v.Valid()
    ensures v.Exact() ==> SamplingError(ref, al, ar, v) == NodeError(ref, al, ar, v)
    ensures !v.Exact() ==>
      SamplingError(ref, al, ar, v)
      == (if v.GoesLeft() then SamplingError(ref, al, ar, v.Left()) else 0)
         + (if v.GoesRight() then SamplingError(ref, al, ar, v.Right()) else 0)
  {}

  lemma Distribute(x: int, y: int, z: int)
    ensures (x + y) * z == x * z + y * z
  {}

  // ------------------------------------------------------------ logs and subtrees

  /** An access only bumps nodes at or below the one it enters. */
  lemma {:induction false} RecordedUnder(b: Block, ref: nat, v: Visit)
    requires v.Valid()
    ensures AllUnder(Recorded(b, ref, v), b, v)
    decreases v.Width()
  {
    if v.GoesLeft() { RecordedUnder(b, ref, v.Left()); }
    if v.GoesRight() { RecordedUnder(b, ref, v.Right()); }
  }

  ghost predicate AllUnder(log: seq<Event>, b: Block, v: Visit) {
    forall x :: x in log ==> x.Bump? && b.Under(v, x.key)
  }

  lemma NoBump(log: seq<Event>, k: Key, x: int)
    requires Bump(k) !in log
    ensures Tally(log, k) * x == 0
  {}

  /** A log without bumps at or below a node reads zero there. */
  lemma {:induction false} IdealZero(log: seq<Event>, b: Block, v: Visit)
    requires v.Valid() && forall k :: b.Under(v, k) ==> Bump(k) !in log
    ensures Ideal(log, b, v) == 0
    decreases v.Width()
  {
    hide Ideal, Tally;
    assert b.Under(v, b.LazyKey(v)) && b.Under(v, b.DyadicKey(v));
    IdealStep(log, b, v);
    NoBump(log, b.LazyKey(v), v.Width());
    NoBump(log, b.LazyKey(v), v.right - v.left);
    NoBump(log, b.DyadicKey(v), v.Width());
    if v.GoesLeft() { IdealZero(log, b, v.Left()); }
    if v.GoesRight() { IdealZero(log, b, v.Right()); }
  }

  /** Readings add up over the parts of a log. */
  lemma {:induction false} IdealSum(x: seq<Event>, y: seq<Event>, b: Block, v: Visit)
    requires v.Valid()
    ensures Ideal(x + y, b, v) == Ideal(x, b, v) + Ideal(y, b, v)
    decreases v.Width()
  {
    hide Ideal;
    IdealStep(x, b, v);
    IdealStep(y, b, v);
    IdealStep(x + y, b, v);
    var lk, dk := b.LazyKey(v), b.DyadicKey(v);
    Distribute(Tally(x, lk), Tally(y, lk), v.right - v.left);
    Distribute(Tally(x, dk), Tally(y, dk), v.Width());
    if v.GoesLeft() { IdealSum(x, y, b, v.Left()); }
    if v.GoesRight() { IdealSum(x, y, b, v.Right()); }
  }

  /** An access that crosses the end of its unit bumps nothing. */
  lemma {:induction false} WrappedRecordsNothing(b: Block, ref: nat, v: Visit)
    requires v.Valid() && v.left >= v.right
    ensures Recorded(b, ref, v) == []
    decreases v.Width()
  {
    if v.GoesLeft() { WrappedRecordsNothing(b, ref, v.Left()); }
    if v.GoesRight() { WrappedRecordsNothing(b, ref, v.Right()); }
  }

  // ------------------------------------------------------------ one access, one query

  /** Sampling makes no error at nodes that the access covers fully or not at all. */
  lemma {:induction false} NoError(ref: nat, al: nat, ar: nat, v: Visit)
    requires v.Valid() && ((al <= v.start && v.end <= ar) || Min(ar, v.end) <= Max(al, v.start))
    ensures SamplingError(ref, al, ar, v) == 0
    decreases v.Width()
  {
    hide SamplingError;
    ErrorStep(ref, al, ar, v);
    if v.GoesLeft() { NoError(ref, al, ar, v.Left()); }
    if v.GoesRight() { NoError(ref, al, ar, v.Right()); }
  }

  /** Only the part of the access inside the node matters. */
  lemma {:induction false} ErrorCut(ref: nat, al: nat, ar: nat, bl: nat, br: nat, v: Visit)
    requires v.Valid() && Max(al, v.start) == Max(bl, v.start) && Min(ar, v.end) == Min(br, v.end)
    ensures SamplingError(ref, al, ar, v) == SamplingError(ref, bl, br, v)
    decreases v.Width()
  {
    hide SamplingError;
    ErrorStep(ref, al, ar, v);
    ErrorStep(ref, bl, br, v);
    if v.GoesLeft() { ErrorCut(ref, al, ar, bl, br, v.Left()); }
    if v.GoesRight() { ErrorCut(ref, al, ar, bl, br, v.Right()); }
  }

  /** A node's lazy bump is read by every query that meets the node, its dyadic bump by the
      queries that cover it exactly. */
  lemma OwnBump(k: Key, b: Block, q: Visit)
    requires q.Valid() && (k == b.DyadicKey(q) || k == b.LazyKey(q))
    ensures Ideal([Bump(k)], b, q) == if k.lazy then q.right - q.left else if q.Exact() then q.Width() else 0
  {
    hide Ideal;
    IdealStep([Bump(k)], b, q);
    assert Tally([Bump(k)], b.LazyKey(q)) == if k.lazy then 1 else 0;
    assert Tally([Bump(k)], b.DyadicKey(q)) == if k.lazy then 0 else 1;
    if q.GoesLeft() { IdealZero([Bump(k)], b, q.Left()); }
    if q.GoesRight() { IdealZero([Bump(k)], b, q.Right()); }
  }

  ghost predicate SameNode(a: Visit, q: Visit) {
    a.start == q.start && a.end == q.end && a.level == q.level
  }

  /** Bumps below the left child are read through the left child only. */
  lemma FromLeft(log: seq<Event>, b: Block, a: Visit, q: Visit)
    requires a.Valid() && q.Valid() && SameNode(a, q) && a.GoesLeft() && AllUnder(log, b, a.Left())
    ensures Ideal(log, b, q) == if q.GoesLeft() then Ideal(log, b, q.Left()) else 0
  {
    hide Ideal;
    IdealStep(log, b, q);
    assert Tally(log, b.LazyKey(q)) == 0 && Tally(log, b.DyadicKey(q)) == 0;
    if q.GoesRight() { IdealZero(log, b, q.Right()); }
  }

  /** Bumps below the right child are read through the right child only. */
  lemma FromRight(log: seq<Event>, b: Block, a: Visit, q: Visit)
    requires a.Valid() && q.Valid() && SameNode(a, q) && a.GoesRight() && AllUnder(log, b, a.Right())
    ensures Ideal(log, b, q) == if q.GoesRight() then Ideal(log, b, q.Right()) else 0
  {
    hide Ideal;
    IdealStep(log, b, q);
    assert Tally(log, b.LazyKey(q)) == 0 && Tally(log, b.DyadicKey(q)) == 0;
    if q.GoesLeft() { IdealZero(log, b, q.Left()); }
  }

  lemma OverlapSplit(a: Visit, q: Visit)
    requires a.Valid() && q.Valid() && q.left < q.right && SameNode(a, q)
    ensures !q.Exact() ==>
      Overlap(a.left, a.right, q.left, q.right)
      == (if q.GoesLeft() then Overlap(a.left, a.right, q.left, q.Left().right) else 0)
         + (if q.GoesRight() then Overlap(a.left, a.right, q.Right().left, q.right) else 0)
  {}

  lemma ExactError(ref: nat, a: Visit, q: Visit)
    requires a.Valid() && a.left < a.right && q.Valid() && SameNode(a, q) && !a.Exact() && q.Exact()
    ensures Overlap(a.left, a.right, q.left, q.right) + NodeError(ref, a.left, a.right, q)
         == if Sampled(ref, a) then q.Width() else 0
  {
    assert Visit(Max(a.left, q.start), Min(a.right, q.end), q.start, q.end, q.level) == a;
  }

  /** The bumps of one access read as its overlap with the query, plus its sampling error. */
  lemma {:induction false} SingleAccess(b: Block, ref: nat, a: Visit, q: Visit)
    requires a.Valid() && a.left < a.right && q.Valid() && q.left < q.right && SameNode(a, q)
    ensures Ideal(Recorded(b, ref, a), b, q)
         == Overlap(a.left, a.right, q.left, q.right) + SamplingError(ref, a.left, a.right, q)
    decreases a.Width()
  {
    hide Recorded, Ideal, SamplingError, NodeError, Sampled, Overlap;
    if a.Exact() {
      ExactAccess(b, ref, a, q);
    } else {
      var own, x, y := Parts(b, ref, a);
      hide *;
      IdealSum(own + x, y, b, q);
      IdealSum(own, x, b, q);
      SampledReading(b, ref, a, q, own);
      LeftReading(b, ref, a, q, x);
      RightReading(b, ref, a, q, y);
      ErrorStep(ref, a.left, a.right, q);
      OverlapSplit(a, q);
      if q.Exact() { ExactError(ref, a, q); }
    }
  }

  lemma ExactAccess(b: Block, ref: nat, a: Visit, q: Visit)
    requires a.Valid() && a.Exact() && q.Valid() && q.left < q.right && SameNode(a, q)
    ensures Ideal(Recorded(b, ref, a), b, q)
         == Overlap(a.left, a.right, q.left, q.right) + SamplingError(ref, a.left, a.right, q)
  {
    hide Recorded, Ideal, SamplingError;
    RecordedExact(b, ref, a);
    OwnBump(b.LazyKey(q), b, q);
    NoError(ref, a.left, a.right, q);
  }

  lemma SampledReading(b: Block, ref: nat, a: Visit, q: Visit, own: seq<Event>)
    requires a.Valid() && q.Valid() && SameNode(a, q)
    requires own == if Sampled(ref, a) then [Bump(b.DyadicKey(a))] else []
    ensures Ideal(own, b, q) == if q.Exact() && Sampled(ref, a) then q.Width() else 0
  {
    hide Ideal;
    if Sampled(ref, a) { OwnBump(b.DyadicKey(q), b, q); } else { IdealZero([], b, q); }
  }

  lemma LeftReading(b: Block, ref: nat, a: Visit, q: Visit, x: seq<Event>)
    requires a.Valid() && a.left < a.right && q.Valid() && q.left < q.right && SameNode(a, q) && !a.Exact()
    requires x == if a.GoesLeft() then Recorded(b, ref, a.Left()) else []
    ensures q.GoesLeft() ==>
      Ideal(x, b, q) == Overlap(a.left, a.right, q.left, q.Left().right) + SamplingError(ref, a.left, a.right, q.Left())
    ensures !q.GoesLeft() ==> Ideal(x, b, q) == 0
    decreases a.Width(), 0
  {
    hide Recorded, Ideal, SamplingError;
    if a.GoesLeft() {
      RecordedUnder(b, ref, a.Left());
      FromLeft(x, b, a, q);
      if q.GoesLeft() {
        SingleAccess(b, ref, a.Left(), q.Left());
        ErrorCut(ref, a.left, a.right, a.left, a.Left().right, q.Left());
      }
    } else {
      IdealZero([], b, q);
      if q.GoesLeft() { NoError(ref, a.left, a.right, q.Left()); }
    }
  }

  lemma RightReading(b: Block, ref: nat, a: Visit, q: Visit, y: seq<Event>)
    requires a.Valid() && a.left < a.right && q.Valid() && q.left < q.right && SameNode(a, q) && !a.Exact()
    requires y == if a.GoesRight() then Recorded(b, ref, a.Right()) else []
    ensures q.GoesRight() ==>
      Ideal(y, b, q)
      == Overlap(a.left, a.right, q.Right().left, q.right) + SamplingError(ref, a.left, a.right, q.Right())
    ensures !q.GoesRight() ==> Ideal(y, b, q) == 0
    decreases a.Width(), 0
  {
    hide Recorded, Ideal, SamplingError;
    if a.GoesRight() {
      RecordedUnder(b, ref, a.Right());
      FromRight(y, b, a, q);
      if q.GoesRight() {
        SingleAccess(b, ref, a.Right(), q.Right());
        ErrorCut(ref, a.left, a.right, a.Right().left, a.right, q.Right());
      }
    } else {
      IdealZero([], b, q);
      if q.GoesRight() { NoError(ref, a.left, a.right, q.Right()); }
    }
  }
}
