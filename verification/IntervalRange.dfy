// interval_sketch as functions: it bumps every node an access touches, so that a query never
// reads below the exact capped, aged counts of its granules, for every hash and across resets.
module IntervalRange {
  import opened Bits
  import opened PackedWord
  import opened CounterTable
  import opened CountMinLaws
  import opened RangeTree
  import opened UnitGrid

  /** The bumps of inner_record_access: the node itself, then on down to single granules. */
  ghost function Touched(b: Block, v: Visit): seq<Event>
    requires v.Valid()
    decreases v.Width()
  {
    [Bump(b.DyadicKey(v))]
    + (if v.left < v.Mid() then Touched(b, v.Left()) else [])
    + (if v.Width() > 1 && v.Mid() < v.right then Touched(b, v.Right()) else [])
  }

  lemma TouchedParts(b: Block, v: Visit) returns (x: seq<Event>, y: seq<Event>)
    requires v.Valid()
    ensures Touched(b, v) == [Bump(b.DyadicKey(v))] + x + y
    ensures x == if v.left < v.Mid() then Touched(b, v.Left()) else []
    ensures y == if v.Width() > 1 && v.Mid() < v.right then Touched(b, v.Right()) else []
    ensures v.Width() == 1 ==> x == [] && y == []
  {
    x := if v.left < v.Mid() then Touched(b, v.Left()) else [];
    y := if v.Width() > 1 && v.Mid() < v.right then Touched(b, v.Right()) else [];
  }

  /** The value inner_frequency reads from the tables. */
  ghost function Estimate(lay: Layout, t: Tables, b: Block, v: Visit): nat
    requires lay.Sound() && Shaped(lay.sizes, t) && v.level < |lay.sizes| && v.Valid()
    decreases v.Width()
  {
    if v.Exact() then Times(RowMin(lay, t, b.DyadicKey(v)), v.Width())
    else
      (if v.GoesLeft() then Estimate(lay, t, b, v.Left()) else 0)
      + (if v.GoesRight() then Estimate(lay, t, b, v.Right()) else 0)
  }

  lemma EstimateStep(lay: Layout, t: Tables, b: Block, v: Visit)
    requires lay.Sound() && Shaped(lay.sizes, t) && v.level < |lay.sizes| && v.Valid()
    ensures v.Exact() ==> Estimate(lay, t, b, v) == RowMin(lay, t, b.DyadicKey(v)) * v.Width()
    ensures !v.Exact() ==>
      Estimate(lay, t, b, v)
      == (if v.GoesLeft() then Estimate(lay, t, b, v.Left()) else 0)
         + (if v.GoesRight() then Estimate(lay, t, b, v.Right()) else 0)
  {
    hide RowMin;
  }

  /** A query that reaches the end of its unit reads nothing. */
  lemma {:induction false} WrappedEstimate(lay: Layout, t: Tables, b: Block, v: Visit)
    requires lay.Sound() && Shaped(lay.sizes, t) && v.level < |lay.sizes| && v.Valid() && v.left >= v.right
    ensures Estimate(lay, t, b, v) == 0
    decreases v.Width()
  {
    hide RowMin, Estimate, Shaped, Layout.Sound;
    EstimateStep(lay, t, b, v);
    if v.GoesLeft() { WrappedEstimate(lay, t, b, v.Left()); }
    if v.GoesRight() { WrappedEstimate(lay, t, b, v.Right()); }
  }

  // ------------------------------------------------------------ histories

  datatype Op = Touch(unit: nat, block: nat, left: nat, right: nat) | Age

  /** The operation that record_access performs. */
  function AsTouch(unitSize: nat, granularity: nat, a: ByteAccess): Op
    requires unitSize > 0 && granularity > 0
  {
    Touch(a.unit, a.t / unitSize,
          LeftGranule(unitSize, granularity, a.t), RightGranule(unitSize, granularity, a.t, a.n))
  }

  ghost predicate AllTaken(g: Grid, ops: seq<Op>) {
    forall o :: o in ops && o.Touch? ==> g.Takes(o.left, o.right)
  }

  ghost function EventsOf(g: Grid, o: Op): seq<Event>
    requires o.Touch? ==> g.Takes(o.left, o.right)
  {
    if o.Age? then [Halve] else Touched(g.BlockAt(o.unit, o.block), g.Root(o.left, o.right))
  }

  ghost function LogOf(g: Grid, ops: seq<Op>): seq<Event>
    requires AllTaken(g, ops)
  {
    if ops == [] then [] else LogOf(g, ops[..|ops| - 1]) + EventsOf(g, ops[|ops| - 1])
  }

  lemma LogLast(g: Grid, ops: seq<Op>, o: Op)
    requires AllTaken(g, ops) && (o.Touch? ==> g.Takes(o.left, o.right))
    ensures AllTaken(g, ops + [o]) && LogOf(g, ops + [o]) == LogOf(g, ops) + EventsOf(g, o)
  {
    assert (ops + [o])[..|ops|] == ops;
  }

  /** The exact counter of one granule: one more per access up to 15, halved per reset. */
  ghost function GranuleCount(ops: seq<Op>, unit: nat, block: nat, i: nat): (n: nat)
    ensures n <= LIMIT
  {
    if ops == [] then 0
    else
      var n := GranuleCount(ops[..|ops| - 1], unit, block, i);
      match ops[|ops| - 1]
      case Age => n / 2
      case Touch(u, k, l, r) => if u == unit && k == block && l <= i < r then Capped(n + 1) else n
  }

  ghost function GranuleSum(ops: seq<Op>, unit: nat, block: nat, l: nat, r: nat): nat
    decreases r - l
  {
    if l >= r then 0 else GranuleCount(ops, unit, block, l) + GranuleSum(ops, unit, block, l + 1, r)
  }

  // ------------------------------------------------------------ every node dominates its granules

  /** Node n of the tree below the node [s, e) at the given level. */
  ghost predicate InTree(n: Node, s: nat, e: nat, level: nat)
    requires s <= e
    decreases e - s
  {
    || n == Node(s, e, level)
    || (e - s > 1 && level > 0
        && (InTree(n, s, s + (e - s) / 2, level - 1) || InTree(n, s + (e - s) / 2, e, level - 1)))
  }

  lemma {:induction false} InTreeInside(n: Node, s: nat, e: nat, level: nat)
    requires s <= e && InTree(n, s, e, level)
    ensures s <= n.start && n.end <= e
    decreases e - s
  {
    if n != Node(s, e, level) {
      var m := s + (e - s) / 2;
      if InTree(n, s, m, level - 1) { InTreeInside(n, s, m, level - 1); } else { InTreeInside(n, m, e, level - 1); }
    }
  }

  /** Children of tree nodes are tree nodes. */
  lemma {:induction false} InTreeChildren(n: Node, s: nat, e: nat, level: nat)
    requires s <= e && InTree(n, s, e, level) && n.end - n.start > 1 && n.level > 0
    ensures InTree(Node(n.start, Mid(n), n.level - 1), s, e, level)
    ensures InTree(Node(Mid(n), n.end, n.level - 1), s, e, level)
    decreases e - s
  {
    var m := s + (e - s) / 2;
    if n == Node(s, e, level) {
      assert InTree(Node(s, m, level - 1), s, m, level - 1) && InTree(Node(m, e, level - 1), m, e, level - 1);
    } else if InTree(n, s, m, level - 1) {
      InTreeChildren(n, s, m, level - 1);
    } else {
      InTreeChildren(n, m, e, level - 1);
    }
  }

  function Mid(n: Node): nat
    requires n.start <= n.end
  {
    n.start + (n.end - n.start) / 2
  }

  /** An access to granule i bumps every tree node that holds i. */
  lemma {:induction false} TouchesHolders(b: Block, v: Visit, n: Node, i: nat)
    requires v.Valid() && InTree(n, v.start, v.end, v.level) && n.start <= i < n.end && v.left <= i < v.right
    ensures Bump(Key(n.level, b.unit, b.base + n.start, false)) in Touched(b, v)
    decreases v.Width()
  {
    if n != v.AsNode() {
      if InTree(n, v.start, v.Mid(), v.level - 1) {
        InTreeInside(n, v.start, v.Mid(), v.level - 1);
        TouchesHolders(b, v.Left(), n, i);
      } else {
        InTreeInside(n, v.Mid(), v.end, v.level - 1);
        TouchesHolders(b, v.Right(), n, i);
      }
    }
  }

  lemma {:induction false} TouchedHasNoReset(b: Block, v: Visit)
    requires v.Valid()
    ensures ResetFree(Touched(b, v))
    decreases v.Width()
  {
    if v.left < v.Mid() { TouchedHasNoReset(b, v.Left()); }
    if v.Width() > 1 && v.Mid() < v.right { TouchedHasNoReset(b, v.Right()); }
  }

  /** One operation raises (or halves) the counter of a node that holds i at least as much as it
      raises (or halves) the counter of i. */
  lemma OpDominates(g: Grid, o: Op, log: seq<Event>, unit: nat, block: nat, n: Node, i: nat)
    requires o.Touch? ==> g.Takes(o.left, o.right)
    requires InTree(n, 0, g.granules, g.top) && n.start <= i < n.end
    ensures
      var k := Key(n.level, unit, g.BlockAt(unit, block).base + n.start, false);
      var c := Exact(log, k);
      Exact(log + EventsOf(g, o), k)
      >= match o
         case Age => c / 2
         case Touch(u, b, l, r) => if u == unit && b == block && l <= i < r then Capped(c + 1) else c
  {
    hide Exact, Touched, InTree;
    var k := Key(n.level, unit, g.BlockAt(unit, block).base + n.start, false);
    if o.Age? {
      ExactLast(log, Halve, k);
    } else {
      var b, v := g.BlockAt(o.unit, o.block), g.Root(o.left, o.right);
      TouchedHasNoReset(b, v);
      ExactAppend(log, Touched(b, v), k);
      if o.unit == unit && o.block == block && o.left <= i < o.right { TouchesHolders(b, v, n, i); }
    }
  }

  lemma {:induction false} NodeDominates(g: Grid, ops: seq<Op>, unit: nat, block: nat, n: Node, i: nat)
    requires AllTaken(g, ops) && InTree(n, 0, g.granules, g.top) && n.start <= i < n.end
    ensures GranuleCount(ops, unit, block, i)
         <= Exact(LogOf(g, ops), Key(n.level, unit, g.BlockAt(unit, block).base + n.start, false))
  {
    hide Exact, EventsOf, InTree;
    if ops != [] {
      var front, o := ops[..|ops| - 1], ops[|ops| - 1];
      NodeDominates(g, front, unit, block, n, i);
      OpDominates(g, o, LogOf(g, front), unit, block, n, i);
    }
  }

  // ------------------------------------------------------------ queries

  lemma {:induction false} GranuleSumSplit(ops: seq<Op>, unit: nat, block: nat, l: nat, m: nat, r: nat)
    requires l <= m <= r
    ensures GranuleSum(ops, unit, block, l, r)
         == GranuleSum(ops, unit, block, l, m) + GranuleSum(ops, unit, block, m, r)
    decreases m - l
  {
    if l < m { GranuleSumSplit(ops, unit, block, l + 1, m, r); }
  }

  lemma {:induction false} GranuleSumBound(ops: seq<Op>, unit: nat, block: nat, l: nat, r: nat, c: nat)
    requires l <= r && forall i :: l <= i < r ==> GranuleCount(ops, unit, block, i) <= c
    ensures GranuleSum(ops, unit, block, l, r) <= c * (r - l)
    decreases r - l
  {
    if l < r {
      GranuleSumBound(ops, unit, block, l + 1, r, c);
      assert c * (r - l) == c * (r - (l + 1)) + c;
    }
  }

  lemma {:induction false} SubtreeNeverUnder(lay: Layout, t: Tables, g: Grid, ops: seq<Op>, unit: nat,
                                             block: nat, v: Visit)
    requires AllTaken(g, ops) && Represents(lay, t, LogOf(g, ops))
    requires v.Valid() && v.left < v.right && v.level < |lay.sizes| && InTree(v.AsNode(), 0, g.granules, g.top)
    ensures GranuleSum(ops, unit, block, v.left, v.right) <= Estimate(lay, t, g.BlockAt(unit, block), v)
    decreases v.Width()
  {
    hide Represents, RowMin, Estimate, InTree, LogOf, Exact, GranuleCount, GranuleSum;
    var b := g.BlockAt(unit, block);
    ReadStep(lay, t, LogOf(g, ops), b, v);
    if v.Exact() {
      var k := b.DyadicKey(v);
      forall i | v.start <= i < v.end
        ensures GranuleCount(ops, unit, block, i) <= RowMin(lay, t, k)
      {
        NodeDominates(g, ops, unit, block, v.AsNode(), i);
      }
      GranuleSumBound(ops, unit, block, v.left, v.right, RowMin(lay, t, k));
    } else {
      InTreeChildren(v.AsNode(), 0, g.granules, g.top);
      var m := Max(v.left, Min(v.Mid(), v.right));
      GranuleSumSplit(ops, unit, block, v.left, m, v.right);
      if v.GoesLeft() { SubtreeNeverUnder(lay, t, g, ops, unit, block, v.Left()); }
      if v.GoesRight() { SubtreeNeverUnder(lay, t, g, ops, unit, block, v.Right()); }
      GranuleSumEmpty(ops, unit, block, m);
    }
  }

  lemma GranuleSumEmpty(ops: seq<Op>, unit: nat, block: nat, m: nat)
    ensures GranuleSum(ops, unit, block, m, m) == 0
  {}

  lemma ReadStep(lay: Layout, t: Tables, log: seq<Event>, b: Block, v: Visit)
    requires Represents(lay, t, log) && v.Valid() && v.level < |lay.sizes|
    ensures lay.Sound() && Shaped(lay.sizes, t)
    ensures v.Exact() ==> Estimate(lay, t, b, v) == RowMin(lay, t, b.DyadicKey(v)) * v.Width()
    ensures v.Exact() ==> Exact(log, b.DyadicKey(v)) <= RowMin(lay, t, b.DyadicKey(v))
    ensures !v.Exact() ==>
      Estimate(lay, t, b, v)
      == (if v.GoesLeft() then Estimate(lay, t, b, v.Left()) else 0)
         + (if v.GoesRight() then Estimate(lay, t, b, v.Right()) else 0)
  {
    hide RowMin, Estimate, Exact;
    EstimateStep(lay, t, b, v);
    NeverUnder(lay, t, log, b.DyadicKey(v));
  }

  /** interval_sketch never underestimates, for every hash and every run of accesses and resets:
      a query is at least the sum of the exact capped, aged counters of its granules. */
  lemma NeverUnderestimates(lay: Layout, t: Tables, g: Grid, ops: seq<Op>, unit: nat, block: nat, l: nat, r: nat)
    requires AllTaken(g, ops) && Represents(lay, t, LogOf(g, ops)) && g.top < |lay.sizes|
    requires g.Takes(l, r) && l < r
    ensures GranuleSum(ops, unit, block, l, r) <= Estimate(lay, t, g.BlockAt(unit, block), g.Root(l, r))
  {
    hide Represents, LogOf, Estimate, GranuleSum;
    SubtreeNeverUnder(lay, t, g, ops, unit, block, g.Root(l, r));
  }
}
