// What interval_sketch returns when nothing collides: for each node that the query covers, the number of
// accesses that reach the node, capped and aged, times the node's width. The accesses are stated in
// bytes.
module IntervalExact {
  import opened Bits
  import opened PackedWord
  import opened CounterTable
  import opened CountMinLaws
  import opened RangeTree
  import opened UnitGrid
  import opened IntervalRange

  /** What has happened to the counters: an access that was not dropped, or a halving. */
  datatype ByteOp = Kept(a: ByteAccess) | Aged

  function OpOf(unitSize: nat, granularity: nat, o: ByteOp): Op
    requires unitSize > 0 && granularity > 0
  {
    match o
    case Kept(a) => AsTouch(unitSize, granularity, a)
    case Aged => Age
  }

  function OpsOf(unitSize: nat, granularity: nat, h: seq<ByteOp>): (ops: seq<Op>)
    requires unitSize > 0 && granularity > 0
    ensures |ops| == |h|
  {
    if h == [] then [] else OpsOf(unitSize, granularity, h[..|h| - 1]) + [OpOf(unitSize, granularity, h[|h| - 1])]
  }

  lemma OpsLast(unitSize: nat, granularity: nat, h: seq<ByteOp>, o: ByteOp)
    requires unitSize > 0 && granularity > 0
    ensures OpsOf(unitSize, granularity, h + [o]) == OpsOf(unitSize, granularity, h) + [OpOf(unitSize, granularity, o)]
  {
    assert (h + [o])[..|h|] == h;
  }

  /** The access is to this block of the unit and reaches the node's granules: it begins before the
      node's end, and ends after its start, or the node starts with the unit (which makes a difference
      only to accesses across the unit's end). */
  predicate Reaches(unitSize: nat, granularity: nat, a: ByteAccess, unit: nat, block: nat, n: Node)
    requires unitSize > 0 && granularity > 0
  {
    && a.unit == unit && a.t / unitSize == block
    && a.t % unitSize / granularity < n.end
    && (n.start < (a.t + a.n) % unitSize / granularity || n.start == 0)
  }

  /** The exact counter of a node: one more per access that reaches it, up to 15, halved per reset. */
  function NodeCount(unitSize: nat, granularity: nat, h: seq<ByteOp>, unit: nat, block: nat, n: Node): (c: nat)
    requires unitSize > 0 && granularity > 0
    ensures c <= LIMIT
  {
    if h == [] then 0
    else
      var c := NodeCount(unitSize, granularity, h[..|h| - 1], unit, block, n);
      match h[|h| - 1]
      case Aged => c / 2
      case Kept(a) => if Reaches(unitSize, granularity, a, unit, block, n) then Capped(c + 1) else c
  }

  /** The sum over the nodes of count times width. */
  function WeightedSum(unitSize: nat, granularity: nat, h: seq<ByteOp>, unit: nat, block: nat, nodes: seq<Node>): int
    requires unitSize > 0 && granularity > 0
  {
    if nodes == [] then 0
    else
      Times(NodeCount(unitSize, granularity, h, unit, block, nodes[0]), nodes[0].end - nodes[0].start)
      + WeightedSum(unitSize, granularity, h, unit, block, nodes[1..])
  }

  function NodeKey(b: Block, n: Node): Key { Key(n.level, b.unit, b.base + n.start, false) }

  // ------------------------------------------------------------ which nodes one access bumps

  ghost predicate AllUnder(log: seq<Event>, b: Block, v: Visit) {
    forall x :: x in log ==> x.Bump? && b.Under(v, x.key)
  }

  lemma {:induction false} TouchedUnder(b: Block, v: Visit)
    requires v.Valid()
    ensures AllUnder(Touched(b, v), b, v)
    decreases v.Width()
  {
    if v.left < v.Mid() { TouchedUnder(b, v.Left()); }
    if v.Width() > 1 && v.Mid() < v.right { TouchedUnder(b, v.Right()); }
  }

  lemma {:induction false} TreeNode(n: Node, s: nat, e: nat, level: nat)
    requires s < e && InTree(n, s, e, level)
    ensures s <= n.start < n.end <= e && n.level <= level
    decreases e - s
  {
    if n != Node(s, e, level) {
      var m := s + (e - s) / 2;
      if InTree(n, s, m, level - 1) { TreeNode(n, s, m, level - 1); } else { TreeNode(n, m, e, level - 1); }
    }
  }

  lemma TallySum(x: seq<Event>, y: seq<Event>, z: seq<Event>, k: Key)
    ensures Tally(x + y + z, k) == Tally(x, k) + Tally(y, k) + Tally(z, k)
  {}

  lemma TallyNone(log: seq<Event>, k: Key)
    requires Bump(k) !in log
    ensures Tally(log, k) == 0
  {}

  lemma TallyOwn(k': Key, k: Key)
    ensures Tally([Bump(k')], k) == if k' == k then 1 else 0
  {}

  /** Whether a visit reaches a node below it. */
  predicate Meets(v: Visit, n: Node) { v.left < n.end && (n.start < v.right || n.start == v.start) }

  /** A visit bumps each node of its subtree that it meets exactly once, and no other. */
  lemma {:induction false} TouchedOnce(b: Block, v: Visit, n: Node)
    requires v.Valid() && InTree(n, v.start, v.end, v.level)
    ensures Tally(Touched(b, v), NodeKey(b, n)) == if Meets(v, n) then 1 else 0
    decreases v.Width()
  {
    hide Tally;
    var k := NodeKey(b, n);
    var x, y := TouchedParts(b, v);
    TallySum([Bump(b.DyadicKey(v))], x, y, k);
    TallyOwn(b.DyadicKey(v), k);
    TreeNode(n, v.start, v.end, v.level);
    if n == v.AsNode() {
      OthersBelow(b, v, x, y, k);
    } else if InTree(n, v.start, v.Mid(), v.level - 1) {
      LeftOnly(b, v, n, x, y);
      if v.left < v.Mid() { TouchedOnce(b, v.Left(), n); } else { TallyNone(x, k); }
    } else {
      RightOnly(b, v, n, x, y);
      if v.Mid() < v.right { TouchedOnce(b, v.Right(), n); } else { TallyNone(y, k); }
    }
  }

  /** The bumps of the halves are on lower levels. */
  lemma OthersBelow(b: Block, v: Visit, x: seq<Event>, y: seq<Event>, k: Key)
    requires v.Valid() && k.level == v.level
    requires x == if v.left < v.Mid() then Touched(b, v.Left()) else []
    requires y == if v.Width() > 1 && v.Mid() < v.right then Touched(b, v.Right()) else []
    ensures Tally(x, k) == 0 && Tally(y, k) == 0
  {
    hide Touched, Tally;
    if v.left < v.Mid() { TouchedUnder(b, v.Left()); }
    if v.Width() > 1 && v.Mid() < v.right { TouchedUnder(b, v.Right()); }
    TallyNone(x, k);
    TallyNone(y, k);
  }

  lemma LeftOnly(b: Block, v: Visit, n: Node, x: seq<Event>, y: seq<Event>)
    requires v.Valid() && v.Width() > 1 && v.level > 0 && InTree(n, v.start, v.Mid(), v.level - 1)
    requires y == if v.Width() > 1 && v.Mid() < v.right then Touched(b, v.Right()) else []
    ensures Tally(y, NodeKey(b, n)) == 0 && v.start <= n.start < n.end <= v.Mid() && n.level < v.level
  {
    hide Touched, Tally;
    TreeNode(n, v.start, v.Mid(), v.level - 1);
    if v.Mid() < v.right { TouchedUnder(b, v.Right()); }
    TallyNone(y, NodeKey(b, n));
  }

  lemma RightOnly(b: Block, v: Visit, n: Node, x: seq<Event>, y: seq<Event>)
    requires v.Valid() && v.Width() > 1 && v.level > 0 && InTree(n, v.Mid(), v.end, v.level - 1)
    requires x == if v.left < v.Mid() then Touched(b, v.Left()) else []
    ensures Tally(x, NodeKey(b, n)) == 0 && v.Mid() <= n.start < n.end <= v.end && n.level < v.level
  {
    hide Touched, Tally;
    TreeNode(n, v.Mid(), v.end, v.level - 1);
    if v.left < v.Mid() { TouchedUnder(b, v.Left()); }
    TallyNone(x, NodeKey(b, n));
  }

  lemma InTreeFrom(v: Visit, n: Node)
    requires v.Valid() && v.Width() > 1
    ensures v.level > 0
    ensures InTree(n, v.start, v.Mid(), v.level - 1) || InTree(n, v.Mid(), v.end, v.level - 1) ==>
      InTree(n, v.start, v.end, v.level)
  {}

  lemma InTreeSelf(v: Visit)
    requires v.Valid()
    ensures InTree(v.AsNode(), v.start, v.end, v.level)
  {}

  lemma {:induction false} TouchedInTree(b: Block, v: Visit, e: Event) returns (n: Node)
    requires v.Valid() && e in Touched(b, v)
    ensures InTree(n, v.start, v.end, v.level) && e == Bump(NodeKey(b, n))
    decreases v.Width()
  {
    hide InTree, Touched, Pow2;
    var x, y := TouchedParts(b, v);
    if e in x {
      n := TouchedInTree(b, v.Left(), e);
      InTreeFrom(v, n);
    } else if e in y {
      n := TouchedInTree(b, v.Right(), e);
      InTreeFrom(v, n);
    } else {
      n := v.AsNode();
      InTreeSelf(v);
    }
  }

  /** Every bump of an access is one of a tree node that it meets. */
  lemma TouchedIsMet(b: Block, v: Visit, e: Event) returns (n: Node)
    requires v.Valid() && e in Touched(b, v)
    ensures InTree(n, v.start, v.end, v.level) && e == Bump(NodeKey(b, n)) && Meets(v, n)
  {
    hide InTree, Touched, Pow2;
    n := TouchedInTree(b, v, e);
    TouchedOnce(b, v, n);
  }

  // ------------------------------------------------------------ counts after any run

  /** One operation counts for a node exactly when it is an access that reaches it. */
  lemma OpReaches(g: Grid, unitSize: nat, granularity: nat, a: ByteAccess, unit: nat, block: nat, n: Node)
    requires unitSize > 0 && granularity > 0 && g.granules == Granules(unitSize, granularity)
    requires g.Takes(LeftGranule(unitSize, granularity, a.t), RightGranule(unitSize, granularity, a.t, a.n))
    requires InTree(n, 0, g.granules, g.top)
    ensures ResetFree(EventsOf(g, AsTouch(unitSize, granularity, a)))
    ensures Tally(EventsOf(g, AsTouch(unitSize, granularity, a)), NodeKey(g.BlockAt(unit, block), n))
         == if Reaches(unitSize, granularity, a, unit, block, n) then 1 else 0
  {
    hide Tally, Touched, Granules, Times;
    var o := AsTouch(unitSize, granularity, a);
    var b, v := g.BlockAt(o.unit, o.block), g.Root(o.left, o.right);
    TouchedHasNoReset(b, v);
    TreeNode(n, 0, g.granules, g.top);
    if a.unit == unit && a.t / unitSize == block {
      TouchedOnce(b, v, n);
    } else {
      TouchedUnder(b, v);
      if o.block < block { BlocksApart(o.block, block, g.granules); }
      if block < o.block { BlocksApart(block, o.block, g.granules); }
      TallyNone(Touched(b, v), NodeKey(g.BlockAt(unit, block), n));
    }
  }

  /** The bumps of an access: one for each tree node that it reaches, in any unit and block. */
  ghost predicate OnePerNode(g: Grid, unitSize: nat, granularity: nat, a: ByteAccess, bumps: seq<Event>)
    requires unitSize > 0 && granularity > 0
  {
    forall unit, block, n: Node :: InTree(n, 0, g.granules, g.top) ==>
      Tally(bumps, NodeKey(g.BlockAt(unit, block), n))
      == if Reaches(unitSize, granularity, a, unit, block, n) then 1 else 0
  }

  lemma AccessBumpsReached(g: Grid, unitSize: nat, granularity: nat, a: ByteAccess)
    requires unitSize > 0 && granularity > 0 && g.granules == Granules(unitSize, granularity)
    requires g.Takes(LeftGranule(unitSize, granularity, a.t), RightGranule(unitSize, granularity, a.t, a.n))
    ensures OnePerNode(g, unitSize, granularity, a, EventsOf(g, AsTouch(unitSize, granularity, a)))
  {
    hide Tally, EventsOf, Reaches, InTree, LeftGranule, RightGranule, Granules;
    forall unit, block, n: Node | InTree(n, 0, g.granules, g.top)
      ensures Tally(EventsOf(g, AsTouch(unitSize, granularity, a)), NodeKey(g.BlockAt(unit, block), n))
           == if Reaches(unitSize, granularity, a, unit, block, n) then 1 else 0
    {
      OpReaches(g, unitSize, granularity, a, unit, block, n);
    }
  }

  /** Blocks of a unit have no key in common. */
  lemma BlocksApart(x: nat, y: nat, n: nat)
    requires x < y
    ensures Times(x, n) + n <= Times(y, n)
  {
    assert (y - x - 1) * n >= 0;
    assert y * n == x * n + n + (y - x - 1) * n;
  }

  /** After any run a node's exact counter is the capped, aged number of accesses that reach it. */
  lemma {:induction false} NodeCountIsExact(g: Grid, unitSize: nat, granularity: nat, h: seq<ByteOp>,
                                            unit: nat, block: nat, n: Node)
    requires unitSize > 0 && granularity > 0 && g.granules == Granules(unitSize, granularity)
    requires AllTaken(g, OpsOf(unitSize, granularity, h)) && InTree(n, 0, g.granules, g.top)
    ensures Exact(LogOf(g, OpsOf(unitSize, granularity, h)), NodeKey(g.BlockAt(unit, block), n))
         == NodeCount(unitSize, granularity, h, unit, block, n)
  {
    hide Exact, EventsOf, InTree, Granules, LeftGranule, RightGranule, Reaches;
    var k := NodeKey(g.BlockAt(unit, block), n);
    var ops := OpsOf(unitSize, granularity, h);
    if h == [] {
      NothingExact(k);
    } else {
      var front, o := h[..|h| - 1], h[|h| - 1];
      assert ops[..|ops| - 1] == OpsOf(unitSize, granularity, front) && ops[|ops| - 1] in ops;
      NodeCountIsExact(g, unitSize, granularity, front, unit, block, n);
      var log := LogOf(g, OpsOf(unitSize, granularity, front));
      match o
      case Aged => AgeIsHalve(g, log, k);
      case Kept(a) =>
        OpReaches(g, unitSize, granularity, a, unit, block, n);
        ExactAppend(log, EventsOf(g, AsTouch(unitSize, granularity, a)), k);
    }
  }

  lemma NothingExact(k: Key)
    ensures Exact([], k) == 0
  {}

  lemma AgeIsHalve(g: Grid, log: seq<Event>, k: Key)
    ensures Exact(log + EventsOf(g, Age), k) == Exact(log, k) / 2
  {
    ExactLast(log, Halve, k);
  }

  // ------------------------------------------------------------ queries

  lemma {:induction false} WeightedConcat(unitSize: nat, granularity: nat, h: seq<ByteOp>, unit: nat, block: nat,
                                          x: seq<Node>, y: seq<Node>)
    requires unitSize > 0 && granularity > 0
    ensures WeightedSum(unitSize, granularity, h, unit, block, x + y)
         == WeightedSum(unitSize, granularity, h, unit, block, x)
            + WeightedSum(unitSize, granularity, h, unit, block, y)
  {
    hide NodeCount, Times;
    if x == [] {
      assert x + y == y;
    } else {
      WeightedConcat(unitSize, granularity, h, unit, block, x[1..], y);
      assert (x + y)[1..] == x[1..] + y;
    }
  }

  lemma WeightedOne(unitSize: nat, granularity: nat, h: seq<ByteOp>, unit: nat, block: nat, n: Node)
    requires unitSize > 0 && granularity > 0
    ensures WeightedSum(unitSize, granularity, h, unit, block, [n])
         == Times(NodeCount(unitSize, granularity, h, unit, block, n), n.end - n.start)
  {
    hide NodeCount, Times;
    assert [n][1..] == [];
  }

  /** Each counter that the query reads has a row in which no other key bumped has it. */
  ghost predicate Clean(lay: Layout, log: seq<Event>, b: Block, v: Visit)
    requires v.Valid()
    decreases v.Width()
  {
    if v.Exact() then v.level < |lay.sizes| && PrivateKey(lay, log, b.DyadicKey(v))
    else (v.GoesLeft() ==> Clean(lay, log, b, v.Left())) && (v.GoesRight() ==> Clean(lay, log, b, v.Right()))
  }

  lemma {:induction false} SubtreeExact(lay: Layout, t: Tables, g: Grid, unitSize: nat, granularity: nat,
                                        h: seq<ByteOp>, unit: nat, block: nat, v: Visit)
    requires unitSize > 0 && granularity > 0 && g.granules == Granules(unitSize, granularity)
    requires AllTaken(g, OpsOf(unitSize, granularity, h))
    requires Represents(lay, t, LogOf(g, OpsOf(unitSize, granularity, h)))
    requires v.Valid() && v.left < v.right && v.level < |lay.sizes| && InTree(v.AsNode(), 0, g.granules, g.top)
    requires Clean(lay, LogOf(g, OpsOf(unitSize, granularity, h)), g.BlockAt(unit, block), v)
    ensures Estimate(lay, t, g.BlockAt(unit, block), v)
         == WeightedSum(unitSize, granularity, h, unit, block, Cover(v))
    decreases v.Width()
  {
    hide Represents, RowMin, Estimate, InTree, LogOf, Exact, NodeCount, WeightedSum, PrivateKey, OpsOf, Granules, Times;
    var b, log := g.BlockAt(unit, block), LogOf(g, OpsOf(unitSize, granularity, h));
    NamedStep(lay, t, log, b, v);
    if v.Exact() {
      PrivateRead(lay, t, log, b.DyadicKey(v));
      NodeCountIsExact(g, unitSize, granularity, h, unit, block, v.AsNode());
      WeightedOne(unitSize, granularity, h, unit, block, v.AsNode());
    } else {
      InTreeChildren(v.AsNode(), 0, g.granules, g.top);
      var x := if v.GoesLeft() then Cover(v.Left()) else [];
      var y := if v.GoesRight() then Cover(v.Right()) else [];
      WeightedConcat(unitSize, granularity, h, unit, block, x, y);
      NoWeight(unitSize, granularity, h, unit, block);
      if v.GoesLeft() { SubtreeExact(lay, t, g, unitSize, granularity, h, unit, block, v.Left()); }
      if v.GoesRight() { SubtreeExact(lay, t, g, unitSize, granularity, h, unit, block, v.Right()); }
    }
  }

  lemma NoWeight(unitSize: nat, granularity: nat, h: seq<ByteOp>, unit: nat, block: nat)
    requires unitSize > 0 && granularity > 0
    ensures WeightedSum(unitSize, granularity, h, unit, block, []) == 0
  {}

  lemma NamedStep(lay: Layout, t: Tables, log: seq<Event>, b: Block, v: Visit)
    requires Represents(lay, t, log) && v.Valid() && v.level < |lay.sizes|
    ensures lay.Sound() && Shaped(lay.sizes, t)
    ensures v.Exact() ==> Estimate(lay, t, b, v) == Times(RowMin(lay, t, b.DyadicKey(v)), v.Width())
    ensures !v.Exact() ==>
      Estimate(lay, t, b, v)
      == (if v.GoesLeft() then Estimate(lay, t, b, v.Left()) else 0)
         + (if v.GoesRight() then Estimate(lay, t, b, v.Right()) else 0)
  {
    hide RowMin, Times;
  }

  /** A clean query is exact: the sum over the nodes it covers of the width times the capped, aged number
      of accesses that reach the node. */
  lemma CleanQueryExact(lay: Layout, t: Tables, g: Grid, unitSize: nat, granularity: nat, h: seq<ByteOp>,
                        unit: nat, block: nat, l: nat, r: nat)
    requires unitSize > 0 && granularity > 0 && g.granules == Granules(unitSize, granularity)
    requires AllTaken(g, OpsOf(unitSize, granularity, h)) && g.Takes(l, r) && g.top < |lay.sizes|
    requires Represents(lay, t, LogOf(g, OpsOf(unitSize, granularity, h)))
    requires l < r ==> Clean(lay, LogOf(g, OpsOf(unitSize, granularity, h)), g.BlockAt(unit, block), g.Root(l, r))
    ensures Estimate(lay, t, g.BlockAt(unit, block), g.Root(l, r))
         == WeightedSum(unitSize, granularity, h, unit, block, Cover(g.Root(l, r)))
  {
    hide Represents, LogOf, Estimate, WeightedSum, OpsOf, Granules, Clean, Cover;
    if l < r {
      SubtreeExact(lay, t, g, unitSize, granularity, h, unit, block, g.Root(l, r));
    } else {
      SoundShape(lay, t, LogOf(g, OpsOf(unitSize, granularity, h)));
      WrappedEstimate(lay, t, g.BlockAt(unit, block), g.Root(l, r));
      WrappedCoversNothing(g.Root(l, r));
      NoWeight(unitSize, granularity, h, unit, block);
    }
  }

  /** No access of the run reaches any of the nodes. */
  ghost predicate Untouched(unitSize: nat, granularity: nat, h: seq<ByteOp>, unit: nat, block: nat, nodes: seq<Node>)
    requires unitSize > 0 && granularity > 0
  {
    forall a, n :: Kept(a) in h && n in nodes ==> !Reaches(unitSize, granularity, a, unit, block, n)
  }

  lemma {:induction false} UntouchedCount(unitSize: nat, granularity: nat, h: seq<ByteOp>, unit: nat, block: nat,
                                          n: Node)
    requires unitSize > 0 && granularity > 0
    requires forall a :: Kept(a) in h ==> !Reaches(unitSize, granularity, a, unit, block, n)
    ensures NodeCount(unitSize, granularity, h, unit, block, n) == 0
  {
    hide Reaches;
    if h != [] {
      var front := h[..|h| - 1];
      assert h[|h| - 1] in h && forall o :: o in front ==> o in h;
      UntouchedCount(unitSize, granularity, front, unit, block, n);
    }
  }

  /** Such nodes weigh nothing, so a clean query for them answers 0. */
  lemma {:induction false} UntouchedIsZero(unitSize: nat, granularity: nat, h: seq<ByteOp>, unit: nat, block: nat,
                                           nodes: seq<Node>)
    requires unitSize > 0 && granularity > 0 && Untouched(unitSize, granularity, h, unit, block, nodes)
    ensures WeightedSum(unitSize, granularity, h, unit, block, nodes) == 0
  {
    hide Reaches, NodeCount;
    if nodes != [] {
      assert nodes[0] in nodes && forall n :: n in nodes[1..] ==> n in nodes;
      UntouchedCount(unitSize, granularity, h, unit, block, nodes[0]);
      UntouchedIsZero(unitSize, granularity, h, unit, block, nodes[1..]);
    }
  }
}
