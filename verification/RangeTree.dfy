// The binary range tree over the granules of a unit that both range sketches recurse over.
// Level 0 holds single granules; the node a recursion starts from is [0, granules).
module RangeTree {
  import opened Bits

  /** The arguments of one recursive call: the part [left, right) of a range that falls in the
      node [start, end). left >= right stands for a range that crosses the end of its unit: it
      covers nothing, and the recursion still ends. */
  datatype Visit = Visit(left: nat, right: nat, start: nat, end: nat, level: nat) {

    /** What every call keeps: the arguments are in range, and the level is deep enough. */
    ghost predicate Valid() {
      start <= left < end && right <= end && end - start <= Pow2(level)
    }

    predicate Exact() { left == start && right == end }

    function Width(): int { end - start }

    function Mid(): nat
      requires start <= end
    {
      start + (end - start) / 2
    }

    predicate GoesLeft()
      requires start <= end
    {
      !Exact() && left < Mid()
    }

    predicate GoesRight()
      requires start <= end
    {
      !Exact() && Mid() < right
    }

    /** The two recursive calls: arguments stay in range, and never leave a single granule. */
    function Left(): (v: Visit)
      requires Valid() && left < Mid()
      ensures v.Valid() && level > 0 && 0 < v.Width() < Width()
      ensures v.left == left && v.start == start && v.end == Mid() && v.level == level - 1
      ensures v.right == Min(Mid(), right)
    {
      Visit(left, Min(Mid(), right), start, Mid(), level - 1)
    }

    function Right(): (v: Visit)
      requires Valid() && Mid() < right && Width() > 1
      ensures v.Valid() && level > 0 && 0 < v.Width() < Width()
      ensures v.right == right && v.start == Mid() && v.end == end && v.level == level - 1
      ensures v.left == Max(left, Mid())
    {
      Visit(Max(left, Mid()), right, Mid(), end, level - 1)
    }

    function AsNode(): Node { Node(start, end, level) }
  }

  /** The recursive calls of the sketches, spelled with their separate arguments. */
  lemma Calls(left: nat, right: nat, start: nat, end: nat, level: nat, v: Visit, mid: nat)
    requires v == Visit(left, right, start, end, level) && v.Valid() && !v.Exact()
    requires mid == start + (end - start) / 2
    ensures mid > left <==> v.GoesLeft()
    ensures mid < right <==> v.GoesRight()
    ensures mid > left ==>
      level > 0 && mid < end && v.Left() == Visit(left, Min(mid, right), start, mid, level - 1)
    ensures mid < right ==>
      level > 0 && start < mid && v.Right() == Visit(Max(left, mid), right, mid, end, level - 1)
  {}

  lemma WideCalls(left: nat, right: nat, start: nat, end: nat, level: nat, v: Visit, mid: nat)
    requires v == Visit(left, right, start, end, level) && v.Valid() && v.Width() > 1
    requires mid == start + (end - start) / 2
    ensures mid == v.Mid()
    ensures mid > left ==>
      level > 0 && mid < end && v.Left() == Visit(left, Min(mid, right), start, mid, level - 1)
    ensures mid < right ==>
      level > 0 && start < mid && v.Right() == Visit(Max(left, mid), right, mid, end, level - 1)
  {}

  datatype Node = Node(start: nat, end: nat, level: nat)

  /** The nodes at which the recursion stops because they are exactly covered. */
  ghost function Cover(v: Visit): seq<Node>
    requires v.Valid()
    decreases v.Width()
  {
    if v.Exact() then [v.AsNode()]
    else
      (if v.GoesLeft() then Cover(v.Left()) else [])
      + (if v.GoesRight() then Cover(v.Right()) else [])
  }

  /** The partly covered nodes that the recursion expands. */
  ghost function Expanded(v: Visit): seq<Node>
    requires v.Valid()
    decreases v.Width()
  {
    if v.Exact() then []
    else
      [v.AsNode()]
      + (if v.GoesLeft() then Expanded(v.Left()) else [])
      + (if v.GoesRight() then Expanded(v.Right()) else [])
  }

  /** The nodes lie end to end from l to r. */
  ghost predicate Tiles(nodes: seq<Node>, l: nat, r: nat) {
    if nodes == [] then l == r
    else nodes[0].start == l && l < nodes[0].end && Tiles(nodes[1..], nodes[0].end, r)
  }

  ghost function AtLevel(nodes: seq<Node>, k: nat): nat {
    if nodes == [] then 0 else (if nodes[0].level == k then 1 else 0) + AtLevel(nodes[1..], k)
  }

  lemma {:induction false} TilesConcat(a: seq<Node>, b: seq<Node>, l: nat, m: nat, r: nat)
    requires Tiles(a, l, m) && Tiles(b, m, r)
    ensures Tiles(a + b, l, r)
  {
    if a == [] {
      assert a + b == b;
    } else {
      TilesConcat(a[1..], b, a[0].end, m, r);
      assert (a + b)[1..] == a[1..] + b;
    }
  }

  lemma {:induction false} AtLevelConcat(a: seq<Node>, b: seq<Node>, k: nat)
    ensures AtLevel(a + b, k) == AtLevel(a, k) + AtLevel(b, k)
  {
    if a == [] {
      assert a + b == b;
    } else {
      AtLevelConcat(a[1..], b, k);
      assert (a + b)[1..] == a[1..] + b;
    }
  }

  lemma AtLevelOne(n: Node, k: nat)
    ensures AtLevel([n], k) == if n.level == k then 1 else 0
  {
    assert [n][1..] == [];
  }

  /** The exactly covered nodes partition [left, right). */
  lemma {:induction false} CoverTiles(v: Visit)
    requires v.Valid() && v.left < v.right
    ensures Tiles(Cover(v), v.left, v.right)
    decreases v.Width()
  {
    if !v.Exact() {
      var a := if v.GoesLeft() then Cover(v.Left()) else [];
      var b := if v.GoesRight() then Cover(v.Right()) else [];
      if v.GoesLeft() { CoverTiles(v.Left()); }
      if v.GoesRight() { CoverTiles(v.Right()); }
      TilesConcat(a, b, v.left, Max(v.left, Min(v.Mid(), v.right)), v.right);
    }
  }

  /** A range that crosses the unit's end covers no node. */
  lemma {:induction false} WrappedCoversNothing(v: Visit)
    requires v.Valid() && v.left >= v.right
    ensures Cover(v) == []
    decreases v.Width()
  {
    if v.GoesLeft() { WrappedCoversNothing(v.Left()); }
    if v.GoesRight() { WrappedCoversNothing(v.Right()); }
  }

  /** How many covered and expanded nodes a visit has at level k, and covered nodes in all. */
  ghost function Covered(v: Visit, k: nat): nat requires v.Valid() { AtLevel(Cover(v), k) }

  ghost function Expansions(v: Visit, k: nat): nat requires v.Valid() { AtLevel(Expanded(v), k) }

  ghost function Total(v: Visit): nat requires v.Valid() { |Cover(v)| }

  lemma Step(v: Visit, k: nat)
    requires v.Valid()
    ensures v.Exact() ==>
      Covered(v, k) == (if k == v.level then 1 else 0) && Expansions(v, k) == 0 && Total(v) == 1
    ensures !v.Exact() ==>
      && Covered(v, k) == (if v.GoesLeft() then Covered(v.Left(), k) else 0)
                          + (if v.GoesRight() then Covered(v.Right(), k) else 0)
      && Expansions(v, k) == (if k == v.level then 1 else 0)
                             + (if v.GoesLeft() then Expansions(v.Left(), k) else 0)
                             + (if v.GoesRight() then Expansions(v.Right(), k) else 0)
      && Total(v) == (if v.GoesLeft() then Total(v.Left()) else 0)
                     + (if v.GoesRight() then Total(v.Right()) else 0)
  {
    AtLevelOne(v.AsNode(), k);
    if !v.Exact() {
      var a := if v.GoesLeft() then Cover(v.Left()) else [];
      var b := if v.GoesRight() then Cover(v.Right()) else [];
      AtLevelConcat(a, b, k);
      var c := if v.GoesLeft() then Expanded(v.Left()) else [];
      var d := if v.GoesRight() then Expanded(v.Right()) else [];
      AtLevelConcat([v.AsNode()] + c, d, k);
      AtLevelConcat([v.AsNode()], c, k);
    }
  }

  /** Nothing is visited above the starting level, and only an exact start is covered at it. */
  lemma {:induction false} NoneAbove(v: Visit, k: nat)
    requires v.Valid()
    ensures k > v.level ==> Covered(v, k) == 0 == Expansions(v, k)
    ensures k == v.level && !v.Exact() ==> Covered(v, k) == 0
    decreases v.Width()
  {
    hide Covered, Expansions, Total;
    Step(v, k);
    if v.GoesLeft() { NoneAbove(v.Left(), k); }
    if v.GoesRight() { NoneAbove(v.Right(), k); }
  }

  /** A range that touches one end of the node: at most one covered and one expanded node per
      level, and at most max(1, level) covered nodes in all. */
  lemma {:induction false} OneSided(v: Visit, k: nat)
    requires v.Valid() && v.left < v.right && (v.left == v.start || v.right == v.end)
    ensures Covered(v, k) <= 1 && Expansions(v, k) <= 1 && Total(v) <= Max(1, v.level)
    decreases v.Width()
  {
    hide Covered, Expansions, Total;
    Step(v, k);
    if v.GoesLeft() {
      OneSided(v.Left(), k);
      NoneAbove(v.Left(), k);
      Step(v.Left(), k);
    }
    if v.GoesRight() {
      OneSided(v.Right(), k);
      NoneAbove(v.Right(), k);
      Step(v.Right(), k);
    }
  }

  /** The canonical decomposition: the covered nodes partition the range, at most two are covered
      and two expanded per level, and at most max(1, 2 * level - 2) are covered in all. */
  lemma {:induction false} CanonicalDecomposition(v: Visit, k: nat)
    requires v.Valid() && v.left < v.right
    ensures Tiles(Cover(v), v.left, v.right)
    ensures AtLevel(Cover(v), k) <= 2 && AtLevel(Expanded(v), k) <= 2
    ensures |Cover(v)| <= Max(1, 2 * v.level - 2)
    decreases v.Width()
  {
    CoverTiles(v);
    AtMostTwo(v, k);
  }

  lemma {:induction false} AtMostTwo(v: Visit, k: nat)
    requires v.Valid() && v.left < v.right
    ensures Covered(v, k) <= 2 && Expansions(v, k) <= 2 && Total(v) <= Max(1, 2 * v.level - 2)
    decreases v.Width()
  {
    hide Covered, Expansions, Total;
    if v.left == v.start || v.right == v.end {
      OneSided(v, k);
    } else {
      Step(v, k);
      if v.GoesLeft() { NoneAbove(v.Left(), k); }
      if v.GoesRight() { NoneAbove(v.Right(), k); }
      if v.GoesLeft() && v.GoesRight() {
        OneSided(v.Left(), k);
        OneSided(v.Right(), k);
        assert v.level > 1;
      } else if v.GoesLeft() {
        AtMostTwo(v.Left(), k);
      } else {
        AtMostTwo(v.Right(), k);
      }
    }
  }

  /** A range expands at most 2 * level - 1 nodes, at most level if it touches an end of the node. */
  lemma {:induction false} FewExpanded(v: Visit)
    requires v.Valid() && v.left < v.right
    ensures |Expanded(v)| <= Max(0, 2 * v.level - 1)
    ensures v.left == v.start || v.right == v.end ==> |Expanded(v)| <= v.level
    decreases v.Width()
  {
    if !v.Exact() {
      if v.GoesLeft() { FewExpanded(v.Left()); }
      if v.GoesRight() { FewExpanded(v.Right()); }
    }
  }
}
