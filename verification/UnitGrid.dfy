// How both range sketches lay a storage unit out: blocks of unit_size bytes, the granules a byte
// range touches, the keys of tree nodes, and the number of levels the constructors reserve.
module UnitGrid {
  import opened Bits
  import opened CounterTable
  import opened RangeTree

  /** One record_access: n bytes at offset t of a unit. */
  datatype ByteAccess = ByteAccess(unit: nat, t: nat, n: nat)

  /** A block of unit_size bytes of a storage unit: its granules have keys from base upwards. */
  datatype Block = Block(unit: nat, base: nat) {
    function LazyKey(v: Visit): Key { Key(v.level, unit, base + v.start, true) }

    function DyadicKey(v: Visit): Key { Key(v.level, unit, base + v.start, false) }

    /** Keys of the nodes at or below v. */
    predicate Under(v: Visit, k: Key) {
      k.unit == unit && base + v.start <= k.id < base + v.end && k.level <= v.level
    }
  }

  /** The shape of a sketch: granules per block, and the level of the root. */
  datatype Grid = Grid(granules: nat, top: nat) {
    ghost predicate Valid() { 0 < granules <= Pow2(top) }

    function BlockAt(unit: nat, block: nat): Block { Block(unit, Times(block, granules)) }

    function Root(left: nat, right: nat): Visit { Visit(left, right, 0, granules, top) }

    ghost predicate Takes(left: nat, right: nat) { Root(left, right).Valid() }
  }

  /** (unit_size + granularity - 1) / granularity: the width of the root node. */
  function Granules(unitSize: nat, granularity: nat): nat
    requires granularity > 0
  {
    (unitSize + granularity - 1) / granularity
  }

  /** (t % unit_size) / granularity. */
  function LeftGranule(unitSize: nat, granularity: nat, t: nat): (l: nat)
    requires granularity > 0 && unitSize > 0
    ensures l < Granules(unitSize, granularity)
  {
    OffsetInRange(t % unitSize, unitSize, granularity);
    t % unitSize / granularity
  }

  /** ((t + size) % unit_size) / granularity: below LeftGranule when the access wraps. */
  function RightGranule(unitSize: nat, granularity: nat, t: nat, size: nat): (r: nat)
    requires granularity > 0 && unitSize > 0
    ensures r < Granules(unitSize, granularity)
  {
    OffsetInRange((t + size) % unitSize, unitSize, granularity);
    (t + size) % unitSize / granularity
  }

  /** The left end is the granule that holds the first byte's offset in its unit, and the right end the
      one that holds the offset of the byte after the last in its own, which is the next unit's when the
      range reaches the end of the unit. */
  lemma GranuleBounds(unitSize: nat, granularity: nat, t: nat, size: nat)
    requires granularity > 0 && unitSize > 0
    ensures
      var l, r, after := LeftGranule(unitSize, granularity, t), RightGranule(unitSize, granularity, t, size),
                         (t + size) % unitSize;
      && l * granularity <= t % unitSize < (l + 1) * granularity
      && r * granularity <= after < (r + 1) * granularity
      && (size <= unitSize ==>
            after == t % unitSize + size - if t % unitSize + size < unitSize then 0 else unitSize)
  {
    QuotientBounds(t % unitSize, granularity);
    QuotientBounds((t + size) % unitSize, granularity);
    if size <= unitSize { Wraps(unitSize, t, size); }
  }

  lemma Wraps(unitSize: nat, t: nat, size: nat)
    requires size <= unitSize && unitSize > 0
    ensures (t + size) % unitSize == t % unitSize + size - if t % unitSize + size < unitSize then 0 else unitSize
  {
    var q, x := t / unitSize, t % unitSize;
    assert t == q * unitSize + x;
    if x + size < unitSize {
      DivModUnique(t + size, unitSize, q, x + size);
    } else {
      assert (q + 1) * unitSize == q * unitSize + unitSize;
      DivModUnique(t + size, unitSize, q + 1, x + size - unitSize);
    }
  }

  lemma QuotientBounds(x: nat, d: nat)
    requires d > 0
    ensures x / d * d <= x < (x / d + 1) * d
  {
    assert x == x / d * d + x % d;
    assert (x / d + 1) * d == x / d * d + d;
  }

  /** No access and no query ever covers the last granule of a unit: one that ends with the unit wraps
      around to its start. */
  lemma LastGranuleNeverCovered(unitSize: nat, granularity: nat, t: nat, size: nat)
    requires granularity > 0 && unitSize > 0
    ensures RightGranule(unitSize, granularity, t, size) <= Granules(unitSize, granularity) - 1
    ensures t % unitSize + size == unitSize ==> RightGranule(unitSize, granularity, t, size) == 0
  {
    if t % unitSize + size == unitSize {
      var q := t / unitSize;
      assert t + size == (q + 1) * unitSize;
      DivModUnique(t + size, unitSize, q + 1, 0);
      DivModUnique(0, granularity, 0, 0);
    }
  }

  /** The number of the block that holds offset t. */
  function BlockIndex(unitSize: nat, t: nat): nat
    requires unitSize > 0
  {
    t / unitSize
  }

  lemma OffsetInRange(x: nat, unitSize: nat, granularity: nat)
    requires granularity > 0 && x < unitSize
    ensures 0 <= x / granularity < (unitSize + granularity - 1) / granularity
  {
    var q, r := x / granularity, x % granularity;
    assert x == q * granularity + r;
    assert (q + 1) * granularity == q * granularity + granularity;
    AtLeastQuotient(unitSize + granularity - 1, granularity, q + 1);
  }

  lemma AtLeastQuotient(n: nat, d: nat, q: nat)
    requires d > 0 && q * d <= n
    ensures q <= n / d
  {
    var p := n / d;
    assert n == p * d + n % d;
    if p < q {
      assert (q - p) * d == q * d - p * d;
      MulAtLeast(q - p, d);
    }
  }

  /** log2(nearest_power_of_two(unit_size / granularity)) + 1, where the quotient is narrowed to a
      uint32_t on the way. No level is reserved when the rounding gives 0: log2(0) is minus
      infinity, which no int can hold. */
  function Levels(unitSize: nat, granularity: nat): nat
    requires granularity > 0
  {
    LevelsOf(RoundedUp(AsUint32(unitSize / granularity)))
  }

  /** log2(p) + 1 as an int. */
  function LevelsOf(p: nat): nat { if p == 0 then 0 else Log2(p) + 1 }

  ghost predicate IsPow2(n: nat) { exists k: nat :: n == Pow2(k) }

  /** The units that the sketches can work on: at least one granule, a root node whose end fits an
      int, and no level missing. */
  ghost predicate Fits(unitSize: nat, granularity: nat)
    requires granularity > 0
  {
    && granularity <= unitSize
    && Granules(unitSize, granularity) <= INT_MAX
    && (unitSize % granularity == 0 || !IsPow2(unitSize / granularity))
  }

  lemma LevelsOfQuotient(unitSize: nat, granularity: nat)
    requires granularity > 0 && 1 <= unitSize / granularity <= WORD / 2
    ensures Levels(unitSize, granularity) == CeilLog2(unitSize / granularity) + 1
  {
    hide CeilLog2, Log2;
    Log2Exact(CeilLog2(unitSize / granularity));
  }

  /** For the quotients that the rounding is made for, the reserved levels hold the whole tree
      exactly when granularity divides the unit or the number of whole granules is not a power of
      two; otherwise the root is wider by one granule than the deepest tree they hold. */
  lemma LevelsSuffice(unitSize: nat, granularity: nat)
    requires granularity > 0 && 1 <= unitSize / granularity <= WORD / 2
    ensures Levels(unitSize, granularity) > 0
    ensures Granules(unitSize, granularity) <= Pow2(Levels(unitSize, granularity) - 1)
       <==> unitSize % granularity == 0 || !IsPow2(unitSize / granularity)
    ensures Granules(unitSize, granularity) <= Pow2(Levels(unitSize, granularity) - 1) + 1
  {
    hide Granules, Levels;
    WholeOrOneMore(unitSize, granularity);
    LevelsOfQuotient(unitSize, granularity);
    var q := unitSize / granularity;
    if IsPow2(q) {
      var j: nat :| q == Pow2(j);
      LeastPowerOfTwo(q, j);
    }
  }

  lemma SomeGranule(n: nat, granularity: nat)
    requires n > 0 && granularity > 0
    ensures Granules(n, granularity) > 0
  {
    AtLeastQuotient(n + granularity - 1, granularity, 1);
  }

  /** The tree of a unit, with `levels` levels reserved. */
  function GridOf(unitSize: nat, granularity: nat, levels: nat): Grid
    requires granularity > 0
  {
    Grid(Granules(unitSize, granularity), Max(levels - 1, 0))
  }

  /** So many levels hold the tree of a unit: it has granules, an int can count them, and the root is
      no wider than the deepest tree. */
  ghost predicate Holds(unitSize: nat, granularity: nat, levels: nat) {
    && granularity > 0 && unitSize > 0 && levels > 0
    && Granules(unitSize, granularity) <= INT_MAX
    && Granules(unitSize, granularity) <= Pow2(levels - 1)
  }

  lemma NoLevels(unitSize: nat, granularity: nat)
    ensures !Holds(unitSize, granularity, 0)
  {}

  /** The tree theorems apply then. */
  lemma HoldsIsValid(unitSize: nat, granularity: nat, levels: nat)
    requires Holds(unitSize, granularity, levels)
    ensures GridOf(unitSize, granularity, levels).Valid()
  {
    SomeGranule(unitSize, granularity);
  }

  /** The levels that are reserved for a unit hold its own tree exactly when the unit fits. */
  lemma FitsIsHeld(unitSize: nat, granularity: nat)
    requires granularity > 0
    ensures Fits(unitSize, granularity) <==> Holds(unitSize, granularity, Levels(unitSize, granularity))
  {
    if granularity > unitSize {
      DivModUnique(unitSize, granularity, 0, unitSize);
    } else if Granules(unitSize, granularity) <= INT_MAX {
      hide Granules, Levels;
      AtLeastQuotient(unitSize, granularity, 1);
      WholeOrOneMore(unitSize, granularity);
      LevelsSuffice(unitSize, granularity);
    }
  }

  lemma WholeOrOneMore(unitSize: nat, granularity: nat)
    requires granularity > 0
    ensures Granules(unitSize, granularity)
         == unitSize / granularity + (if unitSize % granularity == 0 then 0 else 1)
  {
    var q, r := unitSize / granularity, unitSize % granularity;
    assert unitSize == q * granularity + r;
    if r == 0 {
      DivModUnique(unitSize + granularity - 1, granularity, q, granularity - 1);
    } else {
      assert (q + 1) * granularity == q * granularity + granularity;
      DivModUnique(unitSize + granularity - 1, granularity, q + 1, r - 1);
    }
  }
}
