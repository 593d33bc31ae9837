// range_frequency_sketch: one exact 16-bit counter per granule of a unit, and how it compares
// with interval_sketch.
module RangeFrequencySketchClass {
  import opened Bits
  import opened PackedWord
  import opened CounterTable
  import opened RangeTree
  import opened UnitGrid
  import opened IntervalRange

  const HALFWORD := 0x1_0000  // number of uint16_t values

  /** The granules an access counts: ceil(n / granularity) of them, from that of t on. */
  function First(unitSize: nat, granularity: nat, a: ByteAccess): nat
    requires unitSize > 0 && granularity > 0
  {
    LeftGranule(unitSize, granularity, a.t)
  }

  predicate Counts(unitSize: nat, granularity: nat, a: ByteAccess, unit: nat, i: nat)
    requires unitSize > 0 && granularity > 0
  {
    && a.unit == unit
    && First(unitSize, granularity, a) <= i < First(unitSize, granularity, a) + Granules(a.n, granularity)
  }

  /** The number of accesses that counted granule i of the unit. */
  ghost function Hits(unitSize: nat, granularity: nat, h: seq<ByteAccess>, unit: nat, i: nat): nat
    requires unitSize > 0 && granularity > 0
  {
    if h == [] then 0
    else
      Hits(unitSize, granularity, h[..|h| - 1], unit, i)
      + (if Counts(unitSize, granularity, h[|h| - 1], unit, i) then 1 else 0)
  }

  lemma HitsLast(unitSize: nat, granularity: nat, h: seq<ByteAccess>, a: ByteAccess, unit: nat, i: nat)
    requires unitSize > 0 && granularity > 0
    ensures Hits(unitSize, granularity, h + [a], unit, i)
         == Hits(unitSize, granularity, h, unit, i) + (if Counts(unitSize, granularity, a, unit, i) then 1 else 0)
  {
    assert (h + [a])[..|h|] == h;
  }

  /** The sum of the 16-bit counters of granules [l, r). */
  ghost function CounterSum(unitSize: nat, granularity: nat, h: seq<ByteAccess>, unit: nat, l: nat, r: nat): nat
    requires unitSize > 0 && granularity > 0
    decreases r - l
  {
    if l >= r then 0
    else CounterSum(unitSize, granularity, h, unit, l, r - 1) + Hits(unitSize, granularity, h, unit, r - 1) % HALFWORD
  }

  class RangeFrequencySketch {
    const granularity: nat
    const unitSize: nat

    var table: seq<nat>  // sized, but never read
    var unitAccFreq: map<nat, seq<nat>>
    var size: nat
    ghost var history: seq<ByteAccess>

    ghost predicate Valid()
      reads this
    {
      && granularity > 0 && unitSize > 0
      && (forall u, i :: u in unitAccFreq && 0 <= i < |unitAccFreq[u]| ==>
            unitAccFreq[u][i] == Hits(unitSize, granularity, history, u, i) % HALFWORD)
      && (forall u :: u in unitAccFreq ==> |unitAccFreq[u]| == Granules(unitSize, granularity))
      && (forall u, i {:trigger Hits(unitSize, granularity, history, u, i)} ::
            u !in unitAccFreq ==> Hits(unitSize, granularity, history, u, i) == 0)
    }

    /** Where change_capacity throws there is no object to use, and no table is allocated. */
    constructor (capacity: int, granularity: nat, unitSize: nat)
      requires granularity > 0 && unitSize > 0 && capacity <= INT_MAX
      ensures this.granularity == granularity && this.unitSize == unitSize
      ensures Valid() && history == [] && size == 0
      ensures table != [] <==> capacity > 0
    {
      this.granularity, this.unitSize := granularity, unitSize;
      table, unitAccFreq, size, history := [], map[], 0, [];
      new;
      var ok := ChangeCapacity(capacity);
    }

    /** change_capacity: false stands for the exception on n <= 0. The counters of the units stay. */
    method ChangeCapacity(n: int) returns (ok: bool)
      requires Valid() && n <= INT_MAX
      modifies this`table, this`size
      ensures Valid() && (ok <==> n > 0)
      ensures !ok ==> unchanged(this)
      ensures ok ==> size == 0 && table == Resized(old(table), Pow2(CeilLog2(n)))
    {
      hide CeilLog2, Resized, Granules, Hits;
      if n <= 0 { return false; }
      var tableSize := NearestPowerOfTwo(n);
      table, size := Resized(table, tableSize), 0;
      return true;
    }

    /** record_access: every counter of the access goes up by one, modulo 2^16. The code does not check
        its index: `inside` tells whether the granules lie in the unit, and of a write past the vector
        nothing is said. */
    method RecordAccess(unit: nat, t: nat, n: nat) returns (inside: bool)
      requires Valid()
      modifies this
      ensures inside <==>
        LeftGranule(unitSize, granularity, t) + Granules(n, granularity) <= Granules(unitSize, granularity)
      ensures inside ==>
        Valid() && history == old(history) + [ByteAccess(unit, t, n)] && size == old(size) + Granules(n, granularity)
    {
      hide Granules, LeftGranule, Hits, Counts;
      var cnt := Granules(n, granularity);
      var start := LeftGranule(unitSize, granularity, t);
      ghost var a := ByteAccess(unit, t, n);
      if unit !in unitAccFreq {
        unitAccFreq := unitAccFreq[unit := seq(Granules(unitSize, granularity), _ => 0)];
      }
      var counters;
      counters, inside := CountUp(unitAccFreq[unit], start, cnt);
      unitAccFreq := unitAccFreq[unit := counters];
      size := size + cnt;
      history := history + [a];
      forall u, i
        ensures Hits(unitSize, granularity, history, u, i)
             == Hits(unitSize, granularity, old(history), u, i)
                + (if Counts(unitSize, granularity, a, u, i) then 1 else 0)
      {
        HitsLast(unitSize, granularity, old(history), a, u, i);
      }
      forall u, i
        ensures Counts(unitSize, granularity, a, u, i) <==> u == unit && start <= i < start + cnt
      {
        CountsAre(unitSize, granularity, a, u, i);
      }
    }

    /** The loop of record_access over the counters of one unit, up to the end of the vector. */
    static method CountUp(counters: seq<nat>, start: nat, cnt: nat) returns (r: seq<nat>, inside: bool)
      requires start <= |counters|
      ensures inside <==> start + cnt <= |counters|
      ensures |r| == |counters|
      ensures forall k :: 0 <= k < |r| ==>
        r[k] == if start <= k < start + cnt then (counters[k] + 1) % HALFWORD else counters[k]
    {
      r := counters;
      for i := start to start + cnt
        invariant i <= |counters| && |r| == |counters|
        invariant forall k :: 0 <= k < |r| ==>
          r[k] == if start <= k < i then (counters[k] + 1) % HALFWORD else counters[k]
      {
        if i == |counters| { return r, false; }
        r := r[i := (r[i] + 1) % HALFWORD];
      }
      return r, true;
    }

    /** frequency: the sum of the counters of the granules from that of t on; zero for a unit never
        recorded. `inside` tells whether no counter past the vector is read. */
    method Frequency(unit: nat, t: nat, n: nat) returns (sum: nat, inside: bool)
      requires Valid()
      ensures inside <==>
        || unit !in unitAccFreq
        || LeftGranule(unitSize, granularity, t) + Granules(n, granularity) <= Granules(unitSize, granularity)
      ensures
        var l := LeftGranule(unitSize, granularity, t);
        inside ==> sum == CounterSum(unitSize, granularity, history, unit, l, l + Granules(n, granularity))
    {
      hide Granules, LeftGranule, Hits;
      var cnt := Granules(n, granularity);
      var start := LeftGranule(unitSize, granularity, t);
      sum := 0;
      if unit in unitAccFreq {
        for i := start to cnt + start
          invariant i <= |unitAccFreq[unit]|
          invariant sum == CounterSum(unitSize, granularity, history, unit, start, i)
        {
          if i == |unitAccFreq[unit]| { return sum, false; }
          sum := sum + unitAccFreq[unit][i];
        }
      } else {
        NoCounters(unitSize, granularity, history, unit, start, start + cnt);
      }
      return sum, true;
    }
  }

  lemma CountsAre(unitSize: nat, granularity: nat, a: ByteAccess, unit: nat, i: nat)
    requires unitSize > 0 && granularity > 0
    ensures Counts(unitSize, granularity, a, unit, i) <==>
      && a.unit == unit
      && LeftGranule(unitSize, granularity, a.t) <= i
      && i < LeftGranule(unitSize, granularity, a.t) + Granules(a.n, granularity)
  {}

  /** In bytes: an access counts the granules that end after its first byte and begin before `n` bytes
      from the start of that byte's granule. */
  lemma CountsInBytes(unitSize: nat, granularity: nat, a: ByteAccess, unit: nat, i: nat)
    requires unitSize > 0 && granularity > 0
    ensures Counts(unitSize, granularity, a, unit, i) <==>
      && a.unit == unit
      && a.t % unitSize < (i + 1) * granularity
      && i * granularity < a.t % unitSize - a.t % unitSize % granularity + a.n
  {
    var x := a.t % unitSize;
    var first := x / granularity;
    assert x - x % granularity == first * granularity;
    QuotientBounds(x, granularity);
    CountsAre(unitSize, granularity, a, unit, i);
    assert LeftGranule(unitSize, granularity, a.t) == first;
    hide Counts, LeftGranule, Granules;
    if first <= i {
      MulMonotone(first + 1, i + 1, granularity);
      BelowCeiling(i - first, a.n, granularity);
      assert (i - first) * granularity == i * granularity - first * granularity;
    } else {
      MulMonotone(i + 1, first, granularity);
    }
  }

  lemma BelowCeiling(k: nat, n: nat, g: nat)
    requires g > 0
    ensures k < Granules(n, g) <==> k * g < n
  {
    var q, r := (n + g - 1) / g, (n + g - 1) % g;
    assert n + g - 1 == q * g + r;
    if k < q {
      MulMonotone(k + 1, q, g);
      assert (k + 1) * g == k * g + g;
    } else {
      MulMonotone(q, k, g);
    }
  }

  lemma {:induction false} NoCounters(unitSize: nat, granularity: nat, h: seq<ByteAccess>, unit: nat, l: nat, r: nat)
    requires unitSize > 0 && granularity > 0
    requires forall i {:trigger Hits(unitSize, granularity, h, unit, i)} :: Hits(unitSize, granularity, h, unit, i) == 0
    ensures CounterSum(unitSize, granularity, h, unit, l, r) == 0
    decreases r - l
  {
    if l < r { NoCounters(unitSize, granularity, h, unit, l, r - 1); }
  }

  // ------------------------------------------------------------ against interval_sketch

  /** interval_sketch touches every granule that range_frequency_sketch counts exactly when the
      access ends on a granule boundary or its odd bytes reach into a further granule. */
  lemma TouchesAllCounted(unitSize: nat, granularity: nat, a: ByteAccess)
    requires unitSize > 0 && granularity > 0 && a.t % unitSize + a.n < unitSize
    ensures First(unitSize, granularity, a) + Granules(a.n, granularity)
         <= RightGranule(unitSize, granularity, a.t, a.n)
       <==> a.n % granularity == 0 || a.t % unitSize % granularity + a.n % granularity >= granularity
  {
    NoWrap(unitSize, a.t, a.n);
    SumQuotient(a.t % unitSize, a.n, granularity);
    CeilQuotient(a.n, granularity);
  }

  lemma SumQuotient(x: nat, n: nat, g: nat)
    requires g > 0
    ensures (x + n) / g == x / g + n / g + (if x % g + n % g >= g then 1 else 0)
  {
    var p, b, c, d := x / g, x % g, n / g, n % g;
    assert x == p * g + b && n == c * g + d;
    assert (p + c) * g == p * g + c * g && (p + c + 1) * g == p * g + c * g + g;
    if b + d >= g {
      DivModUnique(x + n, g, p + c + 1, b + d - g);
    } else {
      DivModUnique(x + n, g, p + c, b + d);
    }
  }

  lemma CeilQuotient(n: nat, g: nat)
    requires g > 0
    ensures (n + g - 1) / g == n / g + (if n % g == 0 then 0 else 1)
  {
    WholeOrOneMore(n, g);
  }

  lemma NoWrap(unitSize: nat, t: nat, n: nat)
    requires unitSize > 0 && t % unitSize + n < unitSize
    ensures (t + n) % unitSize == t % unitSize + n
  {
    var q := t / unitSize;
    assert t == q * unitSize + t % unitSize;
    DivModUnique(t + n, unitSize, q, t % unitSize + n);
  }

  /** Accesses of the unit stay in the one block and are aligned as TouchesAllCounted asks. */
  ghost predicate Comparable(unitSize: nat, granularity: nat, h: seq<ByteAccess>, unit: nat, block: nat)
    requires unitSize > 0 && granularity > 0
  {
    forall a :: a in h && a.unit == unit ==>
      && a.t / unitSize == block && a.t % unitSize + a.n < unitSize
      && (a.n % granularity == 0 || a.t % unitSize % granularity + a.n % granularity >= granularity)
  }

  ghost function AsOps(unitSize: nat, granularity: nat, h: seq<ByteAccess>): seq<Op>
    requires unitSize > 0 && granularity > 0
  {
    if h == [] then [] else AsOps(unitSize, granularity, h[..|h| - 1]) + [AsTouch(unitSize, granularity, h[|h| - 1])]
  }

  /** A counted granule is a touched one, for a comparable access. */
  lemma CountedIsTouched(unitSize: nat, granularity: nat, a: ByteAccess, unit: nat, i: nat)
    requires unitSize > 0 && granularity > 0 && Counts(unitSize, granularity, a, unit, i)
    requires a.t % unitSize + a.n < unitSize
    requires a.n % granularity == 0 || a.t % unitSize % granularity + a.n % granularity >= granularity
    ensures LeftGranule(unitSize, granularity, a.t) <= i < RightGranule(unitSize, granularity, a.t, a.n)
  {
    TouchesAllCounted(unitSize, granularity, a);
  }

  lemma CountLastTouch(unitSize: nat, granularity: nat, h: seq<ByteAccess>, unit: nat, block: nat, i: nat)
    requires unitSize > 0 && granularity > 0 && h != []
    ensures
      var n := GranuleCount(AsOps(unitSize, granularity, h[..|h| - 1]), unit, block, i);
      var a := AsTouch(unitSize, granularity, h[|h| - 1]);
      GranuleCount(AsOps(unitSize, granularity, h), unit, block, i)
      == if a.unit == unit && a.block == block && a.left <= i < a.right then Capped(n + 1) else n
  {
    hide LeftGranule, RightGranule;
    var front, last := AsOps(unitSize, granularity, h[..|h| - 1]), AsTouch(unitSize, granularity, h[|h| - 1]);
    var ops := AsOps(unitSize, granularity, h);
    assert ops == front + [last] && ops[..|ops| - 1] == front;
  }

  lemma {:induction false} GranuleAtLeastHits(unitSize: nat, granularity: nat, h: seq<ByteAccess>, unit: nat,
                                              block: nat, i: nat)
    requires unitSize > 0 && granularity > 0 && Comparable(unitSize, granularity, h, unit, block)
    ensures GranuleCount(AsOps(unitSize, granularity, h), unit, block, i)
         >= Capped(Hits(unitSize, granularity, h, unit, i))
  {
    hide LeftGranule, RightGranule, Granules, First, Counts, GranuleCount, AsOps;
    if h != [] {
      var front, a := h[..|h| - 1], h[|h| - 1];
      assert a in h && forall x :: x in front ==> x in h;
      GranuleAtLeastHits(unitSize, granularity, front, unit, block, i);
      CountLastTouch(unitSize, granularity, h, unit, block, i);
      if Counts(unitSize, granularity, a, unit, i) {
        OfUnit(unitSize, granularity, a, unit, i);
        CountedIsTouched(unitSize, granularity, a, unit, i);
      }
    }
  }

  lemma OfUnit(unitSize: nat, granularity: nat, a: ByteAccess, unit: nat, i: nat)
    requires unitSize > 0 && granularity > 0 && Counts(unitSize, granularity, a, unit, i)
    ensures a.unit == unit
  {}

  /** The sum over [l, r) of the 16-bit counters, each cut at 15. */
  ghost function CappedSum(unitSize: nat, granularity: nat, h: seq<ByteAccess>, unit: nat, l: nat, r: nat): nat
    requires unitSize > 0 && granularity > 0
    decreases r - l
  {
    if l >= r then 0
    else
      Capped(Hits(unitSize, granularity, h, unit, l) % HALFWORD)
      + CappedSum(unitSize, granularity, h, unit, l + 1, r)
  }

  lemma {:induction false} SumsDominate(unitSize: nat, granularity: nat, h: seq<ByteAccess>, unit: nat,
                                        block: nat, l: nat, r: nat)
    requires unitSize > 0 && granularity > 0 && Comparable(unitSize, granularity, h, unit, block)
    ensures CappedSum(unitSize, granularity, h, unit, l, r)
         <= GranuleSum(AsOps(unitSize, granularity, h), unit, block, l, r)
    decreases r - l
  {
    hide Hits, GranuleCount, AsOps, Comparable;
    if l < r {
      GranuleAtLeastHits(unitSize, granularity, h, unit, block, l);
      SumsDominate(unitSize, granularity, h, unit, block, l + 1, r);
    }
  }

  /** Without resets, an interval_sketch query is at least the sum of the exact 16-bit counters of
      range_frequency_sketch, each cut at 15. */
  lemma IntervalDominates(unitSize: nat, granularity: nat, h: seq<ByteAccess>, lay: Layout, t: Tables, g: Grid,
                          unit: nat, block: nat, l: nat, r: nat)
    requires unitSize > 0 && granularity > 0 && Comparable(unitSize, granularity, h, unit, block)
    requires AllTaken(g, AsOps(unitSize, granularity, h))
    requires Represents(lay, t, LogOf(g, AsOps(unitSize, granularity, h)))
    requires g.top < |lay.sizes| && g.Takes(l, r) && l < r
    ensures CappedSum(unitSize, granularity, h, unit, l, r) <= Estimate(lay, t, g.BlockAt(unit, block), g.Root(l, r))
  {
    hide Comparable, AsOps, LogOf, Represents, Estimate, GranuleSum, CappedSum;
    SumsDominate(unitSize, granularity, h, unit, block, l, r);
    NeverUnderestimates(lay, t, g, AsOps(unitSize, granularity, h), unit, block, l, r);
  }
}
