// hierarchical_frequency_sketch: a flat table of packed counters keyed by (flow, granule), aged
// by resets and queried for the average over a range of granules.
module HierarchicalSketchClass {
  import opened Bits
  import opened PackedWord
  import opened CounterTable
  import opened CountMinLaws
  import opened UnitGrid

  /** The bumps of one record_access: the granules from start on, cnt of them, one apart. */
  function GranuleBumps(flow: nat, start: nat, granularity: nat, cnt: nat): seq<Event> {
    if cnt == 0 then []
    else GranuleBumps(flow, start, granularity, cnt - 1) + [Bump(GranuleKey(flow, start, granularity, cnt - 1))]
  }

  function GranuleKey(flow: nat, start: nat, granularity: nat, i: nat): Key {
    Key(0, flow, start + i * granularity, false)
  }

  /** The sum of the exact capped, aged counts of the granules. */
  ghost function ExactSum(log: seq<Event>, flow: nat, start: nat, granularity: nat, cnt: nat): nat {
    if cnt == 0 then 0
    else ExactSum(log, flow, start, granularity, cnt - 1) + Exact(log, GranuleKey(flow, start, granularity, cnt - 1))
  }

  /** The least, over the four rows, of the capped, aged number of bumps that reach the key's counter. */
  ghost function LeastCell(lay: Layout, log: seq<Event>, k: Key): (n: nat)
    requires k.level < |lay.sizes|
    ensures n <= LIMIT
    ensures forall j :: 0 <= j < 4 ==> n <= Count(lay, log, lay.Place(k, j))
    ensures exists j :: 0 <= j < 4 && n == Count(lay, log, lay.Place(k, j))
  {
    Min(Min(Count(lay, log, lay.Place(k, 0)), Count(lay, log, lay.Place(k, 1))),
        Min(Count(lay, log, lay.Place(k, 2)), Count(lay, log, lay.Place(k, 3))))
  }

  ghost function CellSum(lay: Layout, log: seq<Event>, flow: nat, start: nat, granularity: nat, cnt: nat): nat
    requires |lay.sizes| > 0
  {
    if cnt == 0 then 0
    else
      CellSum(lay, log, flow, start, granularity, cnt - 1)
      + LeastCell(lay, log, GranuleKey(flow, start, granularity, cnt - 1))
  }

  /** One more granule in the sum, with the key that the loop has reached. */
  lemma CellSumNext(lay: Layout, log: seq<Event>, flow: nat, start: nat, granularity: nat, i: nat, at: nat)
    requires |lay.sizes| > 0 && at == start + Times(i, granularity)
    ensures at + granularity == start + Times(i + 1, granularity)
    ensures CellSum(lay, log, flow, start, granularity, i + 1)
         == CellSum(lay, log, flow, start, granularity, i) + LeastCell(lay, log, Key(0, flow, at, false))
  {
    hide LeastCell;
    assert (i + 1) * granularity == i * granularity + granularity;
  }

  lemma NoCells(lay: Layout, log: seq<Event>, flow: nat, start: nat, granularity: nat)
    requires |lay.sizes| > 0
    ensures CellSum(lay, log, flow, start, granularity, 0) == 0 && Times(0, granularity) == 0
  {}

  lemma ReadsLeastCell(lay: Layout, t: Tables, log: seq<Event>, k: Key)
    requires Represents(lay, t, log) && k.level < |lay.sizes|
    ensures RowMin(lay, t, k) == LeastCell(lay, log, k)
    ensures Exact(log, k) <= LeastCell(lay, log, k)
  {
    RowReads(lay, t, log, k, 0);
    RowReads(lay, t, log, k, 1);
    RowReads(lay, t, log, k, 2);
    RowReads(lay, t, log, k, 3);
    NeverUnder(lay, t, log, k);
    hide ReadRow, Represents, Count, Layout.Place;
  }

  /** Every granule asked for has such a row. */
  ghost predicate AllPrivate(lay: Layout, log: seq<Event>, flow: nat, start: nat, granularity: nat, cnt: nat)
    requires |lay.sizes| > 0
  {
    forall i: nat :: i < cnt ==> PrivateKey(lay, log, GranuleKey(flow, start, granularity, i))
  }

  /** Then every least cell is the exact count. */
  lemma {:induction false} CellsAreExact(lay: Layout, log: seq<Event>, flow: nat, start: nat, granularity: nat,
                                         cnt: nat)
    requires |lay.sizes| > 0
    ensures ExactSum(log, flow, start, granularity, cnt) <= CellSum(lay, log, flow, start, granularity, cnt)
    ensures CellSum(lay, log, flow, start, granularity, cnt) <= LIMIT * cnt
    ensures AllPrivate(lay, log, flow, start, granularity, cnt) ==>
      CellSum(lay, log, flow, start, granularity, cnt) == ExactSum(log, flow, start, granularity, cnt)
  {
    hide Exact, LeastCell, PrivateKey, GranuleKey;
    if cnt > 0 {
      CellsAreExact(lay, log, flow, start, granularity, cnt - 1);
      var k := GranuleKey(flow, start, granularity, cnt - 1);
      LevelZero(flow, start, granularity, cnt - 1);
      LeastIsAbove(lay, log, k);
      if PrivateKey(lay, log, k) { PrivateIsExact(lay, log, k); }
    }
  }

  lemma PrivateIsExact(lay: Layout, log: seq<Event>, k: Key)
    requires k.level < |lay.sizes| && PrivateKey(lay, log, k)
    ensures LeastCell(lay, log, k) == Exact(log, k)
  {
    hide Exact, CollisionFree, Count, LeastCell, Layout.Place;
    var j: nat :| j < 4 && CollisionFree(lay, log, k, j);
    CleanRow(lay, log, k, j);
    LeastIsAbove(lay, log, k);
  }

  lemma LevelZero(flow: nat, start: nat, granularity: nat, i: nat)
    ensures GranuleKey(flow, start, granularity, i).level == 0
  {}

  lemma LeastIsAbove(lay: Layout, log: seq<Event>, k: Key)
    requires k.level < |lay.sizes|
    ensures Exact(log, k) <= LeastCell(lay, log, k)
  {
    hide Exact, Count, Layout.Place;
    RowNotBelow(lay, log, k, 0);
    RowNotBelow(lay, log, k, 1);
    RowNotBelow(lay, log, k, 2);
    RowNotBelow(lay, log, k, 3);
  }

  lemma QuotientMonotone(x: nat, y: nat, d: nat)
    requires d > 0 && x <= y
    ensures x / d <= y / d
  {
    var p, q := x / d, y / d;
    assert x == p * d + x % d && y == q * d + y % d;
    if q < p {
      assert (p - q) * d == p * d - q * d;
      MulAtLeast(p - q, d);
    }
  }

  lemma QuotientBound(x: nat, c: nat, d: nat)
    requires d > 0 && x <= c * d
    ensures x / d <= c
  {
    QuotientMonotone(x, c * d, d);
    DivModUnique(c * d, d, c, 0);
  }

  lemma AverageBetween(low: nat, sum: nat, cnt: nat)
    requires cnt > 0 && low <= sum <= LIMIT * cnt
    ensures low / cnt <= sum / cnt <= LIMIT
  {
    QuotientMonotone(low, sum, cnt);
    QuotientBound(sum, LIMIT, cnt);
  }

  class HierarchicalSketch {
    const granularity: nat
    const hash: (nat, int) -> nat
    const index: (nat, nat, nat) -> nat

    var table: Tables  // a single level
    var layout: Layout
    var size: nat
    ghost var log: seq<Event>

    ghost predicate Valid()
      reads this
    {
      && granularity > 0
      && InRange(index) && |layout.sizes| == 1 && layout == Layout(hash, index, true, layout.sizes)
      && Represents(layout, table, log)
    }

    /** The table has one level, and is as long as the layout says: so of every valid sketch. */
    ghost predicate Flat()
      reads this
    {
      && InRange(index) && |table| == 1 && layout == Layout(hash, index, true, [|table[0]|])
      && Shaped(layout.sizes, table)
    }

    /** Where change_capacity throws there is no object to use, and the table stays empty. */
    constructor (capacity: int, granularity: nat, hash: (nat, int) -> nat, index: (nat, nat, nat) -> nat)
      requires capacity <= INT_MAX && InRange(index) && granularity > 0
      ensures this.granularity == granularity && this.hash == hash && this.index == index && log == [] && size == 0
      ensures Valid() <==> capacity > 0
    {
      this.granularity, this.hash, this.index := granularity, hash, index;
      table, layout, size, log := [[]], Layout(hash, index, true, [0]), 0, [];
      new;
      var ok := ChangeCapacity(capacity);
    }

    /** change_capacity: false stands for the exception on n <= 0. The words are kept, cut off or
        followed by zeros. On an empty table the sketch becomes valid; a size that rounds up to the
        present one keeps it valid, with all its counts. */
    method ChangeCapacity(n: int) returns (ok: bool)
      requires granularity > 0 && Flat() && n <= INT_MAX
      modifies this`table, this`layout, this`size
      ensures ok <==> n > 0
      ensures !ok ==> unchanged(this)
      ensures ok ==> Flat() && size == 0 && table[0] == Resized(old(table[0]), Pow2(CeilLog2(n)))
      ensures ok && old(table[0]) == [] && log == [] ==> Valid()
      ensures ok && old(Valid()) && |old(table[0])| == Pow2(CeilLog2(n)) ==> Valid()
    {
      hide CeilLog2, ReadCell, Resized;
      if n <= 0 { return false; }
      var tableSize := NearestPowerOfTwo(n);
      ResizedReads(table[0], tableSize);
      assert layout.sizes == [|table[0]|] && table == [table[0]];
      table := [Resized(table[0], tableSize)];
      layout, size := Layout(hash, index, true, [tableSize]), 0;
      if old(table[0]) == [] { FreshRepresents(layout, table); }
      ok := true;
    }

    /** record_access: one bump for each granule from that of t on. */
    method RecordAccess(flow: nat, t: nat, n: nat)
      requires Valid()
      modifies this`table, this`log, this`size
      ensures Valid() && layout == old(layout)
      ensures
        var cnt := Granules(n, granularity);
        log == old(log) + GranuleBumps(flow, t / granularity * granularity, granularity, cnt) && size == old(size) + cnt
    {
      hide Represents, SameCounters, RowMin, Granules, Shaped;
      var cnt := Granules(n, granularity);
      var start := t / granularity * granularity;
      var at := start;
      for i := 0 to cnt
        invariant Valid() && size == old(size)
        invariant at == start + i * granularity
        invariant log == old(log) + GranuleBumps(flow, start, granularity, i)
      {
        var wasAdded;
        table, wasAdded := Raise(layout, table, Key(0, flow, at, false), log);
        log := log + [Bump(Key(0, flow, at, false))];
        assert (i + 1) * granularity == i * granularity + granularity;
        at := at + granularity;
      }
      size := size + cnt;
    }

    /** frequency: the average, rounded down, of the least of each granule's four cells. So it lies between
        the average of the exact counts and 15, and is the former when every granule has a private row. */
    method Frequency(flow: nat, t: nat, n: nat) returns (f: nat)
      requires Valid() && n > 0
      ensures
        var cnt, start := Granules(n, granularity), t / granularity * granularity;
        && cnt > 0
        && f == CellSum(layout, log, flow, start, granularity, cnt) / cnt
        && ExactSum(log, flow, start, granularity, cnt) / cnt <= f <= LIMIT
        && (AllPrivate(layout, log, flow, start, granularity, cnt) ==>
              f == ExactSum(log, flow, start, granularity, cnt) / cnt)
    {
      hide Represents, Exact, ExactSum, CellSum, RowMin, Granules, Shaped, LeastCell, AllPrivate, InRange, Times;
      SomeGranule(n, granularity);
      var cnt := Granules(n, granularity);
      var start := t / granularity * granularity;
      var at, sum := start, 0;
      SoundShape(layout, table, log);
      NoCells(layout, log, flow, start, granularity);
      for i := 0 to cnt
        invariant at == start + Times(i, granularity)
        invariant sum == CellSum(layout, log, flow, start, granularity, i)
      {
        ReadsLeastCell(layout, table, log, Key(0, flow, at, false));
        CellSumNext(layout, log, flow, start, granularity, i, at);
        var block := MinCount(layout, table, Key(0, flow, at, false));
        sum := sum + block;
        at := at + granularity;
      }
      CellsAreExact(layout, log, flow, start, granularity, cnt);
      AverageBetween(ExactSum(log, flow, start, granularity, cnt), sum, cnt);
      f := sum / cnt;
    }

    /** do_reset: halves every counter and size_ when size_ has reached twenty times the table size. */
    method DoReset() returns (done: bool)
      requires Valid()
      modifies this`table, this`log, this`size
      ensures Valid() && (done <==> old(size) >= |table[0]| * 20)
      ensures !done ==> unchanged(this)
      ensures done ==> log == old(log) + [Halve] && size == old(size) / 2
    {
      if size >= |table[0]| * 20 {
        table := HalveAll(layout, table, log);
        log := log + [Halve];
        size := size / 2;
        return true;
      }
      return false;
    }
  }
}
