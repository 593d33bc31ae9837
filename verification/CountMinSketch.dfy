// count_min_sketch: a flat table of packed counters, four of them per key.
module CountMinSketchClass {
  import opened Bits
  import opened PackedWord
  import opened CounterTable
  import opened CountMinLaws

  function KeyOf(t: int): Key { Key(0, 0, t, false) }

  /** The bumps of the records. */
  function BumpsOf(recorded: seq<int>): (log: seq<Event>)
    ensures ResetFree(log)
  {
    if recorded == [] then [] else BumpsOf(recorded[..|recorded| - 1]) + [Bump(KeyOf(recorded[|recorded| - 1]))]
  }

  /** In row j of a table of `size` words, x and t have the same counter: the same word, and the same
      quarter of it. */
  predicate SameCell(hash: (nat, int) -> nat, index: (nat, nat, nat) -> nat, size: nat, x: int, t: int, j: nat) {
    index(size, hash(0, x), j) == index(size, hash(0, t), j) && hash(0, x) % 4 == hash(0, t) % 4
  }

  /** How many of the records share t's counter in row j. */
  function Sharing(hash: (nat, int) -> nat, index: (nat, nat, nat) -> nat, size: nat,
                   recorded: seq<int>, t: int, j: nat): nat
  {
    if recorded == [] then 0
    else
      Sharing(hash, index, size, recorded[..|recorded| - 1], t, j)
      + (if SameCell(hash, index, size, recorded[|recorded| - 1], t, j) then 1 else 0)
  }

  /** No record of anything but t has t's counter in row j. */
  ghost predicate Private(hash: (nat, int) -> nat, index: (nat, nat, nat) -> nat, size: nat,
                          recorded: seq<int>, t: int, j: nat)
  {
    forall x :: x in recorded && x != t ==> !SameCell(hash, index, size, x, t, j)
  }

  lemma TouchesIsSameCell(lay: Layout, x: int, t: int, j: nat)
    requires |lay.sizes| == 1 && lay.quarters && j < 4
    ensures lay.Touches(KeyOf(x), lay.Place(KeyOf(t), j)) <==> SameCell(lay.hash, lay.index, lay.sizes[0], x, t, j)
  {
    SharedCell(lay, KeyOf(x), j, KeyOf(t), j);
  }

  lemma {:induction false} SharingIsTally(lay: Layout, recorded: seq<int>, t: int, j: nat)
    requires |lay.sizes| == 1 && lay.quarters && j < 4
    ensures CellTally(lay, BumpsOf(recorded), lay.Place(KeyOf(t), j))
         == Sharing(lay.hash, lay.index, lay.sizes[0], recorded, t, j)
  {
    hide SameCell, Layout.Touches, Layout.Place;
    if recorded != [] {
      var front, x := recorded[..|recorded| - 1], recorded[|recorded| - 1];
      SharingIsTally(lay, front, t, j);
      TouchesIsSameCell(lay, x, t, j);
      assert BumpsOf(recorded)[..|BumpsOf(recorded)| - 1] == BumpsOf(front);
    }
  }

  lemma {:induction false} OccurrencesAreTally(recorded: seq<int>, t: int)
    ensures Tally(BumpsOf(recorded), KeyOf(t)) == multiset(recorded)[t]
  {
    if recorded != [] {
      var front, x := recorded[..|recorded| - 1], recorded[|recorded| - 1];
      OccurrencesAreTally(front, t);
      assert recorded == front + [x];
    }
  }

  lemma {:induction false} BumpedIsRecorded(recorded: seq<int>, k: Key)
    requires Bump(k) in BumpsOf(recorded)
    ensures exists x :: x in recorded && k == KeyOf(x)
  {
    var front, x := recorded[..|recorded| - 1], recorded[|recorded| - 1];
    if k == KeyOf(x) {
      assert x in recorded;
    } else {
      BumpedIsRecorded(front, k);
    }
  }

  lemma PrivateIsCollisionFree(lay: Layout, recorded: seq<int>, t: int, j: nat)
    requires |lay.sizes| == 1 && lay.quarters && j < 4
    requires Private(lay.hash, lay.index, lay.sizes[0], recorded, t, j)
    ensures CollisionFree(lay, BumpsOf(recorded), KeyOf(t), j)
  {
    hide SameCell, Layout.Touches, Layout.Place;
    forall k | Bump(k) in BumpsOf(recorded) && k != KeyOf(t) ensures !lay.Touches(k, lay.Place(KeyOf(t), j)) {
      BumpedIsRecorded(recorded, k);
      var x :| x in recorded && k == KeyOf(x);
      TouchesIsSameCell(lay, x, t, j);
    }
  }

  class CountMinSketch {
    const hash: (nat, int) -> nat
    const index: (nat, nat, nat) -> nat

    var table: Tables  // a single level
    var layout: Layout
    var size: nat
    ghost var recorded: seq<int>  // everything given to inner_record_access

    ghost predicate Valid()
      reads this
    {
      && InRange(index) && |layout.sizes| == 1 && layout == Layout(hash, index, true, layout.sizes)
      && Represents(layout, table, BumpsOf(recorded))
    }

    /** The table has one level, and is as long as the layout says: so of every valid sketch. */
    ghost predicate Flat()
      reads this
    {
      && InRange(index) && |table| == 1 && layout == Layout(hash, index, true, [|table[0]|])
      && Shaped(layout.sizes, table)
    }

    /** Where change_capacity throws there is no object to use, and the table stays empty. */
    constructor (capacity: int, hash: (nat, int) -> nat, index: (nat, nat, nat) -> nat)
      requires capacity <= INT_MAX && InRange(index)
      ensures this.hash == hash && this.index == index && recorded == [] && size == 0
      ensures capacity > 0 ==> |table| == 1 && |table[0]| == Pow2(CeilLog2(capacity))
      ensures Valid() <==> capacity > 0
    {
      this.hash, this.index := hash, index;
      table, layout, size, recorded := [[]], Layout(hash, index, true, [0]), 0, [];
      new;
      var ok := ChangeCapacity(capacity);
    }

    /** change_capacity: false stands for the exception on n <= 0. The words are kept, cut off or
        followed by zeros. On an empty table the sketch becomes valid; a size that rounds up to the
        present one keeps it valid, with all its counts. */
    method ChangeCapacity(n: int) returns (ok: bool)
      requires Flat() && n <= INT_MAX
      modifies this`table, this`layout, this`size
      ensures ok <==> n > 0
      ensures !ok ==> unchanged(this)
      ensures ok ==> Flat() && size == 0 && table[0] == Resized(old(table[0]), Pow2(CeilLog2(n)))
      ensures ok && old(table[0]) == [] && recorded == [] ==> Valid()
      ensures ok && old(Valid()) && |old(table[0])| == Pow2(CeilLog2(n)) ==> Valid()
    {
      hide CeilLog2, ReadCell, Resized;
      if n <= 0 { return false; }
      var tableSize := NearestPowerOfTwo(n);
      ResizedReads(table[0], tableSize);
      assert layout.sizes == [|table[0]|] && table == [table[0]];
      table := [Resized(table[0], tableSize)];
      layout, size := Layout(hash, index, true, [tableSize]), 0;
      if old(table[0]) == [] { FreshRepresents(layout, table); }
      ok := true;
    }

    /** inner_record_access. */
    method InnerRecordAccess(t: int)
      requires Valid()
      modifies this`table, this`recorded
      ensures Valid() && recorded == old(recorded) + [t]
      ensures |table| == |old(table)| == 1 && |table[0]| == |old(table[0])|
    {
      SoundShape(layout, table, BumpsOf(recorded));
      var wasAdded;
      table, wasAdded := Raise(layout, table, KeyOf(t), BumpsOf(recorded));
      assert (recorded + [t])[..|recorded|] == recorded;
      recorded := recorded + [t];
      SoundShape(layout, table, BumpsOf(recorded));
    }

    /** frequency: the least, over the four rows, of the capped number of records that share t's counter;
        so never below the capped number of records of t itself, and equal to it when in some row nothing
        else recorded has t's counter. */
    method Frequency(t: int) returns (f: nat)
      requires Valid()
      ensures |table| == 1
      ensures forall j :: 0 <= j < 4 ==> f <= Capped(Sharing(hash, index, |table[0]|, recorded, t, j))
      ensures exists j :: 0 <= j < 4 && f == Capped(Sharing(hash, index, |table[0]|, recorded, t, j))
      ensures Capped(multiset(recorded)[t]) <= f
      ensures (exists j :: 0 <= j < 4 && Private(hash, index, |table[0]|, recorded, t, j)) ==>
        f == Capped(multiset(recorded)[t])
    {
      hide RowMin, CellTally, Exact, Represents, Sharing, Private, Tally, BumpsOf, Layout.Place;
      ghost var log := BumpsOf(recorded);
      SoundShape(layout, table, log);
      f := MinCount(layout, table, KeyOf(t));
      ReadIsLeastRow(layout, table, log, KeyOf(t));
      NeverUnder(layout, table, log, KeyOf(t));
      ExactIsTally(log, KeyOf(t));
      OccurrencesAreTally(recorded, t);
      forall j | 0 <= j < 4
        ensures CellTally(layout, log, layout.Place(KeyOf(t), j)) == Sharing(hash, index, |table[0]|, recorded, t, j)
      {
        SharingIsTally(layout, recorded, t, j);
      }
      if j :| 0 <= j < 4 && Private(hash, index, |table[0]|, recorded, t, j) {
        PrivateIsCollisionFree(layout, recorded, t, j);
        CleanRead(layout, table, log, KeyOf(t), j);
      }
    }
  }

  /** What was never recorded reads zero as soon as some row is private. */
  method RecordOneThenAsk(s: CountMinSketch, x: int, t: int) returns (f: nat)
    requires s.Valid() && s.recorded == [] && x != t && |s.table| == 1
    modifies s
    ensures (exists j :: 0 <= j < 4 && !SameCell(s.hash, s.index, |old(s.table[0])|, x, t, j)) ==> f == 0
  {
    hide SameCell, Sharing;
    s.InnerRecordAccess(x);
    f := s.Frequency(t);
    if j :| 0 <= j < 4 && !SameCell(s.hash, s.index, |s.table[0]|, x, t, j) {
      assert Private(s.hash, s.index, |s.table[0]|, s.recorded, t, j);
    }
  }
}
