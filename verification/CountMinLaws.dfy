// What the row minimum of a key means, for every hash and every log: never below the key's own
// capped, aged count, and equal to it as soon as one of its rows is free of collisions.
module CountMinLaws {
  import opened Bits
  import opened PackedWord
  import opened CounterTable

  /** The exact counter of k: one more per bump up to 15, halved per reset. */
  ghost function Exact(log: seq<Event>, k: Key): (n: nat)
    ensures n <= LIMIT
  {
    if log == [] then 0
    else
      var n := Exact(log[..|log| - 1], k);
      match log[|log| - 1]
      case Halve => n / 2
      case Bump(k') => if k' == k then Capped(n + 1) else n
  }

  /** The number of times k was bumped. */
  ghost function Tally(log: seq<Event>, k: Key): nat { multiset(log)[Bump(k)] }

  /** The number of bumps that reach cell c. */
  ghost function CellTally(lay: Layout, log: seq<Event>, c: Cell): nat {
    if log == [] then 0
    else
      CellTally(lay, log[..|log| - 1], c)
      + (match log[|log| - 1] case Halve => 0 case Bump(k) => if lay.Touches(k, c) then 1 else 0)
  }

  ghost predicate ResetFree(log: seq<Event>) { Halve !in log }

  /** No other key bumped in the log shares k's cell in this row. */
  ghost predicate CollisionFree(lay: Layout, log: seq<Event>, k: Key, row: nat)
    requires k.level < |lay.sizes| && row < 4
  {
    forall k' :: Bump(k') in log && k' != k ==> !lay.Touches(k', lay.Place(k, row))
  }

  /** Appending bumps raises an exact counter by their number, up to 15. */
  lemma {:induction false} ExactAppend(log: seq<Event>, more: seq<Event>, k: Key)
    requires ResetFree(more)
    ensures Exact(log + more, k) == Capped(Exact(log, k) + Tally(more, k))
  {
    hide Exact, Tally;
    if more == [] {
      assert log + more == log;
      NoTally(k);
    } else {
      var front, last := more[..|more| - 1], more[|more| - 1];
      assert last in more && more == front + [last];
      assert log + more == log + front + [last];
      ExactAppend(log, front, k);
      ExactLast(log + front, last, k);
      TallyLast(front, last, k);
    }
  }

  lemma NoTally(k: Key)
    ensures Tally([], k) == 0
  {}

  lemma TallyLast(log: seq<Event>, e: Event, k: Key)
    ensures Tally(log + [e], k) == Tally(log, k) + (if e == Bump(k) then 1 else 0)
  {}

  lemma ExactLast(log: seq<Event>, e: Event, k: Key)
    ensures Exact(log + [e], k) == match e
      case Halve => Exact(log, k) / 2
      case Bump(k') => if k' == k then Capped(Exact(log, k) + 1) else Exact(log, k)
  {
    assert (log + [e])[..|log|] == log;
  }

  lemma {:induction false} RowNotBelow(lay: Layout, log: seq<Event>, k: Key, row: nat)
    requires k.level < |lay.sizes| && row < 4
    ensures Exact(log, k) <= Count(lay, log, lay.Place(k, row))
  {
    if log != [] { RowNotBelow(lay, log[..|log| - 1], k, row); }
  }

  lemma {:induction false} CleanRow(lay: Layout, log: seq<Event>, k: Key, row: nat)
    requires k.level < |lay.sizes| && row < 4 && CollisionFree(lay, log, k, row)
    ensures Exact(log, k) == Count(lay, log, lay.Place(k, row))
  {
    if log != [] {
      var front, last := log[..|log| - 1], log[|log| - 1];
      assert last in log;
      assert forall e :: e in front ==> e in log;
      CleanRow(lay, front, k, row);
    }
  }

  lemma {:induction false} ExactIsTally(log: seq<Event>, k: Key)
    requires ResetFree(log)
    ensures Exact(log, k) == Capped(Tally(log, k))
  {
    if log != [] {
      var front, last := log[..|log| - 1], log[|log| - 1];
      assert log == front + [last];
      assert last in log;
      ExactIsTally(front, k);
    }
  }

  lemma {:induction false} CountIsTally(lay: Layout, log: seq<Event>, c: Cell)
    requires ResetFree(log)
    ensures Count(lay, log, c) == Capped(CellTally(lay, log, c))
  {
    if log != [] {
      assert log[|log| - 1] in log;
      CountIsTally(lay, log[..|log| - 1], c);
    }
  }

  lemma RowReads(lay: Layout, t: Tables, log: seq<Event>, k: Key, row: nat)
    requires Represents(lay, t, log) && k.level < |lay.sizes| && row < 4
    ensures ReadRow(lay, t, k, row) == Count(lay, log, lay.Place(k, row))
  {
    assert HasCell(lay.sizes, lay.Place(k, row));
  }

  /** One-sided error: whatever collides, and across resets, a key never reads below its count. */
  lemma NeverUnder(lay: Layout, t: Tables, log: seq<Event>, k: Key)
    requires Represents(lay, t, log) && k.level < |lay.sizes|
    ensures Exact(log, k) <= RowMin(lay, t, k) <= LIMIT
  {
    hide RowMin, ReadRow;
    forall row | 0 <= row < 4 ensures Exact(log, k) <= ReadRow(lay, t, k, row) {
      RowReads(lay, t, log, k, row);
      RowNotBelow(lay, log, k, row);
    }
  }

  /** In some row no other key bumped has this one's counter. */
  ghost predicate PrivateKey(lay: Layout, log: seq<Event>, k: Key)
    requires k.level < |lay.sizes|
  {
    exists j: nat :: j < 4 && CollisionFree(lay, log, k, j)
  }

  /** One collision-free row makes the reading exact. */
  lemma CleanRead(lay: Layout, t: Tables, log: seq<Event>, k: Key, row: nat)
    requires Represents(lay, t, log) && k.level < |lay.sizes|
    requires row < 4 && CollisionFree(lay, log, k, row)
    ensures RowMin(lay, t, k) == Exact(log, k)
  {
    hide RowMin, ReadRow;
    NeverUnder(lay, t, log, k);
    RowReads(lay, t, log, k, row);
    CleanRow(lay, log, k, row);
  }

  lemma PrivateRead(lay: Layout, t: Tables, log: seq<Event>, k: Key)
    requires Represents(lay, t, log) && k.level < |lay.sizes| && PrivateKey(lay, log, k)
    ensures RowMin(lay, t, k) == Exact(log, k)
  {
    hide RowMin, CollisionFree, Exact;
    var j: nat :| j < 4 && CollisionFree(lay, log, k, j);
    CleanRead(lay, t, log, k, j);
  }

  /** Without resets, a reading is the least over the four rows of the capped number of bumps,
      of any key, that reach this key's cell in the row. */
  lemma ReadIsLeastRow(lay: Layout, t: Tables, log: seq<Event>, k: Key)
    requires Represents(lay, t, log) && k.level < |lay.sizes| && ResetFree(log)
    ensures forall j :: 0 <= j < 4 ==> RowMin(lay, t, k) <= Capped(CellTally(lay, log, lay.Place(k, j)))
    ensures exists j :: 0 <= j < 4 && RowMin(lay, t, k) == Capped(CellTally(lay, log, lay.Place(k, j)))
  {
    hide RowMin, ReadRow;
    forall j | 0 <= j < 4
      ensures ReadRow(lay, t, k, j) == Capped(CellTally(lay, log, lay.Place(k, j)))
    {
      RowReads(lay, t, log, k, j);
      CountIsTally(lay, log, lay.Place(k, j));
    }
    var j :| 0 <= j < 4 && RowMin(lay, t, k) == ReadRow(lay, t, k, j);
    assert RowMin(lay, t, k) == Capped(CellTally(lay, log, lay.Place(k, j)));
  }

  /** Fifteen bumps of a key fill all its counters: one more changes nothing, although it is reported
      as added. */
  lemma FifteenFill(lay: Layout, t: Tables, k: Key)
    requires k.level < |lay.sizes| && Represents(lay, t, seq(15, _ => Bump(k)))
    ensures RowMin(lay, t, k) == LIMIT
  {
    hide RowMin, Represents;
    Bumps(15, k);
    NeverUnder(lay, t, seq(15, _ => Bump(k)), k);
  }

  lemma {:induction false} Bumps(n: nat, k: Key)
    ensures Exact(seq(n, _ => Bump(k)), k) == Capped(n)
  {
    if n > 0 {
      Bumps(n - 1, k);
      assert seq(n, _ => Bump(k))[..n - 1] == seq(n - 1, _ => Bump(k));
    }
  }
}
