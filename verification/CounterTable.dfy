// The counter tables shared by all the sketches: one vector of packed words per level, the
// placement of a key's four counters, and the word loops that read, raise and halve them.
// A log of events is the meaning of a table: Represents ties every 4-bit counter to it.
module CounterTable {
  import opened Bits
  import opened PackedWord

  /** What is counted: a node of the range tree of a unit, or a plain (unit, id) pair at level 0. */
  datatype Key = Key(level: nat, unit: nat, id: int, lazy: bool)

  /** One 4-bit counter. */
  datatype Cell = Cell(level: nat, index: nat, slot: nat)

  datatype Event = Bump(key: Key) | Halve

  /** Every row index is inside the table. */
  ghost predicate InRange(index: (nat, nat, nat) -> nat) {
    forall n, h, j :: n > 0 && j < 4 ==> index(n, h, j) < n
  }

  /** How keys are placed. `hash` and `index` (of table size, hash and row) are arbitrary, so what
      is proved holds for every hash. `quarters` selects counter_offset's flavour: four groups of
      four counters (flat sketches), or two groups of dyadic and two of lazy counters. */
  datatype Layout = Layout(hash: (nat, int) -> nat, index: (nat, nat, nat) -> nat,
                           quarters: bool, sizes: seq<nat>)
  {
    /** Every table index is in range, whatever the hash. */
    ghost predicate Sound() {
      && (forall i :: 0 <= i < |sizes| ==> sizes[i] > 0)
      && InRange(index)
    }

    /** The counter inside a word; counter_offset shifts it left by two. */
    function Slot(h: nat, row: nat, lazy: bool): (s: nat)
      requires row < 4
      ensures s < 16 && s % 4 == row
      ensures !quarters ==> (s >= 8 <==> lazy)
    {
      if quarters then 4 * (h % 4) + row
      else 4 * (h % 2) + row + (if lazy then 8 else 0)
    }

    /** The counter of key k in the given row. */
    function Place(k: Key, row: nat): (c: Cell)
      requires k.level < |sizes| && row < 4
      ensures c.level == k.level && c.slot < 16 && c.slot % 4 == row
    {
      var h := hash(k.unit, k.id);
      Cell(k.level, index(sizes[k.level], h, row), Slot(h, row, k.lazy))
    }

    /** Whether raising k raises c: c is k's counter in c's own row. */
    predicate Touches(k: Key, c: Cell) {
      k.level < |sizes| && c == Place(k, c.slot % 4)
    }
  }

  /** Two keys share a counter exactly when they ask for it in the same row of the same level, their
      hashes have the same row index, and the low bits of their hashes choose the same group: two bits
      in the flat sketches, one bit and the kind of counter in the range sketches. */
  lemma SharedCell(lay: Layout, k: Key, row: nat, k': Key, row': nat)
    requires k.level < |lay.sizes| && k'.level < |lay.sizes| && row < 4 && row' < 4
    ensures
      var h, h' := lay.hash(k.unit, k.id), lay.hash(k'.unit, k'.id);
      lay.Place(k, row) == lay.Place(k', row') <==>
      && row == row' && k.level == k'.level
      && lay.index(lay.sizes[k.level], h, row) == lay.index(lay.sizes[k.level], h', row)
      && (if lay.quarters then h % 4 == h' % 4 else h % 2 == h' % 2 && k.lazy == k'.lazy)
  {
    var h, h' := lay.hash(k.unit, k.id), lay.hash(k'.unit, k'.id);
    var s, s' := lay.Slot(h, row, k.lazy), lay.Slot(h', row', k'.lazy);
    assert lay.Place(k, row) == Cell(k.level, lay.index(lay.sizes[k.level], h, row), s);
    assert lay.Place(k', row') == Cell(k'.level, lay.index(lay.sizes[k'.level], h', row'), s');
  }

  /** The bit offset of a counter is counter_offset's: ((hash & 3) << 2) + row, or with hash & 1 and 32
      more for lazy counters, in units of four bits. */
  lemma SlotIsOffset(lay: Layout, h: nat, row: nat, lazy: bool)
    requires row < 4
    ensures lay.quarters ==> 4 * lay.Slot(h, row, lazy) == Shl(Shl(BitAnd(h, 3), 2) + row, 2)
    ensures !lay.quarters ==>
      4 * lay.Slot(h, row, lazy) == Shl(Shl(BitAnd(h, 1), 2) + row, 2) + (if lazy then 32 else 0)
  {
    hide BitAnd;
    assert Pow2(1) == 2 && Pow2(2) == 4;
    MaskIsRemainder(h, 1);
    MaskIsRemainder(h, 2);
    FourTimes(BitAnd(h, 3));
    FourTimes(BitAnd(h, 1));
    FourTimes(4 * BitAnd(h, 3) + row);
    FourTimes(4 * BitAnd(h, 1) + row);
  }

  lemma FourTimes(x: nat)
    ensures Shl(x, 2) == 4 * x
  {
    assert Shl(x, 2) == 2 * Shl(x, 1) && Shl(x, 1) == 2 * Shl(x, 0);
  }

  type Tables = seq<seq<nat>>

  predicate HasCell(sizes: seq<nat>, c: Cell) {
    c.level < |sizes| && c.index < sizes[c.level] && c.slot < 16
  }

  predicate Shaped(sizes: seq<nat>, t: Tables) {
    && |t| == |sizes|
    && (forall i :: 0 <= i < |t| ==> |t[i]| == sizes[i])
    && (forall i, x :: 0 <= i < |t| && 0 <= x < |t[i]| ==> IsWord(t[i][x]))
  }

  function ReadCell(sizes: seq<nat>, t: Tables, c: Cell): (n: nat)
    requires Shaped(sizes, t) && HasCell(sizes, c)
    ensures n <= LIMIT
  {
    Nibble(t[c.level][c.index], c.slot)
  }

  // --------------------------------------------------------------- the meaning of a log

  /** The capped, aged count of the bumps that reach cell c. */
  ghost function Count(lay: Layout, log: seq<Event>, c: Cell): (n: nat)
    ensures n <= LIMIT
  {
    if log == [] then 0
    else
      var n := Count(lay, log[..|log| - 1], c);
      match log[|log| - 1]
      case Halve => n / 2
      case Bump(k) => if lay.Touches(k, c) then Capped(n + 1) else n
  }

  ghost predicate Represents(lay: Layout, t: Tables, log: seq<Event>) {
    && lay.Sound()
    && Shaped(lay.sizes, t)
    && forall c :: HasCell(lay.sizes, c) ==> ReadCell(lay.sizes, t, c) == Count(lay, log, c)
  }

  lemma SoundShape(lay: Layout, t: Tables, log: seq<Event>)
    requires Represents(lay, t, log)
    ensures lay.Sound() && Shaped(lay.sizes, t)
  {}

  /** The value get_lazy_add_cnt and get_dyadic_cnt read for a key: the minimum of its rows. */
  ghost function RowMin(lay: Layout, t: Tables, k: Key): (n: nat)
    requires lay.Sound() && Shaped(lay.sizes, t) && k.level < |lay.sizes|
    ensures n <= LIMIT
    ensures forall j :: 0 <= j < 4 ==> n <= ReadRow(lay, t, k, j)
    ensures exists j :: 0 <= j < 4 && n == ReadRow(lay, t, k, j)
  {
    Min(Min(ReadRow(lay, t, k, 0), ReadRow(lay, t, k, 1)), Min(ReadRow(lay, t, k, 2), ReadRow(lay, t, k, 3)))
  }

  ghost function ReadRow(lay: Layout, t: Tables, k: Key, row: nat): (n: nat)
    requires lay.Sound() && Shaped(lay.sizes, t) && k.level < |lay.sizes| && row < 4
    ensures n <= LIMIT
  {
    ReadCell(lay.sizes, t, lay.Place(k, row))
  }

  // --------------------------------------------------------------- the word loops

  /** get_count. */
  method GetCount(lay: Layout, t: Tables, k: Key, row: nat) returns (n: nat)
    requires lay.Sound() && Shaped(lay.sizes, t) && k.level < |lay.sizes| && row < 4
    ensures n == ReadRow(lay, t, k, row)
  {
    var h := lay.hash(k.unit, k.id);
    var index := lay.index(|t[k.level]|, h, row);
    var slot := lay.Slot(h, row, k.lazy);
    n := GetNibble(t[k.level][index], 4 * slot);
    NibbleIsShiftMask(t[k.level][index], slot);
  }

  /** The loop over the four rows in get_lazy_add_cnt, get_dyadic_cnt and frequency. */
  method MinCount(lay: Layout, t: Tables, k: Key) returns (n: nat)
    requires lay.Sound() && Shaped(lay.sizes, t) && k.level < |lay.sizes|
    ensures n == RowMin(lay, t, k)
  {
    n := 0x7FFF_FFFF;  // std::numeric_limits<int>::max()
    for row := 0 to 4
      invariant forall j :: 0 <= j < row ==> n <= ReadRow(lay, t, k, j)
      invariant if row == 0 then n == 0x7FFF_FFFF else exists j :: 0 <= j < row && n == ReadRow(lay, t, k, j)
    {
      var count := GetCount(lay, t, k, row);
      n := Min(n, count);
    }
  }

  /** try_increment_counter_at (flat sketches) and try_increment_counter_at_with_value with value
      1 (range sketches): one row's counter of k goes up by one unless it is full. The flag is true
      even when it is full. (hierarchical_frequency_sketch returns false then, but reads the flag
      nowhere, and so this one stands for it too.) */
  method TryIncrement(lay: Layout, t: Tables, k: Key, row: nat) returns (t': Tables, added: bool)
    requires lay.Sound() && Shaped(lay.sizes, t) && k.level < |lay.sizes| && row < 4
    ensures Shaped(lay.sizes, t') && added
    ensures forall c :: HasCell(lay.sizes, c) ==>
      ReadCell(lay.sizes, t', c)
      == if c == lay.Place(k, row) then Capped(ReadCell(lay.sizes, t, c) + 1) else ReadCell(lay.sizes, t, c)
  {
    hide Nibble;
    added := true;
    var h := lay.hash(k.unit, k.id);
    var table := t[k.level];
    var index := lay.index(|table|, h, row);
    var slot := lay.Slot(h, row, k.lazy);
    var w := table[index];
    var w' := if lay.quarters then Incremented(w, 4 * slot) else Increased(w, 4 * slot, 1);
    StaysWord(w, slot, 1);
    t' := t[k.level := table[index := w']];
    forall c | HasCell(lay.sizes, c)
      ensures ReadCell(lay.sizes, t', c)
           == if c == lay.Place(k, row) then Capped(ReadCell(lay.sizes, t, c) + 1) else ReadCell(lay.sizes, t, c)
    {
      IncreasedNibble(w, slot, 1, c.slot);
      IncrementedNibble(w, slot, c.slot);
    }
  }

  /** Every counter reads the same in both tables. */
  ghost predicate SameCounters(sizes: seq<nat>, t: Tables, t': Tables)
    requires Shaped(sizes, t) && Shaped(sizes, t')
  {
    forall c :: HasCell(sizes, c) ==> ReadCell(sizes, t', c) == ReadCell(sizes, t, c)
  }

  /** The counters of k, in the rows before `row`, are one higher in t' than in t. */
  ghost predicate RaisedRows(lay: Layout, t: Tables, k: Key, row: nat, t': Tables)
    requires Shaped(lay.sizes, t)
  {
    && Shaped(lay.sizes, t')
    && forall c :: HasCell(lay.sizes, c) ==>
         ReadCell(lay.sizes, t', c)
         == if lay.Touches(k, c) && c.slot % 4 < row then Capped(ReadCell(lay.sizes, t, c) + 1)
            else ReadCell(lay.sizes, t, c)
  }

  /** The loop over the four rows in inc_lazy_add_cnt, inc_dyadic_cnt and the flat record_access:
      exactly the cells that k touches go up, each once. `wasAdded` is always true, although nothing
      changes exactly when all four counters of k are full. */
  method Raise(lay: Layout, t: Tables, k: Key, ghost log: seq<Event>) returns (t': Tables, wasAdded: bool)
    requires Represents(lay, t, log) && k.level < |lay.sizes|
    ensures Represents(lay, t', log + [Bump(k)]) && wasAdded
    ensures SameCounters(lay.sizes, t, t') <==> RowMin(lay, t, k) == LIMIT
  {
    hide ReadCell, RowMin;
    t', wasAdded := t, false;
    for row := 0 to 4
      invariant RaisedRows(lay, t, k, row, t') && (row > 0 ==> wasAdded)
    {
      var added;
      t', added := TryIncrement(lay, t', k, row);
      wasAdded := wasAdded || added;
    }
    CountLast(lay, log, Bump(k));
    SameWhenFull(lay, t, k, t');
  }

  /** Raising a key changes no counter exactly when its least counter, and so each, is full. */
  lemma SameWhenFull(lay: Layout, t: Tables, k: Key, t': Tables)
    requires lay.Sound() && Shaped(lay.sizes, t) && k.level < |lay.sizes| && RaisedRows(lay, t, k, 4, t')
    ensures SameCounters(lay.sizes, t, t') <==> RowMin(lay, t, k) == LIMIT
  {
    hide ReadCell, RowMin;
    if SameCounters(lay.sizes, t, t') {
      forall row | 0 <= row < 4 ensures ReadRow(lay, t, k, row) == LIMIT {
        var c := lay.Place(k, row);
        assert HasCell(lay.sizes, c) && lay.Touches(k, c);
      }
    }
    if RowMin(lay, t, k) == LIMIT {
      forall c | HasCell(lay.sizes, c) ensures ReadCell(lay.sizes, t', c) == ReadCell(lay.sizes, t, c) {
        if lay.Touches(k, c) { assert ReadRow(lay, t, k, c.slot % 4) == ReadCell(lay.sizes, t, c); }
      }
    }
  }

  lemma Regroup<T>(log: seq<T>, a: seq<T>, b: seq<T>, c: seq<T>)
    ensures log + a + b + c == log + (a + b + c)
  {}

  lemma CountLast(lay: Layout, log: seq<Event>, e: Event)
    ensures forall c :: Count(lay, log + [e], c) == match e
      case Halve => Count(lay, log, c) / 2
      case Bump(k) => if lay.Touches(k, c) then Capped(Count(lay, log, c) + 1) else Count(lay, log, c)
  {
    assert (log + [e])[..|log|] == log;
  }

  /** Words before position (level, x) in reset's order are halved, the others are as in t. */
  ghost predicate PartlyHalved(sizes: seq<nat>, t: Tables, level: nat, x: nat, t': Tables)
    requires Shaped(sizes, t)
  {
    && Shaped(sizes, t')
    && forall i, y :: 0 <= i < |t| && 0 <= y < |t[i]| ==>
         t'[i][y] == if i < level || (i == level && y < x) then Halved(t[i][y]) else t[i][y]
  }

  /** reset: every word of every level is halved in place. */
  method HalveAll(lay: Layout, t: Tables, ghost log: seq<Event>) returns (t': Tables)
    requires Represents(lay, t, log)
    ensures PartlyHalved(lay.sizes, t, |t|, 0, t')
    ensures Represents(lay, t', log + [Halve])
  {
    hide Halved;
    t' := t;
    for level := 0 to |t|
      invariant PartlyHalved(lay.sizes, t, level, 0, t')
    {
      for x := 0 to |t[level]|
        invariant PartlyHalved(lay.sizes, t, level, x, t')
      {
        var w := t'[level][x];
        StaysWord(w, 0, 0);
        var table: seq<nat> := t'[level][x := Halved(w)];
        t' := t'[level := table];
      }
    }
    HalvedReads(lay, t, |t|, 0, t');
    CountLast(lay, log, Halve);
  }

  /** While a reset is under way each counter reads as its old value or as half of it. */
  lemma HalvedReads(lay: Layout, t: Tables, level: nat, x: nat, t': Tables)
    requires Shaped(lay.sizes, t) && PartlyHalved(lay.sizes, t, level, x, t')
    ensures forall c :: HasCell(lay.sizes, c) ==>
      ReadCell(lay.sizes, t', c)
      == if c.level < level || (c.level == level && c.index < x) then ReadCell(lay.sizes, t, c) / 2
         else ReadCell(lay.sizes, t, c)
  {
    forall c | HasCell(lay.sizes, c)
      ensures ReadCell(lay.sizes, t', c)
           == if c.level < level || (c.level == level && c.index < x) then ReadCell(lay.sizes, t, c) / 2
              else ReadCell(lay.sizes, t, c)
    {
      hide Nibble, Halved;
      HalvedNibble(t[c.level][c.index], c.slot);
    }
  }

  // --------------------------------------------------------------- change_capacity

  /** How change_capacity ends: invalid_argument, a length_error from a table too long, or done. */
  datatype Sizing = InvalidArgument | TooLong | Sized

  /** The tables built by change_capacity: one zeroed table per level, each half the last. */
  method FreshTables(tableSize: nat, levels: nat) returns (t: Tables, sizes: seq<nat>)
    ensures |sizes| == levels && forall i :: 0 <= i < levels ==> sizes[i] == Shr(tableSize, i)
    ensures Shaped(sizes, t)
    ensures forall c :: HasCell(sizes, c) ==> ReadCell(sizes, t, c) == 0
  {
    t, sizes := [], [];
    var left := tableSize;
    for i := 0 to levels
      invariant |t| == |sizes| == i && left == Shr(tableSize, i)
      invariant forall k :: 0 <= k < i ==> sizes[k] == Shr(tableSize, k) == |t[k]|
      invariant forall k, x :: 0 <= k < i && 0 <= x < |t[k]| ==> t[k][x] == 0
    {
      t, sizes := t + [seq(left, _ => 0)], sizes + [left];
      ShrTwice(tableSize, i, 1);
      assert Shr(left, 1) == left / 2;
      left := left / 2;
    }
    ZeroIsWord();
    forall c | HasCell(sizes, c) ensures Nibble(t[c.level][c.index], c.slot) == 0 {
      ZeroNibble(c.slot);
    }
  }

  /** std::vector::resize: words are cut off, or zeros appended. */
  function Resized(words: seq<nat>, n: nat): (r: seq<nat>)
    ensures |r| == n
    ensures forall x :: 0 <= x < n ==> r[x] == if x < |words| then words[x] else 0
  {
    if n <= |words| then words[..n] else words + seq(n - |words|, _ => 0)
  }

  /** Resizing an empty table makes every counter zero; resizing to the same size changes nothing. */
  lemma ResizedReads(words: seq<nat>, n: nat)
    requires Shaped([|words|], [words])
    ensures Shaped([n], [Resized(words, n)])
    ensures words == [] ==> forall c :: HasCell([n], c) ==> ReadCell([n], [Resized(words, n)], c) == 0
    ensures n == |words| ==> Resized(words, n) == words
  {
    hide Nibble, IsWord;
    ZeroIsWord();
    assert n == |words| ==> Resized(words, n) == words;
    forall x | 0 <= x < n ensures IsWord(Resized(words, n)[x]) {
      if x < |words| { assert IsWord([words][0][x]); }
    }
    forall c | words == [] && HasCell([n], c) ensures ReadCell([n], [Resized(words, n)], c) == 0 {
      ZeroNibble(c.slot);
    }
  }

  /** All tables are non-empty exactly when the first has at least 2^(levels - 1) words. */
  lemma TablesNotEmpty(m: nat, levels: nat, sizes: seq<nat>)
    requires |sizes| == levels && forall i :: 0 <= i < levels ==> sizes[i] == Shr(Pow2(m), i)
    ensures (forall i :: 0 <= i < levels ==> sizes[i] > 0) <==> levels <= m + 1
  {
    hide Pow2, Shr;
    if levels <= m + 1 {
      forall i | 0 <= i < levels ensures sizes[i] > 0 {
        HalvedSize(m, i);
      }
    } else {
      Pow2Step(m + 1);
      ShrAll(Pow2(m), m + 1, levels - 1);
      assert sizes[levels - 1] == 0;
    }
  }

  lemma {:induction false} HalvedSize(m: nat, i: nat)
    requires i <= m
    ensures Shr(Pow2(m), i) == Pow2(m - i)
    decreases i
  {
    if i > 0 {
      assert Pow2(m) / 2 == Pow2(m - 1);
      HalvedSize(m - 1, i - 1);
    }
  }

  /** Fresh tables represent the empty log, provided that none is empty. */
  lemma FreshRepresents(lay: Layout, t: Tables)
    requires InRange(lay.index) && Shaped(lay.sizes, t)
    requires forall c :: HasCell(lay.sizes, c) ==> ReadCell(lay.sizes, t, c) == 0
    ensures Represents(lay, t, []) <==> forall i :: 0 <= i < |lay.sizes| ==> lay.sizes[i] > 0
  {
    hide ReadCell;
  }
}
