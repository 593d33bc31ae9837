// Which units the two range sketches can work on: the recursion of record_access and frequency, with
// the narrowing conversions of its arguments, stays on the reserved levels exactly when the unit fits.
module LevelBounds {
  import opened Bits
  import opened RangeTree
  import opened UnitGrid

  /** C++'s x / 2 on an int, towards zero. */
  function Half(x: int): int { if x >= 0 then x / 2 else -(-x / 2) }

  function Middle(start: int, end: int): int { start + Half(end - start) }

  /** No visit of inner_frequency (and, in gxj_range_frequency_sketch, of inner_record_access) indexes
      a level below 0, from the given arguments on. */
  predicate OnLevels(left: int, right: int, start: int, end: int, level: int)
    decreases level
  {
    && level >= 0
    && ((left == start && right == end)
        || (var mid := Middle(start, end);
            && (mid > left ==> OnLevels(left, Min(mid, right), start, mid, level - 1))
            && (mid < right ==> OnLevels(Max(left, mid), right, mid, end, level - 1))))
  }

  /** The same of interval_sketch's inner_record_access, which goes on down to single granules. */
  predicate TouchesOnLevels(left: int, right: int, start: int, end: int, level: int)
    decreases level
  {
    && level >= 0
    && (start == end - 1
        || (var mid := Middle(start, end);
            && (mid > left ==> TouchesOnLevels(left, Min(mid, right), start, mid, level - 1))
            && (mid < right ==> TouchesOnLevels(Max(left, mid), right, mid, end, level - 1))))
  }

  /** A query for, or a gxj record of, bytes [t, t + n), with `levels` levels reserved: every argument is
      narrowed to an int. */
  predicate QueryOnLevels(unitSize: nat, granularity: nat, levels: nat, t: nat, n: nat)
    requires unitSize > 0 && granularity > 0
  {
    OnLevels(AsInt(LeftGranule(unitSize, granularity, t)), AsInt(RightGranule(unitSize, granularity, t, n)),
             0, AsInt(Granules(unitSize, granularity)), levels - 1)
  }

  predicate TouchOnLevels(unitSize: nat, granularity: nat, levels: nat, t: nat, n: nat)
    requires unitSize > 0 && granularity > 0
  {
    TouchesOnLevels(AsInt(LeftGranule(unitSize, granularity, t)), AsInt(RightGranule(unitSize, granularity, t, n)),
                    0, AsInt(Granules(unitSize, granularity)), levels - 1)
  }

  // ------------------------------------------------------------ enough levels

  lemma {:induction false} ValidVisitStays(v: Visit)
    requires v.Valid()
    ensures OnLevels(v.left, v.right, v.start, v.end, v.level)
    decreases v.Width()
  {
    assert Middle(v.start, v.end) == v.Mid();
    if v.GoesLeft() { ValidVisitStays(v.Left()); }
    if v.GoesRight() { ValidVisitStays(v.Right()); }
  }

  lemma {:induction false} ValidTouchStays(v: Visit)
    requires v.Valid()
    ensures TouchesOnLevels(v.left, v.right, v.start, v.end, v.level)
    decreases v.Width()
  {
    assert Middle(v.start, v.end) == v.Mid();
    if v.Width() > 1 {
      if v.left < v.Mid() { ValidTouchStays(v.Left()); }
      if v.Mid() < v.right { ValidTouchStays(v.Right()); }
    }
  }

  /** On levels that hold the unit every access and every query stays on them. */
  lemma HeldUnitStays(unitSize: nat, granularity: nat, levels: nat, t: nat, n: nat)
    requires Holds(unitSize, granularity, levels)
    ensures QueryOnLevels(unitSize, granularity, levels, t, n) && TouchOnLevels(unitSize, granularity, levels, t, n)
  {
    hide Granules, LeftGranule, RightGranule, OnLevels, TouchesOnLevels, AsInt;
    HoldsIsValid(unitSize, granularity, levels);
    var l, r := LeftGranule(unitSize, granularity, t), RightGranule(unitSize, granularity, t, n);
    var v := GridOf(unitSize, granularity, levels).Root(l, r);
    ValidVisitStays(v);
    ValidTouchStays(v);
  }

  // ------------------------------------------------------------ too few

  /** A node too wide for its level: the query for its last granule but one follows the right halves
      down to level 0, where at least two granules are left, and then goes below. */
  lemma {:induction false} WideNodeSinks(start: int, end: int, level: nat)
    requires end - start > Pow2(level)
    ensures !OnLevels(end - 2, end - 1, start, end, level) && !TouchesOnLevels(end - 2, end - 1, start, end, level)
    decreases level
  {
    var mid := Middle(start, end);
    if level > 0 {
      WideNodeSinks(mid, end, level - 1);
    } else if end - start == 2 {
      assert !OnLevels(end - 2, Min(mid, end - 1), start, mid, -1);
      assert !TouchesOnLevels(end - 2, Min(mid, end - 1), start, mid, -1);
    } else {
      assert !OnLevels(Max(end - 2, mid), end - 1, mid, end, -1);
      assert !TouchesOnLevels(Max(end - 2, mid), end - 1, mid, end, -1);
    }
  }

  /** With a root that ends at or below 0, a range that reaches 1 is never met. */
  lemma {:induction false} NegativeEndSinks(left: int, right: int, start: int, end: int, level: int)
    requires start <= 0 && end <= 0 && end <= start && 1 <= right
    ensures !OnLevels(left, right, start, end, level)
    decreases level
  {
    if level >= 0 {
      var mid := Middle(start, end);
      NegativeEndSinks(Max(left, mid), right, mid, end, level - 1);
    }
  }

  /** With a range that starts below the root, the recursion follows the left halves for ever. */
  lemma {:induction false} NegativeStartSinks(right: int, end: int, level: int)
    requires end >= 0 && right == 0
    ensures !OnLevels(-1, right, 0, end, level)
    decreases level
  {
    if level >= 0 { NegativeStartSinks(right, Middle(0, end), level - 1); }
  }

  /** Access number x of one granule, in a unit with more than x + 1 granules or a remainder. */
  lemma OneGranuleAt(unitSize: nat, granularity: nat, x: nat)
    requires granularity > 0 && Times(x + 1, granularity) < unitSize
    ensures LeftGranule(unitSize, granularity, Times(x, granularity)) == x
    ensures RightGranule(unitSize, granularity, Times(x, granularity), granularity) == x + 1
  {
    assert x * granularity + granularity == (x + 1) * granularity;
    DivModUnique(x * granularity, unitSize, 0, x * granularity);
    DivModUnique((x + 1) * granularity, unitSize, 0, (x + 1) * granularity);
    DivModUnique(x * granularity, granularity, x, 0);
    DivModUnique((x + 1) * granularity, granularity, x + 1, 0);
  }

  lemma BelowUnit(unitSize: nat, granularity: nat, k: nat)
    requires granularity > 0
    requires k < unitSize / granularity || (k == unitSize / granularity && unitSize % granularity > 0)
    ensures Times(k, granularity) < unitSize
  {
    var q := unitSize / granularity;
    assert unitSize == q * granularity + unitSize % granularity;
    if k < q { MulAtLeast(q - k, granularity); assert (q - k) * granularity == q * granularity - k * granularity; }
  }

  /** A root wider than the deepest tree: the query for its last granule but one needs a level more. */
  lemma MissingLevelSinks(unitSize: nat, granularity: nat, levels: nat) returns (t: nat)
    requires granularity > 0 && unitSize > 0 && levels > 0
    requires Pow2(levels - 1) < Granules(unitSize, granularity) <= INT_MAX
    ensures !QueryOnLevels(unitSize, granularity, levels, t, granularity)
    ensures !TouchOnLevels(unitSize, granularity, levels, t, granularity)
  {
    hide Granules, LeftGranule, RightGranule, OnLevels, TouchesOnLevels, Pow2, AsInt, Times;
    WholeOrOneMore(unitSize, granularity);
    var end := Granules(unitSize, granularity);
    t := Times(end - 2, granularity);
    BelowUnit(unitSize, granularity, end - 1);
    OneGranuleAt(unitSize, granularity, end - 2);
    WideNodeSinks(0, end, levels - 1);
  }

  /** More granules than an int can count: the root's end, or the range itself, is narrowed to a
      negative number, and no number of levels is enough. */
  lemma NarrowedUnitSinks(unitSize: nat, granularity: nat, levels: nat) returns (t: nat)
    requires 0 < granularity && unitSize > 0 && Granules(unitSize, granularity) > INT_MAX
    ensures !QueryOnLevels(unitSize, granularity, levels, t, granularity)
  {
    hide Granules, LeftGranule, RightGranule, OnLevels, Times, AsInt, AsUint32;
    WholeOrOneMore(unitSize, granularity);
    var end := AsInt(Granules(unitSize, granularity));
    if end <= 0 {
      t := Times(0, granularity);
      BelowUnit(unitSize, granularity, 1);
      OneGranuleAt(unitSize, granularity, 0);
      NegativeEndSinks(0, 1, 0, end, levels - 1);
    } else {
      t := Times(WORD - 1, granularity);
      ManyGranules(Granules(unitSize, granularity));
      BelowUnit(unitSize, granularity, WORD);
      OneGranuleAt(unitSize, granularity, WORD - 1);
      WrapsAround();
      NegativeStartSinks(0, end, levels - 1);
    }
  }

  lemma ManyGranules(granules: nat)
    requires granules > INT_MAX && AsInt(granules) > 0
    ensures granules > WORD
  {}

  lemma WrapsAround()
    ensures AsInt(WORD - 1) == -1 && AsInt(WORD) == 0
  {}

  // ------------------------------------------------------------ the exact condition

  /** Every query (and so every gxj record) of a unit stays on the reserved levels, however many they
      are, exactly when these levels hold the unit. */
  lemma StaysIffHeld(unitSize: nat, granularity: nat, levels: nat)
    requires unitSize > 0 && granularity > 0
    ensures (forall t: nat, n: nat :: QueryOnLevels(unitSize, granularity, levels, t, n))
       <==> Holds(unitSize, granularity, levels)
  {
    hide QueryOnLevels, TouchOnLevels, Granules;
    if Holds(unitSize, granularity, levels) {
      forall t: nat, n: nat ensures QueryOnLevels(unitSize, granularity, levels, t, n) {
        HeldUnitStays(unitSize, granularity, levels, t, n);
      }
    } else if Granules(unitSize, granularity) > INT_MAX {
      var t := NarrowedUnitSinks(unitSize, granularity, levels);
    } else if levels == 0 {
      NoLevelSinks(unitSize, granularity);
    } else {
      var t := MissingLevelSinks(unitSize, granularity, levels);
    }
  }

  lemma NoLevelSinks(unitSize: nat, granularity: nat)
    requires unitSize > 0 && granularity > 0
    ensures !QueryOnLevels(unitSize, granularity, 0, 0, 0)
  {}

  /** The same of interval_sketch, whose records and queries recurse differently. */
  lemma IntervalStaysIffHeld(unitSize: nat, granularity: nat, levels: nat)
    requires unitSize > 0 && granularity > 0
    ensures (forall t: nat, n: nat ::
               QueryOnLevels(unitSize, granularity, levels, t, n) && TouchOnLevels(unitSize, granularity, levels, t, n))
       <==> Holds(unitSize, granularity, levels)
  {
    hide QueryOnLevels, TouchOnLevels, Holds;
    StaysIffHeld(unitSize, granularity, levels);
    if Holds(unitSize, granularity, levels) {
      forall t: nat, n: nat ensures TouchOnLevels(unitSize, granularity, levels, t, n) {
        HeldUnitStays(unitSize, granularity, levels, t, n);
      }
    }
  }

  /** With the levels that are reserved for the unit itself: exactly when the unit fits, that is, it has
      a whole granule, its granules can be counted by an int, and granularity divides it or the number
      of whole granules is not a power of two. */
  lemma StaysOnLevelsIffFits(unitSize: nat, granularity: nat)
    requires unitSize > 0 && granularity > 0
    ensures (forall t: nat, n: nat :: QueryOnLevels(unitSize, granularity, Levels(unitSize, granularity), t, n))
       <==> Fits(unitSize, granularity)
  {
    hide QueryOnLevels, Levels, Fits, Holds;
    StaysIffHeld(unitSize, granularity, Levels(unitSize, granularity));
    FitsIsHeld(unitSize, granularity);
  }

  /** One configuration that the constructor accepts and that reads below the last level: five bytes
      in granules of two. */
  lemma FiveBytesSink() returns (t: nat)
    ensures Levels(5, 2) == 2
    ensures !QueryOnLevels(5, 2, Levels(5, 2), t, 2) && !TouchOnLevels(5, 2, Levels(5, 2), t, 2)
  {
    LevelsOfQuotient(5, 2);
    assert Pow2(1) == 2;
    t := MissingLevelSinks(5, 2, 2);
  }

  /** An object for eight bytes in granules of one, resized by change_capacity(16, 8, 8): both units
      fit, and yet the one level reserved for the second cannot hold the first. */
  lemma OtherUnitSinks() returns (t: nat)
    ensures Fits(8, 1) && Fits(8, 8) && Levels(8, 1) == 4 && Levels(8, 8) == 1
    ensures Holds(8, 1, Levels(8, 1)) && Holds(8, 8, Levels(8, 8)) && !Holds(8, 1, Levels(8, 8))
    ensures !QueryOnLevels(8, 1, Levels(8, 8), t, 1) && !TouchOnLevels(8, 1, Levels(8, 8), t, 1)
  {
    hide QueryOnLevels, TouchOnLevels;
    assert Pow2(3) == 8 && Pow2(0) == 1;
    LevelsOfQuotient(8, 1);
    LevelsOfQuotient(8, 8);
    FitsIsHeld(8, 1);
    FitsIsHeld(8, 8);
    t := MissingLevelSinks(8, 1, 1);
  }
}
