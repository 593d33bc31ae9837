// The sampler of gxj_range_frequency_sketch is exact over full periods: although it reads the low
// bits of an access counter instead of random bits, repeating an access W times, from any counter
// value, raises a query by exactly W times their overlap.
module GxjSampler {
  import opened Bits
  import opened CounterTable
  import opened CountMinLaws
  import opened RangeTree
  import opened UnitGrid
  import opened GxjRange
  import opened GxjTheorems

  /** How many of the counter values ref + 1 .. ref + n fall below len modulo w. */
  ghost function Hits(ref: nat, n: nat, len: nat, w: nat): nat
    requires w > 0
  {
    if n == 0 then 0 else Hits(ref, n - 1, len, w) + (if (ref + n) % w < len then 1 else 0)
  }

  lemma {:induction false} HitsSplit(ref: nat, m: nat, n: nat, len: nat, w: nat)
    requires w > 0
    ensures Hits(ref, m + n, len, w) == Hits(ref, m, len, w) + Hits(ref + m, n, len, w)
  {
    if n > 0 {
      HitsSplit(ref, m, n - 1, len, w);
      assert m + n - 1 == m + (n - 1) && ref + (m + n) == ref + m + n;
    }
  }

  lemma NextPeriod(x: nat, w: nat)
    requires w > 0
    ensures (x + w) % w == x % w
  {
    var q, r := x / w, x % w;
    assert x == q * w + r;
    Distribute(q, 1, w);
    DivModUnique(x + w, w, q + 1, r);
  }

  lemma {:induction false} HitsFirst(n: nat, len: nat, w: nat)
    requires n < w && len <= w
    ensures Hits(0, n, len, w) == if len == 0 then 0 else Min(n, len - 1)
  {
    if n > 0 {
      HitsFirst(n - 1, len, w);
      DivModUnique(n, w, 0, n);
    }
  }

  /** Any w consecutive counter values hit exactly len times. */
  lemma {:induction false} HitsPeriod(ref: nat, len: nat, w: nat)
    requires w > 0 && len <= w
    ensures Hits(ref, w, len, w) == len
  {
    if ref == 0 {
      HitsFirst(w - 1, len, w);
      DivModUnique(w, w, 1, 0);
    } else {
      HitsPeriod(ref - 1, len, w);
      HitsSplit(ref - 1, 1, w, len, w);
      HitsSplit(ref - 1, w, 1, len, w);
      NextPeriod(ref, w);
      assert Hits(ref - 1, 1, len, w) == if ref % w < len then 1 else 0;
      assert Hits(ref - 1 + w, 1, len, w) == if (ref - 1 + w + 1) % w < len then 1 else 0;
    }
  }

  lemma {:induction false} HitsPeriods(ref: nat, m: nat, len: nat, w: nat)
    requires w > 0 && len <= w
    ensures Hits(ref, m * w, len, w) == m * len
  {
    if m > 0 {
      HitsPeriods(ref, m - 1, len, w);
      Distribute(m - 1, 1, w);
      Distribute(m - 1, 1, len);
      HitsSplit(ref, (m - 1) * w, w, len, w);
      HitsPeriod(ref + (m - 1) * w, len, w);
    }
  }

  // ------------------------------------------------------------ what the mask draws

  /** How many of the counter values ref + 1 .. ref + n, masked as try_est_add masks them, fall below
      len. */
  ghost function Draws(ref: nat, n: nat, len: nat, w: nat): nat
    requires w > 0
  {
    if n == 0 then 0 else Draws(ref, n - 1, len, w) + (if BitAnd(ref + n, w - 1) < len then 1 else 0)
  }

  lemma {:induction false} DrawsSplit(ref: nat, m: nat, n: nat, len: nat, w: nat)
    requires w > 0
    ensures Draws(ref, m + n, len, w) == Draws(ref, m, len, w) + Draws(ref + m, n, len, w)
  {
    hide BitAnd;
    if n > 0 {
      DrawsSplit(ref, m, n - 1, len, w);
      assert m + n - 1 == m + (n - 1) && ref + (m + n) == ref + m + n;
    }
  }

  /** On a power of two the mask is a remainder. */
  lemma {:induction false} DrawsAreHits(ref: nat, n: nat, len: nat, k: nat)
    ensures Draws(ref, n, len, Pow2(k)) == Hits(ref, n, len, Pow2(k))
  {
    hide BitAnd, Pow2;
    if n > 0 {
      DrawsAreHits(ref, n - 1, len, k);
      MaskIsRemainder(ref + n, k);
    }
  }

  /** The mask repeats with every power of two that reaches the width. */
  lemma {:induction false} MaskRepeats(x: nat, m: nat, d: nat)
    requires m < Pow2(d)
    ensures BitAnd(x + Pow2(d), m) == BitAnd(x, m)
  {
    hide BitAnd, Pow2;
    Pow2Step(d);
    if d == 0 {
      AndZero(x);
      AndZero(x + 1);
    } else {
      var p := Pow2(d - 1);
      MaskRepeats(x / 2, m / 2, d - 1);
      AndStep(x, m);
      AndStep(x + 2 * p, m);
      assert (x + 2 * p) / 2 == x / 2 + p && (x + 2 * p) % 2 == x % 2;
    }
  }

  lemma {:induction false} DrawsRepeat(ref: nat, n: nat, len: nat, w: nat, d: nat)
    requires 0 < w <= Pow2(d)
    ensures Draws(ref + Pow2(d), n, len, w) == Draws(ref, n, len, w)
  {
    hide BitAnd, Pow2;
    if n > 0 {
      DrawsRepeat(ref, n - 1, len, w, d);
      MaskRepeats(ref + n, w - 1, d);
      assert ref + Pow2(d) + n == ref + n + Pow2(d);
    }
  }

  /** Windows of equal counts add up. */
  lemma {:induction false} EqualWindows(k: nat, size: nat, count: nat, w: nat)
    requires w > 0 && forall ref: nat :: Draws(ref, size, 1, w) == count
    ensures Draws(0, k * size, 1, w) == k * count
  {
    hide Draws;
    if k > 0 {
      EqualWindows(k - 1, size, count, w);
      Distribute(k - 1, 1, size);
      Distribute(k - 1, 1, count);
      DrawsSplit(0, (k - 1) * size, size, 1, w);
    } else {
      NoDraws(1, w);
    }
  }

  lemma NoDraws(len: nat, w: nat)
    requires w > 0
    ensures Draws(0, 0, len, w) == 0
  {}

  lemma {:induction false} Periods(k: nat, w: nat, d: nat)
    requires 0 < w <= Pow2(d)
    ensures Draws(0, k * Pow2(d), 1, w) == k * Draws(0, Pow2(d), 1, w)
  {
    hide Draws, Pow2;
    if k > 0 {
      Periods(k - 1, w, d);
      var p := Pow2(d);
      Distribute(k - 1, 1, p);
      Distribute(k - 1, 1, Draws(0, p, 1, w));
      DrawsSplit(0, (k - 1) * p, p, 1, w);
      PeriodsLater(k - 1, w, d);
    } else {
      NoDraws(1, w);
    }
  }

  lemma {:induction false} PeriodsLater(k: nat, w: nat, d: nat)
    requires 0 < w <= Pow2(d)
    ensures Draws(k * Pow2(d), Pow2(d), 1, w) == Draws(0, Pow2(d), 1, w)
  {
    hide Draws, Pow2;
    if k > 0 {
      PeriodsLater(k - 1, w, d);
      Distribute(k - 1, 1, Pow2(d));
      DrawsRepeat((k - 1) * Pow2(d), Pow2(d), 1, w, d);
    }
  }

  lemma {:induction false} DivisorOfPow2(h: nat, w: nat, d: nat)
    requires h * w == Pow2(d)
    ensures IsPow2(w)
  {
    hide IsPow2;
    Pow2Step(d);
    if d == 0 {
      if h > 1 { MulAtLeast(w, h); }
      if w > 1 { MulAtLeast(h, w); }
      PowerIsPow2(0);
      Pow2Step(0);
    } else if w % 2 == 0 {
      assert h * w == 2 * (h * (w / 2));
      DivisorOfPow2(h, w / 2, d - 1);
      TwiceIsPow2(w / 2);
    } else {
      OddFactor(h, w);
      assert h * w == 2 * ((h / 2) * w);
      DivisorOfPow2(h / 2, w, d - 1);
    }
  }

  lemma OddFactor(h: nat, w: nat)
    requires w % 2 == 1 && (h * w) % 2 == 0
    ensures h % 2 == 0
  {
    assert h * w == 2 * (h * (w / 2)) + h;
  }

  lemma PowerIsPow2(k: nat)
    ensures IsPow2(Pow2(k))
  {}

  lemma TwiceIsPow2(x: nat)
    requires IsPow2(x)
    ensures IsPow2(2 * x)
  {
    var k: nat :| x == Pow2(k);
    Pow2Step(k + 1);
    PowerIsPow2(k + 1);
  }

  /** If every run of n counter values draws a one-granule access as often as its share of the width
      asks, the width is a power of two: over n periods of the mask the draws are n times those of
      one period, and the period is a power of two. */
  lemma FairIsPow2(n: nat, w: nat)
    requires w > 0 && n > 0 && forall ref: nat :: Draws(ref, n, 1, w) * w == n
    ensures IsPow2(w)
  {
    hide Draws, Pow2, IsPow2;
    var d := CeilLog2(w);
    var p, count, h := Pow2(d), Draws(0, n, 1, w), Draws(0, Pow2(d), 1, w);
    forall ref: nat ensures Draws(ref, n, 1, w) == count {
      SameFactor(Draws(ref, n, 1, w), count, w);
    }
    EqualWindows(p, n, count, w);
    Periods(n, w, d);
    assert p * n == n * p;
    assert p * count == n * h;
    Associate(p, count, w);
    Associate(n, h, w);
    SameFactor(p, h * w, n);
    DivisorOfPow2(h, w, d);
  }

  lemma SameFactor(x: int, y: int, z: int)
    requires z > 0 && x * z == y * z
    ensures x == y
  {
    assert (x - y) * z == 0 && (y - x) * z == 0;
    if x > y { MulAtLeast(x - y, z); }
    if y > x { MulAtLeast(y - x, z); }
  }

  /** Three granules, for one: the mask is 2, and half of the counter values are drawn. */
  lemma ThreeDrawHalf(k: nat)
    ensures Draws(0, 4 * k, 1, 3) == 2 * k
  {
    assert Pow2(2) == 4;
    Periods(k, 3, 2);
    assert BitAnd(1, 2) == 0 && BitAnd(2, 2) == 2 && BitAnd(3, 2) == 2 && BitAnd(4, 2) == 0;
    assert Draws(0, 4, 1, 3) == 2;
  }

  // ------------------------------------------------------------ errors cancel over a period

  /** The sampling errors of n repetitions of an access, from counter value ref + 1 on. */
  ghost function ErrorSum(ref: nat, n: nat, al: nat, ar: nat, v: Visit): int
    requires v.Valid()
  {
    if n == 0 then 0 else ErrorSum(ref, n - 1, al, ar, v) + SamplingError(ref + n, al, ar, v)
  }

  lemma {:induction false} ErrorSumStep(ref: nat, n: nat, al: nat, ar: nat, v: Visit)
    requires v.Valid() && !v.Exact()
    ensures ErrorSum(ref, n, al, ar, v)
         == (if v.GoesLeft() then ErrorSum(ref, n, al, ar, v.Left()) else 0)
            + (if v.GoesRight() then ErrorSum(ref, n, al, ar, v.Right()) else 0)
  {
    hide SamplingError;
    if n > 0 {
      ErrorSumStep(ref, n - 1, al, ar, v);
      ErrorStep(ref + n, al, ar, v);
    }
  }

  /** On a node of power-of-two width the mask is a remainder. */
  lemma SampledIsRemainder(ref: nat, v: Visit)
    requires v.Valid() && v.Width() == Pow2(v.level)
    ensures Sampled(ref, v) <==> ref % v.Width() < v.right - v.left
  {
    MaskIsRemainder(ref, v.level);
  }

  /** The part of [al, ar) inside the node of v. */
  function Cut(al: nat, ar: nat, v: Visit): Visit {
    v.(left := Max(al, v.start), right := Min(ar, v.end))
  }

  lemma OneError(ref: nat, al: nat, ar: nat, v: Visit)
    requires v.Valid() && v.Exact()
    requires Cut(al, ar, v).left < Cut(al, ar, v).right && !Cut(al, ar, v).Exact()
    ensures
      var len := Cut(al, ar, v).right - Cut(al, ar, v).left;
      SamplingError(ref, al, ar, v) == (if BitAnd(ref, v.Width() - 1) < len then v.Width() else 0) - len
  {
    hide SamplingError, BitAnd;
    ErrorStep(ref, al, ar, v);
    assert Cut(al, ar, v) == Visit(Max(al, v.start), Min(ar, v.end), v.start, v.end, v.level);
  }

  lemma {:induction false} ErrorSumExact(ref: nat, n: nat, al: nat, ar: nat, v: Visit)
    requires v.Valid() && v.Exact()
    requires Cut(al, ar, v).left < Cut(al, ar, v).right && !Cut(al, ar, v).Exact()
    ensures
      var len := Cut(al, ar, v).right - Cut(al, ar, v).left;
      ErrorSum(ref, n, al, ar, v) == Draws(ref, n, len, v.Width()) * v.Width() - n * len
  {
    hide SamplingError, Cut, BitAnd;
    if n > 0 {
      ErrorSumExact(ref, n - 1, al, ar, v);
      OneError(ref + n, al, ar, v);
      var len, w := Cut(al, ar, v).right - Cut(al, ar, v).left, v.Width();
      Distribute(n - 1, 1, len);
      Distribute(Draws(ref, n - 1, len, w), 1, w);
    }
  }

  lemma NodeErrorsCancel(ref: nat, n: nat, al: nat, ar: nat, v: Visit)
    requires v.Valid() && v.Exact() && IsPow2(v.Width()) && n % v.Width() == 0
    ensures ErrorSum(ref, n, al, ar, v) == 0
  {
    hide ErrorSum, Draws, Hits, Pow2;
    var a := Cut(al, ar, v);
    if a.left >= a.right || a.Exact() {
      NoErrors(ref, n, al, ar, v);
    } else {
      var len, w := a.right - a.left, v.Width();
      var k: nat :| w == Pow2(k);
      var m := n / w;
      assert n == m * w;
      ErrorSumExact(ref, n, al, ar, v);
      DrawsAreHits(ref, n, len, k);
      HitsPeriods(ref, m, len, w);
      assert m * len * w == m * w * len by { Associate(m, len, w); Associate(m, w, len); }
    }
  }

  lemma Associate(a: int, b: int, c: int)
    ensures (a * b) * c == a * (b * c)
  {}

  lemma {:induction false} NoErrors(ref: nat, n: nat, al: nat, ar: nat, v: Visit)
    requires v.Valid() && ((al <= v.start && v.end <= ar) || Min(ar, v.end) <= Max(al, v.start))
    ensures ErrorSum(ref, n, al, ar, v) == 0
  {
    if n > 0 {
      NoErrors(ref, n - 1, al, ar, v);
      NoError(ref + n, al, ar, v);
    }
  }

  /** n is a multiple of the width of every node that the query covers exactly. */
  ghost predicate WholePeriods(n: nat, v: Visit)
    requires v.Valid()
  {
    forall c :: c in Cover(v) ==> c.start < c.end && n % (c.end - c.start) == 0
  }

  /** Every node that the query covers exactly has a power-of-two width. */
  ghost predicate PowerWidths(v: Visit)
    requires v.Valid()
  {
    forall c :: c in Cover(v) ==> c.start < c.end && IsPow2(c.end - c.start)
  }

  lemma {:induction false} ErrorsCancel(ref: nat, n: nat, al: nat, ar: nat, v: Visit)
    requires v.Valid() && PowerWidths(v) && WholePeriods(n, v)
    ensures ErrorSum(ref, n, al, ar, v) == 0
    decreases v.Width()
  {
    hide ErrorSum, IsPow2;
    if v.Exact() {
      assert v.AsNode() in Cover(v);
      NodeErrorsCancel(ref, n, al, ar, v);
    } else {
      ErrorSumStep(ref, n, al, ar, v);
      if v.GoesLeft() { ErrorsCancel(ref, n, al, ar, v.Left()); }
      if v.GoesRight() { ErrorsCancel(ref, n, al, ar, v.Right()); }
    }
  }

  /** The errors of every access, repeated n times from any counter value, cancel. */
  ghost predicate AlwaysCancels(n: nat, v: Visit)
    requires v.Valid()
  {
    forall ref: nat, al: nat, ar: nat :: ErrorSum(ref, n, al, ar, v) == 0
  }

  /** At one node they cancel only if its width is a power of two: accesses to its first granule. */
  lemma NodeCancelsOnlyIfPow2(n: nat, v: Visit)
    requires v.Valid() && v.Exact() && n > 0 && AlwaysCancels(n, v)
    ensures IsPow2(v.Width())
  {
    hide ErrorSum, Draws, Pow2, IsPow2;
    var w := v.Width();
    if w == 1 {
      Pow2Step(0);
      PowerIsPow2(0);
    } else {
      forall ref: nat ensures Draws(ref, n, 1, w) * w == n {
        assert ErrorSum(ref, n, v.start, v.start + 1, v) == 0;
        ErrorSumExact(ref, n, v.start, v.start + 1, v);
      }
      FairIsPow2(n, w);
    }
  }

  /** What cancels in a node cancels in the halves that the query meets: an access to one half makes no
      error in the other. */
  lemma LeftCancels(n: nat, v: Visit)
    requires v.Valid() && !v.Exact() && v.GoesLeft() && AlwaysCancels(n, v)
    ensures AlwaysCancels(n, v.Left())
  {
    hide ErrorSum;
    forall ref: nat, al: nat, ar: nat ensures ErrorSum(ref, n, al, ar, v.Left()) == 0 {
      var bl, br := Max(al, v.start), Min(ar, v.Mid());
      ErrorSumCut(ref, n, al, ar, bl, br, v.Left());
      ErrorSumStep(ref, n, bl, br, v);
      if v.GoesRight() { NoErrors(ref, n, bl, br, v.Right()); }
      assert ErrorSum(ref, n, bl, br, v) == 0;
    }
  }

  lemma RightCancels(n: nat, v: Visit)
    requires v.Valid() && !v.Exact() && v.GoesRight() && AlwaysCancels(n, v)
    ensures AlwaysCancels(n, v.Right())
  {
    hide ErrorSum;
    forall ref: nat, al: nat, ar: nat ensures ErrorSum(ref, n, al, ar, v.Right()) == 0 {
      var bl, br := Max(al, v.Mid()), Min(ar, v.end);
      ErrorSumCut(ref, n, al, ar, bl, br, v.Right());
      ErrorSumStep(ref, n, bl, br, v);
      if v.GoesLeft() { NoErrors(ref, n, bl, br, v.Left()); }
      assert ErrorSum(ref, n, bl, br, v) == 0;
    }
  }

  lemma {:induction false} ErrorSumCut(ref: nat, n: nat, al: nat, ar: nat, bl: nat, br: nat, v: Visit)
    requires v.Valid() && Max(al, v.start) == Max(bl, v.start) && Min(ar, v.end) == Min(br, v.end)
    ensures ErrorSum(ref, n, al, ar, v) == ErrorSum(ref, n, bl, br, v)
  {
    hide SamplingError;
    if n > 0 {
      ErrorSumCut(ref, n - 1, al, ar, bl, br, v);
      ErrorCut(ref + n, al, ar, bl, br, v);
    }
  }

  lemma {:induction false} CancelsOnlyIfPow2(n: nat, v: Visit)
    requires v.Valid() && n > 0 && AlwaysCancels(n, v)
    ensures PowerWidths(v)
    decreases v.Width()
  {
    hide AlwaysCancels, IsPow2;
    if v.Exact() {
      NodeCancelsOnlyIfPow2(n, v);
    } else {
      if v.GoesLeft() {
        LeftCancels(n, v);
        CancelsOnlyIfPow2(n, v.Left());
      }
      if v.GoesRight() {
        RightCancels(n, v);
        CancelsOnlyIfPow2(n, v.Right());
      }
    }
  }

  /** The sampler is exact over full periods exactly on power-of-two widths: for any number of
      repetitions that is a multiple of the widths in the query's cover, the errors of every access
      cancel, from every counter value, if and only if all these widths are powers of two. */
  lemma CancelsIffPow2(n: nat, v: Visit)
    requires v.Valid() && n > 0 && WholePeriods(n, v)
    ensures AlwaysCancels(n, v) <==> PowerWidths(v)
  {
    hide ErrorSum, PowerWidths, WholePeriods;
    if AlwaysCancels(n, v) { CancelsOnlyIfPow2(n, v); }
    if PowerWidths(v) {
      forall ref: nat, al: nat, ar: nat ensures ErrorSum(ref, n, al, ar, v) == 0 {
        ErrorsCancel(ref, n, al, ar, v);
      }
    }
  }

  /** On a grid of power-of-two size every query has such a cover. */
  lemma {:induction false} PowerGrid(v: Visit)
    requires v.Valid() && v.Width() == Pow2(v.level)
    ensures PowerWidths(v)
    decreases v.Width()
  {
    hide IsPow2;
    if v.Exact() {
      PowerIsPow2(v.level);
    } else {
      if v.GoesLeft() { PowerGrid(v.Left()); }
      if v.GoesRight() { PowerGrid(v.Right()); }
    }
  }

  // ------------------------------------------------------------ the estimate over a period

  /** The same access made n times, as record_access advances the counter from ref. */
  ghost function Repeated(a: Access, ref: nat, n: nat): (h: seq<Access>)
    ensures |h| == n
  {
    if n == 0 then [] else Repeated(a, ref, n - 1) + [a.(ref := ref + n)]
  }

  lemma RepeatedNone(h: seq<Access>, a: Access, ref: nat)
    ensures h + Repeated(a, ref, 0) == h
  {
    assert h + [] == h;
  }

  lemma RepeatedLast(h: seq<Access>, a: Access, ref: nat, n: nat)
    ensures h + Repeated(a, ref, n + 1) == h + Repeated(a, ref, n) + [a.(ref := ref + n + 1)]
  {
    assert Repeated(a, ref, n + 1) == Repeated(a, ref, n) + [a.(ref := ref + (n + 1))];
  }

  lemma {:induction false} RepeatedTaken(g: Grid, h: seq<Access>, a: Access, ref: nat, n: nat)
    requires AllTaken(g, h) && g.Takes(a.left, a.right)
    ensures AllTaken(g, h + Repeated(a, ref, n))
  {
    if n > 0 {
      RepeatedTaken(g, h, a, ref, n - 1);
      assert h + Repeated(a, ref, n) == h + Repeated(a, ref, n - 1) + [a.(ref := ref + n)];
    }
  }

  lemma {:induction false} RepeatedContributions(g: Grid, h: seq<Access>, a: Access, ref: nat, n: nat, l: nat, r: nat)
    requires g.Takes(l, r)
    ensures Contributions(g, h + Repeated(a, ref, n), a.unit, a.block, l, r)
         == Contributions(g, h, a.unit, a.block, l, r)
            + n * Overlap(a.left, a.right, l, r) + ErrorSum(ref, n, a.left, a.right, g.Root(l, r))
  {
    hide Overlap, SamplingError;
    if n == 0 {
      assert h + [] == h;
    } else {
      RepeatedContributions(g, h, a, ref, n - 1, l, r);
      var before := h + Repeated(a, ref, n - 1);
      assert h + Repeated(a, ref, n) == before + [a.(ref := ref + n)];
      assert (before + [a.(ref := ref + n)])[..|before|] == before;
      Distribute(n - 1, 1, Overlap(a.left, a.right, l, r));
    }
  }

  lemma {:induction false} LogIsPrefix(g: Grid, h: seq<Access>, a: Access, ref: nat, n: nat) returns (more: seq<Event>)
    requires AllTaken(g, h) && AllTaken(g, h + Repeated(a, ref, n)) && g.Takes(a.left, a.right)
    ensures LogOf(g, h + Repeated(a, ref, n)) == LogOf(g, h) + more
  {
    hide LogOf, BumpsOf;
    if n == 0 {
      assert h + [] == h;
      more := [];
    } else {
      RepeatedTaken(g, h, a, ref, n - 1);
      var before, last := h + Repeated(a, ref, n - 1), a.(ref := ref + n);
      more := LogIsPrefix(g, h, a, ref, n - 1);
      assert h + Repeated(a, ref, n) == before + [last];
      LogLast(g, before, last);
      more := more + BumpsOf(g, last);
    }
  }

  /** What is clean after more accesses was clean before them. */
  lemma {:induction false} CleanBefore(lay: Layout, log: seq<Event>, more: seq<Event>, b: Block, v: Visit)
    requires v.Valid() && Clean(lay, log + more, b, v)
    ensures Clean(lay, log, b, v)
    decreases v.Width()
  {
    ReadableBefore(lay, log, more, b.LazyKey(v));
    if v.Exact() { ReadableBefore(lay, log, more, b.DyadicKey(v)); }
    hide Readable;
    if v.GoesLeft() { CleanBefore(lay, log, more, b, v.Left()); }
    if v.GoesRight() { CleanBefore(lay, log, more, b, v.Right()); }
  }

  lemma ReadableBefore(lay: Layout, log: seq<Event>, more: seq<Event>, k: Key)
    requires Readable(lay, log + more, k)
    ensures Readable(lay, log, k)
  {
    var row :| 0 <= row < 4 && CollisionFree(lay, log + more, k, row);
    assert forall e :: e in log ==> e in log + more;
    assert CollisionFree(lay, log, k, row);
  }

  /** Full periods are exact: where the query's cover has power-of-two widths, n repetitions of an
      access raise it by exactly n times their overlap, from any counter value, when n is a multiple of the
      widths in the query's cover and the counters the query reads neither collide nor overflow. */
  lemma FullPeriod(lay: Layout, t: Tables, t': Tables, g: Grid, h: seq<Access>, a: Access, ref: nat, n: nat,
                   l: nat, r: nat)
    requires g.top < |lay.sizes|
    requires AllTaken(g, h) && AllTaken(g, h + Repeated(a, ref, n)) && g.Takes(a.left, a.right)
    requires g.Takes(l, r) && l < r && WholePeriods(n, g.Root(l, r)) && PowerWidths(g.Root(l, r))
    requires Represents(lay, t, LogOf(g, h)) && Represents(lay, t', LogOf(g, h + Repeated(a, ref, n)))
    requires Clean(lay, LogOf(g, h + Repeated(a, ref, n)), g.BlockAt(a.unit, a.block), g.Root(l, r))
    ensures Estimate(lay, t', g.BlockAt(a.unit, a.block), g.Root(l, r))
         == Estimate(lay, t, g.BlockAt(a.unit, a.block), g.Root(l, r)) + n * Overlap(a.left, a.right, l, r)
  {
    hide LogOf, Estimate, Contributions, Represents, Clean, ErrorSum, Overlap, Repeated, WholePeriods, PowerWidths;
    var b, v := g.BlockAt(a.unit, a.block), g.Root(l, r);
    var more := LogIsPrefix(g, h, a, ref, n);
    CleanBefore(lay, LogOf(g, h), more, b, v);
    ErrorDecomposition(lay, t, g, h, a.unit, a.block, l, r);
    ErrorDecomposition(lay, t', g, h + Repeated(a, ref, n), a.unit, a.block, l, r);
    RepeatedContributions(g, h, a, ref, n, l, r);
    ErrorsCancel(ref, n, a.left, a.right, v);
  }
}
