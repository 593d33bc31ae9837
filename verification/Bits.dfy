// Integer helpers of the sketches: powers of two, C++'s bitwise operators on unsigned
// operands, and the bit-smearing round-up of sketchdetail::nearest_power_of_two.
module Bits {

  const WORD := 0x1_0000_0000  // number of uint32_t values

  function Min(x: int, y: int): int { if x <= y then x else y }

  function Max(x: int, y: int): int { if x <= y then y else x }

  /** A product under a name, for bodies that should not show the solver the arithmetic. */
  function Times(x: int, y: int): (z: int)
    ensures x >= 0 && y >= 0 ==> z >= 0
  {
    x * y
  }

  function Pow2(k: nat): (p: nat)
    ensures p >= 1
  {
    if k == 0 then 1 else 2 * Pow2(k - 1)
  }

  lemma MulAtLeast(a: int, d: int)
    requires a >= 1 && d > 0
    ensures a * d >= d
  {}

  lemma MulMonotone(x: nat, y: nat, n: nat)
    requires x <= y
    ensures x * n <= y * n
  {}

  /** Quotient and remainder are determined by n == q * d + r with 0 <= r < d. */
  lemma DivModUnique(n: int, d: int, q: int, r: int)
    requires d > 0 && 0 <= r < d && n == q * d + r
    ensures n / d == q && n % d == r
  {
    var q', r' := n / d, n % d;
    assert n == q' * d + r';
    assert (q' - q) * d == r - r' by { assert (q' - q) * d == q' * d - q * d; }
    if q' > q { MulAtLeast(q' - q, d); }
    if q' < q { assert (q - q') * d == r' - r; MulAtLeast(q - q', d); }
  }

  lemma Pow2Step(k: nat)
    ensures Pow2(k) == if k == 0 then 1 else 2 * Pow2(k - 1)
  {}

  lemma {:induction false} Pow2Monotone(j: nat, k: nat)
    requires j <= k
    ensures Pow2(j) <= Pow2(k)
    decreases k - j
  {
    if j < k { Pow2Monotone(j, k - 1); }
  }

  // ---------------------------------------------------------------- bitwise operators

  /** C++'s x & y on unsigned operands, bit by bit from the lowest. */
  function BitAnd(x: nat, y: nat): (z: nat)
    ensures z <= x && z <= y
  {
    if x == 0 || y == 0 then 0
    else (if x % 2 == 1 && y % 2 == 1 then 1 else 0) + 2 * BitAnd(x / 2, y / 2)
  }

  /** C++'s x | y on unsigned operands. */
  function BitOr(x: nat, y: nat): (z: nat)
    ensures x <= z && y <= z <= x + y
  {
    if x == 0 then y
    else if y == 0 then x
    else (if x % 2 == 1 || y % 2 == 1 then 1 else 0) + 2 * BitOr(x / 2, y / 2)
  }

  /** C++'s x >> k on an unsigned operand. */
  function Shr(x: nat, k: nat): (z: nat)
    ensures z <= x
    decreases k
  {
    if k == 0 then x else Shr(x / 2, k - 1)
  }

  lemma AndStep(x: nat, y: nat)
    ensures BitAnd(x, y) == (if x % 2 == 1 && y % 2 == 1 then 1 else 0) + 2 * BitAnd(x / 2, y / 2)
  {}

  lemma OrStep(x: nat, y: nat)
    ensures BitOr(x, y) == (if x % 2 == 1 || y % 2 == 1 then 1 else 0) + 2 * BitOr(x / 2, y / 2)
  {}

  lemma AndZero(x: nat)
    ensures BitAnd(x, 0) == 0
  {}

  lemma OrZero(x: nat)
    ensures BitOr(x, 0) == x
  {}

  lemma OnesHalve(p: nat)
    requires p > 0
    ensures (2 * p - 1) / 2 == p - 1 && (2 * p - 1) % 2 == 1
  {}

  /** Masking with 2^k - 1 keeps the remainder modulo 2^k. */
  lemma {:induction false} MaskIsRemainder(x: nat, k: nat)
    ensures BitAnd(x, Pow2(k) - 1) == x % Pow2(k)
  {
    hide BitAnd, Pow2;
    Pow2Step(k);
    if k == 0 {
      AndZero(x);
    } else {
      var p := Pow2(k - 1);
      OnesHalve(p);
      AndStep(x, 2 * p - 1);
      MaskIsRemainder(x / 2, k - 1);
      RemainderStep(x, p);
    }
  }

  lemma RemainderStep(x: nat, p: nat)
    requires p > 0
    ensures x % (2 * p) == x % 2 + 2 * ((x / 2) % p)
  {
    var q, r := (x / 2) / p, (x / 2) % p;
    assert x / 2 == q * p + r;
    assert q * (2 * p) == 2 * (q * p);
    DivModUnique(x, 2 * p, q, 2 * r + x % 2);
  }

  lemma {:induction false} ShrTwice(x: nat, j: nat, k: nat)
    ensures Shr(Shr(x, j), k) == Shr(x, j + k)
    decreases j
  {
    if j > 0 { ShrTwice(x / 2, j - 1, k); }
  }

  lemma {:induction false} OrShift(x: nat, y: nat, m: nat)
    ensures Shr(BitOr(x, y), m) == BitOr(Shr(x, m), Shr(y, m))
    decreases m
  {
    hide BitOr;
    if m > 0 {
      OrStep(x, y);
      assert BitOr(x, y) / 2 == BitOr(x / 2, y / 2);
      OrShift(x / 2, y / 2, m - 1);
    }
  }

  // ------------------------------------------- sketchdetail::nearest_power_of_two

  function SmearStep(x: nat, t: nat): nat { BitOr(x, Shr(x, t)) }

  /** The number of binary digits of x. */
  function Digits(x: nat): (d: nat)
    ensures x < Pow2(d)
    ensures d > 0 ==> Pow2(d - 1) <= x
  {
    if x == 0 then 0 else Digits(x / 2) + 1
  }

  /** The top t of the d digits of x are ones (all of them when d <= t). */
  predicate TopOnes(x: nat, d: nat, t: nat) {
    if d <= t then x == Pow2(d) - 1 else TopOnes(x / 2, d - 1, t)
  }

  lemma {:induction false} SmearDoubles(x: nat, d: nat, t: nat)
    requires t > 0 && TopOnes(x, d, t)
    ensures TopOnes(SmearStep(x, t), d, 2 * t)
  {
    if d <= t {
      ShrAll(x, d, t);
    } else if d <= 2 * t {
      SmearCompletes(x, d, t, d - t);
    } else {
      SmearDoubles(x / 2, d - 1, t);
      ShrTwice(x, 1, t);
      ShrTwice(x, t, 1);
      OrShift(x, Shr(x, t), 1);
      assert Shr(x, 1) == x / 2 && Shr(Shr(x, t), 1) == Shr(x, t) / 2;
      assert Shr(SmearStep(x, t), 1) == SmearStep(x, t) / 2;
    }
  }

  lemma {:induction false} ShrAll(x: nat, d: nat, t: nat)
    requires x < Pow2(d) && d <= t
    ensures Shr(x, t) == 0
    decreases t
  {
    if d > 0 { ShrAll(x / 2, d - 1, t - 1); }
    else if t > 0 { ShrAll(0, 0, t - 1); }
  }

  /** With e <= t lower digits unknown and ones above, or-ing e ones fills them. */
  lemma SmearCompletes(x: nat, d: nat, t: nat, e: nat)
    requires t < d && TopOnes(x, d, t) && e == d - t <= t
    ensures SmearStep(x, t) == Pow2(d) - 1
  {
    hide BitOr, Shr, TopOnes, Pow2;
    TopOnesShift(x, d, t);
    ShrTwice(x, e, t - e);
    ShrOnes(t, t - e);
    OrFills(x, d, e, t);
  }

  lemma {:induction false} TopOnesShift(x: nat, d: nat, t: nat)
    requires t <= d && TopOnes(x, d, t)
    ensures Shr(x, d - t) == Pow2(t) - 1
    decreases d
  {
    if t < d { TopOnesShift(x / 2, d - 1, t); }
  }

  lemma {:induction false} ShrOnes(t: nat, k: nat)
    requires k <= t
    ensures Shr(Pow2(t) - 1, k) == Pow2(t - k) - 1
    decreases k
  {
    hide Pow2;
    Pow2Step(t);
    if k > 0 {
      OnesHalve(Pow2(t - 1));
      ShrOnes(t - 1, k - 1);
    }
  }

  lemma {:induction false} OrFills(x: nat, d: nat, e: nat, t: nat)
    requires d == t + e && Shr(x, e) == Pow2(t) - 1
    ensures BitOr(x, Pow2(e) - 1) == Pow2(d) - 1
    decreases e
  {
    hide BitOr, Pow2;
    Pow2Step(d);
    Pow2Step(e);
    if e > 0 {
      var p := Pow2(e - 1);
      OnesHalve(p);
      OrStep(x, 2 * p - 1);
      OrFills(x / 2, d - 1, e - 1, t);
    } else {
      OrZero(x);
    }
  }

  lemma {:induction false} HighestDigitIsOne(x: nat)
    requires x > 0
    ensures TopOnes(x, Digits(x), 1)
  {
    if x > 1 { HighestDigitIsOne(x / 2); }
  }

  lemma {:induction false} DigitsAtMost(x: nat, k: nat)
    ensures x < Pow2(k) <==> Digits(x) <= k
    decreases k
  {
    if x > 0 && k > 0 { DigitsAtMost(x / 2, k - 1); }
  }

  lemma WordIsPow2()
    ensures Pow2(31) == WORD / 2 && Pow2(32) == WORD
  {
    assert Pow2(4) == 0x10;
    assert Pow2(8) == 0x100;
    assert Pow2(12) == 0x1000;
    assert Pow2(16) == 0x1_0000;
    assert Pow2(20) == 0x10_0000;
    assert Pow2(24) == 0x100_0000;
    assert Pow2(28) == 0x1000_0000;
  }

  lemma RoundUp(y: nat)
    requires y < WORD
    ensures y < WORD / 2 ==> Digits(y) <= 31 && Pow2(Digits(y)) <= WORD / 2
    ensures y >= WORD / 2 ==> Digits(y) == 32 && Pow2(Digits(y)) == WORD
  {
    WordIsPow2();
    DigitsAtMost(y, 31);
    DigitsAtMost(y, 32);
    Pow2Monotone(Digits(y), if y < WORD / 2 then 31 else 32);
  }

  lemma TopDigit(y: nat)
    ensures TopOnes(y, Digits(y), 1)
  {
    if y > 0 { HighestDigitIsOne(y); }
  }

  /** The least exponent whose power of two reaches x. */
  function CeilLog2(x: nat): (k: nat)
    requires x > 0
    ensures x <= Pow2(k)
    ensures k > 0 ==> Pow2(k - 1) < x
  {
    Digits(x - 1)
  }

  /** What nearest_power_of_two returns: the least power of two that reaches x, or 0 when there is
      none among the uint32_t values. */
  function RoundedUp(x: nat): nat {
    if 1 <= x <= WORD / 2 then Pow2(CeilLog2(x)) else 0
  }

  /** nearest_power_of_two: decrement, smear the highest digit downwards, increment, all
      modulo 2^32. It is the least power of two that reaches x, or 0 when there is none. */
  method NearestPowerOfTwo(n: nat) returns (r: nat)
    requires n < WORD
    ensures 1 <= n <= WORD / 2 ==> r == Pow2(CeilLog2(n)) <= WORD / 2
    ensures n == 0 || n > WORD / 2 ==> r == 0
    ensures r == RoundedUp(n)
  {
    var x := if n == 0 then WORD - 1 else n - 1;  // --x on a uint32_t
    RoundUp(x);
    x := Smear(x);
    r := if x == WORD - 1 then 0 else x + 1;      // ++x
  }

  /** Rounded up, the ints above 2^30 no longer fit an int. */
  lemma LargeRoundsUp(n: nat)
    requires 1 <= n <= INT_MAX
    ensures n <= WORD / 4 <==> Pow2(CeilLog2(n)) <= INT_MAX
  {
    hide CeilLog2, Pow2;
    WordIsPow2();
    Pow2Step(31);
    if n <= WORD / 4 {
      LeastPowerOfTwo(n, 30);
    } else if CeilLog2(n) <= 30 {
      Pow2Monotone(CeilLog2(n), 30);
    } else {
      Pow2Monotone(31, CeilLog2(n));
    }
  }

  /** log2 of a positive integer, rounded down. */
  function Log2(p: nat): (k: nat)
    requires p > 0
    ensures Pow2(k) <= p
    ensures p < 2 * Pow2(k)
  {
    Digits(p) - 1
  }

  lemma Log2Exact(k: nat)
    ensures Log2(Pow2(k)) == k
  {
    hide Pow2, Log2;
    var j := Log2(Pow2(k));
    if j < k {
      Pow2Step(j + 1);
      Pow2Monotone(j + 1, k);
    } else if k < j {
      Pow2Step(k + 1);
      Pow2Monotone(k + 1, j);
    }
  }

  // ------------------------------------------------------------ C++'s narrowing conversions

  const INT_MAX := WORD / 2 - 1

  function AsUint32(x: nat): (r: nat)
    ensures r < WORD
    ensures x < WORD ==> r == x
  {
    x % WORD
  }

  function AsInt(x: nat): (r: int)
    ensures -WORD / 2 <= r <= INT_MAX
    ensures x <= INT_MAX ==> r == x
  {
    var r := AsUint32(x);
    if r <= INT_MAX then r else r - WORD
  }

  lemma AllOnes(x: nat, y: nat)
    requires x < WORD && TopOnes(y, Digits(x), 32)
    ensures y == Pow2(Digits(x)) - 1
  {
    RoundUp(x);
  }

  /** The five lines x |= x >> t of the smearing. */
  method Smear(x: nat) returns (y: nat)
    requires x < WORD
    ensures y == Pow2(Digits(x)) - 1
  {
    hide BitOr, Shr, TopOnes, Pow2, Digits;
    ghost var d := Digits(x);
    TopDigit(x);
    y := BitOr(x, Shr(x, 1));
    SmearDoubles(x, d, 1);
    ghost var z := y;
    y := BitOr(y, Shr(y, 2));
    SmearDoubles(z, d, 2);
    z := y;
    y := BitOr(y, Shr(y, 4));
    SmearDoubles(z, d, 4);
    z := y;
    y := BitOr(y, Shr(y, 8));
    SmearDoubles(z, d, 8);
    z := y;
    y := BitOr(y, Shr(y, 16));
    SmearDoubles(z, d, 16);
    AllOnes(x, y);
  }

  lemma LeastPowerOfTwo(x: nat, k: nat)
    requires x > 0 && x <= Pow2(k)
    ensures Pow2(CeilLog2(x)) <= Pow2(k)
  {
    DigitsAtMost(x - 1, k);
    Pow2Monotone(CeilLog2(x), k);
  }
}
