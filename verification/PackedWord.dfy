// A 64-bit table word holds sixteen 4-bit counters; counter k lives at bit offset 4 * k.
// Words are the unsigned values below 2^64. This module fixes what the word operations of
// the sketches do to every counter of a word.
module PackedWord {
  import opened Bits

  const LIMIT := 15  // the largest value of a 4-bit counter

  function Capped(n: nat): nat { Min(LIMIT, n) }

  /** Counter k of a word, as a digit to base 16. */
  function Nibble(w: nat, k: nat): (n: nat)
    ensures n <= LIMIT
    decreases k
  {
    if k == 0 then w % 16 else Nibble(w / 16, k - 1)
  }

  /** C++'s v << s, before any wrap-around. */
  function Shl(v: nat, s: nat): nat
    decreases s
  {
    if s == 0 then v else 2 * Shl(v, s - 1)
  }

  /** A uint64_t, that is, a number below 2^64. */
  predicate IsWord(w: nat) { w < Shl(1, 64) }

  /** get_count: (word >> offset) & 0xf. */
  function GetNibble(w: nat, offset: nat): nat { BitAnd(Shr(w, offset), 15) }

  /** The word left by try_increment_counter_at_with_value: saturate with an or, or add. */
  function Increased(w: nat, offset: nat, inc: nat): nat {
    var now := GetNibble(w, offset);
    if now == LIMIT then w
    else if now + inc >= LIMIT then BitOr(w, Shl(15, offset))
    else w + Shl(inc, offset)
  }

  /** The word left by try_increment_counter_at of the flat sketches: compare under a mask,
      then add one. */
  function Incremented(w: nat, offset: nat): nat {
    var mask := Shl(15, offset);
    if BitAnd(w, mask) != mask then w + Shl(1, offset) else w
  }

  const SEVENS := 0x7777_7777_7777_7777

  /** The word left by reset: shift right, then clear the bit shifted in from each neighbour. */
  function Halved(w: nat): nat { BitAnd(Shr(w, 1), SEVENS) }

  /** Increasing a counter saturates it at 15, reaches no other counter, and leaves a word. */
  lemma {:induction false} IncreasedNibble(w: nat, k: nat, inc: nat, l: nat)
    ensures Nibble(Increased(w, 4 * k, inc), l)
         == if l == k then Capped(Nibble(w, k) + inc) else Nibble(w, l)
  {
    NibbleIsShiftMask(w, k);
    if Nibble(w, k) < LIMIT {
      if Nibble(w, k) + inc >= LIMIT { OrPart(w, k, l); } else { AddPart(w, k, inc, l); }
    }
  }

  lemma IncrementedNibble(w: nat, k: nat, l: nat)
    ensures Nibble(Incremented(w, 4 * k), l)
         == if l == k then Capped(Nibble(w, k) + 1) else Nibble(w, l)
  {
    FullUnderMask(w, k);
    if Nibble(w, k) < LIMIT { AddPart(w, k, 1, l); }
  }

  /** Halving a word halves each of its sixteen counters; no bit crosses into a neighbour. */
  lemma HalvedNibble(w: nat, l: nat)
    requires l < 16
    ensures Nibble(Halved(w), l) == Nibble(w, l) / 2
  {
    assert Shr(w, 1) == w / 2;
    SevensValue();
    HalvePart(w, 16, l);
  }

  /** No operation ever carries out of the 64 bits. */
  lemma StaysWord(w: nat, k: nat, inc: nat)
    requires k < 16 && IsWord(w)
    ensures IsWord(Increased(w, 4 * k, inc)) && IsWord(Incremented(w, 4 * k)) && IsWord(Halved(w))
  {
    NibbleIsShiftMask(w, k);
    FullUnderMask(w, k);
    OrFits(w, k, 16);
    if Nibble(w, k) + inc <= LIMIT { AddFits(w, k, inc, 16); }
    if Nibble(w, k) + 1 <= LIMIT { AddFits(w, k, 1, 16); }
  }

  lemma ZeroIsWord()
    ensures IsWord(0)
  {
    ShlNotZero(1, 64);
  }

  lemma {:induction false} ShlNotZero(v: nat, s: nat)
    requires v > 0
    ensures Shl(v, s) > 0
    decreases s
  {
    if s > 0 { ShlNotZero(v, s - 1); }
  }

  lemma {:induction false} ZeroNibble(k: nat)
    ensures Nibble(0, k) == 0
    decreases k
  {
    if k > 0 { ZeroNibble(k - 1); }
  }

  // ---------------------------------------------------- one digit to base 16 at a time

  lemma {:induction false} NibbleIsShiftMask(w: nat, k: nat)
    ensures GetNibble(w, 4 * k) == Nibble(w, k)
    decreases k
  {
    if k == 0 {
      MaskIsRemainder(w, 4);
      assert Pow2(4) == 16;
    } else {
      NibbleIsShiftMask(w / 16, k - 1);
      ShrTwice(w, 4, 4 * (k - 1));
      assert Shr(w, 4) == w / 16;
    }
  }

  lemma ShlNibble(v: nat, k: nat)
    requires k > 0
    ensures Shl(v, 4 * k) == 16 * Shl(v, 4 * (k - 1))
  {
    var s := 4 * (k - 1);
    assert Shl(v, s + 4) == 2 * Shl(v, s + 3);
    assert Shl(v, s + 3) == 2 * Shl(v, s + 2);
    assert Shl(v, s + 2) == 2 * Shl(v, s + 1);
  }

  predicate IsBit(b: nat) { b == 0 || b == 1 }

  /** The lowest bit of an and, or an or, with an operand that ends in 0 or in 1. */
  lemma AndLow(x: nat, b: nat, y: nat)
    requires IsBit(b)
    ensures BitAnd(2 * x + b, 2 * y) == 2 * BitAnd(x, y)
    ensures BitAnd(2 * x + b, 2 * y + 1) == 2 * BitAnd(x, y) + b
  {
    hide BitAnd;
    AndStep(2 * x + b, 2 * y);
    AndStep(2 * x + b, 2 * y + 1);
    assert (2 * x + b) / 2 == x && (2 * x + b) % 2 == b;
    assert (2 * y + 1) / 2 == y && (2 * y + 1) % 2 == 1;
  }

  lemma OrLow(x: nat, b: nat, y: nat)
    requires IsBit(b)
    ensures BitOr(2 * x + b, 2 * y) == 2 * BitOr(x, y) + b
    ensures BitOr(2 * x + b, 2 * y + 1) == 2 * BitOr(x, y) + 1
  {
    hide BitOr;
    OrStep(2 * x + b, 2 * y);
    OrStep(2 * x + b, 2 * y + 1);
    assert (2 * x + b) / 2 == x && (2 * x + b) % 2 == b;
    assert (2 * y + 1) / 2 == y && (2 * y + 1) % 2 == 1;
  }

  lemma LowestDigit(w: nat) returns (x: nat, b3: nat, b2: nat, b1: nat, b0: nat)
    ensures IsBit(b3) && IsBit(b2) && IsBit(b1) && IsBit(b0)
    ensures w == 16 * x + 8 * b3 + 4 * b2 + 2 * b1 + b0 && x == w / 16
    ensures w % 16 == 8 * b3 + 4 * b2 + 2 * b1 + b0 && w % 8 == 4 * b2 + 2 * b1 + b0
  {
    var w1 := w / 2;
    var w2 := w1 / 2;
    var w3 := w2 / 2;
    x, b3, b2, b1, b0 := w3 / 2, w3 % 2, w2 % 2, w1 % 2, w % 2;
  }

  lemma AndZeros(w: nat, m: nat)
    ensures BitAnd(w, 16 * m) == 16 * BitAnd(w / 16, m)
  {
    hide BitAnd, BitOr, IsBit;
    var x, b3, b2, b1, b0 := LowestDigit(w);
    AndLow(x, b3, m);
    AndLow(2 * x + b3, b2, 2 * m);
    AndLow(4 * x + 2 * b3 + b2, b1, 4 * m);
    AndLow(8 * x + 4 * b3 + 2 * b2 + b1, b0, 8 * m);
  }

  lemma AndSeven(w: nat, m: nat)
    ensures BitAnd(w, 16 * m + 7) == 16 * BitAnd(w / 16, m) + w % 8
  {
    hide BitAnd, BitOr, IsBit;
    var x, b3, b2, b1, b0 := LowestDigit(w);
    AndLow(x, b3, m);
    AndLow(2 * x + b3, b2, 2 * m);
    AndLow(4 * x + 2 * b3 + b2, b1, 4 * m + 1);
    AndLow(8 * x + 4 * b3 + 2 * b2 + b1, b0, 8 * m + 3);
  }

  lemma OrZeros(w: nat, m: nat)
    ensures BitOr(w, 16 * m) == 16 * BitOr(w / 16, m) + w % 16
  {
    hide BitAnd, BitOr, IsBit;
    var x, b3, b2, b1, b0 := LowestDigit(w);
    OrLow(x, b3, m);
    OrLow(2 * x + b3, b2, 2 * m);
    OrLow(4 * x + 2 * b3 + b2, b1, 4 * m);
    OrLow(8 * x + 4 * b3 + 2 * b2 + b1, b0, 8 * m);
  }

  lemma OrFifteen(w: nat)
    ensures BitOr(w, 15) == 16 * (w / 16) + 15
  {
    hide BitAnd, BitOr, IsBit;
    var x, b3, b2, b1, b0 := LowestDigit(w);
    OrZero(x);
    OrLow(x, b3, 0);
    OrLow(2 * x + b3, b2, 1);
    OrLow(4 * x + 2 * b3 + b2, b1, 3);
    OrLow(8 * x + 4 * b3 + 2 * b2 + b1, b0, 7);
  }

  lemma {:induction false} FullUnderMask(w: nat, k: nat)
    ensures BitAnd(w, Shl(15, 4 * k)) == Shl(15, 4 * k) <==> Nibble(w, k) == LIMIT
    decreases k
  {
    if k == 0 {
      MaskIsRemainder(w, 4);
      assert Pow2(4) == 16;
    } else {
      ShlNibble(15, k);
      AndZeros(w, Shl(15, 4 * (k - 1)));
      FullUnderMask(w / 16, k - 1);
    }
  }

  lemma {:induction false} OrPart(w: nat, k: nat, l: nat)
    ensures Nibble(BitOr(w, Shl(15, 4 * k)), l) == if l == k then LIMIT else Nibble(w, l)
    decreases k
  {
    hide BitOr, Shl;
    if k == 0 {
      ShlNone(15);
      OrFifteen(w);
    } else {
      var rest := Shl(15, 4 * (k - 1));
      ShlNibble(15, k);
      OrZeros(w, rest);
      if l > 0 { OrPart(w / 16, k - 1, l - 1); }
    }
  }

  lemma ShlNone(v: nat)
    ensures Shl(v, 0) == v
  {}

  lemma {:induction false} AddPart(w: nat, k: nat, inc: nat, l: nat)
    requires Nibble(w, k) + inc <= LIMIT
    ensures Nibble(w + Shl(inc, 4 * k), l) == if l == k then Nibble(w, k) + inc else Nibble(w, l)
    decreases k
  {
    if k == 0 {
      assert (w + inc) / 16 == w / 16;
    } else {
      ShlNibble(inc, k);
      assert (w + Shl(inc, 4 * k)) / 16 == w / 16 + Shl(inc, 4 * (k - 1));
      if l > 0 { AddPart(w / 16, k - 1, inc, l - 1); }
    }
  }

  /** The mask with n digits 7. */
  function Sevens(n: nat): nat { if n == 0 then 0 else 16 * Sevens(n - 1) + 7 }

  lemma {:induction false} HalvePart(w: nat, n: nat, l: nat)
    requires l < n
    ensures Nibble(BitAnd(w / 2, Sevens(n)), l) == Nibble(w, l) / 2
    decreases l
  {
    hide BitAnd;
    assert w / 2 % 8 == w % 16 / 2 && w / 2 / 16 == w / 16 / 2;
    AndSeven(w / 2, Sevens(n - 1));
    if l > 0 { HalvePart(w / 16, n - 1, l - 1); }
  }

  lemma SevensValue()
    ensures Sevens(16) == SEVENS
  {
    assert Sevens(2) == 0x77;
    assert Sevens(4) == 0x7777;
    assert Sevens(6) == 0x77_7777;
    assert Sevens(8) == 0x7777_7777;
    assert Sevens(10) == 0x77_7777_7777;
    assert Sevens(12) == 0x7777_7777_7777;
    assert Sevens(14) == 0x77_7777_7777_7777;
  }

  lemma {:induction false} OrFits(w: nat, k: nat, n: nat)
    requires k < n && w < Shl(1, 4 * n)
    ensures BitOr(w, Shl(15, 4 * k)) < Shl(1, 4 * n)
    decreases k
  {
    hide BitOr, Shl;
    ShlNibble(1, n);
    if k == 0 {
      ShlNone(15);
      OrFifteen(w);
    } else {
      ShlNibble(15, k);
      OrZeros(w, Shl(15, 4 * (k - 1)));
      OrFits(w / 16, k - 1, n - 1);
    }
  }

  lemma {:induction false} AddFits(w: nat, k: nat, inc: nat, n: nat)
    requires k < n && w < Shl(1, 4 * n) && Nibble(w, k) + inc <= LIMIT
    ensures w + Shl(inc, 4 * k) < Shl(1, 4 * n)
    decreases k
  {
    ShlNibble(1, n);
    if k > 0 {
      ShlNibble(inc, k);
      AddFits(w / 16, k - 1, inc, n - 1);
    }
  }
}
