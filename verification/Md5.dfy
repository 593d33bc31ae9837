// MD5 as include/rest_rpc/md5.hpp computes it, against sections 3.1 to 3.4 of RFC 1321.
module Md5 {

  type Byte = bv8

  const UINT32 := 0x1_0000_0000  // number of uint32_t values

  /** Byte i of a value, the least significant first: (value >> (i * 8)) & 0xff. */
  function ByteOf(value: nat, i: nat): (b: nat)
    ensures b < 256
  {
    if i == 0 then value % 256 else ByteOf(value / 256, i - 1)
  }

  // ------------------------------------------------------------ the code: padded message

  /** GetPaddedMessageLength on a uint32_t: the sum wraps around near 2^32. */
  function PaddedLength(n: nat): (m: nat)
    requires n < UINT32
    ensures m % 64 == 0
  {
    var sum := n + 1 + 8 + 63;
    (if sum < UINT32 then sum else sum - UINT32) / 64 * 64
  }

  /** n * 8 on a uint32_t. */
  function TimesEight(n: nat): nat
    requires n < UINT32
  {
    8 * (n - n / 0x2000_0000 * 0x2000_0000)
  }

  /** GetPaddedMessageByte. */
  function PaddedByte(data: seq<Byte>, m: nat, i: nat): Byte
    requires |data| < UINT32 && i < m && 8 <= m
  {
    var n := |data|;
    if i < n then data[i]
    else if i == n then 0x80
    else if i >= m - 8 then ByteOf(TimesEight(n), i - (m - 8)) as Byte
    else 0
  }

  /** The message as the code pads it. */
  function CodePadded(data: seq<Byte>): (p: seq<Byte>)
    requires |data| < UINT32
    ensures |p| == PaddedLength(|data|)
  {
    var m := PaddedLength(|data|);
    seq(m, i requires 0 <= i < m => PaddedByte(data, m, i))
  }

  /** GetPaddedMessageWord: four bytes in little-endian order. */
  function PaddedWord(data: seq<Byte>, m: nat, i: nat): bv32
    requires |data| < UINT32 && i + 3 < m && 8 <= m
  {
    OrBytes(PaddedByte(data, m, i), PaddedByte(data, m, i + 1), PaddedByte(data, m, i + 2), PaddedByte(data, m, i + 3))
  }

  function OrBytes(w: Byte, x: Byte, y: Byte, z: Byte): bv32 {
    (w as bv32) | ((x as bv32) << 8) | ((y as bv32) << 16) | ((z as bv32) << 24)
  }

  // ------------------------------------------------------------ RFC 1321, sections 3.1 and 3.2

  function Zeros(k: nat): seq<Byte> { seq(k, _ => 0) }

  /** The 64-bit length, low-order byte first; only its low-order 64 bits are kept. */
  function LengthBytes(bits: nat): (s: seq<Byte>)
    ensures |s| == 8
  {
    seq(8, i requires 0 <= i < 8 => ByteOf(bits, i) as Byte)
  }

  /** The number that a sequence of bytes writes, low-order byte first. */
  function NumberOf(s: seq<Byte>): nat {
    if s == [] then 0 else ValueOf(s[0]) + 256 * NumberOf(s[1..])
  }

  function Power256(n: nat): nat { if n == 0 then 1 else 256 * Power256(n - 1) }

  function ValueOf(b: Byte): nat { b as nat }

  lemma ByteValue(b: nat)
    requires b < 256
    ensures ValueOf(b as Byte) == b
  {}

  lemma FirstByte(value: nat)
    ensures ByteOf(value, 0) == value % 256
  {}

  lemma NextByte(value: nat, i: nat)
    ensures ByteOf(value, i + 1) == ByteOf(value / 256, i)
  {}

  lemma Quotient(value: nat, bound: nat)
    requires value < 256 * bound
    ensures value / 256 < bound && value == value % 256 + 256 * (value / 256)
  {}

  lemma {:induction false} BytesMean(value: nat, s: seq<Byte>)
    requires value < Power256(|s|) && forall i :: 0 <= i < |s| ==> s[i] == ByteOf(value, i) as Byte
    ensures NumberOf(s) == value
  {
    hide ByteOf, ValueOf;
    if s != [] {
      var rest := s[1..];
      FirstByte(value);
      ByteValue(ByteOf(value, 0));
      Quotient(value, Power256(|rest|));
      forall i | 0 <= i < |rest| ensures rest[i] == ByteOf(value / 256, i) as Byte {
        NextByte(value, i);
      }
      BytesMean(value / 256, rest);
    }
  }

  /** Below 2^64 the eight length bytes write the number of bits, low-order byte first. */
  lemma LengthBytesMean(bits: nat)
    requires bits < 0x1_0000_0000_0000_0000
    ensures NumberOf(LengthBytes(bits)) == bits
  {
    hide ByteOf, NumberOf;
    assert Power256(4) == UINT32;
    assert Power256(8) == 0x1_0000_0000_0000_0000;
    BytesMean(bits, LengthBytes(bits));
  }

  /** The number of zero bytes after the marker: as few as make the length 56 modulo 64. */
  function ZeroCount(n: nat): (k: nat)
    ensures k < 64
  {
    if n % 64 <= 55 then 55 - n % 64 else 119 - n % 64
  }

  lemma ZeroCountFits(n: nat)
    ensures (n + 1 + ZeroCount(n)) % 64 == 56
  {
    var q, r := n / 64, n % 64;
    var x := n + 1 + ZeroCount(n);
    assert x == 64 * (if r <= 55 then q else q + 1) + 56;
  }

  function Padded(data: seq<Byte>): (p: seq<Byte>)
    ensures |p| == |data| + 1 + ZeroCount(|data|) + 8 && |p| % 64 == 0
  {
    ZeroCountFits(|data|);
    data + [0x80] + Zeros(ZeroCount(|data|)) + LengthBytes(8 * |data|)
  }

  lemma PaddedLengthIsRfc(n: nat)
    requires n < UINT32
    ensures n + 72 < UINT32 ==> PaddedLength(n) == n + 1 + ZeroCount(n) + 8
    ensures n + 72 >= UINT32 ==> PaddedLength(n) <= 64
  {
    var q, r := n / 64, n % 64;
    assert n == 64 * q + r;
    assert (n + 72) / 64 == if r <= 55 then q + 1 else q + 2;
  }

  lemma {:induction false} HighBytesZero(value: nat, i: nat)
    requires i >= 4 && value < UINT32
    ensures ByteOf(value, i) == 0
  {
    var v1 := value / 256;
    var v2 := v1 / 256;
    var v3 := v2 / 256;
    assert v3 / 256 == 0;
    ZeroBytes(i - 4);
    assert ByteOf(value, i) == ByteOf(v1, i - 1);
    assert ByteOf(v1, i - 1) == ByteOf(v2, i - 2);
    assert ByteOf(v2, i - 2) == ByteOf(v3, i - 3);
    assert ByteOf(v3, i - 3) == ByteOf(0, i - 4);
  }

  lemma {:induction false} ZeroBytes(i: nat)
    ensures ByteOf(0, i) == 0
  {
    if i > 0 { ZeroBytes(i - 1); }
  }

  /** The four parts of the appended sequence. */
  lemma PaddedAt(data: seq<Byte>, i: nat)
    requires i < |Padded(data)|
    ensures
      var n, m := |data|, |Padded(data)|;
      Padded(data)[i] == if i < n then data[i] else if i == n then 0x80
                         else if i >= m - 8 then ByteOf(8 * n, i - (m - 8)) as Byte else 0
  {
    hide ByteOf, ZeroCount;
    var n, m, k := |data|, |Padded(data)|, ZeroCount(|data|);
    var front := data + [0x80];
    assert Padded(data) == front + Zeros(k) + LengthBytes(8 * n);
    if i >= m - 8 { assert Padded(data)[i] == LengthBytes(8 * n)[i - (m - 8)]; }
  }

  lemma ShortPaddingAgrees(data: seq<Byte>)
    requires |data| < 0x2000_0000
    ensures CodePadded(data) == Padded(data)
  {
    hide ByteOf, Padded, ZeroCount, PaddedLength;
    PaddedLengthIsRfc(|data|);
    assert TimesEight(|data|) == 8 * |data|;
    forall i | 0 <= i < |Padded(data)| ensures CodePadded(data)[i] == Padded(data)[i] {
      PaddedAt(data, i);
    }
  }

  lemma LongPaddingDiffers(data: seq<Byte>)
    requires 0x2000_0000 <= |data| < UINT32
    ensures CodePadded(data) != Padded(data)
  {
    var n, p := |data|, Padded(data);
    PaddedLengthIsRfc(n);
    if n + 72 < UINT32 {
      var m := |p|;
      HighBytesZero(TimesEight(n), 4);
      FifthByte(n);
      PaddedAt(data, m - 4);
      hide ByteOf, Padded;
      NonZeroByte(ByteOf(8 * n, 4));
      assert CodePadded(data)[m - 4] != p[m - 4];
    }
  }

  lemma NonZeroByte(b: nat)
    requires 0 < b < 256
    ensures b as Byte != 0
  {}

  lemma FifthByte(n: nat)
    requires 0x2000_0000 <= n < UINT32
    ensures ByteOf(8 * n, 4) != 0
  {
    var v1 := 8 * n / 256;
    var v2 := v1 / 256;
    var v3 := v2 / 256;
    var v4 := v3 / 256;
    assert 1 <= v4 < 8;
    assert ByteOf(8 * n, 4) == ByteOf(v1, 3);
    assert ByteOf(v1, 3) == ByteOf(v2, 2);
    assert ByteOf(v2, 2) == ByteOf(v3, 1);
    assert ByteOf(v3, 1) == ByteOf(v4, 0);
  }

  /** The code pads as the RFC does exactly for messages shorter than 2^29 bytes: from there on the
      32-bit multiplication of the length loses its high bits. */
  lemma PaddingConforms(data: seq<Byte>)
    requires |data| < UINT32
    ensures CodePadded(data) == Padded(data) <==> |data| < 0x2000_0000
  {
    if |data| < 0x2000_0000 { ShortPaddingAgrees(data); } else { LongPaddingDiffers(data); }
  }

  lemma ShorterPadsApart(x: seq<Byte>, y: seq<Byte>)
    requires |x| < |y|
    ensures Padded(x) != Padded(y)
  {
    hide Padded, ByteOf;
    PaddedAt(y, |y|);
    if |Padded(x)| == |Padded(y)| { PaddedAt(x, |y|); }
  }

  /** Padding loses nothing: a message can be recovered from its padded form. */
  lemma PaddingInjective(x: seq<Byte>, y: seq<Byte>)
    ensures Padded(x) == Padded(y) <==> x == y
  {
    if |x| < |y| {
      ShorterPadsApart(x, y);
    } else if |y| < |x| {
      ShorterPadsApart(y, x);
    } else {
      assert Padded(x)[..|x|] == x && Padded(y)[..|y|] == y;
    }
  }

  lemma CodePaddedAt(data: seq<Byte>, i: nat)
    requires |data| + 72 < UINT32 && i < |CodePadded(data)|
    ensures |data| + 9 <= |CodePadded(data)|
    ensures i < |data| ==> CodePadded(data)[i] == data[i]
    ensures i == |data| ==> CodePadded(data)[i] == 0x80
    ensures |data| < i < |CodePadded(data)| - 8 ==> CodePadded(data)[i] == 0
  {
    hide ByteOf, ZeroCount;
    PaddedLengthIsRfc(|data|);
  }

  lemma ShorterCodePadsApart(x: seq<Byte>, y: seq<Byte>)
    requires |x| < |y| && |y| + 72 < UINT32
    ensures CodePadded(x) != CodePadded(y)
  {
    hide CodePadded;
    PaddedLengthIsRfc(|y|);
    CodePaddedAt(y, |y|);
    if |CodePadded(x)| == |CodePadded(y)| { CodePaddedAt(x, |y|); }
  }

  /** The code's own padding loses nothing either, below 2^32 - 72 bytes. */
  lemma CodePaddingInjective(x: seq<Byte>, y: seq<Byte>)
    requires |x| + 72 < UINT32 && |y| + 72 < UINT32
    ensures CodePadded(x) == CodePadded(y) <==> x == y
  {
    hide CodePadded, PaddedLength;
    if |x| < |y| {
      ShorterCodePadsApart(x, y);
    } else if |y| < |x| {
      ShorterCodePadsApart(y, x);
    } else if CodePadded(x) == CodePadded(y) {
      PaddedLengthIsRfc(|x|);
      forall i | 0 <= i < |x| ensures x[i] == y[i] {
        CodePaddedAt(x, i);
        CodePaddedAt(y, i);
      }
    }
  }

  /** From there on the padded length wraps around, and every message shares its padded form with
      another of the same length. */
  lemma WrappedPaddingForgets(x: seq<Byte>) returns (y: seq<Byte>)
    requires UINT32 <= |x| + 72 && |x| < UINT32
    ensures |y| == |x| && y != x && CodePadded(y) == CodePadded(x)
  {
    hide ByteOf, ZeroCount, PaddedLength;
    PaddedLengthIsRfc(|x|);
    y := x[|x| - 1 := if x[|x| - 1] == 0 then 1 else 0];
    assert y[|x| - 1] != x[|x| - 1];
  }

  // ------------------------------------------------------------ the code: mixing

  datatype Registers<T> = State(a: T, b: T, c: T, d: T)

  type State = Registers<bv32>

  /** kConstants. */
  function Sine(i: nat): bv32
    requires i < 64
  {
    match i
    case 0 => 0xd76aa478 case 1 => 0xe8c7b756 case 2 => 0x242070db case 3 => 0xc1bdceee
    case 4 => 0xf57c0faf case 5 => 0x4787c62a case 6 => 0xa8304613 case 7 => 0xfd469501
    case 8 => 0x698098d8 case 9 => 0x8b44f7af case 10 => 0xffff5bb1 case 11 => 0x895cd7be
    case 12 => 0x6b901122 case 13 => 0xfd987193 case 14 => 0xa679438e case 15 => 0x49b40821
    case 16 => 0xf61e2562 case 17 => 0xc040b340 case 18 => 0x265e5a51 case 19 => 0xe9b6c7aa
    case 20 => 0xd62f105d case 21 => 0x02441453 case 22 => 0xd8a1e681 case 23 => 0xe7d3fbc8
    case 24 => 0x21e1cde6 case 25 => 0xc33707d6 case 26 => 0xf4d50d87 case 27 => 0x455a14ed
    case 28 => 0xa9e3e905 case 29 => 0xfcefa3f8 case 30 => 0x676f02d9 case 31 => 0x8d2a4c8a
    case 32 => 0xfffa3942 case 33 => 0x8771f681 case 34 => 0x6d9d6122 case 35 => 0xfde5380c
    case 36 => 0xa4beea44 case 37 => 0x4bdecfa9 case 38 => 0xf6bb4b60 case 39 => 0xbebfbc70
    case 40 => 0x289b7ec6 case 41 => 0xeaa127fa case 42 => 0xd4ef3085 case 43 => 0x04881d05
    case 44 => 0xd9d4d039 case 45 => 0xe6db99e5 case 46 => 0x1fa27cf8 case 47 => 0xc4ac5665
    case 48 => 0xf4292244 case 49 => 0x432aff97 case 50 => 0xab9423a7 case 51 => 0xfc93a039
    case 52 => 0x655b59c3 case 53 => 0x8f0ccc92 case 54 => 0xffeff47d case 55 => 0x85845dd1
    case 56 => 0x6fa87e4f case 57 => 0xfe2ce6e0 case 58 => 0xa3014314 case 59 => 0x4e0811a1
    case 60 => 0xf7537e82 case 61 => 0xbd3af235 case 62 => 0x2ad7d2bb case _ => 0xeb86d391
  }

  const SHIFTS: seq<bv32> := [7, 12, 17, 22, 5, 9, 14, 20, 4, 11, 16, 23, 6, 10, 15, 21]

  const START: State := State(0x67452301, 0xefcdab89, 0x98badcfe, 0x10325476)

  function CalcF(i: nat, b: bv32, c: bv32, d: bv32): bv32 {
    if i < 16 then d ^ (b & (c ^ d))
    else if i < 32 then c ^ (d & (b ^ c))
    else if i < 48 then b ^ c ^ d
    else c ^ (b | !d)
  }

  function CalcG(i: nat): (g: nat)
    ensures g < 16 || i < 64
    ensures i < 64 ==> g < 16
  {
    if i < 16 then i
    else if i < 32 then (5 * i + 1) % 16
    else if i < 48 then (3 * i + 5) % 16
    else (7 * i) % 16
  }

  function GetShift(i: nat): (s: bv32)
    requires i < 64
    ensures s < 32
  {
    SHIFTS[i / 16 * 4 + i % 4]
  }

  function LeftRotate(value: bv32, bits: bv32): bv32
    requires bits < 32
  {
    (value << bits) | (value >> (32 - bits))
  }

  /** ApplyStep: the new value goes to b, and the other registers shift by one. */
  function ApplyStep(i: nat, data: seq<bv32>, s: State): State
    requires i < 64 && |data| == 16
  {
    var f := CodeSum(CalcF(i, s.b, s.c, s.d), s.a, Sine(i), data[CalcG(i)]);
    State(s.d, CodePlus(s.b, LeftRotate(f, GetShift(i))), s.b, s.c)
  }

  function CodeSum(f: bv32, a: bv32, k: bv32, x: bv32): bv32 { f + a + k + x }

  function CodePlus(b: bv32, rotated: bv32): bv32 { b + rotated }

  function Add(x: State, y: State): State {
    State(CodePlus(x.a, y.a), CodePlus(x.b, y.b), CodePlus(x.c, y.c), CodePlus(x.d, y.d))
  }

  // ------------------------------------------------------------ RFC 1321, sections 3.3 and 3.4

  function F(x: bv32, y: bv32, z: bv32): bv32 { (x & y) | (!x & z) }

  function G(x: bv32, y: bv32, z: bv32): bv32 { (x & z) | (y & !z) }

  function H(x: bv32, y: bv32, z: bv32): bv32 { x ^ y ^ z }

  function I(x: bv32, y: bv32, z: bv32): bv32 { y ^ (x | !z) }

  function Mix(round: nat, x: bv32, y: bv32, z: bv32): bv32 {
    if round == 0 then F(x, y, z) else if round == 1 then G(x, y, z) else if round == 2 then H(x, y, z) else I(x, y, z)
  }

  /** The word index k of operation j of a round. */
  function WordOrder(round: nat, j: nat): (k: nat)
    requires round < 4 && j < 16
    ensures k < 16
  {
    var order: seq<nat> :=
      if round == 0 then [0, 1, 2, 3, 4, 5, 6, 7, 8, 9, 10, 11, 12, 13, 14, 15]
      else if round == 1 then [1, 6, 11, 0, 5, 10, 15, 4, 9, 14, 3, 8, 13, 2, 7, 12]
      else if round == 2 then [5, 8, 11, 14, 1, 4, 7, 10, 13, 0, 3, 6, 9, 12, 15, 2]
      else [0, 7, 14, 5, 12, 3, 10, 1, 8, 15, 6, 13, 4, 11, 2, 9];
    order[j]
  }

  /** value <<< s, for the rotation amounts s of the four rounds in their turns. */
  function Rotated(value: bv32, round: nat, turn: nat): bv32 {
    if round == 0 then
      if turn == 0 then value.RotateLeft(7) else if turn == 1 then value.RotateLeft(12)
      else if turn == 2 then value.RotateLeft(17) else value.RotateLeft(22)
    else if round == 1 then
      if turn == 0 then value.RotateLeft(5) else if turn == 1 then value.RotateLeft(9)
      else if turn == 2 then value.RotateLeft(14) else value.RotateLeft(20)
    else if round == 2 then
      if turn == 0 then value.RotateLeft(4) else if turn == 1 then value.RotateLeft(11)
      else if turn == 2 then value.RotateLeft(16) else value.RotateLeft(23)
    else
      if turn == 0 then value.RotateLeft(6) else if turn == 1 then value.RotateLeft(10)
      else if turn == 2 then value.RotateLeft(15) else value.RotateLeft(21)
  }

  function Sum(a: bv32, mixed: bv32, x: bv32, t: bv32): bv32 { a + mixed + x + t }

  function Plus(x: bv32, y: bv32): bv32 { x + y }

  /** a = b + ((a + mix(b,c,d) + X[k] + T[i]) <<< s). */
  function Operate(i: nat, x: seq<bv32>, a: bv32, b: bv32, c: bv32, d: bv32): bv32
    requires i < 64 && |x| == 16
  {
    Plus(b, Rotated(Sum(a, Mix(i / 16, b, c, d), x[WordOrder(i / 16, i % 16)], Sine(i)), i / 16, i % 4))
  }

  /** The registers in the order an operation names them: [ABCD], [DABC], [CDAB], [BCDA] in turn. */
  function Named<T>(turn: nat, r: Registers<T>): Registers<T> {
    if turn == 0 then r
    else if turn == 1 then State(r.d, r.a, r.b, r.c)
    else if turn == 2 then State(r.c, r.d, r.a, r.b)
    else State(r.b, r.c, r.d, r.a)
  }

  /** Writing the register named first. */
  function Write<T>(turn: nat, r: Registers<T>, v: T): Registers<T> {
    if turn == 0 then r.(a := v) else if turn == 1 then r.(d := v) else if turn == 2 then r.(c := v) else r.(b := v)
  }

  function Operation(i: nat, x: seq<bv32>, r: State): State
    requires i < 64 && |x| == 16
  {
    var s := Named(i % 4, r);
    Write(i % 4, r, Operate(i, x, s.a, s.b, s.c, s.d))
  }

  function Operations(n: nat, x: seq<bv32>, r: State): State
    requires n <= 64 && |x| == 16
  {
    if n == 0 then r else Operation(n - 1, x, Operations(n - 1, x, r))
  }

  /** Word j of the 16-word block that starts at byte `at`, low-order byte first. */
  function Word(p: seq<Byte>, at: nat): bv32
    requires at + 3 < |p|
  {
    LowOrderFirst(p[at], p[at + 1], p[at + 2], p[at + 3])
  }

  function LowOrderFirst(w: Byte, x: Byte, y: Byte, z: Byte): bv32 {
    (w as bv32) + ((x as bv32) << 8) + ((y as bv32) << 16) + ((z as bv32) << 24)
  }

  function BlockWords(p: seq<Byte>, at: nat): (x: seq<bv32>)
    requires at + 64 <= |p|
    ensures |x| == 16
  {
    seq(16, j requires 0 <= j < 16 => Word(p, at + 4 * j))
  }

  /** Section 3.3: the words A to D, each as its four bytes with the low-order byte first. */
  function InitialWords(): State {
    State(LowOrderFirst(0x01, 0x23, 0x45, 0x67), LowOrderFirst(0x89, 0xab, 0xcd, 0xef),
          LowOrderFirst(0xfe, 0xdc, 0xba, 0x98), LowOrderFirst(0x76, 0x54, 0x32, 0x10))
  }

  /** The registers after the first n blocks: what they were before a block is added to each of the four
      at its end. */
  function Digest(p: seq<Byte>, n: nat): State
    requires 64 * n <= |p|
  {
    if n == 0 then InitialWords()
    else
      var before := Digest(p, n - 1);
      var after := Operations(64, BlockWords(p, 64 * (n - 1)), before);
      State(Plus(after.a, before.a), Plus(after.b, before.b), Plus(after.c, before.c), Plus(after.d, before.d))
  }

  // ------------------------------------------------------------ the code computes the RFC's digest

  lemma StartAgrees()
    ensures START == InitialWords()
  {}

  lemma AddAgrees(x: State, y: State)
    ensures Add(x, y) == State(Plus(y.a, x.a), Plus(y.b, x.b), Plus(y.c, x.c), Plus(y.d, x.d))
  {
    hide Plus, CodePlus;
    AddOne(x.a, y.a);
    AddOne(x.b, y.b);
    AddOne(x.c, y.c);
    AddOne(x.d, y.d);
  }

  lemma AddOne(x: bv32, y: bv32)
    ensures CodePlus(x, y) == Plus(y, x)
  {}

  lemma FAgrees(b: bv32, c: bv32, d: bv32)
    ensures d ^ (b & (c ^ d)) == F(b, c, d)
  {}

  lemma GAgrees(b: bv32, c: bv32, d: bv32)
    ensures c ^ (d & (b ^ c)) == G(b, c, d)
  {}

  lemma HAgrees(b: bv32, c: bv32, d: bv32)
    ensures b ^ c ^ d == H(b, c, d)
  {}

  lemma IAgrees(b: bv32, c: bv32, d: bv32)
    ensures c ^ (b | !d) == I(b, c, d)
  {}

  lemma MixAgrees(i: nat, b: bv32, c: bv32, d: bv32)
    requires i < 64
    ensures CalcF(i, b, c, d) == Mix(i / 16, b, c, d)
  {
    hide F, G, H, I;
    FAgrees(b, c, d);
    GAgrees(b, c, d);
    HAgrees(b, c, d);
    IAgrees(b, c, d);
  }

  lemma OrderAgrees(i: nat)
    requires i < 64
    ensures CalcG(i) == WordOrder(i / 16, i % 16)
  {
    hide CalcG, WordOrder;
    OrderOfRound(i / 16, i % 16, i);
  }

  lemma OrderOfRound(round: nat, j: nat, i: nat)
    requires round < 4 && j < 16 && i == 16 * round + j
    ensures CalcG(i) == WordOrder(round, j)
  {
    hide CalcG, WordOrder;
    match round
    case 0 => FirstOrder(j);
    case 1 => SecondOrder(j);
    case 2 => ThirdOrder(j);
    case 3 => FourthOrder(j);
  }

  lemma FirstOrder(j: nat)
    requires j < 16
    ensures CalcG(j) == WordOrder(0, j)
  {
    match j
    case 0 => case 1 => case 2 => case 3 => case 4 => case 5 => case 6 => case 7 =>
    case 8 => case 9 => case 10 => case 11 => case 12 => case 13 => case 14 => case 15 =>
  }

  lemma SecondOrder(j: nat)
    requires j < 16
    ensures CalcG(16 + j) == WordOrder(1, j)
  {
    match j
    case 0 => case 1 => case 2 => case 3 => case 4 => case 5 => case 6 => case 7 =>
    case 8 => case 9 => case 10 => case 11 => case 12 => case 13 => case 14 => case 15 =>
  }

  lemma ThirdOrder(j: nat)
    requires j < 16
    ensures CalcG(32 + j) == WordOrder(2, j)
  {
    match j
    case 0 => case 1 => case 2 => case 3 => case 4 => case 5 => case 6 => case 7 =>
    case 8 => case 9 => case 10 => case 11 => case 12 => case 13 => case 14 => case 15 =>
  }

  lemma FourthOrder(j: nat)
    requires j < 16
    ensures CalcG(48 + j) == WordOrder(3, j)
  {
    match j
    case 0 => case 1 => case 2 => case 3 => case 4 => case 5 => case 6 => case 7 =>
    case 8 => case 9 => case 10 => case 11 => case 12 => case 13 => case 14 => case 15 =>
  }

  lemma RotationAgrees(value: bv32, round: nat, turn: nat)
    requires round < 4 && turn < 4
    ensures SHIFTS[round * 4 + turn] < 32
    ensures LeftRotate(value, SHIFTS[round * 4 + turn]) == Rotated(value, round, turn)
  {
    match (round, turn)
    case (0, 0) => case (0, 1) => case (0, 2) => case (0, 3) =>
    case (1, 0) => case (1, 1) => case (1, 2) => case (1, 3) =>
    case (2, 0) => case (2, 1) => case (2, 2) => case (2, 3) =>
    case (3, 0) => case (3, 1) => case (3, 2) => case (3, 3) =>
  }

  lemma OperateAgrees(i: nat, x: seq<bv32>, a: bv32, b: bv32, c: bv32, d: bv32)
    requires i < 64 && |x| == 16
    ensures ApplyStep(i, x, State(a, b, c, d)) == State(d, Operate(i, x, a, b, c, d), b, c)
  {
    hide CalcF, Mix, CalcG, WordOrder, LeftRotate, Rotated, Sine, Sum, CodeSum, Plus, CodePlus;
    MixAgrees(i, b, c, d);
    OrderAgrees(i);
    var sum := Sum(a, Mix(i / 16, b, c, d), x[WordOrder(i / 16, i % 16)], Sine(i));
    SumAgrees(Mix(i / 16, b, c, d), a, Sine(i), x[WordOrder(i / 16, i % 16)]);
    RotationAgrees(sum, i / 16, i % 4);
    PlusAgrees(b, Rotated(sum, i / 16, i % 4));
  }

  /** Before step i the code holds the registers in the order operation i names them. */
  lemma StepAgrees(i: nat, x: seq<bv32>, r: State)
    requires i < 64 && |x| == 16
    ensures ApplyStep(i, x, Named(i % 4, r)) == Named((i + 1) % 4, Operation(i, x, r))
  {
    hide ApplyStep, Operate, Write, Named;
    var s := Named(i % 4, r);
    OperateAgrees(i, x, s.a, s.b, s.c, s.d);
    NextTurn(i % 4, r, Operate(i, x, s.a, s.b, s.c, s.d));
    TurnMod(i);
  }

  lemma NextTurn<T>(turn: nat, r: Registers<T>, v: T)
    requires turn < 4
    ensures
      var s := Named(turn, r);
      Named(if turn == 3 then 0 else turn + 1, Write(turn, r, v)) == State(s.d, v, s.b, s.c)
  {}

  lemma TurnMod(i: nat)
    ensures (i + 1) % 4 == if i % 4 == 3 then 0 else i % 4 + 1
  {}

  lemma SumAgrees(f: bv32, a: bv32, k: bv32, x: bv32)
    ensures CodeSum(f, a, k, x) == Sum(a, f, x, k)
  {}

  lemma PlusAgrees(x: bv32, y: bv32)
    ensures CodePlus(x, y) == Plus(x, y)
  {}

  // ------------------------------------------------------------ words and blocks

  lemma DisjointBytes(w: Byte, x: Byte, y: Byte, z: Byte)
    ensures OrBytes(w, x, y, z) == LowOrderFirst(w, x, y, z)
  {}

  lemma WordAgrees(data: seq<Byte>, m: nat, i: nat)
    requires |data| < UINT32 && m == PaddedLength(|data|) && i + 3 < m
    ensures PaddedWord(data, m, i) == Word(CodePadded(data), i)
  {
    hide PaddedByte, OrBytes, LowOrderFirst, PaddedLength;
    var p := CodePadded(data);
    DisjointBytes(p[i], p[i + 1], p[i + 2], p[i + 3]);
  }

  /** GetRoundData: the sixteen words of the block at byte i. */
  method RoundData(data: seq<Byte>, m: nat, i: nat) returns (x: seq<bv32>)
    requires |data| < UINT32 && m == PaddedLength(|data|) && i + 64 <= m
    ensures x == BlockWords(CodePadded(data), i)
  {
    hide PaddedWord, Word, CodePadded, PaddedLength;
    x := seq(16, j requires 0 <= j < 16 => PaddedWord(data, m, i + 4 * j));
    forall j | 0 <= j < 16 ensures x[j] == BlockWords(CodePadded(data), i)[j] {
      WordAgrees(data, m, i + 4 * j);
    }
  }

  /** ProcessMessage folds the RFC's block operation over the message as the code pads it, for every
      length; below 2^29 bytes that is the digest of RFC 1321. */
  method ProcessMessage(message: seq<Byte>) returns (result: State)
    requires |message| < UINT32
    ensures result == Digest(CodePadded(message), |CodePadded(message)| / 64)
    ensures |message| < 0x2000_0000 ==> result == Digest(Padded(message), |Padded(message)| / 64)
  {
    hide Padded, CodePadded, PaddedLength, ApplyStep, Add, Plus, InitialWords, Operation, BlockWords;
    ghost var p := CodePadded(message);
    var m := PaddedLength(|message|);
    var intermediate0 := START;
    StartAgrees();
    var offset := 0;
    while offset < m
      invariant offset % 64 == 0 && offset <= m
      invariant intermediate0 == Digest(p, offset / 64)
    {
      var data := RoundData(message, m, offset);
      var intermediate1 := intermediate0;
      for i := 0 to 64
        invariant intermediate1 == Named(i % 4, Operations(i, data, intermediate0))
      {
        StepAgrees(i, data, Operations(i, data, intermediate0));
        intermediate1 := ApplyStep(i, data, intermediate1);
      }
      AddAgrees(intermediate0, intermediate1);
      intermediate0 := Add(intermediate0, intermediate1);
      assert (offset + 64) / 64 == offset / 64 + 1 && 64 * (offset / 64) == offset;
      offset := offset + 64;
    }
    if |message| < 0x2000_0000 { ShortPaddingAgrees(message); }
    return intermediate0;
  }
}
