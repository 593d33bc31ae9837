// The row index that every sketch uses, as one instance of the arbitrary `index` of a Layout.
module TableIndex {
  import opened Bits
  import CounterTable

  const UINT64 := 0x1_0000_0000_0000_0000

  function Seed(row: nat): nat {
    if row == 0 then 0xc3a5c85c97cb3127
    else if row == 1 then 0xb492b66fbe98f273
    else if row == 2 then 0x9ae16a3b2f90404f
    else 0xcbf29ce484222325
  }

  /** h = seed * hash; h += h >> 32, on a uint64_t. */
  function Mixed(hash: nat, row: nat): nat {
    var h := Product(hash, row);
    (h + h / WORD) % UINT64
  }

  function Product(hash: nat, row: nat): nat { Seed(row) * hash % UINT64 }

  /** table_index: the mixed hash masked with the table size less one. */
  function Index(size: nat, hash: nat, row: nat): nat {
    if size == 0 then 0 else BitAnd(Mixed(hash, row), size - 1)
  }

  /** The inverse of each seed modulo 2^64, which all seeds have because they are odd. */
  function Inverse(row: nat): nat {
    if row == 0 then 0x81bc9c5aa9c72e97 else if row == 1 then 0x1ec3fe17279602bb
    else if row == 2 then 0xb5a360ae14bed6af else 0xd94e158e150140ad
  }

  function Times64(row: nat): nat {
    if row == 0 then 0x6326af341c9e64c9 else if row == 1 then 0x15b3705bf59187bf
    else if row == 2 then 0x6de4382055e9bddd else 0xad1edc1599cede21
  }

  lemma InverseOfSeed(row: nat)
    requires row < 4
    ensures Seed(row) * Inverse(row) == 1 + Times64(row) * UINT64
  {}

  lemma Cancel(s: int, inverse: int, q: int, m: int, x: int, y: int)
    requires s * inverse == 1 + q * m && 0 <= x < m && 0 <= y < m && s * x % m == s * y % m
    ensures x == y
  {
    var d: int := s * x / m - s * y / m;
    var z: int := x - y;
    var e: int := inverse * d - q * z;
    assert s * z == m * d;
    assert inverse * (s * z) == z + q * m * z by {
      assert inverse * (s * z) == (s * inverse) * z;
      assert (1 + q * m) * z == z + q * m * z;
    }
    assert m * e == inverse * (m * d) - q * m * z;
    Multiple(m, e, z);
  }

  lemma Multiple(m: int, e: int, z: int)
    requires m * e == z && -m < z < m
    ensures z == 0
  {}

  /** In no row does the multiplication give two hashes the same product. */
  lemma ProductInjective(x: nat, y: nat, row: nat)
    requires row < 4 && x < UINT64 && y < UINT64 && Product(x, row) == Product(y, row)
    ensures x == y
  {
    InverseOfSeed(row);
    hide Seed, Inverse, Times64;
    Cancel(Seed(row), Inverse(row), Times64(row), UINT64, x, y);
  }

  /** What the four rows make of a hash of one. */
  lemma HashOneMixed()
    ensures Mixed(1, 0) == 0xc3a5c85d5b70f983 && Mixed(1, 1) == 0xb492b670732ba8e2
    ensures Mixed(1, 2) == 0x9ae16a3bca71aa8a && Mixed(1, 3) == 0xcbf29ce55014c009
  {}

  /** It is in range for every hash, and on the tables that change_capacity builds, whose sizes are
      powers of two, it is the mixed hash modulo the size. */
  lemma IndexInRange(size: nat, hash: nat, row: nat)
    requires size > 0
    ensures Index(size, hash, row) < size
    ensures forall k: nat :: size == Pow2(k) ==> Index(size, hash, row) == Mixed(hash, row) % size
  {
    hide Mixed;
    forall k: nat | size == Pow2(k) ensures Index(size, hash, row) == Mixed(hash, row) % size {
      MaskIsRemainder(Mixed(hash, row), k);
    }
  }

  /** So the code's index places every key of every hash in tables that are not empty. */
  lemma CodeLayoutIsSound(hash: (nat, int) -> nat, quarters: bool, sizes: seq<nat>)
    requires forall i :: 0 <= i < |sizes| ==> sizes[i] > 0
    ensures CounterTable.InRange(Index)
    ensures CounterTable.Layout(hash, Index, quarters, sizes).Sound()
  {
    forall n, h, j | n > 0 && j < 4 ensures Index(n, h, j) < n {
      IndexInRange(n, h, j);
    }
  }
}
