/** Machine words as bounded integers, and the powers of two they rest on. */
module Words {

  const TWO_8 := 0x100
  const TWO_16 := 0x1_0000
  const TWO_31 := 0x8000_0000
  const TWO_32 := 0x1_0000_0000
  const TWO_63 := 0x8000_0000_0000_0000
  const TWO_64 := 0x1_0000_0000_0000_0000

  type UInt8 = x: int | 0 <= x < TWO_8
  type Int8 = x: int | -128 <= x < 128
  type Int16 = x: int | -0x8000 <= x < 0x8000
  type UInt32 = x: int | 0 <= x < TWO_32
  type Int32 = x: int | -TWO_31 <= x < TWO_31
  type Int64 = x: int | -TWO_63 <= x < TWO_63
  type UInt64 = x: int | 0 <= x < TWO_64

  // Two's complement: the signed word congruent to x modulo 2^width.
  function Wrap8(x: int): (r: Int8) ensures (r - x) % TWO_8 == 0 { (x + 128) % TWO_8 - 128 }

  function Wrap16(x: int): (r: Int16) ensures (r - x) % TWO_16 == 0 { (x + 0x8000) % TWO_16 - 0x8000 }

  function Wrap32(x: int): (r: Int32) ensures (r - x) % TWO_32 == 0 { (x + TWO_31) % TWO_32 - TWO_31 }

  function Wrap64(x: int): (r: Int64) ensures (r - x) % TWO_64 == 0 { (x + TWO_63) % TWO_64 - TWO_63 }

  function Pow2(k: nat): (p: nat)
    ensures p >= 1
  {
    if k == 0 then 1 else 2 * Pow2(k - 1)
  }

  lemma {:induction false} Pow2Add(j: nat, k: nat)
    ensures Pow2(j + k) == Pow2(j) * Pow2(k)
  {
    if j == 0 {
    } else {
      Pow2Add(j - 1, k);
      assert Pow2(j - 1 + k) == Pow2(j - 1) * Pow2(k);
      MulAssoc(2, Pow2(j - 1), Pow2(k));
    }
  }

  lemma Pow2Monotone(j: nat, k: nat)
    requires j <= k
    ensures Pow2(j) <= Pow2(k)
  {
    Pow2Add(j, k - j);
    MulMonotone(Pow2(j), 1, Pow2(k - j));
  }

  lemma Pow2Values()
    ensures Pow2(2) == 4 && Pow2(8) == TWO_8 && Pow2(16) == TWO_16 && Pow2(28) == 0x1000_0000
    ensures Pow2(31) == TWO_31 && Pow2(32) == TWO_32
    ensures Pow2(59) == 0x800_0000_0000_0000 && Pow2(60) == 0x1000_0000_0000_0000
    ensures Pow2(63) == TWO_63 && Pow2(64) == TWO_64
  {
    assert Pow2(4) == 16;
    Pow2Add(4, 4);
    Pow2Add(8, 8);
    Pow2Add(16, 8); Pow2Add(24, 4);
    Pow2Add(28, 3); Pow2Add(31, 1);
    Pow2Add(28, 31); Pow2Add(59, 1);
    Pow2Add(60, 3); Pow2Add(63, 1);
  }

  lemma MulAssoc(x: int, y: int, z: int)
    ensures x * y * z == x * (y * z)
  {
  }

  lemma MulMonotone(x: nat, y: int, z: int)
    requires y <= z
    ensures x * y <= x * z
  {
  }

  lemma Distribute(p: int, x: int, y: int)
    ensures p * x + p * y == p * (x + y)
    ensures p * x - p * y == p * (x - y)
  {
  }

  lemma Cancel(p: int, x: int, y: int)
    requires p > 0 && p * x == p * y
    ensures x == y
  {
    Distribute(p, x, y);
    if x != y {
      MulMonotone(p, 1, if x < y then y - x else x - y);
    }
  }

  lemma DivideBack(x: int, m: int)
    requires m > 0
    ensures x == m * (x / m) + x % m
  {
  }

  lemma DivModUnique(x: int, m: int, q: int, r: int)
    requires 0 <= r < m && x == m * q + r
    ensures x / m == q && x % m == r
  {
    DivideBack(x, m);
    Distribute(m, x / m, q);
    if x / m > q {
      MulMonotone(m, 1, x / m - q);
    } else if x / m < q {
      MulMonotone(m, x / m - q, -1);
    }
  }

  lemma MultipleMod(m: int, q: int)
    requires m > 0
    ensures (m * q) % m == 0 && (m * q) / m == q
  {
    DivModUnique(m * q, m, q, 0);
  }

  lemma ModSumZero(x: int, y: int, m: int)
    requires m > 0 && x % m == 0
    ensures (x + y) % m == y % m
  {
    DivideBack(x, m);
    DivideBack(y, m);
    Distribute(m, x / m, y / m);
    DivModUnique(x + y, m, x / m + y / m, y % m);
  }
}
