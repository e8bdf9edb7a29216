/** MurmurHash3, the 32-bit variant with seed 0, of playground_util/murmurhash.cc. */
module MurmurHash {
  import opened Words

  const C1 := 0xcc9e2d51
  const C2 := 0x1b873593
  const M := 5
  const N := 0xe6546b64

  // ----- 32-bit operations -----

  function Xor(x: nat, y: nat): nat
  {
    if x == 0 && y == 0 then 0 else (if x % 2 == y % 2 then 0 else 1) + 2 * Xor(x / 2, y / 2)
  }

  lemma {:induction false} XorBound(x: nat, y: nat, k: nat)
    requires x < Pow2(k) && y < Pow2(k)
    ensures Xor(x, y) < Pow2(k)
  {
    if x != 0 || y != 0 {
      XorBound(x / 2, y / 2, k - 1);
    }
  }

  function XorWord(x: UInt32, y: UInt32): UInt32
  {
    assert Xor(x, y) < TWO_32 by { Pow2Values(); XorBound(x, y, 32); }
    Xor(x, y)
  }

  function Mul(x: UInt32, y: UInt32): UInt32 { x * y % TWO_32 }
  function Add(x: UInt32, y: UInt32): UInt32 { (x + y) % TWO_32 }

  function Or(x: nat, y: nat): nat
  {
    if x == 0 && y == 0 then 0 else (if x % 2 == 1 || y % 2 == 1 then 1 else 0) + 2 * Or(x / 2, y / 2)
  }

  lemma {:induction false} OrZero(x: nat)
    ensures Or(x, 0) == x
  {
    if x != 0 {
      OrZero(x / 2);
    }
  }

  // Words that share no bit are joined by adding them.
  lemma {:induction false} OrIsSum(x: nat, y: nat, c: nat)
    requires x % Pow2(c) == 0 && y < Pow2(c)
    ensures Or(x, y) == x + y
  {
    if c == 0 {
      OrZero(x);
    } else {
      HalfMultiple(x, Pow2(c - 1));
      OrIsSum(x / 2, y / 2, c - 1);
    }
  }

  lemma HalfMultiple(x: nat, p: nat)
    requires p > 0 && x % (2 * p) == 0
    ensures x % 2 == 0 && x / 2 % p == 0
  {
    var q := x / (2 * p);
    DivideBack(x, 2 * p);
    MulAssoc(2, p, q);
    DivModUnique(x, 2, p * q, 0);
    MultipleMod(p, q);
  }

  // The two shifted halves of a rotation share no bit, so their bitwise or is a sum.
  function RotateLeft15(k: UInt32): UInt32 { k * 0x8000 % TWO_32 + k / 0x2_0000 }
  function RotateLeft13(k: UInt32): UInt32 { k * 0x2000 % TWO_32 + k / 0x8_0000 }

  lemma RotationsAreOrs(k: UInt32)
    ensures RotateLeft15(k) == Or(k * 0x8000 % TWO_32, k / 0x2_0000)
    ensures RotateLeft13(k) == Or(k * 0x2000 % TWO_32, k / 0x8_0000)
  {
    assert Pow2(15) == 0x8000 by { Pow2Add(8, 7); }
    assert Pow2(13) == 0x2000 by { Pow2Add(8, 5); }
    HalvesDisjoint(k, 0x2_0000, 0x8000, 15);
    HalvesDisjoint(k, 0x8_0000, 0x2000, 13);
  }

  lemma HalvesDisjoint(k: UInt32, b: nat, c: nat, n: nat)
    requires b > 0 && c == Pow2(n) && b * c == TWO_32
    ensures Or(k * c % TWO_32, k / b) == k * c % TWO_32 + k / b
  {
    ShiftedHalves(k, b, c);
    MultipleMod(c, k % b);
    OrIsSum(k * c % TWO_32, k / b, n);
  }

  // Shifting a word left drops the bits from b on and moves the others up.
  lemma ShiftedHalves(k: UInt32, b: nat, c: nat)
    requires b > 0 && c > 0 && b * c == TWO_32
    ensures k / b < c && k * c % TWO_32 == c * (k % b) <= TWO_32 - c
  {
    var hi, lo := k / b, k % b;
    DivideBack(k, b);
    if hi >= c {
      MulMonotone(b, c, hi);
    }
    assert k * c == TWO_32 * hi + c * lo by { Distribute(c, b * hi, lo); MulAssoc(c, b, hi); }
    assert 0 <= c * lo <= TWO_32 - c by { MulMonotone(c, 0, lo); MulMonotone(c, lo, b - 1); Distribute(c, b, 1); }
    DivModUnique(k * c, TWO_32, hi, c * lo);
  }

  function Scramble(k: UInt32): UInt32 { Mul(RotateLeft15(Mul(k, C1)), C2) }

  function MixChunk(hash: UInt32, k: UInt32): UInt32
  {
    Add(Mul(RotateLeft13(XorWord(hash, Scramble(k))), M), N)
  }

  function XorShift16(h: UInt32): UInt32 { XorWord(h, h / 0x1_0000) }
  function XorShift13(h: UInt32): UInt32 { XorWord(h, h / 0x2000) }

  function FinalMix(h: UInt32): UInt32
  {
    XorShift16(Mul(XorShift13(Mul(XorShift16(h), 0x85ebca6b)), 0xc2b2ae35))
  }

  // ----- The hash -----

  // Four bytes as a little-endian word, as the core loads them.
  function Chunk(data: seq<UInt8>, i: nat): UInt32
    requires 4 * i + 4 <= |data|
  {
    var b0: int, b1: int, b2: int, b3: int := data[4 * i], data[4 * i + 1], data[4 * i + 2], data[4 * i + 3];
    b0 + 0x100 * b1 + 0x1_0000 * b2 + 0x100_0000 * b3
  }

  // The hash after the first n chunks.
  function Body(data: seq<UInt8>, n: nat): UInt32
    requires 4 * n <= |data|
  {
    if n == 0 then 0 else MixChunk(Body(data, n - 1), Chunk(data, n - 1))
  }

  // The first n of the one to three bytes after the last chunk, little endian.
  function Tail(data: seq<UInt8>, n: nat): (t: nat)
    requires n <= |data| % 4
    ensures t < Pow2(8 * n) <= TWO_32
  {
    assert Pow2(0) == 1 && Pow2(8) == 0x100 && Pow2(16) == 0x1_0000 && Pow2(24) == 0x100_0000 by {
      Pow2Values();
      Pow2Add(16, 8);
    }
    if n == 0 then 0 else Tail(data, n - 1) + data[|data| / 4 * 4 + n - 1] * Pow2(8 * (n - 1))
  }

  function Hash(data: seq<UInt8>): UInt32
    requires |data| < TWO_32
  {
    FinalMix(XorWord(XorWord(Body(data, |data| / 4), Scramble(Tail(data, |data| % 4))), |data|))
  }

  method Murmurhash3(data: seq<UInt8>) returns (result: Int32)
    requires |data| < TWO_32
    ensures result == Wrap32(Hash(data))
  {
    var hash: UInt32 := 0;
    var chunk := 0;
    while chunk != |data| / 4
      invariant 0 <= chunk <= |data| / 4
      invariant hash == Body(data, chunk)
    {
      var k := Chunk(data, chunk);
      k := Mul(k, C1);
      k := RotateLeft15(k);
      k := Mul(k, C2);
      hash := XorWord(hash, k);
      hash := RotateLeft13(hash);
      hash := Add(Mul(hash, M), N);
      chunk := chunk + 1;
    }
    var remaining: UInt32 := 0;
    var i := 0;
    while i < |data| % 4
      invariant 0 <= i <= |data| % 4
      invariant remaining == Tail(data, i)
    {
      assert Tail(data, i + 1) == remaining + data[|data| / 4 * 4 + i] * Pow2(8 * i);
      remaining := remaining + data[|data| / 4 * 4 + i] * Pow2(8 * i);
      i := i + 1;
    }
    remaining := Mul(remaining, C1);
    remaining := RotateLeft15(remaining);
    remaining := Mul(remaining, C2);
    hash := XorWord(hash, remaining);
    hash := XorWord(hash, |data|);
    hash := XorWord(hash, hash / 0x1_0000);
    hash := Mul(hash, 0x85ebca6b);
    hash := XorWord(hash, hash / 0x2000);
    hash := Mul(hash, 0xc2b2ae35);
    hash := XorWord(hash, hash / 0x1_0000);
    result := Wrap32(hash);
  }

  // ----- Every step is a bijection on words -----

  lemma {:induction false} XorAssoc(x: nat, y: nat, z: nat)
    ensures Xor(Xor(x, y), z) == Xor(x, Xor(y, z))
  {
    if x != 0 || y != 0 || z != 0 {
      XorAssoc(x / 2, y / 2, z / 2);
      XorBits(x, y);
      XorBits(y, z);
      XorBits(Xor(x, y), z);
      XorBits(x, Xor(y, z));
      SameBits(Xor(Xor(x, y), z), Xor(x, Xor(y, z)));
    }
  }

  lemma SameBits(u: nat, v: nat)
    requires u % 2 == v % 2 && u / 2 == v / 2
    ensures u == v
  {
  }

  lemma XorBits(x: nat, y: nat)
    ensures Xor(x, y) % 2 == if x % 2 == y % 2 then 0 else 1
    ensures Xor(x, y) / 2 == Xor(x / 2, y / 2)
  {
  }

  lemma {:induction false} XorSelf(x: nat)
    ensures Xor(x, x) == 0 && Xor(x, 0) == x && Xor(0, x) == x
  {
    if x != 0 {
      XorSelf(x / 2);
    }
  }

  function ShiftRight(x: nat, k: nat): nat { if k == 0 then x else ShiftRight(x / 2, k - 1) }

  lemma {:induction false} XorShifted(x: nat, y: nat, k: nat)
    ensures ShiftRight(Xor(x, y), k) == Xor(ShiftRight(x, k), ShiftRight(y, k))
  {
    if k != 0 {
      XorBits(x, y);
      XorShifted(x / 2, y / 2, k - 1);
    }
  }

  lemma {:induction false} ShiftDivides(x: nat, k: nat)
    ensures ShiftRight(x, k) == x / Pow2(k)
  {
    if k != 0 {
      ShiftDivides(x / 2, k - 1);
      HalveThenDivide(x, Pow2(k - 1));
    }
  }

  lemma HalveThenDivide(x: nat, p: nat)
    requires p > 0
    ensures x / (2 * p) == (x / 2) / p
  {
    var q, r := (x / 2) / p, (x / 2) % p;
    DivideBack(x / 2, p);
    MulAssoc(2, p, q);
    DivModUnique(x, 2 * p, q, 2 * r + x % 2);
  }

  lemma XorCancel(x: UInt32, y: UInt32)
    ensures XorWord(XorWord(x, y), y) == x
    ensures XorWord(y, XorWord(y, x)) == x
  {
    XorAssoc(x, y, y);
    XorAssoc(y, y, x);
    XorSelf(y);
    XorSelf(x);
  }

  // Multiplying by c and then by its inverse modulo 2^32 gives the word back.
  lemma MulInverse(x: UInt32, c: UInt32, d: UInt32)
    requires c * d % TWO_32 == 1
    ensures Mul(Mul(x, c), d) == x
  {
    var q, e := x * c / TWO_32, c * d / TWO_32;
    assert x * c == TWO_32 * q + Mul(x, c);
    assert (x * c) * d == x * (c * d) == x * (TWO_32 * e + 1) by { MulAssoc(x, c, d); }
    assert Mul(x, c) * d == (x * c) * d - TWO_32 * (q * d) by {
      Distribute(d, x * c, TWO_32 * q);
      MulAssoc(TWO_32, q, d);
    }
    assert x * (TWO_32 * e + 1) == TWO_32 * (x * e) + x;
    Distribute(TWO_32, x * e, q * d);
    DivModUnique(Mul(x, c) * d, TWO_32, x * e - q * d, x);
  }

  lemma MulBijective(x: UInt32)
    ensures Mul(Mul(x, C1), 0xdee13bb1) == x == Mul(Mul(x, 0xdee13bb1), C1)
    ensures Mul(Mul(x, C2), 0x56ed309b) == x == Mul(Mul(x, 0x56ed309b), C2)
    ensures Mul(Mul(x, M), 0xcccccccd) == x == Mul(Mul(x, 0xcccccccd), M)
    ensures Mul(Mul(x, 0x85ebca6b), 0xa5cb9243) == x == Mul(Mul(x, 0xa5cb9243), 0x85ebca6b)
    ensures Mul(Mul(x, 0xc2b2ae35), 0x7ed1b41d) == x == Mul(Mul(x, 0x7ed1b41d), 0xc2b2ae35)
  {
    MulInverse(x, C1, 0xdee13bb1);
    MulInverse(x, 0xdee13bb1, C1);
    MulInverse(x, C2, 0x56ed309b);
    MulInverse(x, 0x56ed309b, C2);
    MulInverse(x, M, 0xcccccccd);
    MulInverse(x, 0xcccccccd, M);
    MulInverse(x, 0x85ebca6b, 0xa5cb9243);
    MulInverse(x, 0xa5cb9243, 0x85ebca6b);
    MulInverse(x, 0xc2b2ae35, 0x7ed1b41d);
    MulInverse(x, 0x7ed1b41d, 0xc2b2ae35);
  }

  function RotateRight15(k: UInt32): UInt32 { k / 0x8000 + k * 0x2_0000 % TWO_32 }
  function RotateRight13(k: UInt32): UInt32 { k / 0x2000 + k * 0x8_0000 % TWO_32 }

  // Splitting a word at bit b and swapping the halves is undone by swapping them back.
  lemma SwapHalves(k: UInt32, b: nat, c: nat)
    requires b > 0 && c > 0 && b * c == TWO_32
    ensures var r := k * c % TWO_32 + k / b; r / c + r * b % TWO_32 == k
  {
    var hi, lo := k / b, k % b;
    DivideBack(k, b);
    ShiftedHalves(k, b, c);
    var r := c * lo + hi;
    DivModUnique(r, c, lo, hi);
    assert r * b == TWO_32 * lo + b * hi by { Distribute(b, c * lo, hi); MulAssoc(b, c, lo); }
    DivModUnique(r * b, TWO_32, lo, b * hi);
  }

  lemma Rotate15Bijective(k: UInt32)
    ensures RotateRight15(RotateLeft15(k)) == k && RotateLeft15(RotateRight15(k)) == k
  {
    SwapHalves(k, 0x2_0000, 0x8000);
    SwapHalves(k, 0x8000, 0x2_0000);
  }

  lemma Rotate13Bijective(k: UInt32)
    ensures RotateRight13(RotateLeft13(k)) == k && RotateLeft13(RotateRight13(k)) == k
  {
    SwapHalves(k, 0x8_0000, 0x2000);
    SwapHalves(k, 0x2000, 0x8_0000);
  }

  function Unscramble(k: UInt32): UInt32 { Mul(RotateRight15(Mul(k, 0x56ed309b)), 0xdee13bb1) }

  lemma ScrambleBijective(k: UInt32)
    ensures Unscramble(Scramble(k)) == k && Scramble(Unscramble(k)) == k
  {
    var a, b := Mul(k, C1), Mul(k, 0x56ed309b);
    MulBijective(k);
    MulBijective(RotateLeft15(a));
    MulBijective(RotateRight15(b));
    Rotate15Bijective(a);
    Rotate15Bijective(b);
  }

  function UnmixHash(h: UInt32, k: UInt32): UInt32
  {
    XorWord(RotateRight13(Mul(Add(h, TWO_32 - N), 0xcccccccd)), Scramble(k))
  }

  function UnmixChunk(hash: UInt32, h: UInt32): UInt32
  {
    Unscramble(XorWord(hash, RotateRight13(Mul(Add(h, TWO_32 - N), 0xcccccccd))))
  }

  // Mixing in a chunk is a bijection of the running hash for a fixed chunk, and of the chunk
  // for a fixed running hash.
  lemma MixChunkBijective(hash: UInt32, k: UInt32)
    ensures UnmixHash(MixChunk(hash, k), k) == hash
    ensures UnmixChunk(hash, MixChunk(hash, k)) == k
  {
    var x := XorWord(hash, Scramble(k));
    var y := RotateLeft13(x);
    AddInverse(Mul(y, M));
    MulBijective(y);
    Rotate13Bijective(x);
    XorCancel(hash, Scramble(k));
    XorCancel(Scramble(k), hash);
    ScrambleBijective(k);
  }

  lemma AddInverse(x: UInt32)
    ensures Add(Add(x, N), TWO_32 - N) == x
  {
  }

  lemma ShiftsAre(h: UInt32)
    ensures ShiftRight(h, 16) == h / 0x1_0000 && ShiftRight(h, 13) == h / 0x2000
  {
    ShiftDivides(h, 16);
    ShiftDivides(h, 13);
    Pow2Values();
    assert Pow2(5) == 32;
    Pow2Add(8, 5);
  }

  lemma XorShift16Bijective(h: UInt32)
    ensures XorShift16(XorShift16(h)) == h
  {
    var y, a := XorShift16(h), h / 0x1_0000;
    ShiftsAre(h);
    ShiftsAre(a);
    ShiftsAre(y);
    XorShifted(h, a, 16);
    XorSelf(a);
    XorCancel(h, a);
  }

  lemma XorShift13Injective(h: UInt32)
    ensures UnXorShift13(XorShift13(h)) == h
  {
    var y, a, b := XorShift13(h), h / 0x2000, h / 0x400_0000;
    ShiftsAre(h);
    ShiftsAre(a);
    ShiftsAre(b);
    ShiftsAre(y);
    XorShifted(h, a, 13);
    assert y / 0x2000 == XorWord(a, b);
    ShiftsAre(y / 0x2000);
    XorShifted(a, b, 13);
    XorSelf(b);
    assert y / 0x400_0000 == b;
    XorCancel(a, b);
    XorCancel(h, a);
  }

  function UnXorShift13(h: UInt32): UInt32
  {
    XorWord(h, XorWord(h / 0x2000, h / 0x400_0000))
  }

  function FinalUnmix(h: UInt32): UInt32
  {
    XorShift16(Mul(UnXorShift13(Mul(XorShift16(h), 0x7ed1b41d)), 0xa5cb9243))
  }

  lemma FinalMixInjective(h: UInt32)
    ensures FinalUnmix(FinalMix(h)) == h
  {
    var h1 := XorShift16(h);
    var h2 := Mul(h1, 0x85ebca6b);
    var h3 := XorShift13(h2);
    XorShift16Bijective(h);
    MulBijective(h1);
    XorShift13Injective(h2);
    MulBijective(h3);
    XorShift16Bijective(Mul(h3, 0xc2b2ae35));
  }

  // ----- Whole messages -----

  ghost predicate Agree(a: seq<UInt8>, b: seq<UInt8>, from: nat, to: nat)
    requires |a| == |b| && to <= |a|
  {
    forall j | from <= j < to :: a[j] == b[j]
  }

  lemma SameChunk(a: seq<UInt8>, b: seq<UInt8>, i: nat)
    requires |a| == |b| && 4 * i + 4 <= |a| && Agree(a, b, 4 * i, 4 * i + 4)
    ensures Chunk(a, i) == Chunk(b, i)
  {
  }

  lemma HashesStayApart(h: UInt32, h': UInt32, k: UInt32)
    requires h != h'
    ensures MixChunk(h, k) != MixChunk(h', k)
  {
    MixChunkBijective(h, k);
    MixChunkBijective(h', k);
  }

  // Once two running hashes differ, equal chunks never bring them together again.
  lemma {:induction false} BodiesStayApart(a: seq<UInt8>, b: seq<UInt8>, m: nat, n: nat)
    requires |a| == |b| && m <= n && 4 * n <= |a| && Agree(a, b, 4 * m, 4 * n)
    requires Body(a, m) != Body(b, m)
    ensures Body(a, n) != Body(b, n)
    decreases n - m
  {
    if m < n {
      NextBody(a, b, m);
      BodiesStayApart(a, b, m + 1, n);
    }
  }

  lemma NextBody(a: seq<UInt8>, b: seq<UInt8>, i: nat)
    requires |a| == |b| && 4 * i + 4 <= |a| && Agree(a, b, 4 * i, 4 * i + 4)
    requires Body(a, i) != Body(b, i)
    ensures Body(a, i + 1) != Body(b, i + 1)
  {
    SameChunk(a, b, i);
    HashesStayApart(Body(a, i), Body(b, i), Chunk(a, i));
  }

  lemma {:induction false} SameBodies(a: seq<UInt8>, b: seq<UInt8>, n: nat)
    requires |a| == |b| && 4 * n <= |a| && Agree(a, b, 0, 4 * n)
    ensures Body(a, n) == Body(b, n)
  {
    if n != 0 {
      SameBodies(a, b, n - 1);
      SameChunk(a, b, n - 1);
    }
  }

  lemma ChunkDeterminesBytes(a: seq<UInt8>, b: seq<UInt8>, i: nat)
    requires |a| == |b| && 4 * i + 4 <= |a| && Chunk(a, i) == Chunk(b, i)
    ensures forall j | 4 * i <= j < 4 * i + 4 :: a[j] == b[j]
  {
    var n := 4 * i;
    BytesOfWord(a[n], a[n + 1], a[n + 2], a[n + 3], b[n], b[n + 1], b[n + 2], b[n + 3]);
  }

  lemma BytesOfWord(a0: int, a1: int, a2: int, a3: int, b0: int, b1: int, b2: int, b3: int)
    requires 0 <= a0 < 0x100 && 0 <= a1 < 0x100 && 0 <= a2 < 0x100
    requires 0 <= b0 < 0x100 && 0 <= b1 < 0x100 && 0 <= b2 < 0x100
    requires a0 + 0x100 * a1 + 0x1_0000 * a2 + 0x100_0000 * a3 == b0 + 0x100 * b1 + 0x1_0000 * b2 + 0x100_0000 * b3
    ensures a0 == b0 && a1 == b1 && a2 == b2 && a3 == b3
  {
    LowByte(a0, a1 + 0x100 * a2 + 0x1_0000 * a3, b0, b1 + 0x100 * b2 + 0x1_0000 * b3);
    LowByte(a1, a2 + 0x100 * a3, b1, b2 + 0x100 * b3);
    LowByte(a2, a3, b2, b3);
  }

  lemma LowByte(x: int, u: int, y: int, v: int)
    requires 0 <= x < 0x100 && 0 <= y < 0x100 && x + 0x100 * u == y + 0x100 * v
    ensures x == y && u == v
  {
  }

  lemma {:induction false} TailDeterminesBytes(a: seq<UInt8>, b: seq<UInt8>, n: nat)
    requires |a| == |b| && n <= |a| % 4
    ensures Tail(a, n) == Tail(b, n)
      <==> forall j | |a| / 4 * 4 <= j < |a| / 4 * 4 + n :: a[j] == b[j]
  {
    if n != 0 {
      var p, at := Pow2(8 * (n - 1)), |a| / 4 * 4 + n - 1;
      var x: int, y: int, s: int, t: int := a[at], b[at], Tail(a, n - 1), Tail(b, n - 1);
      TailDeterminesBytes(a, b, n - 1);
      if x * p + s == y * p + t {
        DivModUnique(x * p + s, p, x, s);
        DivModUnique(y * p + t, p, y, t);
      }
    }
  }

  // The last two steps lose nothing: for one length, the hash is decided by the hash of the
  // chunks and the tail word, and each of the two can be read back when the other is known.
  lemma FinishInjective(a: seq<UInt8>, b: seq<UInt8>)
    requires |a| == |b| < TWO_32 && Hash(a) == Hash(b)
    ensures var r := |a| % 4; Body(a, |a| / 4) == Body(b, |b| / 4) <==> Tail(a, r) == Tail(b, r)
  {
    var n, r := |a| / 4, |a| % 4;
    var p, q, s, t := Body(a, n), Body(b, n), Scramble(Tail(a, r)), Scramble(Tail(b, r));
    FinalMixInjective(XorWord(XorWord(p, s), |a|));
    FinalMixInjective(XorWord(XorWord(q, t), |a|));
    XorCancel(XorWord(p, s), |a|);
    XorCancel(XorWord(q, t), |a|);
    XorCancel(p, s);
    XorCancel(q, t);
    XorCancel(s, p);
    XorCancel(t, q);
    ScrambleBijective(Tail(a, r));
    ScrambleBijective(Tail(b, r));
  }

  lemma BodyDeterminesChunk(a: seq<UInt8>, b: seq<UInt8>, i: nat, n: nat)
    requires |a| == |b| && i < n && 4 * n <= |a|
    requires Agree(a, b, 0, 4 * i) && Agree(a, b, 4 * (i + 1), 4 * n)
    requires Body(a, n) == Body(b, n)
    ensures Chunk(a, i) == Chunk(b, i)
  {
    if Body(a, i + 1) != Body(b, i + 1) {
      BodiesStayApart(a, b, i + 1, n);
      assert false;
    }
    SameBodies(a, b, i);
    MixChunkBijective(Body(a, i), Chunk(a, i));
    MixChunkBijective(Body(b, i), Chunk(b, i));
  }

  // Two messages that differ at most in their i-th aligned chunk collide only if they are equal.
  lemma OneChunkNeverCollides(a: seq<UInt8>, b: seq<UInt8>, i: nat)
    requires |a| == |b| < TWO_32 && i < |a| / 4
    requires forall j | 0 <= j < |a| && !(4 * i <= j < 4 * i + 4) :: a[j] == b[j]
    ensures Hash(a) == Hash(b) <==> a == b
  {
    if Hash(a) == Hash(b) {
      TailDeterminesBytes(a, b, |a| % 4);
      FinishInjective(a, b);
      BodyDeterminesChunk(a, b, i, |a| / 4);
      ChunkDeterminesBytes(a, b, i);
    }
  }

  // Two messages that differ at most in the bytes after the last chunk collide only if they are equal.
  lemma TailNeverCollides(a: seq<UInt8>, b: seq<UInt8>)
    requires |a| == |b| < TWO_32
    requires forall j | 0 <= j < |a| / 4 * 4 :: a[j] == b[j]
    ensures Hash(a) == Hash(b) <==> a == b
  {
    if Hash(a) == Hash(b) {
      SameBodies(a, b, |a| / 4);
      FinishInjective(a, b);
      TailDeterminesBytes(a, b, |a| % 4);
    }
  }

  // The length counts: strings of different lengths that leave the same running hash and the same
  // tail word never hash alike.
  lemma LengthCounts(a: seq<UInt8>, b: seq<UInt8>)
    requires |a| < TWO_32 && |b| < TWO_32 && |a| != |b|
    requires Body(a, |a| / 4) == Body(b, |b| / 4) && Tail(a, |a| % 4) == Tail(b, |b| % 4)
    ensures Hash(a) != Hash(b)
  {
    var u := XorWord(Body(a, |a| / 4), Scramble(Tail(a, |a| % 4)));
    FinalMixInjective(XorWord(u, |a|));
    FinalMixInjective(XorWord(u, |b|));
    XorCancel(|a|, u);
    XorCancel(|b|, u);
  }

  // So a zero byte after the last chunk is never lost.
  lemma ZeroByteCounts(a: seq<UInt8>)
    requires |a| % 4 < 3 && |a| + 1 < TWO_32
    ensures Hash(a) != Hash(a + [0])
  {
    var b, n, r := a + [0], |a| / 4, |a| % 4;
    SameBodiesOfPrefix(a, b, n);
    SameTails(a, b, r);
    assert Tail(b, r + 1) == Tail(b, r) + b[n * 4 + r] * Pow2(8 * r) == Tail(b, r);
    LengthCounts(a, b);
  }

  lemma {:induction false} SameBodiesOfPrefix(a: seq<UInt8>, b: seq<UInt8>, n: nat)
    requires a <= b && 4 * n <= |a|
    ensures Body(a, n) == Body(b, n)
  {
    if n != 0 {
      SameBodiesOfPrefix(a, b, n - 1);
    }
  }

  lemma {:induction false} SameTails(a: seq<UInt8>, b: seq<UInt8>, n: nat)
    requires a <= b && |a| / 4 == |b| / 4 && n <= |a| % 4 <= |b| % 4
    ensures Tail(a, n) == Tail(b, n)
  {
    if n != 0 {
      SameTails(a, b, n - 1);
    }
  }
}
