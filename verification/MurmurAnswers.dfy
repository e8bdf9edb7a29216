/** Two known answers of playground_util/util_tests.cc: a tail alone, and a chunk with a full tail. */
module MurmurAnswers {
  import opened Words
  import opened MurmurHash

  // ----- The exclusive or, a byte at a time -----

  // On bytes it is the machine's.
  function ByteXor(x: UInt8, y: UInt8): UInt8 { ((x as bv8) ^ (y as bv8)) as int }

  lemma Increment(b: bv8)
    requires b as int < 255
    ensures (b + 1) as int == b as int + 1
  {
  }

  lemma {:induction false} ByteOf(x: UInt8) returns (b: bv8)
    ensures b as int == x
  {
    if x == 0 {
      b := 0;
    } else {
      var c := ByteOf(x - 1);
      Increment(c);
      b := c + 1;
    }
  }

  lemma ByteBack(b: bv8)
    ensures ((b as int) as bv8) == b
  {
  }

  lemma HalveByte(x: bv8)
    ensures (x as int) / 2 == (x >> 1) as int && (x as int) % 2 == (x & 1) as int
  {
  }

  lemma BitOfXor(x: bv8, y: bv8)
    ensures ((x ^ y) >> 1) == (x >> 1) ^ (y >> 1)
    ensures ((x ^ y) & 1) as int == if (x & 1) as int == (y & 1) as int then 0 else 1
  {
  }

  lemma XorFromBits(x: nat, y: nat, z: nat)
    requires z % 2 == (if x % 2 == y % 2 then 0 else 1) && z / 2 == Xor(x / 2, y / 2)
    ensures z == Xor(x, y)
  {
    XorBits(x, y);
    SameBits(z, Xor(x, y));
  }

  lemma XorStep(x: bv8, y: bv8)
    requires Xor((x >> 1) as int, (y >> 1) as int) == ((x >> 1) ^ (y >> 1)) as int
    ensures Xor(x as int, y as int) == (x ^ y) as int
  {
    HalveByte(x);
    HalveByte(y);
    HalveByte(x ^ y);
    BitOfXor(x, y);
    XorFromBits(x as int, y as int, (x ^ y) as int);
  }

  lemma HalfIsLess(x: bv8)
    ensures (x >> 1) as int <= x as int && (x != 0 ==> (x >> 1) as int < x as int)
  {
    HalveByte(x);
  }

  lemma {:induction false} XorOfBytes(x: bv8, y: bv8)
    ensures Xor(x as int, y as int) == (x ^ y) as int
    decreases x as int + y as int
  {
    if x == 0 && y == 0 {
      XorSelf(0);
    } else {
      HalfIsLess(x);
      HalfIsLess(y);
      XorOfBytes(x >> 1, y >> 1);
      XorStep(x, y);
    }
  }

  lemma SameByte(x: UInt8, a: bv8)
    requires x == a as int
    ensures x as bv8 == a
  {
    ByteBack(a);
  }

  lemma XorOfConverted(x: UInt8, y: UInt8, a: bv8, b: bv8)
    requires x as bv8 == a && y as bv8 == b
    ensures ByteXor(x, y) == (a ^ b) as int
  {
  }

  lemma MachineXor(x: UInt8, y: UInt8, a: bv8, b: bv8)
    requires x == a as int && y == b as int
    ensures ByteXor(x, y) == (a ^ b) as int
  {
    SameByte(x, a);
    SameByte(y, b);
    XorOfConverted(x, y, a, b);
  }

  lemma ByteXorIs(x: UInt8, y: UInt8)
    ensures Xor(x, y) == ByteXor(x, y)
  {
    var a := ByteOf(x);
    var b := ByteOf(y);
    XorOfBytes(a, b);
    MachineXor(x, y, a, b);
  }

  lemma {:induction false} XorJoin(x: nat, y: nat, u: nat, v: nat, n: nat)
    requires x < Pow2(n) && y < Pow2(n)
    ensures Xor(x + Pow2(n) * u, y + Pow2(n) * v) == Xor(x, y) + Pow2(n) * Xor(u, v)
  {
    if n == 0 {
      XorSelf(0);
    } else {
      var p := Pow2(n - 1);
      XorJoin(x / 2, y / 2, u, v, n - 1);
      Doubled(x, u, p);
      Doubled(y, v, p);
      XorBits(x, y);
      Doubled(Xor(x, y), Xor(u, v), p);
      XorFromBits(x + 2 * p * u, y + 2 * p * v, Xor(x, y) + 2 * p * Xor(u, v));
    }
  }

  lemma Doubled(x: nat, u: nat, p: nat)
    ensures 0 <= x + 2 * p * u && (x + 2 * p * u) / 2 == x / 2 + p * u && (x + 2 * p * u) % 2 == x % 2
  {
    MulAssoc(2, p, u);
    MulMonotone(p, 0, u);
    DivModUnique(x + 2 * (p * u), 2, x / 2 + p * u, x % 2);
  }

  lemma JoinByte(x: nat, y: nat, u: nat, v: nat)
    requires x < 0x100 && y < 0x100
    ensures Xor(x + 0x100 * u, y + 0x100 * v) == Xor(x, y) + 0x100 * Xor(u, v)
  {
    assert Pow2(8) == 0x100 by { Pow2Values(); }
    XorJoin(x, y, u, v, 8);
  }

  // A word as four bytes, least significant first.
  datatype Bytes = Bytes(b0: UInt8, b1: UInt8, b2: UInt8, b3: UInt8)
  {
    function Int(): UInt32
    {
      (b0 as int) + 0x100 * ((b1 as int) + 0x100 * ((b2 as int) + 0x100 * b3))
    }

    function Xor(o: Bytes): Bytes { Bytes(ByteXor(b0, o.b0), ByteXor(b1, o.b1), ByteXor(b2, o.b2), ByteXor(b3, o.b3)) }

    function Upper(): Bytes { Bytes(b2, b3, 0, 0) }
  }

  lemma XorIsBytewise(x: Bytes, y: Bytes)
    ensures XorWord(x.Int(), y.Int()) == x.Xor(y).Int()
  {
    ByteXorIs(x.b0, y.b0);
    ByteXorIs(x.b1, y.b1);
    ByteXorIs(x.b2, y.b2);
    ByteXorIs(x.b3, y.b3);
    JoinBytes(x.b0, x.b1, x.b2, x.b3, y.b0, y.b1, y.b2, y.b3);
  }

  lemma JoinBytes(x0: UInt8, x1: UInt8, x2: UInt8, x3: UInt8, y0: UInt8, y1: UInt8, y2: UInt8, y3: UInt8)
    ensures Xor((x0 as int) + 0x100 * ((x1 as int) + 0x100 * ((x2 as int) + 0x100 * x3)),
                (y0 as int) + 0x100 * ((y1 as int) + 0x100 * ((y2 as int) + 0x100 * y3)))
         == Xor(x0, y0) + 0x100 * (Xor(x1, y1) + 0x100 * (Xor(x2, y2) + 0x100 * Xor(x3, y3)))
  {
    var u, v := (x1 as int) + 0x100 * ((x2 as int) + 0x100 * x3), (y1 as int) + 0x100 * ((y2 as int) + 0x100 * y3);
    JoinByte(x0, y0, u, v);
    assert Xor(u, v) == Xor(x1, y1) + 0x100 * (Xor(x2, y2) + 0x100 * Xor(x3, y3)) by {
      JoinThree(x1, x2, x3, y1, y2, y3);
    }
  }

  lemma JoinThree(x1: UInt8, x2: UInt8, x3: UInt8, y1: UInt8, y2: UInt8, y3: UInt8)
    ensures Xor((x1 as int) + 0x100 * ((x2 as int) + 0x100 * x3), (y1 as int) + 0x100 * ((y2 as int) + 0x100 * y3))
         == Xor(x1, y1) + 0x100 * (Xor(x2, y2) + 0x100 * Xor(x3, y3))
  {
    JoinByte(x2, y2, x3, y3);
    JoinByte(x1, y1, (x2 as int) + 0x100 * x3, (y2 as int) + 0x100 * y3);
  }

  lemma UpperIsShift(x: Bytes)
    ensures x.Upper().Int() == x.Int() / 0x1_0000
  {
  }

  // ----- Evaluating the hash step by step -----

  // Scrambling, by the quotients of the two products and the halves of the rotation.
  lemma ScrambleIs(k: UInt32, q: nat, a: UInt32, hi: nat, lo: nat, r: nat, c: UInt32)
    requires k * C1 == TWO_32 * q + a && a == 0x2_0000 * hi + lo && hi < 0x8000 && lo < 0x2_0000
    requires (lo * 0x8000 + hi) * C2 == TWO_32 * r + c
    ensures Scramble(k) == c
  {
    DivModUnique(k * C1, TWO_32, q, a);
    DivModUnique(a, 0x2_0000, hi, lo);
    DivModUnique(a * 0x8000, TWO_32, hi, lo * 0x8000);
    DivModUnique((lo * 0x8000 + hi) * C2, TWO_32, r, c);
  }

  // A chunk with the values on the way: the chunk scrambled, the halves of the rotation, and the
  // new hash.
  lemma NextBody(data: seq<UInt8>, i: nat, hash: Bytes, k: UInt32, s: Bytes, hi: nat, lo: nat, q: nat, h: UInt32)
    requires 4 * i + 4 <= |data| && Body(data, i) == hash.Int() && Chunk(data, i) == k && Scramble(k) == s.Int()
    requires hash.Xor(s).Int() == 0x8_0000 * hi + lo && hi < 0x2000 && lo < 0x8_0000
    requires (lo * 0x2000 + hi) * M + N == TWO_32 * q + h
    ensures Body(data, i + 1) == h
  {
    XorIsBytewise(hash, s);
    MixIs(hash.Int(), k, s.Int(), hi, lo, q, h);
  }

  lemma MixIs(hash: UInt32, k: UInt32, s: UInt32, hi: nat, lo: nat, q: nat, h: UInt32)
    requires Scramble(k) == s && XorWord(hash, s) == 0x8_0000 * hi + lo && hi < 0x2000 && lo < 0x8_0000
    requires (lo * 0x2000 + hi) * M + N == TWO_32 * q + h
    ensures MixChunk(hash, k) == h
  {
    RotateIs(XorWord(hash, s), hi, lo);
    AddAfterMul(lo * 0x2000 + hi);
    DivModUnique((lo * 0x2000 + hi) * M + N, TWO_32, q, h);
  }

  lemma RotateIs(x: UInt32, hi: nat, lo: nat)
    requires x == 0x8_0000 * hi + lo && hi < 0x2000 && lo < 0x8_0000
    ensures RotateLeft13(x) == lo * 0x2000 + hi
  {
    DivModUnique(x, 0x8_0000, hi, lo);
    DivModUnique(x * 0x2000, TWO_32, hi, lo * 0x2000);
  }

  lemma AddAfterMul(r: UInt32)
    ensures Add(Mul(r, M), N) == (r * M + N) % TWO_32
  {
  }

  // The bytes after the last chunk, least significant first.
  function TailWord(data: seq<UInt8>): int
  {
    var n := |data| / 4 * 4;
    var b0: int := if |data| > n then data[n] else 0;
    var b1: int := if |data| > n + 1 then data[n + 1] else 0;
    var b2: int := if |data| > n + 2 then data[n + 2] else 0;
    b0 + 0x100 * b1 + 0x1_0000 * b2
  }

  lemma TailIs(data: seq<UInt8>)
    ensures Tail(data, |data| % 4) == TailWord(data)
  {
    assert Pow2(0) == 1 && Pow2(8) == 0x100 && Pow2(16) == 0x1_0000 by { Pow2Values(); }
    if |data| % 4 > 0 { TailNext(data, 0); }
    if |data| % 4 > 1 { TailNext(data, 1); }
    if |data| % 4 > 2 { TailNext(data, 2); }
  }

  lemma TailNext(data: seq<UInt8>, n: nat)
    requires n < |data| % 4
    ensures Tail(data, n + 1) == Tail(data, n) + data[|data| / 4 * 4 + n] * Pow2(8 * n)
    ensures n == 0 ==> Tail(data, n) == 0
  {
  }

  // The final mix by the values on the way: the first product, the same shifted by 13 bits, and
  // the second product.
  ghost predicate Mixes(h: Bytes, m: Bytes, w: Bytes, n: Bytes)
  {
    && Mul(h.Xor(h.Upper()).Int(), 0x85ebca6b) == m.Int() && w.Int() == m.Int() / 0x2000
    && Mul(m.Xor(w).Int(), 0xc2b2ae35) == n.Int()
  }

  lemma FinalMixIs(h: Bytes, m: Bytes, w: Bytes, n: Bytes)
    requires Mixes(h, m, w, n)
    ensures FinalMix(h.Int()) == n.Xor(n.Upper()).Int()
  {
    UpperIsShift(h);
    XorIsBytewise(h, h.Upper());
    XorIsBytewise(m, w);
    UpperIsShift(n);
    XorIsBytewise(n, n.Upper());
  }

  lemma ProductsAre(x: UInt32, q: nat, m: UInt32, y: UInt32, r: nat, n: UInt32)
    requires x * 0x85ebca6b == TWO_32 * q + m && y * 0xc2b2ae35 == TWO_32 * r + n
    ensures Mul(x, 0x85ebca6b) == m && Mul(y, 0xc2b2ae35) == n
  {
    DivModUnique(x * 0x85ebca6b, TWO_32, q, m);
    DivModUnique(y * 0xc2b2ae35, TWO_32, r, n);
  }

  // The tail scrambled, the length, and the final mix.
  lemma HashIs(data: seq<UInt8>, body: Bytes, s: Bytes, length: Bytes, m: Bytes, w: Bytes, n: Bytes, z: Bytes)
    requires |data| < TWO_32 && Body(data, |data| / 4) == body.Int() && Scramble(TailWord(data)) == s.Int()
    requires length.Int() == |data| && Mixes(body.Xor(s).Xor(length), m, w, n) && n.Xor(n.Upper()) == z
    ensures Hash(data) == z.Int()
  {
    TailIs(data);
    XorIsBytewise(body, s);
    XorIsBytewise(body.Xor(s), length);
    FinalMixIs(body.Xor(s).Xor(length), m, w, n);
  }

  // ----- The answers -----

  lemma OneByteTail()
    ensures Scramble(0x44) == Bytes(0x26, 0x42, 0xdf, 0xe0).Int()
  {
    ScrambleIs(0x44, 0x36, 0x5a040984, 0x2d02, 0x984, 0x82fe23, 0xe0df4226);
  }

  lemma OneByteJoin()
    ensures Bytes(0x00, 0x00, 0x00, 0x00).Xor(Bytes(0x26, 0x42, 0xdf, 0xe0)).Xor(Bytes(0x01, 0x00, 0x00, 0x00))
         == Bytes(0x27, 0x42, 0xdf, 0xe0)
  {
    assert Bytes(0x00, 0x00, 0x00, 0x00).Xor(Bytes(0x26, 0x42, 0xdf, 0xe0)) == Bytes(0x26, 0x42, 0xdf, 0xe0);
  }

  lemma OneByteXors()
    ensures Bytes(0x00, 0x00, 0x00, 0x00).Xor(Bytes(0x26, 0x42, 0xdf, 0xe0)).Xor(Bytes(0x01, 0x00, 0x00, 0x00))
         == Bytes(0x27, 0x42, 0xdf, 0xe0)
    ensures Bytes(0x27, 0x42, 0xdf, 0xe0).Xor(Bytes(0x27, 0x42, 0xdf, 0xe0).Upper()) == Bytes(0xf8, 0xa2, 0xdf, 0xe0)
  {
    OneByteJoin();
  }

  lemma OneByteLastXors()
    ensures Bytes(0xa8, 0xcd, 0xb8, 0xe5).Xor(Bytes(0xc6, 0x2d, 0x07, 0x00)) == Bytes(0x6e, 0xe0, 0xbf, 0xe5)
    ensures Bytes(0xc6, 0x3a, 0xc0, 0x63).Xor(Bytes(0xc6, 0x3a, 0xc0, 0x63).Upper()) == Bytes(0x06, 0x59, 0xc0, 0x63)
  {
  }

  lemma OneByteMix(h: Bytes)
    requires h == Bytes(0x27, 0x42, 0xdf, 0xe0)
    ensures Mixes(h, Bytes(0xa8, 0xcd, 0xb8, 0xe5), Bytes(0xc6, 0x2d, 0x07, 0x00), Bytes(0xc6, 0x3a, 0xc0, 0x63))
  {
    OneByteXors();
    OneByteLastXors();
    ProductsAre(0xe0dfa2f8, 0x75a34ec3, 0xe5b8cda8, 0xe5bfe06e, 0xaebbc3d5, 0x63c03ac6);
  }

  lemma OneByte(data: seq<UInt8>)
    requires data == [0x44]
    ensures Hash(data) == 0x63c05906
  {
    OneByteTail();
    OneByteXors();
    OneByteLastXors();
    OneByteMix(Bytes(0x27, 0x42, 0xdf, 0xe0));
    HashIs(data, Bytes(0x00, 0x00, 0x00, 0x00), Bytes(0x26, 0x42, 0xdf, 0xe0), Bytes(0x01, 0x00, 0x00, 0x00),
           Bytes(0xa8, 0xcd, 0xb8, 0xe5), Bytes(0xc6, 0x2d, 0x07, 0x00),
           Bytes(0xc6, 0x3a, 0xc0, 0x63), Bytes(0x06, 0x59, 0xc0, 0x63));
  }

  lemma SevenBytesChunk()
    ensures Scramble(0xc3040d0b) == Bytes(0xea, 0x90, 0x48, 0xb4).Int()
  {
    ScrambleIs(0xc3040d0b, 0x9bdfb96a, 0x3b5d0f7b, 0x1dae, 0x10f7b, 0xe98b107, 0xb44890ea);
  }

  lemma SevenBytesTail()
    ensures Scramble(0xed86e) == Bytes(0xf0, 0xe7, 0x6a, 0x79).Int()
  {
    ScrambleIs(0xed86e, 0xbdda3, 0xdca1d0ce, 0x6e50, 0x1d0ce, 0x18fda7d0, 0x796ae7f0);
  }

  lemma SevenBytesJoin()
    ensures Bytes(0x11, 0x1c, 0xe7, 0x40).Xor(Bytes(0xf0, 0xe7, 0x6a, 0x79)).Xor(Bytes(0x07, 0x00, 0x00, 0x00))
         == Bytes(0xe6, 0xfb, 0x8d, 0x39)
  {
    assert Bytes(0x11, 0x1c, 0xe7, 0x40).Xor(Bytes(0xf0, 0xe7, 0x6a, 0x79)) == Bytes(0xe1, 0xfb, 0x8d, 0x39);
  }

  lemma SevenBytesXors()
    ensures Bytes(0x11, 0x1c, 0xe7, 0x40).Xor(Bytes(0xf0, 0xe7, 0x6a, 0x79)).Xor(Bytes(0x07, 0x00, 0x00, 0x00))
         == Bytes(0xe6, 0xfb, 0x8d, 0x39)
    ensures Bytes(0xe6, 0xfb, 0x8d, 0x39).Xor(Bytes(0xe6, 0xfb, 0x8d, 0x39).Upper()) == Bytes(0x6b, 0xc2, 0x8d, 0x39)
  {
    SevenBytesJoin();
  }

  lemma SevenBytesLastXors()
    ensures Bytes(0xb9, 0xb0, 0xe1, 0xf8).Xor(Bytes(0x0d, 0xc7, 0x07, 0x00)) == Bytes(0xb4, 0x77, 0xe6, 0xf8)
    ensures Bytes(0x44, 0x20, 0x3b, 0xd0).Xor(Bytes(0x44, 0x20, 0x3b, 0xd0).Upper()) == Bytes(0x7f, 0xf0, 0x3b, 0xd0)
  {
  }

  lemma SevenBytesMix(h: Bytes)
    requires h == Bytes(0xe6, 0xfb, 0x8d, 0x39)
    ensures Mixes(h, Bytes(0xb9, 0xb0, 0xe1, 0xf8), Bytes(0x0d, 0xc7, 0x07, 0x00), Bytes(0x44, 0x20, 0x3b, 0xd0))
  {
    SevenBytesXors();
    SevenBytesLastXors();
    ProductsAre(0x398dc26b, 0x1e1ba8a4, 0xf8e1b0b9, 0xf8e677b4, 0xbd4c6055, 0xd03b2044);
  }

  lemma SevenBytes(data: seq<UInt8>)
    requires data == [0x0b, 0x0d, 0x04, 0xc3, 0x6e, 0xd8, 0x0e]
    ensures Hash(data) == 0xd03bf07f
  {
    SevenBytesChunk();
    NextBody(data, 0, Bytes(0x00, 0x00, 0x00, 0x00), 0xc3040d0b, Bytes(0xea, 0x90, 0x48, 0xb4),
             0x1689, 0x90ea, 1, 0x40e71c11);
    SevenBytesTail();
    SevenBytesXors();
    SevenBytesLastXors();
    SevenBytesMix(Bytes(0xe6, 0xfb, 0x8d, 0x39));
    HashIs(data, Bytes(0x11, 0x1c, 0xe7, 0x40), Bytes(0xf0, 0xe7, 0x6a, 0x79), Bytes(0x07, 0x00, 0x00, 0x00),
           Bytes(0xb9, 0xb0, 0xe1, 0xf8), Bytes(0x0d, 0xc7, 0x07, 0x00),
           Bytes(0x44, 0x20, 0x3b, 0xd0), Bytes(0x7f, 0xf0, 0x3b, 0xd0));
  }
}
