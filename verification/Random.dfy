/** The 64-bit linear congruential generator of playground_util/random.c. */
module PseudoRandom {
  import opened Words

  const RAND_A: Int64 := 6364136223846793005
  const RAND_C: Int64 := 1442695040888963407

  // The state after one call, on a machine whose 64-bit arithmetic wraps.
  function Advance(r: Int64): Int64 { Wrap64(r * RAND_A + RAND_C) }

  // The value handed out: an arithmetic shift by 28, truncated to 32 bits.
  function Output(r: Int64): Int32 { Wrap32(r / 0x1000_0000) }

  function StateAfter(n: nat, seed: Int64): Int64
  {
    if n == 0 then seed else Advance(StateAfter(n - 1, seed))
  }

  // The n-th number drawn (from 0) by a generator seeded with seed.
  function Draw(n: nat, seed: Int64): Int32 { Output(StateAfter(n + 1, seed)) }

  class Generator {
    var r: Int64
    ghost const seed: Int64
    ghost var calls: nat

    ghost predicate Valid()
      reads this
    {
      r == StateAfter(calls, seed)
    }

    constructor (seed: Int64)
      ensures Valid() && calls == 0 && this.seed == seed && r == seed
    {
      r := seed;
      this.seed := seed;
      calls := 0;
    }

    method NextPseudoRandom() returns (value: Int32)
      requires Valid()
      modifies this
      ensures Valid() && calls == old(calls) + 1
      ensures value == Draw(old(calls), seed)
    {
      r := Wrap64(r * RAND_A + RAND_C);
      calls := calls + 1;
      value := Wrap32(r / 0x1000_0000);
    }
  }

  // ----- The recurrence over the unbounded integers -----

  function Iterate(a: int, c: int, n: nat, x: int): int
  {
    if n == 0 then x else a * Iterate(a, c, n - 1, x) + c
  }

  lemma {:induction false} IterateCompose(a: int, c: int, m: nat, n: nat, x: int)
    ensures Iterate(a, c, m + n, x) == Iterate(a, c, m, Iterate(a, c, n, x))
  {
    if m != 0 {
      IterateCompose(a, c, m - 1, n, x);
      assert m + n - 1 == m - 1 + n;
    }
  }

  // 2^k steps at once are one affine step, with these two coefficients.
  function JumpA(a: int, k: nat): int
  {
    if k == 0 then a else JumpA(a, k - 1) * JumpA(a, k - 1)
  }

  function JumpC(a: int, c: int, k: nat): int
  {
    if k == 0 then c else JumpC(a, c, k - 1) * (JumpA(a, k - 1) + 1)
  }

  lemma {:induction false} JumpIsIterate(a: int, c: int, k: nat, x: int)
    ensures Iterate(a, c, Pow2(k), x) == JumpA(a, k) * x + JumpC(a, c, k)
  {
    if k == 0 {
      assert Iterate(a, c, 1, x) == a * Iterate(a, c, 0, x) + c;
    } else {
      var h, A, C := Pow2(k - 1), JumpA(a, k - 1), JumpC(a, c, k - 1);
      JumpIsIterate(a, c, k - 1, x);
      var y := A * x + C;
      JumpIsIterate(a, c, k - 1, y);
      IterateCompose(a, c, h, h, x);
      AffineSquare(A, C, x);
    }
  }

  lemma AffineSquare(A: int, C: int, x: int)
    ensures A * (A * x + C) + C == A * A * x + C * (A + 1)
  {
  }

  // With a = 1 mod 4 and c odd, the jump multiplies by 1 mod 2^(k+2) and adds an odd multiple of 2^k.
  lemma {:induction false} JumpForm(a: int, c: int, k: nat) returns (u: int, v: int)
    requires a % 4 == 1 && c % 2 == 1
    ensures JumpA(a, k) == 1 + 4 * (Pow2(k) * u)
    ensures JumpC(a, c, k) == Pow2(k) * (2 * v + 1)
  {
    if k == 0 {
      u, v := a / 4, c / 2;
    } else {
      var u0, v0 := JumpForm(a, c, k - 1);
      u, v := JumpFormStep(Pow2(k - 1), u0, v0);
    }
  }

  lemma JumpFormStep(p: int, u0: int, v0: int) returns (u: int, v: int)
    ensures (1 + 4 * (p * u0)) * (1 + 4 * (p * u0)) == 1 + 4 * (2 * p * u)
    ensures p * (2 * v0 + 1) * (1 + 4 * (p * u0) + 1) == 2 * p * (2 * v + 1)
  {
    var q := p * u0;
    u := u0 + 2 * (q * u0);
    assert p * u == q + 2 * (q * q) by { assert p * (q * u0) == q * q; }
    v := v0 + 2 * (q * v0) + q;
    assert 2 * v + 1 == (2 * v0 + 1) * (1 + 2 * q);
    MulAssoc(p, 2 * v0 + 1, 1 + 2 * q);
  }

  // m jumps of 2^j steps move the value by m modulo 2, in units of 2^j.
  lemma {:induction false} JumpsMove(a: int, c: int, j: nat, m: nat, y: int) returns (t: int)
    requires a % 4 == 1 && c % 2 == 1
    ensures Iterate(a, c, Pow2(j) * m, y) - y == Pow2(j) * (m + 2 * t)
  {
    if m == 0 {
      t := 0;
    } else {
      var p := Pow2(j);
      var t0 := JumpsMove(a, c, j, m - 1, y);
      var n := p * (m - 1);
      var z := Iterate(a, c, n, y);
      Distribute(p, 1, m - 1);
      IterateCompose(a, c, p, n, y);
      JumpIsIterate(a, c, j, z);
      var u, v := JumpForm(a, c, j);
      t := t0 + 2 * (u * z) + v;
      OneMove(p, u, v, z);
      Distribute(p, m - 1 + 2 * t0, 2 * v + 1 + 4 * (u * z));
      assert m - 1 + 2 * t0 + (2 * v + 1 + 4 * (u * z)) == m + 2 * t;
    }
  }

  lemma OneMove(p: int, u: int, v: int, z: int)
    ensures (1 + 4 * (p * u)) * z + p * (2 * v + 1) - z == p * (2 * v + 1 + 4 * (u * z))
  {
    MulAssoc(p, u, z);
    Distribute(p, 2 * v + 1, 4 * (u * z));
    assert p * (4 * (u * z)) == 4 * (p * (u * z));
    assert (1 + 4 * (p * u)) * z == z + 4 * ((p * u) * z);
  }

  lemma {:induction false} OddPart(n: nat) returns (j: nat, m: nat)
    requires n > 0
    ensures n == Pow2(j) * m && m % 2 == 1
  {
    if n % 2 == 1 {
      j, m := 0, n;
    } else {
      j, m := OddPart(n / 2);
      j := j + 1;
      MulAssoc(2, Pow2(j - 1), m);
    }
  }

  lemma OddMultipleDivisible(k: nat, j: nat, w: int)
    requires w % 2 == 1
    ensures (Pow2(j) * w) % Pow2(k) == 0 <==> k <= j
  {
    if k <= j {
      Pow2Add(k, j - k);
      MulAssoc(Pow2(k), Pow2(j - k), w);
      MultipleMod(Pow2(k), Pow2(j - k) * w);
    } else {
      Pow2Add(j, k - j);
      var x, h := Pow2(j) * w, Pow2(k - j - 1);
      if x % Pow2(k) == 0 {
        var q := x / Pow2(k);
        DivideBack(x, Pow2(k));
        MulAssoc(Pow2(j), 2 * h, q);
        Cancel(Pow2(j), w, 2 * h * q);
        MulAssoc(2, h, q);
        assert false;
      }
    }
  }

  lemma OddMultiplesAlike(k: nat, j: nat, m: int, w: int, n: int, d: int)
    requires m % 2 == 1 && w % 2 == 1 && n == Pow2(j) * m && d == Pow2(j) * w
    ensures d % Pow2(k) == 0 <==> n % Pow2(k) == 0
  {
    OddMultipleDivisible(k, j, m);
    OddMultipleDivisible(k, j, w);
  }

  // n steps bring the integer recurrence back modulo 2^k exactly when 2^k divides n.
  lemma ReturnsIff(a: int, c: int, k: nat, n: nat, x: int)
    requires a % 4 == 1 && c % 2 == 1
    ensures (Iterate(a, c, n, x) - x) % Pow2(k) == 0 <==> n % Pow2(k) == 0
  {
    if n == 0 {
      MultipleMod(Pow2(k), 0);
    } else {
      var j, m, w := OddMove(a, c, n, x);
      OddMultiplesAlike(k, j, m, w, n, Iterate(a, c, n, x) - x);
    }
  }

  // n steps move the value by as many factors of two as n has.
  lemma OddMove(a: int, c: int, n: nat, x: int) returns (j: nat, m: nat, w: int)
    requires a % 4 == 1 && c % 2 == 1 && n > 0
    ensures m % 2 == 1 && w % 2 == 1 && n == Pow2(j) * m && Iterate(a, c, n, x) - x == Pow2(j) * w
  {
    j, m := OddPart(n);
    var t := JumpsMove(a, c, j, m, x);
    w := m + 2 * t;
    OddPlusEven(m, t);
  }

  lemma OddPlusEven(m: int, t: int)
    requires m % 2 == 1
    ensures (m + 2 * t) % 2 == 1
  {
  }

  // ----- Back to the wrapping generator -----

  lemma {:induction false} WrappingIsModular(n: nat, seed: Int64)
    ensures (StateAfter(n, seed) - Iterate(RAND_A, RAND_C, n, seed)) % TWO_64 == 0
  {
    if n != 0 {
      WrappingIsModular(n - 1, seed);
      var s, z := StateAfter(n - 1, seed), Iterate(RAND_A, RAND_C, n - 1, seed);
      var q := (s - z) / TWO_64;
      assert s - z == q * TWO_64;
      var d := StateAfter(n, seed) - (s * RAND_A + RAND_C);
      assert StateAfter(n, seed) - Iterate(RAND_A, RAND_C, n, seed) == d + TWO_64 * (RAND_A * q);
      MultipleMod(TWO_64, RAND_A * q);
      ModSumZero(TWO_64 * (RAND_A * q), d, TWO_64);
    }
  }

  lemma CoarserModulus(x: int, k: nat, l: nat)
    requires k <= l && x % Pow2(l) == 0
    ensures x % Pow2(k) == 0
  {
    Pow2Add(k, l - k);
    var q := x / Pow2(l);
    DivideBack(x, Pow2(l));
    MulAssoc(Pow2(k), Pow2(l - k), q);
    MultipleMod(Pow2(k), Pow2(l - k) * q);
  }

  lemma WrappingModulo(k: nat, n: nat, seed: Int64)
    requires k <= 64
    ensures (StateAfter(n, seed) - Iterate(RAND_A, RAND_C, n, seed)) % Pow2(k) == 0
  {
    WrappingIsModular(n, seed);
    assert Pow2(64) == TWO_64 by { Pow2Values(); }
    CoarserModulus(StateAfter(n, seed) - Iterate(RAND_A, RAND_C, n, seed), k, 64);
  }

  lemma {:induction false} StateAfterCompose(m: nat, n: nat, seed: Int64)
    ensures StateAfter(m + n, seed) == StateAfter(m, StateAfter(n, seed))
  {
    if m != 0 {
      StateAfterCompose(m - 1, n, seed);
      assert m + n - 1 == m - 1 + n;
    }
  }

  // The state modulo 2^k after n steps is the seed modulo 2^k exactly when 2^k divides n.
  lemma StateReturnsIff(k: nat, n: nat, seed: Int64)
    requires k <= 64
    ensures (StateAfter(n, seed) - seed) % Pow2(k) == 0 <==> n % Pow2(k) == 0
  {
    var z := Iterate(RAND_A, RAND_C, n, seed);
    WrappingModulo(k, n, seed);
    ModSumZero(StateAfter(n, seed) - z, z - seed, Pow2(k));
    ReturnsIff(RAND_A, RAND_C, k, n, seed);
  }

  // The full-period theorem: two states of one run agree modulo 2^k exactly when their
  // positions do. With k = 64, a run visits all 2^64 states before it returns to its seed.
  lemma FullPeriod(k: nat, i: nat, j: nat, seed: Int64)
    requires k <= 64 && i <= j
    ensures (StateAfter(j, seed) - StateAfter(i, seed)) % Pow2(k) == 0 <==> (j - i) % Pow2(k) == 0
  {
    StateAfterCompose(j - i, i, seed);
    StateReturnsIff(k, j - i, StateAfter(i, seed));
  }

  lemma FirstReturn(n: nat, seed: Int64)
    ensures StateAfter(TWO_64, seed) == seed
    ensures 0 < n < TWO_64 ==> StateAfter(n, seed) != seed
  {
    ReturnsAfterMultiple(TWO_64, seed);
    if 0 < n < TWO_64 {
      NoReturnBefore(n, seed);
    }
  }

  lemma ReturnsAfterMultiple(n: nat, seed: Int64)
    requires n % TWO_64 == 0
    ensures StateAfter(n, seed) == seed
  {
    StateReturnsWithin64(n, seed);
  }

  lemma NoReturnBefore(n: nat, seed: Int64)
    requires n % TWO_64 != 0
    ensures StateAfter(n, seed) != seed
  {
    StateReturnsWithin64(n, seed);
  }

  lemma StateReturnsWithin64(n: nat, seed: Int64)
    ensures StateAfter(n, seed) == seed <==> n % TWO_64 == 0
  {
    assert Pow2(64) == TWO_64 by { Pow2Values(); }
    StateReturnsModulo(64, TWO_64, n, seed);
    SameState(StateAfter(n, seed), seed);
  }

  lemma StateReturnsModulo(k: nat, m: nat, n: nat, seed: Int64)
    requires k <= 64 && m == Pow2(k)
    ensures (StateAfter(n, seed) - seed) % m == 0 <==> n % m == 0
  {
    StateReturnsIff(k, n, seed);
  }

  // Two 64-bit words that agree modulo 2^64 are the same.
  lemma SameState(r: Int64, s: Int64)
    ensures (r - s) % TWO_64 == 0 <==> r == s
  {
  }

  // ----- The numbers drawn -----

  const TWO_59 := 0x800_0000_0000_0000
  const TWO_60 := 0x1000_0000_0000_0000

  lemma HighBits(i: nat, j: nat, seed: Int64)
    requires i <= j
    ensures (StateAfter(j, seed) - StateAfter(i, seed)) % TWO_59 == 0 <==> (j - i) % TWO_59 == 0
    ensures (StateAfter(j, seed) - StateAfter(i, seed)) % TWO_60 == 0 <==> (j - i) % TWO_60 == 0
  {
    FullPeriod(59, i, j, seed);
    FullPeriod(60, i, j, seed);
    assert Pow2(59) == TWO_59 && Pow2(60) == TWO_60 by { Pow2Values(); }
  }

  // Shifting out the low 28 bits, a difference of 2^28 * e in the state is one of e in the output.
  lemma OutputDifference(r: Int64, s: Int64, e: int)
    requires s - r == 0x1000_0000 * e
    ensures Output(r) == Output(s) <==> e % TWO_32 == 0
  {
    assert s / 0x1000_0000 == r / 0x1000_0000 + e;
  }

  lemma OutputsAgree(r: Int64, s: Int64)
    requires (s - r) % TWO_60 == 0
    ensures Output(r) == Output(s)
  {
    OutputDifference(r, s, (s - r) / 0x1000_0000);
  }

  lemma OutputsDiffer(r: Int64, s: Int64)
    requires (s - r) % TWO_59 == 0 && (s - r) % TWO_60 != 0
    ensures Output(r) != Output(s)
  {
    ShiftedDifference(s - r);
    OutputDifference(r, s, (s - r) / 0x1000_0000);
  }

  lemma ShiftedDifference(x: int)
    requires x % TWO_59 == 0
    ensures x == 0x1000_0000 * (x / 0x1000_0000)
    ensures x / 0x1000_0000 % TWO_32 == 0 <==> x % TWO_60 == 0
  {
    var q := x / TWO_59;
    DivModUnique(x, 0x1000_0000, TWO_31 * q, 0);
    DivModUnique(x, TWO_60, q / 2, TWO_59 * (q % 2));
    DivModUnique(TWO_31 * q, TWO_32, q / 2, TWO_31 * (q % 2));
  }

  lemma DrawRepeats(n: nat, p: nat, seed: Int64)
    requires p % TWO_60 == 0
    ensures Draw(n + p, seed) == Draw(n, seed)
  {
    HighBits(n + 1, n + p + 1, seed);
    OutputsAgree(StateAfter(n + 1, seed), StateAfter(n + p + 1, seed));
  }

  lemma DrawDiffersAtHalf(m: nat, seed: Int64)
    requires m % 2 == 1
    ensures Draw(TWO_59 * m, seed) != Draw(0, seed)
  {
    var p := TWO_59 * m;
    OddHalf(m);
    HighBits(1, p + 1, seed);
    OutputsDiffer(StateAfter(1, seed), StateAfter(p + 1, seed));
  }

  lemma OddHalf(m: nat)
    requires m % 2 == 1
    ensures TWO_59 * m % TWO_59 == 0 && TWO_59 * m % TWO_60 != 0
  {
    assert TWO_59 * m == TWO_60 * (m / 2) + TWO_59;
  }

  lemma {:induction false} DrawMultiples(p: nat, t: nat, seed: Int64)
    requires forall n: nat :: Draw(n + p, seed) == Draw(n, seed)
    ensures Draw(t * p, seed) == Draw(0, seed)
  {
    if t != 0 {
      DrawMultiples(p, t - 1, seed);
      assert t * p == (t - 1) * p + p;
    }
  }

  // A lag that 2^60 does not divide has a multiple that is an odd multiple of 2^59.
  lemma HalfPeriodMultiple(p: nat) returns (t: nat, m: nat)
    requires p % TWO_60 != 0
    ensures t * p == TWO_59 * m && m % 2 == 1
  {
    assert Pow2(59) == TWO_59 && Pow2(60) == TWO_60 by { Pow2Values(); }
    var j, w := OddPart(p);
    OddMultipleDivisible(60, j, w);
    t, m := Pow2(59 - j), w;
    Pow2Add(59 - j, j);
    MulAssoc(t, Pow2(j), w);
  }

  // The sequence of drawn numbers repeats with lag p exactly when 2^60 divides p: its period
  // is 2^60, sixteen times shorter than that of the state.
  lemma OutputPeriodIff(p: nat, seed: Int64)
    ensures (forall n: nat :: Draw(n + p, seed) == Draw(n, seed)) <==> p % TWO_60 == 0
  {
    if p % TWO_60 == 0 {
      forall n: nat ensures Draw(n + p, seed) == Draw(n, seed) { DrawRepeats(n, p, seed); }
    } else {
      var t, m := HalfPeriodMultiple(p);
      DrawDiffersAtHalf(m, seed);
      if forall n: nat :: Draw(n + p, seed) == Draw(n, seed) {
        DrawMultiples(p, t, seed);
        assert false;
      }
    }
  }

  // ----- The bits drawn, and the recurrence -----

  // The state follows the recurrence modulo 2^64, as a signed word.
  lemma StateFollows(n: nat, seed: Int64)
    ensures (StateAfter(n + 1, seed) - (6364136223846793005 * StateAfter(n, seed) + 1442695040888963407))
            % 0x1_0000_0000_0000_0000 == 0
    ensures -0x8000_0000_0000_0000 <= StateAfter(n + 1, seed) < 0x8000_0000_0000_0000
  {
    WrapsModulo64(6364136223846793005 * StateAfter(n, seed) + 1442695040888963407);
  }

  lemma WrapsModulo64(x: int)
    ensures (Wrap64(x) - x) % TWO_64 == 0
  {
  }

  function Bit(x: int, k: nat): int { x / Pow2(k) % 2 }

  // Bit k of draw n is bit k + 28 of the state after n + 1 steps, in two's complement.
  lemma DrawBits(n: nat, seed: Int64, k: nat)
    requires k < 32
    ensures Bit(Draw(n, seed), k) == Bit(StateAfter(n + 1, seed), k + 28)
  {
    var r := StateAfter(n + 1, seed);
    WrapKeepsBits(r / 0x1000_0000, k);
    assert Pow2(28) == 0x1000_0000 by { Pow2Values(); }
    ShiftedBit(r, k, 28, 0x1000_0000);
  }

  lemma ShiftedBit(x: int, k: nat, m: nat, p: nat)
    requires p == Pow2(m)
    ensures Bit(x / p, k) == Bit(x, k + m)
  {
    Pow2Add(m, k);
    DivideByProduct(x, p, Pow2(k));
  }

  lemma DivideByProduct(x: int, p: nat, q: nat)
    requires p > 0 && q > 0
    ensures x / p / q == x / (p * q)
  {
    var y, r := x / p / q, x / p % q;
    DivideBack(x, p);
    DivideBack(x / p, q);
    MulAssoc(p, q, y);
    Distribute(p, q * y, r);
    MulMonotone(p, 0, r);
    MulMonotone(p, r + 1, q);
    Distribute(p, r, 1);
    DivModUnique(x, p * q, y, p * r + x % p);
  }

  // Truncation to 32 bits keeps the lower 32 bits.
  lemma WrapKeepsBits(x: int, k: nat)
    requires k < 32
    ensures Bit(Wrap32(x), k) == Bit(x, k)
  {
    var q := WrapDrops(x);
    assert Pow2(32) == TWO_32 by { Pow2Values(); }
    Pow2Add(k, 32 - k);
    assert Pow2(32 - k) == 2 * Pow2(31 - k);
    HigherBitsDropped(Wrap32(x), q, Pow2(k), Pow2(31 - k));
  }

  lemma WrapDrops(x: int) returns (q: int)
    ensures x == Wrap32(x) + TWO_32 * q
  {
    q := (x - Wrap32(x)) / TWO_32;
  }

  lemma HigherBitsDropped(y: int, q: int, p: nat, h: nat)
    requires p > 0 && p * (2 * h) == TWO_32
    ensures (y + TWO_32 * q) / p % 2 == y / p % 2
  {
    DivideBack(y, p);
    MulAssoc(p, 2 * h, q);
    Distribute(p, y / p, 2 * h * q);
    DivModUnique(y + TWO_32 * q, p, y / p + 2 * h * q, y % p);
    EvenAdded(y / p, h * q);
    MulAssoc(2, h, q);
  }

  lemma EvenAdded(x: int, e: int)
    ensures (x + 2 * e) % 2 == x % 2
  {
  }
}
