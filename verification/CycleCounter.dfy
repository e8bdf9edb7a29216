/** perf_get_mcycle64 of common/src/perf.h: a 64-bit counter read through two 32-bit halves. */
module CycleCounter {
  import opened Words

  // The counter at each register read, from the first on. Any time may pass between two reads,
  // but the counter never decreases.
  type Reads = nat -> UInt64

  ghost predicate Monotone(counter: Reads) { forall i: nat, j: nat | i <= j :: counter(i) <= counter(j) }

  function High(c: UInt64): UInt32 { c / TWO_32 }
  function Low(c: UInt64): UInt32 { c % TWO_32 }

  // Attempt k reads high, low and high, as reads 3k to 3k + 2.
  predicate Torn(counter: Reads, k: nat) { High(counter(3 * k)) != High(counter(3 * k + 2)) }

  // The loop always ends, and what it returns is the value the counter had at the low read of the
  // last attempt, the first one that was not torn.
  method GetMcycle64(counter: Reads) returns (value: UInt64, attempts: nat)
    requires Monotone(counter)
    ensures attempts >= 1 && value == counter(3 * (attempts - 1) + 1)
    ensures !Torn(counter, attempts - 1) && forall k | 0 <= k < attempts - 1 :: Torn(counter, k)
  {
    var cycleHigh: UInt32, cycleLow: UInt32, cycleHigh2: UInt32 := 0, 0, 0;
    attempts := 0;
    while true
      invariant forall k | 0 <= k < attempts :: Torn(counter, k)
      decreases TWO_32 - High(counter(3 * attempts))
    {
      var n := 3 * attempts;
      assert counter(n) <= counter(n + 1) <= counter(n + 2) <= counter(n + 3);
      cycleHigh := High(counter(n));
      cycleLow := Low(counter(n + 1));
      cycleHigh2 := High(counter(n + 2));
      attempts := attempts + 1;
      if cycleHigh == cycleHigh2 {
        break;
      }
    }
    value := cycleHigh * TWO_32 + cycleLow;
  }

  // An attempt, with the branch back, takes at most so many cycles.
  ghost predicate AttemptsWithin(counter: Reads, cycles: nat)
  {
    forall k: nat :: AttemptWithin(counter, k, cycles)
  }

  predicate AttemptWithin(counter: Reads, k: nat, cycles: nat) { counter(3 * k + 3) - counter(3 * k) <= cycles }

  // The first n attempts are torn, so that at least n retries are needed.
  ghost predicate TornFirst(counter: Reads, n: nat) { forall k: nat | k < n :: Torn(counter, k) }

  // Every torn attempt raises the high half.
  lemma {:induction false} HighRises(counter: Reads, n: nat)
    requires Monotone(counter) && TornFirst(counter, n + 1)
    ensures High(counter(3 * n + 2)) >= High(counter(0)) + n + 1
  {
    assert Torn(counter, n) && counter(3 * n) <= counter(3 * n + 2);
    HighMonotone(counter(3 * n), counter(3 * n + 2));
    if n != 0 {
      HighRises(counter, n - 1);
      assert counter(3 * n - 1) <= counter(3 * n);
      HighMonotone(counter(3 * n - 1), counter(3 * n));
    }
  }

  lemma HighMonotone(c: UInt64, d: UInt64)
    requires c <= d
    ensures High(c) <= High(d)
  {
  }

  lemma {:induction false} AttemptsTake(counter: Reads, cycles: nat, n: nat)
    requires AttemptsWithin(counter, cycles)
    ensures counter(3 * n) - counter(0) <= n * cycles
  {
    if n != 0 {
      AttemptsTake(counter, cycles, n - 1);
      assert AttemptWithin(counter, n - 1, cycles);
      Distribute(cycles, n - 1, 1);
    }
  }

  lemma TearingTakes(counter: Reads, cycles: nat, k: nat)
    requires Monotone(counter) && AttemptsWithin(counter, cycles) && TornFirst(counter, k + 1)
    ensures (k + 1) * cycles > k * TWO_32 && k + 1 < TWO_32
  {
    HighRises(counter, k);
    AttemptsTake(counter, cycles, k + 1);
    assert counter(3 * k + 2) <= counter(3 * (k + 1));
    Carried(counter(0), counter(3 * k + 2), k);
  }

  lemma Carried(c: UInt64, d: UInt64, k: nat)
    requires High(d) >= High(c) + k + 1
    ensures d - c > k * TWO_32
  {
  }

  function Min(x: nat, y: nat): nat { if x < y then x else y }

  // A counter about to carry, that moves on by d cycles in each of its first k + 1 attempts, and
  // does so between the low and the second high read.
  function UnluckyAt(d: nat, k: nat, i: nat): UInt64
    requires d <= TWO_32 && k + 1 < TWO_32
  {
    UnluckyFits(d, k, Steps(k, i));
    TWO_32 - 1 + d * Steps(k, i)
  }

  function Steps(k: nat, i: nat): (n: nat)
    ensures n <= k + 1
  {
    Min((i + 1) / 3, k + 1)
  }

  function Unlucky(d: nat, k: nat): Reads
    requires d <= TWO_32 && k + 1 < TWO_32
  {
    (i: nat) => UnluckyAt(d, k, i)
  }

  lemma UnluckyFits(d: nat, k: nat, m: nat)
    requires d <= TWO_32 && m <= k + 1 < TWO_32
    ensures 0 <= d * m && TWO_32 - 1 + d * m < TWO_64
  {
    MulMonotone(d, 0, m);
    MulMonotone(m, d, TWO_32);
  }

  // At most k retries are guaranteed for every counter exactly when k + 1 attempts take at most
  // k * 2^32 cycles, or k is so large that the high half would have to wrap.
  lemma RetriesIff(cycles: nat, k: nat)
    ensures (forall counter: Reads | Monotone(counter) && AttemptsWithin(counter, cycles) :: !TornFirst(counter, k + 1))
            <==> (k + 1) * cycles <= k * TWO_32 || k + 1 >= TWO_32
  {
    if (k + 1) * cycles <= k * TWO_32 || k + 1 >= TWO_32 {
      forall counter: Reads | Monotone(counter) && AttemptsWithin(counter, cycles) ensures !TornFirst(counter, k + 1) {
        if TornFirst(counter, k + 1) {
          TearingTakes(counter, cycles, k);
        }
      }
    } else {
      UnluckyTears(cycles, k);
    }
  }

  lemma UnluckyTears(cycles: nat, k: nat)
    requires (k + 1) * cycles > k * TWO_32 && k + 1 < TWO_32
    ensures var counter := Unlucky(Min(cycles, TWO_32), k);
            Monotone(counter) && AttemptsWithin(counter, cycles) && TornFirst(counter, k + 1)
  {
    var d := Min(cycles, TWO_32);
    var counter := Unlucky(d, k);
    assert (k + 1) * d > k * TWO_32 by { Distribute(TWO_32, k, 1); }
    forall i: nat, j: nat | i <= j ensures counter(i) <= counter(j) { UnluckyMonotone(d, k, i, j); }
    forall j: nat ensures AttemptWithin(counter, j, cycles) { UnluckyWithin(d, k, j); }
    forall j: nat | j < k + 1 ensures Torn(counter, j) { UnluckyTorn(d, k, j); }
  }

  lemma UnluckyMonotone(d: nat, k: nat, i: nat, j: nat)
    requires d <= TWO_32 && k + 1 < TWO_32 && i <= j
    ensures UnluckyAt(d, k, i) <= UnluckyAt(d, k, j)
  {
    MulMonotone(d, Steps(k, i), Steps(k, j));
  }

  lemma UnluckyWithin(d: nat, k: nat, j: nat)
    requires d <= TWO_32 && k + 1 < TWO_32
    ensures UnluckyAt(d, k, 3 * j + 3) - UnluckyAt(d, k, 3 * j) <= d
  {
    Distribute(d, Steps(k, 3 * j + 3), Steps(k, 3 * j));
    assert Steps(k, 3 * j + 3) - Steps(k, 3 * j) == 0 || Steps(k, 3 * j + 3) - Steps(k, 3 * j) == 1;
  }

  lemma UnluckyTorn(d: nat, k: nat, j: nat)
    requires d <= TWO_32 && (k + 1) * d > k * TWO_32 && j <= k && k + 1 < TWO_32
    ensures High(UnluckyAt(d, k, 3 * j)) != High(UnluckyAt(d, k, 3 * j + 2))
  {
    assert Steps(k, 3 * j) == j && Steps(k, 3 * j + 2) == j + 1;
    CarryInside(d, k, j);
    HighBelow(UnluckyAt(d, k, 3 * j), UnluckyAt(d, k, 3 * j + 2), j + 1);
  }

  lemma HighBelow(c: UInt64, d: UInt64, h: nat)
    requires c < TWO_32 * h <= d
    ensures High(c) < h <= High(d)
  {
  }

  // Attempt j carries past (j + 1) * 2^32.
  lemma CarryInside(d: nat, k: nat, j: nat)
    requires d <= TWO_32 && (k + 1) * d > k * TWO_32 && j <= k && k + 1 < TWO_32
    ensures 0 <= TWO_32 - 1 + d * j < TWO_32 * (j + 1) <= TWO_32 - 1 + d * (j + 1) < TWO_64
  {
    UnluckyFits(d, k, j + 1);
    UnluckyFits(d, k, j);
    MulMonotone(j, d, TWO_32);
    MulMonotone(TWO_32 - d, j + 1, k + 1);
    Distribute(j + 1, TWO_32, d);
    Distribute(k + 1, TWO_32, d);
  }

  ghost predicate TornTwice(counter: Reads) { Torn(counter, 0) && Torn(counter, 1) }

  // At most one retry is guaranteed for every counter exactly when two attempts take at most 2^32 cycles.
  lemma OneRetryIff(cycles: nat)
    ensures (forall counter: Reads | Monotone(counter) && AttemptsWithin(counter, cycles) :: !TornTwice(counter))
            <==> 2 * cycles <= TWO_32
  {
    forall counter: Reads ensures TornTwice(counter) <==> TornFirst(counter, 2) {
    }
    RetriesIff(cycles, 1);
  }
}
