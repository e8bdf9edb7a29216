/**
 The RAM behind the clock controller, wired as in soc/hps_soc.py: its banks are clocked with the
 CPU, its acknowledge register always is.
 */
module GatedMemory {
  import opened Words
  import opened CfuProtocol
  import opened ClockControl
  import opened Lram

  // The CPU's clock enable, which is the banks' too, in cycle t of a run.
  predicate EnableAt<S>(ins: Instructions<S>, run: Run, t: nat) { GatedClocks(ins, GatedAt(ins, run, t), run(t)).cpu }

  function CpuClock<S>(ins: Instructions<S>, run: Run): nat -> bool { (t: nat) => EnableAt(ins, run, t) }

  // The enables of n cycles from cycle t on.
  function Window(clock: nat -> bool, t: nat, n: nat): (e: seq<bool>)
    ensures |e| == n && forall i | 0 <= i < n :: e[i] == clock(t + i)
  {
    seq(n, i requires 0 <= i < n => clock(t + i))
  }

  function Enables<S>(ins: Instructions<S>, run: Run, t: nat, n: nat): seq<bool> { Window(CpuClock(ins, run), t, n) }

  ghost predicate OffThroughout(clock: nat -> bool, from: nat, to: int) { forall c: nat | from <= c < to :: !clock(c) }

  lemma WindowFetches(clock: nat -> bool, t: nat, n: nat)
    requires n > 0
    ensures true in Before(Window(clock, t, n)) <==> !OffThroughout(clock, t, t + n - 1)
  {
    var before := Before(Window(clock, t, n));
    if true in before {
      var i :| 0 <= i < |before| && before[i];
      assert clock(t + i);
    }
    if !OffThroughout(clock, t, t + n - 1) {
      InWindow(clock, t, n);
    }
  }

  lemma InWindow(clock: nat -> bool, t: nat, n: nat)
    requires n > 0 && !OffThroughout(clock, t, t + n - 1)
    ensures true in Before(Window(clock, t, n))
  {
    var c: nat :| t <= c < t + n - 1 && clock(c);
    assert Before(Window(clock, t, n))[c - t];
  }

  lemma WindowEnds(clock: nat -> bool, t: nat, n: nat)
    requires n > 0 && OffThroughout(clock, t, t + n - 1)
    ensures EndsAccess(Window(clock, t, n)) <==> n % 2 == 0 && clock(t + n - 1)
  {
  }

  // The CPU waits for the CFU: a command is outstanding, not done, and no new one is offered.
  predicate Stopped<S>(ins: Instructions<S>, run: Run, t: nat)
  {
    var st := GatedAt(ins, run, t).cfu;
    st.fsm.WaitInstruction? && !Finishes(ins, st, run(t)) && !run(t).cmdValid
  }

  ghost predicate Waits<S>(ins: Instructions<S>, run: Run, from: nat, to: int)
  {
    forall c: nat | from <= c < to :: Stopped(ins, run, c)
  }

  lemma EnabledIff<S>(ins: Instructions<S>, run: Run, t: nat)
    ensures EnableAt(ins, run, t) <==> !Stopped(ins, run, t)
  {
    CpuStoppedIff(ins, run, t);
  }

  lemma WaitsIff<S>(ins: Instructions<S>, run: Run, from: nat, to: int)
    ensures OffThroughout(CpuClock(ins, run), from, to) <==> Waits(ins, run, from, to)
  {
    forall c: nat | from <= c < to ensures CpuClock(ins, run)(c) <==> !Stopped(ins, run, c) {
      EnabledIff(ins, run, c);
    }
  }

  // A read that goes onto the bus in cycle t of a run and whose acknowledgement the CPU takes in
  // cycle t + n - 1 returns the flat word, whatever the RAM held, exactly when the CPU did not wait
  // for the CFU in all the cycles before that one.
  lemma GatedReadIff<S>(ins: Instructions<S>, run: Run, g: Geometry, q: Request, t: nat, n: nat)
    requires g.Valid() && !q.we && g.Bank(q.adr) < g.depth && WellFormed(Access(q, Enables(ins, run, t, n)))
    ensures (forall r | Shaped(g, r) && !r.ack ::
              Perform(g, r, Access(q, Enables(ins, run, t, n))).2 == FlatRead(Flat(g, r), g.FlatIndex(q.adr)))
            <==> !Waits(ins, run, t, t + n - 1)
  {
    ReadNeedsClockIff(g, Access(q, Enables(ins, run, t, n)));
    WindowFetches(CpuClock(ins, run), t, n);
    WaitsIff(ins, run, t, t + n - 1);
  }

  // If the CPU waits from cycle t on, the acknowledgement is there when it is clocked again exactly
  // when it waited for an odd number of cycles.
  lemma StaleWhenOdd<S>(ins: Instructions<S>, run: Run, q: Request, t: nat, n: nat)
    requires n > 0 && q.strobe && Waits(ins, run, t, t + n - 1)
    ensures WellFormed(Access(q, Enables(ins, run, t, n))) <==> n % 2 == 0 && !Stopped(ins, run, t + n - 1)
  {
    WaitsIff(ins, run, t, t + n - 1);
    WindowEnds(CpuClock(ins, run), t, n);
    EnabledIff(ins, run, t + n - 1);
  }

  // ----- It does happen -----

  // One instruction that is done two cycles after its start.
  function TwoCycles(): Instructions<nat>
  {
    Instructions({0}, 0,
                 (s: nat, slot: Slot, p: Ports) => s == 2,
                 (s: nat, slot: Slot, p: Ports) => 0,
                 (s: nat, p: Ports) => if p.start.Some? then 1 else if s == 1 then 2 else 0)
  }

  // The CPU sends it one command, in cycle 5.
  function OneCommand(): Run { (t: nat) => Bus(t == 5, 0, 0, 0, true) }

  lemma {:induction false} BeforeCommand(t: nat)
    requires t <= 5
    ensures GatedAt(TwoCycles(), OneCommand(), t) == Gated(Initial(TwoCycles()), CpuEnabled)
    ensures EnableAt(TwoCycles(), OneCommand(), t)
  {
    if t != 0 {
      BeforeCommand(t - 1);
    }
  }

  // The CPU's clock stops for the one cycle after the command.
  lemma CommandStops()
    ensures !EnableAt(TwoCycles(), OneCommand(), 6) && EnableAt(TwoCycles(), OneCommand(), 7)
  {
    BeforeCommand(5);
    var six, seven := GatedAt(TwoCycles(), OneCommand(), 6), GatedAt(TwoCycles(), OneCommand(), 7);
    assert six == Gated(State(WaitInstruction, 0, 0, 1), CfuEnabled);
    assert seven == Gated(State(WaitInstruction, 0, 0, 2), CfuEnabled);
  }

  const ALL := Select(true, true, true, true)

  function WriteZero(v: Word): Request { Request(true, true, 0, ALL, v) }
  const READ_ZERO := Request(true, false, 0, ALL, ZERO)

  // A write, a read, a write and a read of address 0.
  function FourOps(v: Word, w: Word, e0: seq<bool>, e1: seq<bool>, e2: seq<bool>, e3: seq<bool>): seq<Op>
  {
    [Access(WriteZero(v), e0)] + ([Access(READ_ZERO, e1)]
    + ([Access(WriteZero(w), e2)] + ([Access(READ_ZERO, e3)] + [])))
  }

  // The CPU writes a word to address 0, reads it, and writes another; the command goes out in the
  // last cycle of that write, and the next cycle finds a second read on the bus.
  function Ops(v: Word, w: Word): seq<Op>
  {
    var e := (t: nat) => Enables(TwoCycles(), OneCommand(), t, 2);
    FourOps(v, w, e(0), e(2), e(4), e(6))
  }

  lemma TwoEnables(t: nat)
    ensures var e := Enables(TwoCycles(), OneCommand(), t, 2);
            e == [EnableAt(TwoCycles(), OneCommand(), t), EnableAt(TwoCycles(), OneCommand(), t + 1)]
  {
  }

  lemma OpsAre(v: Word, w: Word)
    ensures Ops(v, w) == FourOps(v, w, [true, true], [true, true], [true, true], [false, true])
  {
    BeforeCommand(0); BeforeCommand(1); BeforeCommand(2);
    BeforeCommand(3); BeforeCommand(4); BeforeCommand(5);
    CommandStops();
    TwoEnables(0); TwoEnables(2); TwoEnables(4); TwoEnables(6);
  }

  lemma TwoCycleAccesses()
    ensures EndsAccess([true, true]) && true in Before([true, true])
    ensures EndsAccess([false, true]) && true !in Before([false, true])
  {
    assert Before([true, true])[0];
  }

  lemma HeldWrite(g: Geometry, r: Ram, q: Request, enables: seq<bool>)
    requires Shaped(g, r) && q.strobe && q.we
    ensures Held(g, r, q, enables).dout == r.dout
    decreases |enables|
  {
    if enables != [] {
      HeldWrite(g, r, q, enables[..|enables| - 1]);
    }
  }

  // What a RAM shows of address 0.
  ghost predicate Shows(g: Geometry, r: Ram, stored: Word, shown: Word)
  {
    Shaped(g, r) && !r.ack && FlatRead(Flat(g, r), 0) == stored && DatR(g, r, 0) == shown
  }

  lemma ZeroInside(g: Geometry)
    requires g.Valid()
    ensures g.FlatIndex(0) == 0 && g.Bank(0) == 0 < g.depth && 0 < g.Words()
  {
    FlatIndexIdentity(g, 0);
  }

  lemma WriteShows(g: Geometry, r: Ram, v: Word, enables: seq<bool>)
    requires Shaped(g, r) && !r.ack && EndsAccess(enables)
    ensures Shows(g, Perform(g, r, Access(WriteZero(v), enables)).0, v, DatR(g, r, 0))
  {
    ZeroInside(g);
    OpRefinesFlat(g, r, Access(WriteZero(v), enables));
    HeldWrite(g, r, WriteZero(v), enables);
  }

  lemma ReadShows(g: Geometry, r: Ram, stored: Word, shown: Word, enables: seq<bool>)
    requires Shows(g, r, stored, shown) && EndsAccess(enables)
    ensures var (after, _, word) := Perform(g, r, Access(READ_ZERO, enables));
            Shows(g, after, stored, stored) && word == if true in Before(enables) then stored else shown
  {
    ZeroInside(g);
    OpRefinesFlat(g, r, Access(READ_ZERO, enables));
    HeldRead(g, r, READ_ZERO, Before(enables));
    HeldRead(g, r, READ_ZERO, enables);
    assert enables[|enables| - 1];
  }

  // One operation of a run, banked and flat.
  lemma RunStep(g: Geometry, r: Ram, op: Op, rest: seq<Op>)
    requires Shaped(g, r) && !r.ack && WellFormed(op) && op.Access?
    ensures var (after, _, word) := Perform(g, r, op);
            && Reads(g, r, [op] + rest) == (if op.request.we then [] else [word]) + Reads(g, after, rest)
            && FlatReads(g, Flat(g, r), [op] + rest)
               == (if op.request.we then [] else [FlatRead(Flat(g, r), g.FlatIndex(op.request.adr))])
                + FlatReads(g, Flat(g, after), rest)
  {
    assert ([op] + rest)[1..] == rest;
    OpRefinesFlat(g, r, op);
  }

  lemma WriteStep(g: Geometry, r: Ram, v: Word, enables: seq<bool>, rest: seq<Op>) returns (after: Ram)
    requires Shaped(g, r) && !r.ack && EndsAccess(enables)
    ensures Shows(g, after, v, DatR(g, r, 0))
    ensures Reads(g, r, [Access(WriteZero(v), enables)] + rest) == Reads(g, after, rest)
    ensures FlatReads(g, Flat(g, r), [Access(WriteZero(v), enables)] + rest) == FlatReads(g, Flat(g, after), rest)
  {
    after := Perform(g, r, Access(WriteZero(v), enables)).0;
    WriteShows(g, r, v, enables);
    RunStep(g, r, Access(WriteZero(v), enables), rest);
  }

  lemma ReadStep(g: Geometry, r: Ram, stored: Word, shown: Word, enables: seq<bool>, rest: seq<Op>) returns (after: Ram)
    requires Shows(g, r, stored, shown) && EndsAccess(enables)
    ensures Shows(g, after, stored, stored)
    ensures Reads(g, r, [Access(READ_ZERO, enables)] + rest)
         == [if true in Before(enables) then stored else shown] + Reads(g, after, rest)
    ensures FlatReads(g, Flat(g, r), [Access(READ_ZERO, enables)] + rest)
        == [stored] + FlatReads(g, Flat(g, after), rest)
  {
    after := Perform(g, r, Access(READ_ZERO, enables)).0;
    ReadShows(g, r, stored, shown, enables);
    ZeroInside(g);
    RunStep(g, r, Access(READ_ZERO, enables), rest);
  }

  // With the enables of that run, from any state of any RAM, the second read returns the word that
  // the CPU has just overwritten.
  lemma StaleRead(g: Geometry, r: Ram, v: Word, w: Word)
    requires Shaped(g, r) && !r.ack
    ensures forall op | op in Ops(v, w) :: WellFormed(op)
    ensures Reads(g, r, Ops(v, w)) == [v, v] && FlatReads(g, Flat(g, r), Ops(v, w)) == [v, w]
  {
    OpsAre(v, w);
    TwoCycleAccesses();
    FourWellFormed(v, w, [true, true], [true, true], [true, true], [false, true]);
    StaleAfterWrite(g, r, v, w, [true, true], [true, true], [true, true], [false, true]);
  }

  lemma FourWellFormed(v: Word, w: Word, e0: seq<bool>, e1: seq<bool>, e2: seq<bool>, e3: seq<bool>)
    requires EndsAccess(e0) && EndsAccess(e1) && EndsAccess(e2) && EndsAccess(e3)
    ensures forall op | op in FourOps(v, w, e0, e1, e2, e3) :: WellFormed(op)
  {
  }

  lemma StaleAfterWrite(g: Geometry, r: Ram, v: Word, w: Word, e0: seq<bool>, e1: seq<bool>, e2: seq<bool>,
                        e3: seq<bool>)
    requires Shaped(g, r) && !r.ack && EndsAccess(e0) && EndsAccess(e1) && EndsAccess(e2) && EndsAccess(e3)
    requires true in Before(e1) && true !in Before(e3)
    ensures Reads(g, r, FourOps(v, w, e0, e1, e2, e3)) == [v, v]
    ensures FlatReads(g, Flat(g, r), FourOps(v, w, e0, e1, e2, e3)) == [v, w]
  {
    var last := [Access(READ_ZERO, e3)] + [];
    var third := [Access(WriteZero(w), e2)] + last;
    var r1 := WriteStep(g, r, v, e0, [Access(READ_ZERO, e1)] + third);
    var r2 := ReadStep(g, r1, v, DatR(g, r, 0), e1, third);
    var r3 := WriteStep(g, r2, w, e2, last);
    var r4 := ReadStep(g, r3, w, v, e3, []);
  }
}
