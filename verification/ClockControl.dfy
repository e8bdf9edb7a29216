/**
 The clock controller of soc/clock_control.py, wired between CPU and CFU as in soc/hps_soc.py:
 it watches the handshake lines and switches both clocks.
 */
module ClockControl {
  import opened CfuProtocol

  datatype ControlState = CpuEnabled | CfuEnabled

  datatype Clocks = Clocks(cfu: bool, cpu: bool)

  function Enables(c: ControlState, cmdValid: bool, reply: Reply): Clocks
  {
    match c
    case CpuEnabled => Clocks(cmdValid, true)
    case CfuEnabled => Clocks(true, reply.rspValid || cmdValid || reply.cmdReady)
  }

  function NextControl(c: ControlState, cmdValid: bool, reply: Reply): ControlState
  {
    match c
    case CpuEnabled => if cmdValid then CfuEnabled else CpuEnabled
    case CfuEnabled => if !reply.rspValid && !cmdValid && reply.cmdReady then CpuEnabled else CfuEnabled
  }

  class CfuCpuClockCtrl {
    var fsm: ControlState

    constructor ()
      ensures fsm == CpuEnabled
    {
      fsm := CpuEnabled;
    }

    method Cycle(cmdValid: bool, reply: Reply) returns (cfuCen: bool, cpuCen: bool)
      modifies this
      ensures Clocks(cfuCen, cpuCen) == Enables(old(fsm), cmdValid, reply)
      ensures fsm == NextControl(old(fsm), cmdValid, reply)
    {
      match fsm {
        case CpuEnabled =>
          cpuCen, cfuCen := true, false;
          if cmdValid {
            cfuCen := true;
            fsm := CfuEnabled;
          }
        case CfuEnabled =>
          cfuCen, cpuCen := true, true;
          if !reply.rspValid && !cmdValid {
            cpuCen := false;
            if reply.cmdReady {
              cpuCen := true;
              fsm := CpuEnabled;
            }
          }
      }
    }
  }

  // ----- CFU and controller together -----

  datatype Gated<S> = Gated(cfu: State<S>, control: ControlState)

  function GatedClocks<S>(ins: Instructions<S>, g: Gated<S>, bus: Bus): Clocks
  {
    Enables(g.control, bus.cmdValid, Response(ins, g.cfu, bus))
  }

  function GatedNext<S>(ins: Instructions<S>, g: Gated<S>, bus: Bus): Gated<S>
  {
    Gated(if GatedClocks(ins, g, bus).cfu then Next(ins, g.cfu, bus) else g.cfu,
          NextControl(g.control, bus.cmdValid, Response(ins, g.cfu, bus)))
  }

  // The CFU whose clock the controller switches.
  function GatedAt<S>(ins: Instructions<S>, run: Run, t: nat): Gated<S>
  {
    if t == 0 then Gated(Initial(ins), CpuEnabled) else GatedNext(ins, GatedAt(ins, run, t - 1), run(t - 1))
  }

  // The same controller watching a CFU whose clock always runs.
  function WatchingAt<S>(ins: Instructions<S>, run: Run, t: nat): ControlState
  {
    if t == 0 then CpuEnabled
    else NextControl(WatchingAt(ins, run, t - 1), run(t - 1).cmdValid, ReplyAt(ins, run, t - 1))
  }

  class GatedCfu<S> {
    const cfu: Cfu<S>
    const control: CfuCpuClockCtrl

    ghost function Current(): Gated<S>
      reads cfu, control
    {
      Gated(cfu.Current(), control.fsm)
    }

    constructor (ins: Instructions<S>)
      ensures fresh(cfu) && fresh(control) && cfu.instructions == ins
      ensures Current() == Gated(Initial(ins), CpuEnabled)
    {
      cfu := new Cfu(ins);
      control := new CfuCpuClockCtrl();
    }

    method Cycle(bus: Bus) returns (reply: Reply, cpuCen: bool)
      modifies cfu, control
      ensures reply == Response(cfu.instructions, old(Current().cfu), bus)
      ensures cpuCen == GatedClocks(cfu.instructions, old(Current()), bus).cpu
      ensures Current() == GatedNext(cfu.instructions, old(Current()), bus)
    {
      reply := cfu.Cycle(bus, false);
      var cfuCen;
      cfuCen, cpuCen := control.Cycle(bus.cmdValid, reply);
      reply := cfu.Cycle(bus, cfuCen);
    }
  }

  // ----- The joint invariant -----

  predicate ClockOffIsSafe<S>(g: Gated<S>) { g.control.CpuEnabled? ==> g.cfu.fsm.WaitCmd? }

  lemma {:induction false} JointInvariant<S>(ins: Instructions<S>, run: Run, t: nat)
    ensures ClockOffIsSafe(GatedAt(ins, run, t))
  {
    if t != 0 {
      JointInvariant(ins, run, t - 1);
    }
  }

  // The CPU's clock is off in exactly the cycles in which a command is outstanding, its instruction
  // is not done, and no new command is offered.
  lemma CpuStoppedIff<S>(ins: Instructions<S>, run: Run, t: nat)
    ensures var g := GatedAt(ins, run, t);
            !GatedClocks(ins, g, run(t)).cpu <==>
            (g.cfu.fsm.WaitInstruction? && !Finishes(ins, g.cfu, run(t)) && !run(t).cmdValid)
  {
    JointInvariant(ins, run, t);
  }

  // The CFU's clock is off from the second on of the cycles in a row in which it waits and no
  // command is offered, and in the first cycle of a run if that is one.
  lemma CfuStoppedIff<S>(ins: Instructions<S>, run: Run, t: nat)
    ensures !GatedClocks(ins, GatedAt(ins, run, t), run(t)).cfu <==>
            !run(t).cmdValid && (t == 0 || (GatedAt(ins, run, t - 1).cfu.fsm.WaitCmd? && !run(t - 1).cmdValid))
  {
    if t != 0 {
      JointInvariant(ins, run, t - 1);
    }
  }

  // Both clocks run in every cycle in which a command or a response changes hands, and the CFU's
  // clock runs in every cycle in which it is not waiting for a command.
  lemma HandshakesAreClocked<S>(ins: Instructions<S>, run: Run, t: nat)
    ensures var g, reply := GatedAt(ins, run, t), Response(ins, GatedAt(ins, run, t).cfu, run(t));
            (run(t).cmdValid && reply.cmdReady) || (reply.rspValid && run(t).rspReady) ==>
            GatedClocks(ins, g, run(t)) == Clocks(true, true)
    ensures var g := GatedAt(ins, run, t);
            !GatedClocks(ins, g, run(t)).cfu ==> g.cfu.fsm.WaitCmd? && !run(t).cmdValid
  {
    JointInvariant(ins, run, t);
  }

  // ----- When gating is transparent -----

  // While the controller lets the CPU run alone, a clock edge would not change the instructions.
  ghost predicate QuietWhenStopped<S>(ins: Instructions<S>, run: Run, t: nat)
  {
    var st := StateAt(ins, run, t);
    WatchingAt(ins, run, t).CpuEnabled? && !run(t).cmdValid ==> ins.next(st.instr, PortsOf(st, run(t))) == st.instr
  }

  ghost predicate SameAt<S>(ins: Instructions<S>, run: Run, t: nat)
  {
    GatedAt(ins, run, t).cfu == StateAt(ins, run, t)
  }

  lemma {:induction false} QuietKeepsSame<S>(ins: Instructions<S>, run: Run, t: nat)
    requires forall i | 0 <= i < t :: QuietWhenStopped(ins, run, i)
    ensures SameAt(ins, run, t) && GatedAt(ins, run, t).control == WatchingAt(ins, run, t)
  {
    if t != 0 {
      QuietKeepsSame(ins, run, t - 1);
      JointInvariant(ins, run, t - 1);
      assert QuietWhenStopped(ins, run, t - 1);
    }
  }

  lemma {:induction false} SameControl<S>(ins: Instructions<S>, run: Run, t: nat)
    requires forall i | 0 <= i < t :: SameAt(ins, run, i)
    ensures GatedAt(ins, run, t).control == WatchingAt(ins, run, t)
  {
    if t != 0 {
      SameControl(ins, run, t - 1);
      assert SameAt(ins, run, t - 1);
    }
  }

  // A CFU clocked only when the controller says so goes through the same states, and gives the
  // same replies, as one clocked in every cycle, if and only if its instructions are quiet
  // whenever the controller stops its clock.
  lemma GatingTransparentIff<S>(ins: Instructions<S>, run: Run)
    ensures (forall t: nat :: SameAt(ins, run, t)) <==> (forall t: nat :: QuietWhenStopped(ins, run, t))
    ensures (forall t: nat :: QuietWhenStopped(ins, run, t))
      ==> forall t: nat :: Response(ins, GatedAt(ins, run, t).cfu, run(t)) == ReplyAt(ins, run, t)
  {
    if forall t: nat :: QuietWhenStopped(ins, run, t) {
      forall t: nat ensures SameAt(ins, run, t) { QuietKeepsSame(ins, run, t); }
      forall t: nat ensures Response(ins, GatedAt(ins, run, t).cfu, run(t)) == ReplyAt(ins, run, t) {
        assert SameAt(ins, run, t);
      }
    }
    if forall t: nat :: SameAt(ins, run, t) {
      forall t: nat ensures QuietWhenStopped(ins, run, t) {
        SameControl(ins, run, t);
        assert SameAt(ins, run, t) && SameAt(ins, run, t + 1);
      }
    }
  }

  // A register that flips at every clock edge, read through slot 0.
  function Toggle(): Instructions<bool>
  {
    Instructions({0}, false,
                 (s: bool, slot: Slot, p: Ports) => true,
                 (s: bool, slot: Slot, p: Ports) => if s then 1 else 0,
                 (s: bool, p: Ports) => !s)
  }

  // Such an instruction is not quiet: one idle cycle before it is read, and the CPU sees the gating.
  lemma ToggleShowsGating(run: Run)
    requires !run(0).cmdValid && run(1).cmdValid && run(1).functionId == 0
    ensures Response(Toggle(), GatedAt(Toggle(), run, 1).cfu, run(1)) == Reply(true, true, 0)
    ensures ReplyAt(Toggle(), run, 1) == Reply(true, true, 1)
  {
    assert GatedAt(Toggle(), run, 0) == Gated(Initial(Toggle()), CpuEnabled);
    assert StateAt(Toggle(), run, 0) == Initial(Toggle());
  }

  // ----- Conditions on the instructions -----

  lemma {:induction false} PrefixDecides<S>(ins: Instructions<S>, run: Run, run': Run, t: nat)
    requires forall i: nat | i < t :: run'(i) == run(i)
    ensures StateAt(ins, run', t) == StateAt(ins, run, t) && WatchingAt(ins, run', t) == WatchingAt(ins, run, t)
  {
    if t != 0 {
      PrefixDecides(ins, run, run', t - 1);
    }
  }

  // In every state in which the controller may stop the CFU, the instructions ignore a clock edge
  // without start, whatever their operands.
  ghost predicate QuietWhenParked<S>(ins: Instructions<S>, run: Run, t: nat)
  {
    var s := StateAt(ins, run, t).instr;
    WatchingAt(ins, run, t).CpuEnabled? ==> forall p: Ports | p.start.None? :: ins.next(s, p) == s
  }

  // A run up to cycle t, and then the same bus cycle for ever.
  function Until(run: Run, t: nat, bus: Bus): Run { (i: nat) => if i < t then run(i) else bus }

  function IdleBus(p: Ports): Bus { Bus(false, p.funct7 * 8, p.in0, p.in1, false) }

  lemma UntilIdle<S>(ins: Instructions<S>, run: Run, t: nat, p: Ports)
    requires p.start.None?
    ensures var run' := Until(run, t, IdleBus(p));
            && StateAt(ins, run', t) == StateAt(ins, run, t) && WatchingAt(ins, run', t) == WatchingAt(ins, run, t)
            && !run'(t).cmdValid && PortsOf(StateAt(ins, run', t), run'(t)) == p
  {
    PrefixDecides(ins, run, Until(run, t, IdleBus(p)), t);
  }

  lemma SameMakesQuiet<S>(ins: Instructions<S>, run: Run, t: nat)
    requires forall i: nat :: SameAt(ins, run, i)
    ensures QuietWhenStopped(ins, run, t)
  {
    GatingTransparentIff(ins, run);
  }

  lemma ParkedIsQuiet<S>(ins: Instructions<S>, run: Run, t: nat, p: Ports)
    requires forall i: nat :: SameAt(ins, Until(run, t, IdleBus(p)), i)
    requires WatchingAt(ins, run, t).CpuEnabled? && p.start.None?
    ensures ins.next(StateAt(ins, run, t).instr, p) == StateAt(ins, run, t).instr
  {
    UntilIdle(ins, run, t, p);
    SameMakesQuiet(ins, Until(run, t, IdleBus(p)), t);
  }

  // Gating is transparent in all runs exactly when the instructions are quiet in all the states
  // they can be parked in.
  lemma TransparentInAllRunsIff<S>(ins: Instructions<S>)
    ensures (forall run: Run, t: nat :: SameAt(ins, run, t))
            <==> (forall run: Run, t: nat :: QuietWhenParked(ins, run, t))
  {
    if forall run: Run, t: nat :: SameAt(ins, run, t) {
      forall run: Run, t: nat ensures QuietWhenParked(ins, run, t) {
        if WatchingAt(ins, run, t).CpuEnabled? {
          forall p: Ports | p.start.None?
            ensures ins.next(StateAt(ins, run, t).instr, p) == StateAt(ins, run, t).instr
          {
            ParkedIsQuiet(ins, run, t, p);
          }
        }
      }
    }
    if forall run: Run, t: nat :: QuietWhenParked(ins, run, t) {
      forall run: Run, t: nat ensures SameAt(ins, run, t) {
        forall i: nat ensures QuietWhenStopped(ins, run, i) {
          assert QuietWhenParked(ins, run, i);
          WatchedIdle(ins, run, i);
        }
        GatingTransparentIff(ins, run);
      }
    }
  }

  // A start/done contract for the instructions, with the registers they may be in while working on
  // a slot, when idle, and when parked: an instruction works from its start until it is done and is
  // idle after that; one idle cycle parks it, and then it stays as it is until the next start.
  ghost predicate Contract<S(!new)>(ins: Instructions<S>, idle: S -> bool, parked: S -> bool,
                                    working: (S, Slot) -> bool)
  {
    && parked(ins.reset)
    && (forall s | parked(s) :: idle(s))
    && (forall s, p: Ports {:trigger ins.next(s, p)} | p.start.None? ::
          (idle(s) ==> parked(ins.next(s, p))) && (parked(s) ==> ins.next(s, p) == s))
    && (forall s, p: Ports {:trigger ins.next(s, p)} | idle(s) && p.start.Some? ::
          if ins.Done(s, p.start.value, p) then idle(ins.next(s, p)) else working(ins.next(s, p), p.start.value))
    && (forall s, p: Ports, slot: Slot {:trigger working(s, slot), ins.next(s, p)}
          | working(s, slot) && p.start.None? ::
          if ins.Done(s, slot, p) then idle(ins.next(s, p)) else working(ins.next(s, p), slot))
  }

  lemma {:induction false} ContractKept<S(!new)>(ins: Instructions<S>, idle: S -> bool, parked: S -> bool,
                                                 working: (S, Slot) -> bool, run: Run, t: nat)
    requires Contract(ins, idle, parked, working)
    ensures var st := StateAt(ins, run, t);
            if st.fsm.WaitInstruction? then working(st.instr, st.storedFunctionId) else idle(st.instr)
    ensures WatchingAt(ins, run, t).CpuEnabled? ==> parked(StateAt(ins, run, t).instr)
  {
    if t != 0 {
      ContractKept(ins, idle, parked, working, run, t - 1);
      var st := StateAt(ins, run, t - 1);
      assert StateAt(ins, run, t).instr == ins.next(st.instr, PortsOf(st, run(t - 1)));
    }
  }

  // Instructions that keep the contract never notice that their clock is switched, in any run.
  lemma ContractMakesGatingTransparent<S(!new)>(ins: Instructions<S>, idle: S -> bool, parked: S -> bool,
                                                working: (S, Slot) -> bool, run: Run)
    requires Contract(ins, idle, parked, working)
    ensures forall t: nat :: SameAt(ins, run, t)
  {
    forall t: nat ensures QuietWhenStopped(ins, run, t) {
      ContractKept(ins, idle, parked, working, run, t);
      WatchedIdle(ins, run, t);
    }
    GatingTransparentIff(ins, run);
  }

  lemma {:induction false} WatchedIdle<S>(ins: Instructions<S>, run: Run, t: nat)
    ensures WatchingAt(ins, run, t).CpuEnabled? ==> StateAt(ins, run, t).fsm.WaitCmd?
  {
    if t != 0 {
      WatchedIdle(ins, run, t - 1);
    }
  }
}
