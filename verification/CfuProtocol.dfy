/** The custom function unit of python/amaranth_cfu/cfu.py: one command in, one response out. */
module CfuProtocol {
  import opened Words

  type FunctionId = x: int | 0 <= x < 1024
  type Slot = x: int | 0 <= x < 8
  type Funct7 = x: int | 0 <= x < 128

  datatype Option<+T> = None | Some(value: T)

  // What the CPU drives in one cycle, and what the CFU drives back in the same cycle.
  datatype Bus = Bus(cmdValid: bool, functionId: FunctionId, in0: UInt32, in1: UInt32, rspReady: bool)
  datatype Reply = Reply(cmdReady: bool, rspValid: bool, rspOut: UInt32)

  // What the eight instructions see: at most one start line is high.
  datatype Ports = Ports(start: Option<Slot>, in0: UInt32, in1: UInt32, funct7: Funct7)

  // The instructions are any synchronous circuit with registers S. Slots without an instruction
  // get the fallback, which is done at once and returns its first operand.
  datatype Instructions<!S> = Instructions(
    defined: set<Slot>,
    reset: S,
    doneLine: (S, Slot, Ports) -> bool,
    outputLine: (S, Slot, Ports) -> UInt32,
    next: (S, Ports) -> S)
  {
    predicate Done(s: S, slot: Slot, p: Ports) { slot in defined ==> doneLine(s, slot, p) }

    function Output(s: S, slot: Slot, p: Ports): UInt32
    {
      if slot in defined then outputLine(s, slot, p) else p.in0
    }
  }

  datatype Fsm = WaitCmd | WaitInstruction | WaitTransfer

  datatype State<S> = State(fsm: Fsm, storedFunctionId: Slot, storedOutput: UInt32, instr: S)

  // ----- One cycle -----

  function PortsOf<S>(st: State<S>, bus: Bus): Ports
  {
    var start := if st.fsm.WaitCmd? && bus.cmdValid then Some(bus.functionId % 8) else None;
    Ports(start, bus.in0, bus.in1, bus.functionId / 8)
  }

  function CurrentSlot<S>(st: State<S>, bus: Bus): Slot
  {
    match st.fsm
    case WaitCmd => bus.functionId % 8
    case WaitInstruction => st.storedFunctionId
    case WaitTransfer => 0
  }

  // Whether the instruction under way finishes in this cycle.
  predicate Finishes<S>(ins: Instructions<S>, st: State<S>, bus: Bus)
  {
    && (st.fsm.WaitInstruction? || (st.fsm.WaitCmd? && bus.cmdValid))
    && ins.Done(st.instr, CurrentSlot(st, bus), PortsOf(st, bus))
  }

  function Response<S>(ins: Instructions<S>, st: State<S>, bus: Bus): Reply
  {
    if st.fsm.WaitTransfer? then Reply(false, true, st.storedOutput)
    else if Finishes(ins, st, bus) then
      Reply(st.fsm.WaitCmd?, true, ins.Output(st.instr, CurrentSlot(st, bus), PortsOf(st, bus)))
    else Reply(st.fsm.WaitCmd?, false, 0)
  }

  function Next<S>(ins: Instructions<S>, st: State<S>, bus: Bus): State<S>
  {
    var reply := Response(ins, st, bus);
    var idle := st.fsm.WaitCmd? && !bus.cmdValid;
    State(
      if idle then WaitCmd
      else if !reply.rspValid then WaitInstruction
      else if bus.rspReady then WaitCmd
      else WaitTransfer,
      if st.fsm.WaitCmd? && bus.cmdValid then bus.functionId % 8 else st.storedFunctionId,
      if reply.rspValid && !bus.rspReady then reply.rspOut else st.storedOutput,
      ins.next(st.instr, PortsOf(st, bus)))
  }

  function Initial<S>(ins: Instructions<S>): State<S> { State(WaitCmd, 0, 0, ins.reset) }

  class Cfu<S> {
    const instructions: Instructions<S>
    var fsm: Fsm
    var storedFunctionId: Slot
    var storedOutput: UInt32
    var registers: S

    ghost function Current(): State<S>
      reads this
    {
      State(fsm, storedFunctionId, storedOutput, registers)
    }

    constructor (ins: Instructions<S>)
      ensures instructions == ins && Current() == Initial(ins)
    {
      instructions := ins;
      fsm, storedFunctionId, storedOutput, registers := WaitCmd, 0, 0, ins.reset;
    }

    // One cycle. The reply is combinational; the registers follow only when the clock is enabled.
    method Cycle(bus: Bus, clockEnable: bool) returns (reply: Reply)
      modifies this
      ensures reply == Response(instructions, old(Current()), bus)
      ensures Current() == if clockEnable then Next(instructions, old(Current()), bus) else old(Current())
    {
      var cmdReady, rspValid, rspOut := false, false, 0;
      var start: Option<Slot>, nextFsm := None, fsm;
      var nextFunctionId, nextOutput := storedFunctionId, storedOutput;
      var slot, active := storedFunctionId, false;
      match fsm {
        case WaitCmd =>
          slot := bus.functionId % 8;
          cmdReady := true;
          if bus.cmdValid {
            nextFunctionId := slot;
            start := Some(slot);
            active := true;
          }
        case WaitInstruction =>
          active := true;
        case WaitTransfer =>
          rspValid, rspOut := true, storedOutput;
          if bus.rspReady {
            nextFsm := WaitCmd;
          }
      }
      var ports := Ports(start, bus.in0, bus.in1, bus.functionId / 8);
      if active {
        if instructions.Done(registers, slot, ports) {
          rspValid, rspOut := true, instructions.Output(registers, slot, ports);
          if bus.rspReady {
            nextFsm := WaitCmd;
          } else {
            nextOutput := rspOut;
            nextFsm := WaitTransfer;
          }
        } else {
          nextFsm := WaitInstruction;
        }
      }
      reply := Reply(cmdReady, rspValid, rspOut);
      if clockEnable {
        fsm, storedFunctionId, storedOutput := nextFsm, nextFunctionId, nextOutput;
        registers := instructions.next(registers, ports);
      }
    }
  }

  // ----- Runs: the CPU side is any stream of bus cycles -----

  type Run = nat -> Bus

  function StateAt<S>(ins: Instructions<S>, run: Run, t: nat): State<S>
  {
    if t == 0 then Initial(ins) else Next(ins, StateAt(ins, run, t - 1), run(t - 1))
  }

  function ReplyAt<S>(ins: Instructions<S>, run: Run, t: nat): Reply { Response(ins, StateAt(ins, run, t), run(t)) }

  predicate Accepts<S>(ins: Instructions<S>, run: Run, t: nat)
  {
    run(t).cmdValid && ReplyAt(ins, run, t).cmdReady
  }

  predicate Delivers<S>(ins: Instructions<S>, run: Run, t: nat)
  {
    ReplyAt(ins, run, t).rspValid && run(t).rspReady
  }

  // The cycles before n in which a command was accepted, and in which a response was delivered.
  function Accepted<S>(ins: Instructions<S>, run: Run, n: nat): seq<nat>
  {
    if n == 0 then []
    else Accepted(ins, run, n - 1) + if Accepts(ins, run, n - 1) then [n - 1] else []
  }

  function Delivered<S>(ins: Instructions<S>, run: Run, n: nat): seq<nat>
  {
    if n == 0 then []
    else Delivered(ins, run, n - 1) + if Delivers(ins, run, n - 1) then [n - 1] else []
  }

  // The done and output lines of one instruction in cycle t, whatever the CFU makes of them.
  predicate InstructionDone<S>(ins: Instructions<S>, run: Run, slot: Slot, t: nat)
  {
    ins.Done(StateAt(ins, run, t).instr, slot, PortsOf(StateAt(ins, run, t), run(t)))
  }

  function InstructionOutput<S>(ins: Instructions<S>, run: Run, slot: Slot, t: nat): UInt32
  {
    ins.Output(StateAt(ins, run, t).instr, slot, PortsOf(StateAt(ins, run, t), run(t)))
  }

  // The command accepted in cycle a is running: its instruction has not been done before cycle n,
  // no response was offered, no other command was let in, and start was high in cycle a alone.
  ghost predicate Running<S>(ins: Instructions<S>, run: Run, a: nat, n: nat)
  {
    && a <= n && Accepts(ins, run, a)
    && PortsOf(StateAt(ins, run, a), run(a)).start == Some(run(a).functionId % 8)
    && (forall t | a <= t < n :: NotDone(ins, run, run(a).functionId % 8, t))
    && (forall t | a < t < n :: Busy(ins, run, t))
  }

  predicate Busy<S>(ins: Instructions<S>, run: Run, t: nat)
  {
    !ReplyAt(ins, run, t).cmdReady && PortsOf(StateAt(ins, run, t), run(t)).start == None
  }

  predicate NotDone<S>(ins: Instructions<S>, run: Run, slot: Slot, t: nat)
  {
    !InstructionDone(ins, run, slot, t) && !ReplyAt(ins, run, t).rspValid
  }

  // A response of value v is offered and not taken.
  predicate Stalled<S>(ins: Instructions<S>, run: Run, t: nat, v: UInt32)
  {
    ReplyAt(ins, run, t).rspValid && !run(t).rspReady && ReplyAt(ins, run, t).rspOut == v
  }

  // It became done in cycle d, and the CPU has taken no response before cycle n: from d on, the
  // value of cycle d is offered unchanged.
  ghost predicate Offered<S>(ins: Instructions<S>, run: Run, a: nat, d: nat, n: nat)
  {
    && Running(ins, run, a, d) && d <= n
    && InstructionDone(ins, run, run(a).functionId % 8, d)
    && (forall t | d <= t < n :: Stalled(ins, run, t, InstructionOutput(ins, run, run(a).functionId % 8, d)))
    && (forall t | a < t < n :: Busy(ins, run, t))
  }

  // A complete transaction: accepted in a, done in d, response taken in r.
  ghost predicate Served<S>(ins: Instructions<S>, run: Run, a: nat, d: nat, r: nat)
  {
    && Offered(ins, run, a, d, r)
    && (a < r ==> Busy(ins, run, r))
    && Delivers(ins, run, r)
    && ReplyAt(ins, run, r).rspOut == InstructionOutput(ins, run, run(a).functionId % 8, d)
  }

  // The command accepted in cycle a is still unanswered when cycle n begins.
  ghost predicate Open<S>(ins: Instructions<S>, run: Run, a: nat, n: nat)
  {
    var st := StateAt(ins, run, n);
    && a < n
    && match st.fsm
       case WaitCmd => false
       case WaitInstruction => Running(ins, run, a, n) && st.storedFunctionId == run(a).functionId % 8
       case WaitTransfer => exists d :: OpenTransfer(ins, run, a, d, n)
  }

  ghost predicate OpenTransfer<S>(ins: Instructions<S>, run: Run, a: nat, d: nat, n: nat)
  {
    && d < n && Offered(ins, run, a, d, n)
    && StateAt(ins, run, n).storedOutput == InstructionOutput(ins, run, run(a).functionId % 8, d)
  }

  ghost predicate ServedAt<S>(ins: Instructions<S>, run: Run, a: nat, r: nat)
  {
    exists d :: Served(ins, run, a, d, r)
  }

  lemma RunningStep<S>(ins: Instructions<S>, run: Run, a: nat, n: nat)
    requires Running(ins, run, a, n) && (if a == n then true else Open(ins, run, a, n))
    requires StateAt(ins, run, n).fsm.WaitInstruction? || a == n
    ensures if Delivers(ins, run, n) then ServedAt(ins, run, a, n) else Open(ins, run, a, n + 1)
    ensures Delivers(ins, run, n) ==> InstructionDone(ins, run, run(a).functionId % 8, n)
    ensures StateAt(ins, run, n + 1).fsm.WaitCmd? <==> Delivers(ins, run, n)
  {
    var slot := run(a).functionId % 8;
    assert CurrentSlot(StateAt(ins, run, n), run(n)) == slot;
    if InstructionDone(ins, run, slot, n) {
      assert Offered(ins, run, a, n, n);
      if run(n).rspReady {
        assert Served(ins, run, a, n, n);
      } else {
        assert OpenTransfer(ins, run, a, n, n + 1);
      }
    }
  }

  lemma TransferReply<S>(ins: Instructions<S>, run: Run, n: nat)
    requires StateAt(ins, run, n).fsm.WaitTransfer?
    ensures ReplyAt(ins, run, n) == Reply(false, true, StateAt(ins, run, n).storedOutput) && Busy(ins, run, n)
    ensures StateAt(ins, run, n + 1).fsm == if run(n).rspReady then WaitCmd else WaitTransfer
    ensures StateAt(ins, run, n + 1).storedOutput == StateAt(ins, run, n).storedOutput
  {
  }

  lemma TransferStep<S>(ins: Instructions<S>, run: Run, a: nat, d: nat, n: nat)
    requires a < n && StateAt(ins, run, n).fsm.WaitTransfer? && OpenTransfer(ins, run, a, d, n)
    ensures if Delivers(ins, run, n) then Served(ins, run, a, d, n) else OpenTransfer(ins, run, a, d, n + 1)
    ensures StateAt(ins, run, n + 1).fsm == if Delivers(ins, run, n) then WaitCmd else WaitTransfer
  {
    TransferReply(ins, run, n);
    if !run(n).rspReady {
      assert Offered(ins, run, a, d, n + 1);
    }
  }

  lemma OpenStep<S>(ins: Instructions<S>, run: Run, a: nat, n: nat)
    requires Open(ins, run, a, n) || (a == n && Accepts(ins, run, n))
    ensures if Delivers(ins, run, n) then ServedAt(ins, run, a, n) else Open(ins, run, a, n + 1)
    ensures StateAt(ins, run, n + 1).fsm.WaitCmd? <==> Delivers(ins, run, n)
  {
    if StateAt(ins, run, n).fsm.WaitTransfer? {
      var d :| OpenTransfer(ins, run, a, d, n);
      TransferStep(ins, run, a, d, n);
    } else {
      RunningStep(ins, run, a, n);
    }
  }

  // n cycles into a run, with commands accepted in cycles A and responses delivered in cycles D:
  // the k-th response answers the k-th command before the next is accepted, accepted minus
  // delivered is 0 or 1, and it is 0 exactly when the CFU waits for a command.
  ghost predicate InOrder<S>(ins: Instructions<S>, run: Run, n: nat, A: seq<nat>, D: seq<nat>)
  {
    && |A| == |D| + (if StateAt(ins, run, n).fsm.WaitCmd? then 0 else 1)
    && (forall k | 0 <= k < |D| :: D[k] < n && ServedAt(ins, run, A[k], D[k]))
    && (forall k | 0 <= k < |D| && k + 1 < |A| :: D[k] < A[k + 1])
    && (|A| > |D| ==> Open(ins, run, A[|D|], n))
  }

  lemma HandshakeFacts<S>(ins: Instructions<S>, run: Run, t: nat)
    ensures Accepts(ins, run, t) ==> StateAt(ins, run, t).fsm.WaitCmd?
    ensures StateAt(ins, run, t).fsm.WaitCmd? && !Accepts(ins, run, t)
      ==> !Delivers(ins, run, t) && StateAt(ins, run, t + 1).fsm.WaitCmd?
  {
  }

  lemma InOrderStep<S>(ins: Instructions<S>, run: Run, t: nat, A: seq<nat>, D: seq<nat>, A': seq<nat>, D': seq<nat>)
    requires InOrder(ins, run, t, A, D)
    requires A' == A + if Accepts(ins, run, t) then [t] else []
    requires D' == D + if Delivers(ins, run, t) then [t] else []
    ensures InOrder(ins, run, t + 1, A', D')
  {
    HandshakeFacts(ins, run, t);
    if |A'| > |D| {
      OpenStep(ins, run, A'[|D|], t);
    }
  }

  lemma {:induction false} ResponsesInOrder<S>(ins: Instructions<S>, run: Run, n: nat)
    ensures InOrder(ins, run, n, Accepted(ins, run, n), Delivered(ins, run, n))
  {
    if n != 0 {
      ResponsesInOrder(ins, run, n - 1);
      InOrderStep(ins, run, n - 1, Accepted(ins, run, n - 1), Delivered(ins, run, n - 1),
                  Accepted(ins, run, n), Delivered(ins, run, n));
    }
  }

  // ----- Every command is answered in bounded time -----

  // From cycle t on, the CPU takes a response after at most r cycles.
  ghost predicate ReadySoon(run: Run, t: nat, r: nat) { exists i :: t <= i <= t + r && run(i).rspReady }

  lemma {:induction false} TransferEnds<S>(ins: Instructions<S>, run: Run, a: nat, d: nat, n: nat, i: nat)
    returns (e: nat)
    requires a < n <= i && StateAt(ins, run, n).fsm.WaitTransfer? && OpenTransfer(ins, run, a, d, n)
    requires run(i).rspReady
    ensures n <= e <= i && Served(ins, run, a, d, e)
    decreases i - n
  {
    TransferStep(ins, run, a, d, n);
    if run(n).rspReady {
      e := n;
    } else {
      e := TransferEnds(ins, run, a, d, n + 1, i);
    }
  }

  lemma DoneEnds<S>(ins: Instructions<S>, run: Run, a: nat, n: nat, i: nat) returns (e: nat)
    requires Open(ins, run, a, n) || (a == n && Accepts(ins, run, n))
    requires !StateAt(ins, run, n).fsm.WaitTransfer? && InstructionDone(ins, run, run(a).functionId % 8, n)
    requires n <= i && run(i).rspReady
    ensures n <= e <= i && ServedAt(ins, run, a, e)
  {
    RunningStep(ins, run, a, n);
    if run(n).rspReady {
      e := n;
    } else {
      var f :| OpenTransfer(ins, run, a, f, n + 1);
      e := TransferEnds(ins, run, a, f, n + 1, i);
    }
  }

  // The first cycle in which the instruction of the command of cycle a is done.
  ghost predicate FirstDone<S>(ins: Instructions<S>, run: Run, a: nat, f: nat)
  {
    && a <= f && InstructionDone(ins, run, run(a).functionId % 8, f)
    && forall t | a <= t < f :: !InstructionDone(ins, run, run(a).functionId % 8, t)
  }

  lemma {:induction false} RunningEnds<S>(ins: Instructions<S>, run: Run, a: nat, n: nat, f: nat, i: nat)
    returns (e: nat)
    requires Open(ins, run, a, n) || (a == n && Accepts(ins, run, n))
    requires !StateAt(ins, run, n).fsm.WaitTransfer?
    requires a <= n <= f && FirstDone(ins, run, a, f) && f <= i && run(i).rspReady
    ensures f <= e <= i && ServedAt(ins, run, a, e)
    decreases f - n
  {
    if n == f {
      e := DoneEnds(ins, run, a, n, i);
    } else {
      RunningStep(ins, run, a, n);
      e := RunningEnds(ins, run, a, n + 1, f, i);
    }
  }

  // Once its instruction is done, a command is answered as soon as the CPU becomes ready. Nothing
  // is asked of the CPU before that.
  lemma AnsweredOnceReady<S>(ins: Instructions<S>, run: Run, a: nat, f: nat, r: nat)
    requires Accepts(ins, run, a) && FirstDone(ins, run, a, f) && ReadySoon(run, f, r)
    ensures exists e :: f <= e <= f + r && ServedAt(ins, run, a, e)
  {
    var i :| f <= i <= f + r && run(i).rspReady;
    var e := RunningEnds(ins, run, a, a, f, i);
  }

  lemma FindFirstDone<S>(ins: Instructions<S>, run: Run, a: nat, d: nat) returns (f: nat)
    requires InstructionDone(ins, run, run(a).functionId % 8, a + d)
    ensures f <= a + d && FirstDone(ins, run, a, f)
  {
    f := a;
    while !InstructionDone(ins, run, run(a).functionId % 8, f)
      invariant a <= f <= a + d
      invariant forall t | a <= t < f :: !InstructionDone(ins, run, run(a).functionId % 8, t)
      decreases a + d - f
    {
      f := f + 1;
    }
  }

  // An instruction that is done within d cycles, and a CPU that is ready within r cycles of its
  // being done, get the command of cycle a answered within d + r cycles.
  lemma AnsweredInTime<S>(ins: Instructions<S>, run: Run, a: nat, d: nat, r: nat)
    requires Accepts(ins, run, a) && InstructionDone(ins, run, run(a).functionId % 8, a + d)
    requires forall f | FirstDone(ins, run, a, f) :: ReadySoon(run, f, r)
    ensures exists e :: a <= e <= a + d + r && ServedAt(ins, run, a, e)
  {
    var f := FindFirstDone(ins, run, a, d);
    AnsweredOnceReady(ins, run, a, f, r);
  }

  // A function id without an instruction never hangs the CFU.
  lemma UnassignedAnswered<S>(ins: Instructions<S>, run: Run, a: nat, r: nat)
    requires Accepts(ins, run, a) && run(a).functionId % 8 !in ins.defined
    requires ReadySoon(run, a, r)
    ensures exists e :: a <= e <= a + r && Served(ins, run, a, a, e) && ReplyAt(ins, run, e).rspOut == run(a).in0
  {
    RunningStep(ins, run, a, a);
    var i :| a <= i <= a + r && run(i).rspReady;
    if run(a).rspReady {
      assert Offered(ins, run, a, a, a);
      assert Served(ins, run, a, a, a);
    } else {
      assert Offered(ins, run, a, a, a + 1);
      assert OpenTransfer(ins, run, a, a, a + 1);
      var e := TransferEnds(ins, run, a, a, a + 1, i);
    }
  }
}
