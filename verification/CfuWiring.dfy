/**
 What the wires of a CFU carry, in the fields of the bus alone: which cycle's operands an
 instruction sees, when a command is taken, and when a response is offered.
 */
module CfuWiring {
  import opened Words
  import opened CfuProtocol

  // ----- The handshake lines -----

  // A command is taken in exactly the cycles in which all earlier ones are answered.
  lemma ReadyIff<S>(ins: Instructions<S>, run: Run, t: nat)
    ensures ReplyAt(ins, run, t).cmdReady <==> |Accepted(ins, run, t)| == |Delivered(ins, run, t)|
  {
    ResponsesInOrder(ins, run, t);
  }

  // The command under way in cycle t, that cycle's own among them, is done by then.
  ghost predicate DoneBy<S>(ins: Instructions<S>, run: Run, a: nat, t: nat)
  {
    exists d :: a <= d <= t && InstructionDone(ins, run, run(a).functionId % 8, d)
  }

  // A response is offered in exactly the cycles in which a command is unanswered and its
  // instruction has been done, in that cycle at the latest.
  lemma ResponseIff<S>(ins: Instructions<S>, run: Run, t: nat)
    ensures var A, D := Accepted(ins, run, t + 1), Delivered(ins, run, t);
            ReplyAt(ins, run, t).rspValid <==> |A| > |D| && DoneBy(ins, run, A[|D|], t)
  {
    var A, D := Accepted(ins, run, t), Delivered(ins, run, t);
    ResponsesInOrder(ins, run, t);
    if StateAt(ins, run, t).fsm.WaitCmd? {
      FirstCycle(ins, run, t);
    } else {
      OpenCycle(ins, run, A[|D|], t);
    }
  }

  lemma FirstCycle<S>(ins: Instructions<S>, run: Run, t: nat)
    requires StateAt(ins, run, t).fsm.WaitCmd?
    ensures ReplyAt(ins, run, t).rspValid <==> run(t).cmdValid && DoneBy(ins, run, t, t)
  {
    if run(t).cmdValid && InstructionDone(ins, run, run(t).functionId % 8, t) {
      assert DoneBy(ins, run, t, t);
    }
  }

  lemma OpenCycle<S>(ins: Instructions<S>, run: Run, a: nat, t: nat)
    requires Open(ins, run, a, t)
    ensures ReplyAt(ins, run, t).rspValid <==> DoneBy(ins, run, a, t)
  {
    if StateAt(ins, run, t).fsm.WaitTransfer? {
      var d :| OpenTransfer(ins, run, a, d, t);
      assert DoneBy(ins, run, a, t);
    } else {
      RunningCycle(ins, run, a, t);
    }
  }

  lemma RunningCycle<S>(ins: Instructions<S>, run: Run, a: nat, t: nat)
    requires Open(ins, run, a, t) && StateAt(ins, run, t).fsm.WaitInstruction?
    ensures ReplyAt(ins, run, t).rspValid <==> DoneBy(ins, run, a, t)
  {
    var slot := run(a).functionId % 8;
    assert ReplyAt(ins, run, t).rspValid <==> InstructionDone(ins, run, slot, t);
    if d :| a <= d <= t && InstructionDone(ins, run, slot, d) {
      assert d < t ==> NotDone(ins, run, slot, d);
    }
    if InstructionDone(ins, run, slot, t) {
      assert DoneBy(ins, run, a, t);
    }
  }

  // ----- The operands -----

  // In every cycle, accepted or not, the instructions' registers follow that cycle's operands and
  // upper function id bits, and the start line of the slot named by the lower ones is high exactly
  // when a command is accepted.
  lemma RegistersSeeBus<S>(ins: Instructions<S>, run: Run, t: nat)
    ensures var start := if Accepts(ins, run, t) then Some(run(t).functionId % 8) else None;
            var p := Ports(start, run(t).in0, run(t).in1, run(t).functionId / 8);
            StateAt(ins, run, t + 1).instr == ins.next(StateAt(ins, run, t).instr, p)
  {
  }

  // A defined instruction started in cycle a and not done since drives the response with its lines
  // under the operands of the present cycle t, not those it was started with.
  lemma LinesSeeBus<S>(ins: Instructions<S>, run: Run, a: nat, t: nat)
    requires Open(ins, run, a, t) && StateAt(ins, run, t).fsm.WaitInstruction? && run(a).functionId % 8 in ins.defined
    ensures var slot, s := run(a).functionId % 8, StateAt(ins, run, t).instr;
            var p := Ports(None, run(t).in0, run(t).in1, run(t).functionId / 8);
            && (ReplyAt(ins, run, t).rspValid <==> ins.doneLine(s, slot, p))
            && (ReplyAt(ins, run, t).rspValid ==> ReplyAt(ins, run, t).rspOut == ins.outputLine(s, slot, p))
  {
  }

  // The same in the cycle in which it is started.
  lemma StartSeesBus<S>(ins: Instructions<S>, run: Run, a: nat)
    requires Accepts(ins, run, a) && run(a).functionId % 8 in ins.defined
    ensures var slot, s := run(a).functionId % 8, StateAt(ins, run, a).instr;
            var p := Ports(Some(slot), run(a).in0, run(a).in1, run(a).functionId / 8);
            && (ReplyAt(ins, run, a).rspValid <==> ins.doneLine(s, slot, p))
            && (ReplyAt(ins, run, a).rspValid ==> ReplyAt(ins, run, a).rspOut == ins.outputLine(s, slot, p))
  {
  }

  // An instruction without registers, done at once.
  ghost predicate Combinational<S(!new)>(ins: Instructions<S>, slot: Slot, f: (UInt32, UInt32, Funct7) -> UInt32)
  {
    && slot in ins.defined
    && forall s: S, p: Ports {:trigger ins.doneLine(s, slot, p)} ::
         ins.doneLine(s, slot, p) && ins.outputLine(s, slot, p) == f(p.in0, p.in1, p.funct7)
  }

  // It answers the command of cycle a with its function of that cycle's operands, whatever is on
  // the bus when the CPU takes the response.
  lemma CombinationalAnswers<S(!new)>(ins: Instructions<S>, run: Run, a: nat, r: nat,
                                      f: (UInt32, UInt32, Funct7) -> UInt32)
    requires Accepts(ins, run, a) && Combinational(ins, run(a).functionId % 8, f) && ReadySoon(run, a, r)
    ensures exists e ::
              && a <= e <= a + r && Served(ins, run, a, a, e) && Delivers(ins, run, e)
              && ReplyAt(ins, run, e).rspOut == f(run(a).in0, run(a).in1, run(a).functionId / 8)
  {
    StartSeesBus(ins, run, a);
    RunningStep(ins, run, a, a);
    var i :| a <= i <= a + r && run(i).rspReady;
    if run(a).rspReady {
      assert Offered(ins, run, a, a, a);
      assert Served(ins, run, a, a, a);
    } else {
      assert Offered(ins, run, a, a, a + 1);
      assert OpenTransfer(ins, run, a, a, a + 1);
      var e := TransferEnds(ins, run, a, a, a + 1, i);
      assert Served(ins, run, a, a, e);
    }
  }
}
