/**
 The CFU that proj/filter_preload/cfu.py.unused exposes: SimdMac in slot 0, fallbacks elsewhere,
 behind the bus protocol and under clock gating.
 */
module MacCfu {
  import opened Words
  import opened CfuProtocol
  import opened ClockControl
  import opened SimdMac

  function MacInstructions(): Instructions<MacState>
  {
    Instructions({0}, MacState(0, false),
                 (s: MacState, slot: Slot, p: Ports) => s.done,
                 (s: MacState, slot: Slot, p: Ports) => s.output,
                 (s: MacState, p: Ports) => MacNext(s, p.start == Some(0), p.funct7, p.in0, p.in1))
  }

  // SimdMac meets the instruction contract, so switching its clock is never noticed.
  lemma MacContract()
    ensures Contract(MacInstructions(), (s: MacState) => !s.done, (s: MacState) => !s.done,
                     (s: MacState, slot: Slot) => s.done && slot == 0)
  {
  }

  lemma MacGatingTransparent(run: Run)
    ensures forall t: nat :: SameAt(MacInstructions(), run, t)
  {
    MacContract();
    ContractMakesGatingTransparent(MacInstructions(), (s: MacState) => !s.done, (s: MacState) => !s.done,
                                   (s: MacState, slot: Slot) => s.done && slot == 0, run);
  }

  // The accumulator after the commands accepted in the given cycles.
  function AccumulatorAfter(run: Run, commands: seq<nat>): UInt32
  {
    if commands == [] then 0
    else
      var n := |commands| - 1;
      var c, before := run(commands[n]), AccumulatorAfter(run, commands[..n]);
      if c.functionId % 8 != 0 then before
      else if c.functionId / 8 != 0 then 0
      else (before + LaneSum(c.in0, c.in1)) % TWO_32
  }

  // What the last of these commands is answered with.
  function Answer(run: Run, commands: seq<nat>): UInt32
    requires commands != []
  {
    var c := run(commands[|commands| - 1]);
    if c.functionId % 8 == 0 then AccumulatorAfter(run, commands) else c.in0
  }

  ghost predicate Consistent(run: Run, t: nat)
  {
    var st, A := StateAt(MacInstructions(), run, t), Accepted(MacInstructions(), run, t);
    && st.instr.output == AccumulatorAfter(run, A)
    && (st.instr.done <==> st.fsm.WaitInstruction?)
    && (st.fsm.WaitInstruction? ==> A != [] && st.storedFunctionId == 0 && run(A[|A| - 1]).functionId % 8 == 0)
    && (st.fsm.WaitTransfer? ==> A != [] && st.storedOutput == Answer(run, A))
  }

  lemma ConsistentStep(run: Run, t: nat)
    requires Consistent(run, t)
    ensures Consistent(run, t + 1)
  {
    var ins := MacInstructions();
    var A, A' := Accepted(ins, run, t), Accepted(ins, run, t + 1);
    if Accepts(ins, run, t) {
      assert A' == A + [t] && A'[..|A'| - 1] == A;
    } else {
      assert A' == A;
    }
  }

  lemma {:induction false} ConsistentAlways(run: Run, t: nat)
    ensures Consistent(run, t)
  {
    if t != 0 {
      ConsistentAlways(run, t - 1);
      ConsistentStep(run, t - 1);
    }
  }

  // A response is the answer to the latest command, gated or not.
  lemma DeliveredAnswer(run: Run, t: nat)
    requires Delivers(MacInstructions(), run, t)
    ensures var A := Accepted(MacInstructions(), run, t + 1);
            A != [] && ReplyAt(MacInstructions(), run, t).rspOut == Answer(run, A)
  {
    ConsistentAlways(run, t);
    AnswerNow(run, t);
  }

  lemma AnswerNow(run: Run, t: nat)
    requires Delivers(MacInstructions(), run, t) && Consistent(run, t)
    ensures var A := Accepted(MacInstructions(), run, t + 1);
            A != [] && ReplyAt(MacInstructions(), run, t).rspOut == Answer(run, A)
  {
    var A := Accepted(MacInstructions(), run, t);
    if Accepts(MacInstructions(), run, t) {
      assert Accepted(MacInstructions(), run, t + 1) == A + [t];
    } else {
      assert Accepted(MacInstructions(), run, t + 1) == A;
    }
  }

  lemma {:induction false} AcceptedPrefix<S>(ins: Instructions<S>, run: Run, m: nat, n: nat)
    requires m <= n
    ensures Accepted(ins, run, m) <= Accepted(ins, run, n)
  {
    if m < n {
      AcceptedPrefix(ins, run, m, n - 1);
    }
  }

  // The k-th response, at the cycle it is delivered, follows the k-th acceptance and no later one.
  lemma {:induction false} CommandsAtDelivery<S>(ins: Instructions<S>, run: Run, n: nat, k: nat)
    requires k < |Delivered(ins, run, n)|
    ensures var r := Delivered(ins, run, n)[k];
            && r < n && Delivers(ins, run, r)
            && |Accepted(ins, run, r + 1)| == k + 1 && Accepted(ins, run, r + 1) <= Accepted(ins, run, n)
  {
    if k < |Delivered(ins, run, n - 1)| {
      CommandsAtDelivery(ins, run, n - 1, k);
    } else {
      assert Delivers(ins, run, n - 1);
      DeliveryReturns(ins, run, n - 1);
      AcceptedThen(ins, run, n);
    }
  }

  lemma AcceptedThen<S>(ins: Instructions<S>, run: Run, n: nat)
    requires StateAt(ins, run, n).fsm.WaitCmd?
    ensures |Accepted(ins, run, n)| == |Delivered(ins, run, n)|
  {
    ResponsesInOrder(ins, run, n);
  }

  lemma DeliveryReturns<S>(ins: Instructions<S>, run: Run, t: nat)
    requires Delivers(ins, run, t)
    ensures StateAt(ins, run, t + 1).fsm.WaitCmd?
  {
  }

  // What a program does to convolve 4n channels, from its m-th command on: reset the accumulator,
  // then send the packed channels four at a time. Every nonzero funct7 is a reset.
  ghost predicate SendsChannels(run: Run, commands: seq<nat>, m: nat, image: seq<Int8>, filter: seq<Int8>, n: nat)
    requires 4 * n <= |image| && 4 * n <= |filter| && m + n < |commands|
  {
    && run(commands[m]).functionId % 8 == 0 && run(commands[m]).functionId / 8 != 0
    && forall i | m < i <= m + n :: SendsGroup(run(commands[i]), image, filter, i - m - 1)
  }

  predicate SendsGroup(c: Bus, image: seq<Int8>, filter: seq<Int8>, k: nat)
    requires 4 * k + 4 <= |image| && 4 * k + 4 <= |filter|
  {
    c.functionId == 0 && c.in0 == Operand(image, k) && c.in1 == Operand(filter, k)
  }

  lemma AccumulateCommand(run: Run, commands: seq<nat>)
    requires commands != [] && run(commands[|commands| - 1]).functionId == 0
    ensures var n := |commands| - 1;
            var c := run(commands[n]);
            AccumulatorAfter(run, commands) == (AccumulatorAfter(run, commands[..n]) + LaneSum(c.in0, c.in1)) % TWO_32
  {
  }

  lemma {:induction false} AccumulatorIsDot(run: Run, commands: seq<nat>, m: nat, image: seq<Int8>, filter: seq<Int8>,
                                            n: nat)
    requires 4 * n <= |image| && 4 * n <= |filter| && |commands| == m + n + 1
    requires SendsChannels(run, commands, m, image, filter, n)
    ensures AccumulatorAfter(run, commands) == Dot(image, filter, 4 * n) % TWO_32
  {
    if n != 0 {
      assert SendsChannels(run, commands[..m + n], m, image, filter, n - 1);
      AccumulatorIsDot(run, commands[..m + n], m, image, filter, n - 1);
      AccumulateStep(image, filter, n - 1);
      assert SendsGroup(run(commands[m + n]), image, filter, n - 1);
      AccumulateCommand(run, commands);
    }
  }

  // End to end: over any run of the clock-gated CFU in which 4n channels are sent from the m-th
  // command on, after whatever commands, the response to the last of them, whenever the CPU takes
  // it, is the dot product the software kernel computes, modulo 2^32, and exactly that for up to
  // 65792 channels.
  lemma GatedCfuComputesDotProduct(run: Run, t: nat, m: nat, image: seq<Int8>, filter: seq<Int8>, n: nat)
    requires |image| == |filter| == 4 * n
    requires m + n < |Delivered(MacInstructions(), run, t)| && m + n < |Accepted(MacInstructions(), run, t)|
    requires SendsChannels(run, Accepted(MacInstructions(), run, t), m, image, filter, n)
    ensures var r := Delivered(MacInstructions(), run, t)[m + n];
            var value := Response(MacInstructions(), GatedAt(MacInstructions(), run, r).cfu, run(r)).rspOut;
            && value == Dot(image, filter, 4 * n) % TWO_32
            && (4 * n <= 65792 ==> Wrap32(value) == Dot(image, filter, 4 * n))
  {
    var ins := MacInstructions();
    var r := Delivered(ins, run, t)[m + n];
    ResponseIsDot(run, t, m, image, filter, n);
    MacGatingTransparent(run);
    assert SameAt(ins, run, r);
    DotRange(image, filter, 4 * n);
    WrapBack(Dot(image, filter, 4 * n));
  }

  lemma ResponseIsDot(run: Run, t: nat, m: nat, image: seq<Int8>, filter: seq<Int8>, n: nat)
    requires |image| == |filter| == 4 * n
    requires m + n < |Delivered(MacInstructions(), run, t)| && m + n < |Accepted(MacInstructions(), run, t)|
    requires SendsChannels(run, Accepted(MacInstructions(), run, t), m, image, filter, n)
    ensures ReplyAt(MacInstructions(), run, Delivered(MacInstructions(), run, t)[m + n]).rspOut
        == Dot(image, filter, 4 * n) % TWO_32
  {
    var ins := MacInstructions();
    var r := Delivered(ins, run, t)[m + n];
    CommandsAtDelivery(ins, run, t, m + n);
    DeliveredAnswer(run, r);
    AnswerIsDot(run, Accepted(ins, run, r + 1), Accepted(ins, run, t), m, image, filter, n);
  }

  // The answer to the last of these commands, whatever commands follow it.
  lemma AnswerIsDot(run: Run, commands: seq<nat>, all: seq<nat>, m: nat, image: seq<Int8>, filter: seq<Int8>, n: nat)
    requires |image| == |filter| == 4 * n && |commands| == m + n + 1 && commands <= all
    requires SendsChannels(run, all, m, image, filter, n)
    ensures Answer(run, commands) == Dot(image, filter, 4 * n) % TWO_32
  {
    SendsPrefix(run, commands, all, m, image, filter, n);
    AccumulatorIsDot(run, commands, m, image, filter, n);
  }

  lemma SendsPrefix(run: Run, A: seq<nat>, B: seq<nat>, m: nat, image: seq<Int8>, filter: seq<Int8>, n: nat)
    requires |image| == |filter| == 4 * n && m + n < |A| && A <= B
    requires SendsChannels(run, B, m, image, filter, n)
    ensures SendsChannels(run, A, m, image, filter, n) && run(A[m + n]).functionId % 8 == 0
  {
    assert forall i | 0 <= i < |A| :: A[i] == B[i];
    assert n != 0 ==> SendsGroup(run(B[m + n]), image, filter, n - 1);
  }
}
