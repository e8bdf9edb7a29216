/**
 What the CPU can tell from the replies alone: clock gating is invisible on the bus exactly when an
 idle cycle of the CFU, in a state in which the controller may skip it, changes no later reply.
 */
module GatingObserved {
  import opened CfuProtocol
  import opened ClockControl

  // ----- The CFU from an arbitrary state on -----

  function From<S>(ins: Instructions<S>, st: State<S>, future: Run, k: nat): State<S>
  {
    if k == 0 then st else Next(ins, From(ins, st, future, k - 1), future(k - 1))
  }

  function ReplyFrom<S>(ins: Instructions<S>, st: State<S>, future: Run, k: nat): Reply
  {
    Response(ins, From(ins, st, future, k), future(k))
  }

  ghost predicate AlikeAt<S>(ins: Instructions<S>, a: State<S>, b: State<S>, future: Run, k: nat)
  {
    ReplyFrom(ins, a, future, k) == ReplyFrom(ins, b, future, k)
  }

  // No future of the bus tells the two states apart.
  ghost predicate Alike<S>(ins: Instructions<S>, a: State<S>, b: State<S>)
  {
    forall future: Run, k: nat :: AlikeAt(ins, a, b, future, k)
  }

  // One bus cycle, and then a future.
  function Then(bus: Bus, future: Run): Run { (i: nat) => if i == 0 then bus else future(i - 1) }

  lemma {:induction false} FromNext<S>(ins: Instructions<S>, st: State<S>, bus: Bus, future: Run, k: nat)
    ensures From(ins, st, Then(bus, future), k + 1) == From(ins, Next(ins, st, bus), future, k)
  {
    if k != 0 {
      FromNext(ins, st, bus, future, k - 1);
    }
  }

  lemma ReplyFromNext<S>(ins: Instructions<S>, st: State<S>, bus: Bus, future: Run, k: nat)
    ensures ReplyFrom(ins, st, Then(bus, future), k + 1) == ReplyFrom(ins, Next(ins, st, bus), future, k)
  {
    FromNext(ins, st, bus, future, k);
  }

  lemma AlikeNow<S>(ins: Instructions<S>, a: State<S>, b: State<S>, bus: Bus)
    requires Alike(ins, a, b)
    ensures Response(ins, a, bus) == Response(ins, b, bus)
  {
    var future: Run := (i: nat) => bus;
    assert AlikeAt(ins, a, b, future, 0);
  }

  lemma AlikeNext<S>(ins: Instructions<S>, a: State<S>, b: State<S>, bus: Bus)
    requires Alike(ins, a, b)
    ensures Alike(ins, Next(ins, a, bus), Next(ins, b, bus))
  {
    forall future: Run, k: nat ensures AlikeAt(ins, Next(ins, a, bus), Next(ins, b, bus), future, k) {
      assert AlikeAt(ins, a, b, Then(bus, future), k + 1);
      ReplyFromNext(ins, a, bus, future, k);
      ReplyFromNext(ins, b, bus, future, k);
    }
  }

  lemma AlikeTransitive<S>(ins: Instructions<S>, a: State<S>, b: State<S>, c: State<S>)
    requires Alike(ins, a, b) && Alike(ins, b, c)
    ensures Alike(ins, a, c)
  {
    forall future: Run, k: nat ensures AlikeAt(ins, a, c, future, k) {
      assert AlikeAt(ins, a, b, future, k) && AlikeAt(ins, b, c, future, k);
    }
  }

  // ----- The two directions -----

  ghost predicate SameReply<S>(ins: Instructions<S>, run: Run, t: nat)
  {
    Response(ins, GatedAt(ins, run, t).cfu, run(t)) == ReplyAt(ins, run, t)
  }

  // If the controller may stop the CFU in cycle t, no future tells whether it had one more clock
  // edge without a command.
  ghost predicate IdleUnseen<S>(ins: Instructions<S>, run: Run, t: nat)
  {
    var st := StateAt(ins, run, t);
    WatchingAt(ins, run, t).CpuEnabled? ==>
      forall p: Ports | p.start.None? :: Alike(ins, st, Next(ins, st, IdleBus(p)))
  }

  // Without a command, a waiting CFU looks at nothing but its instructions' ports.
  lemma IdleNext<S>(ins: Instructions<S>, st: State<S>, bus: Bus)
    requires st.fsm.WaitCmd? && !bus.cmdValid
    ensures PortsOf(st, bus).start.None? && Next(ins, st, bus) == Next(ins, st, IdleBus(PortsOf(st, bus)))
  {
  }

  lemma {:induction false} UnseenKeepsAlike<S>(ins: Instructions<S>, run: Run, t: nat)
    requires forall i: nat :: IdleUnseen(ins, run, i)
    ensures Alike(ins, GatedAt(ins, run, t).cfu, StateAt(ins, run, t))
    ensures GatedAt(ins, run, t).control == WatchingAt(ins, run, t)
  {
    if t == 0 {
      assert GatedAt(ins, run, 0).cfu == StateAt(ins, run, 0);
    } else {
      UnseenKeepsAlike(ins, run, t - 1);
      UnseenStep(ins, run, t - 1);
      UnseenControl(ins, run, t - 1);
    }
  }

  lemma UnseenControl<S>(ins: Instructions<S>, run: Run, t: nat)
    requires Alike(ins, GatedAt(ins, run, t).cfu, StateAt(ins, run, t))
    requires GatedAt(ins, run, t).control == WatchingAt(ins, run, t)
    ensures GatedAt(ins, run, t + 1).control == WatchingAt(ins, run, t + 1)
  {
    AlikeNow(ins, GatedAt(ins, run, t).cfu, StateAt(ins, run, t), run(t));
  }

  lemma UnseenStep<S>(ins: Instructions<S>, run: Run, t: nat)
    requires IdleUnseen(ins, run, t)
    requires Alike(ins, GatedAt(ins, run, t).cfu, StateAt(ins, run, t))
    requires GatedAt(ins, run, t).control == WatchingAt(ins, run, t)
    ensures Alike(ins, GatedAt(ins, run, t + 1).cfu, StateAt(ins, run, t + 1))
  {
    var g, st, bus := GatedAt(ins, run, t), StateAt(ins, run, t), run(t);
    if GatedClocks(ins, g, bus).cfu {
      AlikeNext(ins, g.cfu, st, bus);
    } else {
      WatchedIdle(ins, run, t);
      IdleNext(ins, st, bus);
      AlikeTransitive(ins, g.cfu, st, Next(ins, st, bus));
    }
  }

  // A run up to cycle t, and then a future.
  function Splice(run: Run, t: nat, future: Run): Run { (i: nat) => if i < t then run(i) else future(i - t) }

  ghost predicate Spliced(run': Run, run: Run, t: nat, future: Run)
  {
    (forall i: nat | i < t :: run'(i) == run(i)) && (forall i: nat | t <= i :: run'(i) == future(i - t))
  }

  lemma SpliceIs(run: Run, t: nat, future: Run)
    ensures Spliced(Splice(run, t, future), run, t, future)
  {
  }

  lemma {:induction false} SplicedStates<S>(ins: Instructions<S>, run': Run, run: Run, t: nat, future: Run, k: nat)
    requires Spliced(run', run, t, future)
    ensures StateAt(ins, run', t + k) == From(ins, StateAt(ins, run, t), future, k)
  {
    if k == 0 {
      PrefixDecides(ins, run, run', t);
    } else {
      SplicedStates(ins, run', run, t, future, k - 1);
      assert run'(t + k - 1) == future(k - 1);
    }
  }

  lemma SplicedReplies<S>(ins: Instructions<S>, run': Run, run: Run, t: nat, future: Run, k: nat)
    requires Spliced(run', run, t, future)
    ensures ReplyAt(ins, run', t + k) == ReplyFrom(ins, StateAt(ins, run, t), future, k)
  {
    SplicedStates(ins, run', run, t, future, k);
    assert run'(t + k) == future(k);
  }

  lemma {:induction false} GatedPrefix<S>(ins: Instructions<S>, run: Run, run': Run, t: nat)
    requires forall i: nat | i < t :: run'(i) == run(i)
    ensures GatedAt(ins, run', t) == GatedAt(ins, run, t)
  {
    if t != 0 {
      GatedPrefix(ins, run, run', t - 1);
    }
  }

  lemma {:induction false} SameRepliesSameControl<S>(ins: Instructions<S>, run: Run, t: nat)
    requires forall i: nat :: SameReply(ins, run, i)
    ensures GatedAt(ins, run, t).control == WatchingAt(ins, run, t)
  {
    if t != 0 {
      SameRepliesSameControl(ins, run, t - 1);
      assert SameReply(ins, run, t - 1);
    }
  }

  // A gated CFU does not see an idle cycle in which the controller keeps it stopped.
  lemma {:induction false} GatedSkips<S>(ins: Instructions<S>, run: Run, t: nat, idle: Bus, future: Run,
                                         with: Run, without: Run, k: nat)
    requires GatedAt(ins, run, t).control.CpuEnabled? && !idle.cmdValid
    requires Spliced(with, run, t, Then(idle, future)) && Spliced(without, run, t, future)
    ensures GatedAt(ins, with, t + 1 + k) == GatedAt(ins, without, t + k)
  {
    if k == 0 {
      GatedPrefix(ins, run, with, t);
      GatedPrefix(ins, run, without, t);
      assert with(t) == idle;
    } else {
      GatedSkips(ins, run, t, idle, future, with, without, k - 1);
      assert with(t + k) == future(k - 1) == without(t + k - 1);
    }
  }

  lemma RepliesSkip<S>(ins: Instructions<S>, run: Run, t: nat, idle: Bus, future: Run, with: Run, without: Run, k: nat)
    requires GatedAt(ins, run, t).control.CpuEnabled? && !idle.cmdValid
    requires Spliced(with, run, t, Then(idle, future)) && Spliced(without, run, t, future)
    requires SameReply(ins, with, t + 1 + k) && SameReply(ins, without, t + k)
    ensures ReplyAt(ins, with, t + 1 + k) == ReplyAt(ins, without, t + k)
  {
    GatedSkips(ins, run, t, idle, future, with, without, k);
    assert with(t + 1 + k) == future(k) == without(t + k);
  }

  lemma SeenInReplies<S>(ins: Instructions<S>, run: Run, t: nat, idle: Bus, future: Run, with: Run, without: Run,
                         k: nat)
    requires GatedAt(ins, run, t).control.CpuEnabled? && !idle.cmdValid
    requires Spliced(with, run, t, Then(idle, future)) && Spliced(without, run, t, future)
    requires SameReply(ins, with, t + 1 + k) && SameReply(ins, without, t + k)
    ensures AlikeAt(ins, StateAt(ins, run, t), Next(ins, StateAt(ins, run, t), idle), future, k)
  {
    RepliesSkip(ins, run, t, idle, future, with, without, k);
    SplicedReplies(ins, without, run, t, future, k);
    SplicedReplies(ins, with, run, t, Then(idle, future), k + 1);
    ReplyFromNext(ins, StateAt(ins, run, t), idle, future, k);
  }

  lemma SeenInAllRuns<S>(ins: Instructions<S>, run: Run, t: nat)
    requires forall r: Run, i: nat :: SameReply(ins, r, i)
    ensures IdleUnseen(ins, run, t)
  {
    if WatchingAt(ins, run, t).CpuEnabled? {
      assert forall i: nat :: SameReply(ins, run, i);
      SameRepliesSameControl(ins, run, t);
      forall p: Ports, future: Run, k: nat | p.start.None?
        ensures AlikeAt(ins, StateAt(ins, run, t), Next(ins, StateAt(ins, run, t), IdleBus(p)), future, k)
      {
        var with, without := Splice(run, t, Then(IdleBus(p), future)), Splice(run, t, future);
        SpliceIs(run, t, Then(IdleBus(p), future));
        SpliceIs(run, t, future);
        assert SameReply(ins, with, t + 1 + k) && SameReply(ins, without, t + k);
        SeenInReplies(ins, run, t, IdleBus(p), future, with, without, k);
      }
    }
  }

  // Gated and ungated CFU give the same replies in all runs exactly when idle cycles that the
  // controller may skip are never seen.
  lemma GatingUnseenIff<S>(ins: Instructions<S>)
    ensures (forall run: Run, t: nat :: SameReply(ins, run, t))
        <==> (forall run: Run, t: nat :: IdleUnseen(ins, run, t))
  {
    if forall run: Run, t: nat :: SameReply(ins, run, t) {
      forall run: Run, t: nat ensures IdleUnseen(ins, run, t) { SeenInAllRuns(ins, run, t); }
    }
    if forall run: Run, t: nat :: IdleUnseen(ins, run, t) {
      forall run: Run, t: nat ensures SameReply(ins, run, t) {
        assert forall i: nat :: IdleUnseen(ins, run, i);
        UnseenKeepsAlike(ins, run, t);
        AlikeNow(ins, GatedAt(ins, run, t).cfu, StateAt(ins, run, t), run(t));
      }
    }
  }

  // A register that flips at every clock edge and is never read: gating changes its state, not the
  // replies.
  function HiddenToggle(): Instructions<bool>
  {
    Instructions({0}, false,
                 (s: bool, slot: Slot, p: Ports) => true,
                 (s: bool, slot: Slot, p: Ports) => 0,
                 (s: bool, p: Ports) => !s)
  }

  lemma {:induction false} HiddenFrom(a: State<bool>, b: State<bool>, future: Run, k: nat)
    requires a.(instr := b.instr) == b
    ensures From(HiddenToggle(), a, future, k).(instr := From(HiddenToggle(), b, future, k).instr)
         == From(HiddenToggle(), b, future, k)
  {
    if k != 0 {
      HiddenFrom(a, b, future, k - 1);
    }
  }

  lemma HiddenToggleUnseen(run: Run, t: nat)
    ensures SameReply(HiddenToggle(), run, t)
    ensures !QuietWhenParked(HiddenToggle(), run, 0)
  {
    forall r: Run, i: nat ensures IdleUnseen(HiddenToggle(), r, i) {
      WatchedIdle(HiddenToggle(), r, i);
      var st := StateAt(HiddenToggle(), r, i);
      forall p: Ports, future: Run, k: nat | p.start.None? && st.fsm.WaitCmd?
        ensures AlikeAt(HiddenToggle(), st, Next(HiddenToggle(), st, IdleBus(p)), future, k)
      {
        HiddenFrom(st, Next(HiddenToggle(), st, IdleBus(p)), future, k);
      }
    }
    GatingUnseenIff(HiddenToggle());
    var p := Ports(None, 0, 0, 0);
    assert HiddenToggle().next(StateAt(HiddenToggle(), run, 0).instr, p) != StateAt(HiddenToggle(), run, 0).instr;
  }
}
