/**
 SequentialMemoryReader of amaranth_cfu/util.py, reading a DualPortMemory that answers one cycle
 later and may be written while it is read.
 */
module MemoryReader {
  import opened Words

  // Registers of the reader.
  datatype Reader = Reader(wasRestart: bool, wasNext: bool, lastMemAddr: nat, lastData: UInt32)

  // addressRange is the power of two that the address signal wraps at.
  datatype Geometry = Geometry(maxDepth: nat, addressRange: nat, limit: nat)
  {
    ghost predicate Valid() { 1 <= limit <= maxDepth <= addressRange }
  }

  function MemAddr(g: Geometry, r: Reader, restart: bool): nat
    requires g.Valid()
  {
    if restart then 0
    else if r.wasNext || r.wasRestart then
      (if r.lastMemAddr == g.limit - 1 then 0 else r.lastMemAddr + 1) % g.addressRange
    else r.lastMemAddr
  }

  function Data(r: Reader, memData: UInt32): UInt32
  {
    if r.wasRestart || r.wasNext then memData else r.lastData
  }

  function ReaderNext(g: Geometry, r: Reader, restart: bool, next: bool, memData: UInt32): Reader
    requires g.Valid()
  {
    Reader(restart, next, MemAddr(g, r, restart), Data(r, memData))
  }

  class SequentialMemoryReader {
    const geometry: Geometry
    var wasRestart: bool
    var wasNext: bool
    var lastMemAddr: nat
    var lastData: UInt32

    ghost function Current(): Reader reads this { Reader(wasRestart, wasNext, lastMemAddr, lastData) }

    constructor (g: Geometry)
      ensures geometry == g && Current() == Reader(false, false, 0, 0)
    {
      geometry := g;
      wasRestart, wasNext, lastMemAddr, lastData := false, false, 0, 0;
    }

    method Cycle(restart: bool, next: bool, memData: UInt32) returns (memAddr: nat, data: UInt32)
      requires geometry.Valid()
      modifies this
      ensures memAddr == MemAddr(geometry, old(Current()), restart) && data == Data(old(Current()), memData)
      ensures Current() == ReaderNext(geometry, old(Current()), restart, next, memData)
    {
      var incremented := if lastMemAddr == geometry.limit - 1 then 0 else lastMemAddr + 1;
      if restart {
        memAddr := 0;
      } else if wasNext || wasRestart {
        memAddr := incremented % geometry.addressRange;
      } else {
        memAddr := lastMemAddr;
      }
      if wasRestart || wasNext {
        data := memData;
      } else {
        data := lastData;
      }
      wasRestart, wasNext, lastMemAddr, lastData := restart, next, memAddr, data;
    }
  }

  // A write port's request in one cycle.
  datatype Write = NoWrite | Write(addr: nat, data: UInt32)

  function Word(contents: seq<UInt32>, addr: nat): UInt32 { if addr < |contents| then contents[addr] else 0 }

  function Stored(contents: seq<UInt32>, w: Write): seq<UInt32>
  {
    if w.Write? && w.addr < |contents| then contents[w.addr := w.data] else contents
  }

  class DualPortMemory {
    const contents: array<UInt32>
    var rData: UInt32

    constructor (depth: nat)
      ensures fresh(contents) && contents.Length == depth
      ensures rData == 0 && forall i | 0 <= i < depth :: contents[i] == 0
    {
      contents := new UInt32[depth](_ => 0);
      rData := 0;
    }

    // A read of the word being written sees the old value: the port is not transparent.
    method Cycle(write: Write, rAddr: nat)
      modifies this, contents
      ensures rData == Word(old(contents[..]), rAddr)
      ensures contents[..] == Stored(old(contents[..]), write)
    {
      rData := if rAddr < contents.Length then contents[rAddr] else 0;
      if write.Write? && write.addr < contents.Length {
        contents[write.addr] := write.data;
      }
    }
  }

  // ----- Reader and memory together -----

  datatype Inputs = Inputs(restart: bool, next: bool, write: Write)
  datatype System = System(reader: Reader, contents: seq<UInt32>, rData: UInt32)

  type Run = nat -> Inputs

  function SystemNext(g: Geometry, s: System, i: Inputs): System
    requires g.Valid()
  {
    System(ReaderNext(g, s.reader, i.restart, i.next, s.rData),
           Stored(s.contents, i.write),
           Word(s.contents, MemAddr(g, s.reader, i.restart)))
  }

  // Cycle t of a run that starts in any state whatever.
  function SystemAt(g: Geometry, start: System, run: Run, t: nat): System
    requires g.Valid()
  {
    if t == 0 then start else SystemNext(g, SystemAt(g, start, run, t - 1), run(t - 1))
  }

  function DataAt(g: Geometry, start: System, run: Run, t: nat): UInt32
    requires g.Valid()
  {
    var s := SystemAt(g, start, run, t);
    Data(s.reader, s.rData)
  }

  // The next pulses after the restart in cycle t0 and before cycle t.
  function Pulses(run: Run, t0: nat, t: nat): nat
  {
    if t <= t0 + 1 then 0 else Pulses(run, t0, t - 1) + if run(t - 1).next then 1 else 0
  }

  // The cycle of the last of those pulses, or of the restart when there is none.
  function LastPulse(run: Run, t0: nat, t: nat): nat
  {
    if t <= t0 + 1 then t0 else if run(t - 1).next then t - 1 else LastPulse(run, t0, t - 1)
  }

  lemma ModStep(k: nat, m: nat)
    requires m > 0
    ensures (k + 1) % m == if k % m == m - 1 then 0 else k % m + 1
  {
    DivideBack(k, m);
    if k % m == m - 1 {
      Distribute(m, k / m, 1);
      DivModUnique(k + 1, m, k / m + 1, 0);
    } else {
      DivModUnique(k + 1, m, k / m, k % m + 1);
    }
  }

  lemma AddressStep(g: Geometry, r: Reader, k: nat)
    requires g.Valid() && (r.wasNext || r.wasRestart) && r.lastMemAddr == k % g.limit
    ensures MemAddr(g, r, false) == (k + 1) % g.limit
  {
    ModStep(k, g.limit);
    var a := (k + 1) % g.limit;
    DivModUnique(a, g.addressRange, 0, a);
  }

  // The word shown now, with the address of the word after item k on its way to the memory.
  ghost predicate Shows(g: Geometry, s: System, k: nat, value: UInt32)
    requires g.Valid()
  {
    Data(s.reader, s.rData) == value && MemAddr(g, s.reader, false) == (k + 1) % g.limit
  }

  lemma RestartStep(g: Geometry, s: System, i: Inputs)
    requires g.Valid() && |s.contents| == g.maxDepth && i.restart
    ensures Shows(g, SystemNext(g, s, i), 0, s.contents[0])
  {
    DivModUnique(0, g.limit, 0, 0);
    AddressStep(g, SystemNext(g, s, i).reader, 0);
  }

  lemma ShowsStep(g: Geometry, s: System, i: Inputs, k: nat, value: UInt32)
    requires g.Valid() && |s.contents| == g.maxDepth && !i.restart && Shows(g, s, k, value)
    ensures if i.next then Shows(g, SystemNext(g, s, i), k + 1, s.contents[(k + 1) % g.limit])
            else Shows(g, SystemNext(g, s, i), k, value)
  {
    if i.next {
      AddressStep(g, SystemNext(g, s, i).reader, k + 1);
    }
  }

  // The same two steps in cycle t of a run.
  lemma StepAt(g: Geometry, start: System, run: Run, t: nat, k: nat, value: UInt32)
    requires g.Valid() && |SystemAt(g, start, run, t).contents| == g.maxDepth
    ensures run(t).restart ==> Shows(g, SystemAt(g, start, run, t + 1), 0, SystemAt(g, start, run, t).contents[0])
    ensures !run(t).restart && Shows(g, SystemAt(g, start, run, t), k, value) ==>
      if run(t).next then
        Shows(g, SystemAt(g, start, run, t + 1), k + 1, SystemAt(g, start, run, t).contents[(k + 1) % g.limit])
      else Shows(g, SystemAt(g, start, run, t + 1), k, value)
  {
    var s := SystemAt(g, start, run, t);
    assert SystemAt(g, start, run, t + 1) == SystemNext(g, s, run(t));
    if run(t).restart {
      RestartStep(g, s, run(t));
    } else if Shows(g, s, k, value) {
      ShowsStep(g, s, run(t), k, value);
    }
  }

  lemma {:induction false} LastPulseBefore(run: Run, t0: nat, t: nat)
    requires t0 < t
    ensures t0 <= LastPulse(run, t0, t) < t
  {
    if t > t0 + 1 {
      LastPulseBefore(run, t0, t - 1);
    }
  }

  // The memory in the cycle of the last pulse.
  function Asked(g: Geometry, start: System, run: Run, t0: nat, t: nat): seq<UInt32>
    requires g.Valid()
  {
    SystemAt(g, start, run, LastPulse(run, t0, t)).contents
  }

  // In cycle t the reader shows word k mod limit, where k counts the next pulses since the restart
  // in cycle t0, with the value the memory held in the cycle of the pulse that asked for it.
  ghost predicate ShowsCyclically(g: Geometry, start: System, run: Run, t0: nat, t: nat)
    requires g.Valid() && |start.contents| == g.maxDepth
  {
    ContentsLength(g, start, run, LastPulse(run, t0, t));
    var k := Pulses(run, t0, t);
    Shows(g, SystemAt(g, start, run, t), k, Asked(g, start, run, t0, t)[k % g.limit])
  }

  lemma CyclicStep(g: Geometry, start: System, run: Run, t0: nat, t: nat)
    requires g.Valid() && |start.contents| == g.maxDepth
    requires t0 < t && !run(t).restart && ShowsCyclically(g, start, run, t0, t)
    ensures ShowsCyclically(g, start, run, t0, t + 1)
  {
    ContentsLength(g, start, run, t);
    ContentsLength(g, start, run, LastPulse(run, t0, t));
    var k := Pulses(run, t0, t);
    StepAt(g, start, run, t, k, Asked(g, start, run, t0, t)[k % g.limit]);
  }

  // This holds in every cycle after a restart, until the next restart.
  lemma {:induction false} ReadsCyclically(g: Geometry, start: System, run: Run, t0: nat, t: nat)
    requires g.Valid() && |start.contents| == g.maxDepth
    requires t0 < t && run(t0).restart && forall i | t0 < i < t :: !run(i).restart
    ensures t0 <= LastPulse(run, t0, t) < t && ShowsCyclically(g, start, run, t0, t)
  {
    LastPulseBefore(run, t0, t);
    if t == t0 + 1 {
      ContentsLength(g, start, run, t0);
      DivModUnique(0, g.limit, 0, 0);
      StepAt(g, start, run, t0, 0, 0);
    } else {
      ReadsCyclically(g, start, run, t0, t - 1);
      CyclicStep(g, start, run, t0, t - 1);
    }
  }

  lemma {:induction false} ContentsLength(g: Geometry, start: System, run: Run, t: nat)
    requires g.Valid()
    ensures |SystemAt(g, start, run, t).contents| == |start.contents|
  {
    if t != 0 {
      ContentsLength(g, start, run, t - 1);
    }
  }

  lemma {:induction false} UnwrittenContents(g: Geometry, start: System, run: Run, t: nat)
    requires g.Valid() && forall i | 0 <= i < t :: run(i).write.NoWrite?
    ensures SystemAt(g, start, run, t).contents == start.contents
  {
    if t != 0 {
      UnwrittenContents(g, start, run, t - 1);
    }
  }

  // With a memory nobody writes, the reader is a cyclic list.
  lemma FixedMemoryReadsCyclically(g: Geometry, start: System, run: Run, t0: nat, t: nat)
    requires g.Valid() && |start.contents| == g.maxDepth
    requires t0 < t && run(t0).restart && forall i | t0 < i < t :: !run(i).restart
    requires forall i | 0 <= i < t :: run(i).write.NoWrite?
    ensures DataAt(g, start, run, t) == start.contents[Pulses(run, t0, t) % g.limit]
  {
    ReadsCyclically(g, start, run, t0, t);
    UnwrittenContents(g, start, run, LastPulse(run, t0, t));
  }
}
