/**
 The Wishbone RAM of soc/hps_lattice_nx.py, 32 bits wide: a row of LRAM banks, selected by the low
 address bits when the banks are dual ported (striped), and by the high ones otherwise (blocks).
 */
module Lram {
  import opened Words

  const ROWS := 0x4000

  datatype Word = Word(b0: UInt8, b1: UInt8, b2: UInt8, b3: UInt8)
  const ZERO := Word(0, 0, 0, 0)

  datatype Select = Select(s0: bool, s1: bool, s2: bool, s3: bool)

  // A word after a write of its selected bytes.
  function Merge(was: Word, data: Word, sel: Select): Word
  {
    Word(if sel.s0 then data.b0 else was.b0, if sel.s1 then data.b1 else was.b1,
         if sel.s2 then data.b2 else was.b2, if sel.s3 then data.b3 else was.b3)
  }

  function BitLength(n: nat): nat { if n == 0 then 0 else 1 + BitLength(n / 2) }

  datatype Geometry = Geometry(depth: nat, dualPort: bool)
  {
    // One more than the largest value of the bank select field.
    function Selects(): (s: nat)
      requires depth > 0
      ensures s >= depth
    {
      BitLengthBound(depth - 1);
      Pow2(BitLength(depth - 1))
    }

    ghost predicate Valid() { depth > 0 && (dualPort ==> Selects() == depth) }

    function Bank(adr: nat): nat
      requires depth > 0
    {
      if dualPort then adr % Selects() else adr / ROWS % Selects()
    }

    function Row(adr: nat): (r: nat)
      requires depth > 0
      ensures r < ROWS
    {
      if dualPort then adr / Selects() % ROWS else adr % ROWS
    }

    function Words(): nat { depth * ROWS }

    // Address bits above the decoded ones are not looked at.
    function FlatIndex(adr: nat): nat
      requires depth > 0
    {
      adr % (Selects() * ROWS)
    }
  }

  lemma {:induction false} BitLengthBound(n: nat)
    ensures n < Pow2(BitLength(n))
  {
    if n != 0 {
      BitLengthBound(n / 2);
    }
  }

  // What the bus master drives in one cycle; strobe stands for stb and cyc together.
  datatype Request = Request(strobe: bool, we: bool, adr: nat, sel: Select, data: Word)

  datatype Ram = Ram(banks: seq<seq<Word>>, dout: seq<Word>, ack: bool)

  ghost predicate Shaped(g: Geometry, r: Ram)
  {
    && g.Valid() && |r.banks| == |r.dout| == g.depth
    && forall d | 0 <= d < g.depth :: |r.banks[d]| == ROWS
  }

  // The read data lines: the output register of the bank addressed now.
  function DatR(g: Geometry, r: Ram, adr: nat): Word
    requires Shaped(g, r)
  {
    if g.Bank(adr) < g.depth then r.dout[g.Bank(adr)] else ZERO
  }

  function RamNext(g: Geometry, r: Ram, q: Request, clockEnable: bool): Ram
    requires Shaped(g, r)
  {
    var d, row := g.Bank(q.adr), g.Row(q.adr);
    var ack := q.strobe && !r.ack;
    if d >= g.depth || !clockEnable then r.(ack := ack)
    else if q.we && q.strobe then
      Ram(r.banks[d := r.banks[d][row := Merge(r.banks[d][row], q.data, q.sel)]], r.dout, ack)
    else Ram(r.banks, r.dout[d := r.banks[d][row]], ack)
  }

  class NxLram {
    const geometry: Geometry
    const banks: array2<Word>
    const dout: array<Word>
    var ack: bool

    ghost predicate Valid()
    {
      geometry.Valid() && banks.Length0 == dout.Length == geometry.depth && banks.Length1 == ROWS
    }

    ghost function Bank(d: nat): seq<Word>
      requires Valid() && d < geometry.depth
      reads banks
    {
      seq(ROWS, r requires Valid() && 0 <= r < ROWS reads banks => banks[d, r])
    }

    ghost function Current(): Ram
      requires Valid()
      reads this, banks, dout
    {
      Ram(seq(geometry.depth, d requires Valid() && 0 <= d < geometry.depth reads banks => Bank(d)), dout[..], ack)
    }

    constructor (g: Geometry)
      requires g.Valid()
      ensures geometry == g && Valid() && fresh(banks) && fresh(dout)
      ensures Shaped(g, Current()) && !Current().ack
    {
      geometry := g;
      banks := new Word[g.depth, ROWS]((_, _) => ZERO);
      dout := new Word[g.depth](_ => ZERO);
      ack := false;
    }

    // One cycle: the lines the master sees in it, and the clock edge at its end.
    method Cycle(q: Request, clockEnable: bool) returns (acked: bool, datR: Word)
      requires Valid() && Shaped(geometry, Current())
      modifies this, banks, dout
      ensures acked == old(Current()).ack && datR == DatR(geometry, old(Current()), q.adr)
      ensures Current() == RamNext(geometry, old(Current()), q, clockEnable)
    {
      acked, datR := ack, ZERO;
      ghost var before := Current();
      for d := 0 to geometry.depth
        invariant ack == acked == before.ack
        invariant datR == if geometry.Bank(q.adr) < d then before.dout[geometry.Bank(q.adr)] else ZERO
        invariant Current() == if geometry.Bank(q.adr) < d then RamNext(geometry, before, q, clockEnable).(ack := ack)
                               else before
      {
        if geometry.Bank(q.adr) == d {
          datR := dout[d];
          if clockEnable {
            ClockBank(d, q);
          }
        }
      }
      ack := q.strobe && !ack;
    }

    // The clock edge of the selected bank.
    method ClockBank(d: nat, q: Request)
      requires Valid() && Shaped(geometry, Current()) && d == geometry.Bank(q.adr) < geometry.depth
      modifies banks, dout
      ensures Current() == RamNext(geometry, old(Current()), q, true).(ack := ack)
    {
      ghost var before := Current();
      var row := geometry.Row(q.adr);
      assert before.banks[d][row] == banks[d, row];
      if q.we && q.strobe {
        banks[d, row] := Merge(banks[d, row], q.data, q.sel);
      } else {
        dout[d] := banks[d, row];
      }
      ghost var after := RamNext(geometry, before, q, true);
      forall e | 0 <= e < geometry.depth ensures Bank(e) == after.banks[e] {
        assert before.banks[e] == old(Bank(e));
      }
      assert Current().banks == after.banks;
      assert dout[..] == after.dout;
    }
  }

  // ----- The banks as one flat array -----

  lemma SplitLow(adr: nat, s: nat, n: nat)
    requires s > 0 && n > 0
    ensures var a := adr % (s * n);
            a < s * n && a % s == adr % s && a / s == adr / s % n && a == adr / s % n * s + adr % s
  {
    var q := adr / s;
    DivideBack(adr, s);
    DivideBack(q, n);
    var lo, hi := adr % s, q % n;
    assert adr == (s * n) * (q / n) + (s * hi + lo) by {
      Distribute(s, n * (q / n), hi);
      MulAssoc(s, n, q / n);
    }
    MulMonotone(s, hi + 1, n);
    Distribute(s, hi, 1);
    DivModUnique(adr, s * n, q / n, s * hi + lo);
    DivModUnique(s * hi + lo, s, hi, lo);
  }

  // How the address decoder and the flat index go together.
  lemma Decode(g: Geometry, adr: nat)
    requires g.Valid()
    ensures var a := g.FlatIndex(adr);
            && g.Bank(a) == g.Bank(adr) && g.Row(a) == g.Row(adr)
            && (g.Bank(adr) < g.depth <==> a < g.Words())
            && a == if g.dualPort then g.Row(adr) * g.depth + g.Bank(adr) else g.Bank(adr) * ROWS + g.Row(adr)
  {
    var s, a := g.Selects(), g.FlatIndex(adr);
    if g.dualPort {
      SplitLow(adr, s, ROWS);
      DivModUnique(a / s, ROWS, 0, a / s);
    } else {
      SplitLow(adr, ROWS, s);
      DivModUnique(a / ROWS, s, 0, a / ROWS);
    }
  }

  lemma FlatIndexIdentity(g: Geometry, a: nat)
    requires g.Valid() && a < g.Words()
    ensures g.FlatIndex(a) == a && g.Bank(a) < g.depth
  {
    MulMonotone(ROWS, g.depth, g.Selects());
    DivModUnique(a, g.Selects() * ROWS, 0, a);
    Decode(g, a);
  }

  ghost function Flat(g: Geometry, r: Ram): (flat: seq<Word>)
    requires Shaped(g, r)
    ensures |flat| == g.Words()
  {
    seq(g.Words(), a requires 0 <= a < g.Words() =>
      FlatIndexIdentity(g, a); r.banks[g.Bank(a)][g.Row(a)])
  }

  function FlatRead(flat: seq<Word>, a: nat): Word { if a < |flat| then flat[a] else ZERO }

  function FlatWrite(flat: seq<Word>, a: nat, data: Word, sel: Select): seq<Word>
  {
    if a < |flat| then flat[a := Merge(flat[a], data, sel)] else flat
  }

  lemma SameCell(g: Geometry, a: nat, b: nat)
    requires g.Valid() && a < g.Words() && b < g.Words() && g.Bank(a) == g.Bank(b) && g.Row(a) == g.Row(b)
    ensures a == b
  {
    FlatIndexIdentity(g, a);
    FlatIndexIdentity(g, b);
    Decode(g, a);
    Decode(g, b);
  }

  // One clock edge writes the flat array at the flat index, or leaves it alone.
  lemma CycleRefinesFlat(g: Geometry, r: Ram, q: Request, clockEnable: bool)
    requires Shaped(g, r)
    ensures Shaped(g, RamNext(g, r, q, clockEnable))
    ensures Flat(g, RamNext(g, r, q, clockEnable))
         == if clockEnable && q.we && q.strobe then FlatWrite(Flat(g, r), g.FlatIndex(q.adr), q.data, q.sel)
            else Flat(g, r)
  {
    var after, a := RamNext(g, r, q, clockEnable), g.FlatIndex(q.adr);
    Decode(g, q.adr);
    if clockEnable && q.we && q.strobe && a < g.Words() {
      forall b | 0 <= b < g.Words() ensures Flat(g, after)[b] == FlatWrite(Flat(g, r), a, q.data, q.sel)[b] {
        FlatIndexIdentity(g, b);
        if g.Bank(b) == g.Bank(a) && g.Row(b) == g.Row(a) {
          SameCell(g, a, b);
        }
      }
      assert Flat(g, after) == FlatWrite(Flat(g, r), a, q.data, q.sel);
    } else {
      assert after.banks == r.banks;
    }
  }

  // ----- Bus transactions under clock gating -----

  // The RAM after a request was held for some cycles with the given clock enables. Its acknowledge
  // register runs on in the cycles in which the banks do not.
  function Held(g: Geometry, r: Ram, q: Request, enables: seq<bool>): (after: Ram)
    requires Shaped(g, r)
    ensures Shaped(g, after)
    decreases |enables|
  {
    if enables == [] then r
    else
      var n := |enables| - 1;
      NextShaped(g, Held(g, r, q, enables[..n]), q, enables[n]);
      RamNext(g, Held(g, r, q, enables[..n]), q, enables[n])
  }

  lemma NextShaped(g: Geometry, r: Ram, q: Request, clockEnable: bool)
    requires Shaped(g, r)
    ensures Shaped(g, RamNext(g, r, q, clockEnable))
  {
  }

  lemma {:induction false} HeldAck(g: Geometry, r: Ram, q: Request, enables: seq<bool>)
    requires Shaped(g, r) && !r.ack && q.strobe
    ensures Held(g, r, q, enables).ack <==> |enables| % 2 == 1
    decreases |enables|
  {
    if enables != [] {
      HeldAck(g, r, q, enables[..|enables| - 1]);
    }
  }

  lemma MergeTwice(was: Word, data: Word, sel: Select)
    ensures Merge(Merge(was, data, sel), data, sel) == Merge(was, data, sel)
  {
  }

  lemma FlatWriteTwice(flat: seq<Word>, a: nat, data: Word, sel: Select)
    ensures FlatWrite(FlatWrite(flat, a, data, sel), a, data, sel) == FlatWrite(flat, a, data, sel)
  {
    if a < |flat| {
      MergeTwice(flat[a], data, sel);
    }
  }

  // However often the banks are clocked, a held write is one write, and it needs one clock edge.
  lemma {:induction false} HeldFlat(g: Geometry, r: Ram, q: Request, enables: seq<bool>)
    requires Shaped(g, r) && q.strobe
    ensures Flat(g, Held(g, r, q, enables))
         == if q.we && true in enables then FlatWrite(Flat(g, r), g.FlatIndex(q.adr), q.data, q.sel) else Flat(g, r)
    decreases |enables|
  {
    if enables != [] {
      var n := |enables| - 1;
      HeldFlat(g, r, q, enables[..n]);
      CycleRefinesFlat(g, Held(g, r, q, enables[..n]), q, enables[n]);
      LastEnable(enables);
      FlatWriteTwice(Flat(g, r), g.FlatIndex(q.adr), q.data, q.sel);
    }
  }

  lemma LastEnable(enables: seq<bool>)
    requires enables != []
    ensures true in enables <==> true in enables[..|enables| - 1] || enables[|enables| - 1]
  {
    assert enables == enables[..|enables| - 1] + [enables[|enables| - 1]];
  }

  // A held read fetches the flat word at the first clock edge and until then shows what the bank's
  // output register held before.
  lemma {:induction false} HeldRead(g: Geometry, r: Ram, q: Request, enables: seq<bool>)
    requires Shaped(g, r) && !q.we && g.Bank(q.adr) < g.depth
    ensures Held(g, r, q, enables).banks == r.banks
    ensures DatR(g, Held(g, r, q, enables), q.adr)
         == if true in enables then FlatRead(Flat(g, r), g.FlatIndex(q.adr)) else r.dout[g.Bank(q.adr)]
    decreases |enables|
  {
    if enables != [] {
      HeldRead(g, r, q, enables[..|enables| - 1]);
      LastEnable(enables);
      CellIsFlat(g, r, q.adr);
    }
  }

  lemma CellIsFlat(g: Geometry, r: Ram, adr: nat)
    requires Shaped(g, r) && g.Bank(adr) < g.depth
    ensures r.banks[g.Bank(adr)][g.Row(adr)] == FlatRead(Flat(g, r), g.FlatIndex(adr))
  {
    Decode(g, adr);
  }

  // The bus master is clocked in the cycles in which the banks are. It holds its request until it
  // sees the acknowledgement; between accesses the other bus lines may carry anything.
  datatype Op = Idle(lines: Request, enable: bool) | Access(request: Request, enables: seq<bool>)

  ghost predicate WellFormed(op: Op)
  {
    match op
    case Idle(q, _) => !q.strobe
    case Access(q, enables) => q.strobe && EndsAccess(enables)
  }

  // The acknowledgement is up in every other cycle; the last one is the first of these in which
  // the master is clocked.
  ghost predicate EndsAccess(enables: seq<bool>)
  {
    && |enables| % 2 == 0 && enables != [] && enables[|enables| - 1]
    && forall i | 0 <= i < |enables| - 1 && enables[i] :: i % 2 == 0
  }

  function Before(enables: seq<bool>): seq<bool> { if enables == [] then [] else enables[..|enables| - 1] }

  // The RAM after an operation, and the word and the acknowledgement on the lines in its last cycle.
  function Perform(g: Geometry, r: Ram, op: Op): (result: (Ram, bool, Word))
    requires Shaped(g, r)
    ensures Shaped(g, result.0)
  {
    match op
    case Idle(q, enable) => NextShaped(g, r, q, enable); (RamNext(g, r, q, enable), r.ack, ZERO)
    case Access(q, enables) =>
      var last := Held(g, r, q, Before(enables));
      (Held(g, r, q, enables), last.ack, DatR(g, last, q.adr))
  }

  function FlatPerform(g: Geometry, flat: seq<Word>, op: Op): seq<Word>
    requires g.depth > 0
  {
    if op.Access? && op.request.we then FlatWrite(flat, g.FlatIndex(op.request.adr), op.request.data, op.request.sel)
    else flat
  }

  // The master sees the acknowledgement of an access in its last cycle and in none before.
  lemma AcknowledgedOnce(g: Geometry, r: Ram, op: Op, i: nat)
    requires Shaped(g, r) && !r.ack && op.Access? && WellFormed(op) && i < |op.enables|
    ensures Held(g, r, op.request, op.enables[..i]).ack && op.enables[i] <==> i == |op.enables| - 1
  {
    HeldAck(g, r, op.request, op.enables[..i]);
  }

  // A read whose banks are clocked before the cycle in which it is acknowledged.
  predicate Fetches(op: Op) { op.Access? && !op.request.we ==> true in Before(op.enables) }

  // Every access changes the flat array as one byte-enabled write, or returns the flat word if it
  // fetches it.
  lemma OpRefinesFlat(g: Geometry, r: Ram, op: Op)
    requires Shaped(g, r) && !r.ack && WellFormed(op)
    ensures var (after, acked, word) := Perform(g, r, op);
            && !after.ack && acked == op.Access?
            && Flat(g, after) == FlatPerform(g, Flat(g, r), op)
            && (op.Access? && !op.request.we && Fetches(op)
                ==> word == FlatRead(Flat(g, r), g.FlatIndex(op.request.adr)))
  {
    match op
    case Idle(q, enable) =>
      CycleRefinesFlat(g, r, q, enable);
    case Access(q, enables) =>
      HeldAck(g, r, q, enables);
      HeldAck(g, r, q, Before(enables));
      HeldFlat(g, r, q, enables);
      if q.we {
      } else if g.Bank(q.adr) < g.depth {
        HeldRead(g, r, q, Before(enables));
      } else {
        Decode(g, q.adr);
      }
  }

  // The words read over a run of operations, banked and flat.
  function Reads(g: Geometry, r: Ram, ops: seq<Op>): seq<Word>
    requires Shaped(g, r)
    decreases |ops|
  {
    if ops == [] then []
    else
      var (after, _, word) := Perform(g, r, ops[0]);
      (if ops[0].Access? && !ops[0].request.we then [word] else []) + Reads(g, after, ops[1..])
  }

  function FlatReads(g: Geometry, flat: seq<Word>, ops: seq<Op>): seq<Word>
    requires g.depth > 0
    decreases |ops|
  {
    if ops == [] then []
    else
      (if ops[0].Access? && !ops[0].request.we then [FlatRead(flat, g.FlatIndex(ops[0].request.adr))] else [])
      + FlatReads(g, FlatPerform(g, flat, ops[0]), ops[1..])
  }

  function Performed(g: Geometry, r: Ram, ops: seq<Op>): (after: Ram)
    requires Shaped(g, r)
    ensures Shaped(g, after)
    decreases |ops|
  {
    if ops == [] then r else Performed(g, Perform(g, r, ops[0]).0, ops[1..])
  }

  function FlatPerformed(g: Geometry, flat: seq<Word>, ops: seq<Op>): seq<Word>
    requires g.depth > 0
    decreases |ops|
  {
    if ops == [] then flat else FlatPerformed(g, FlatPerform(g, flat, ops[0]), ops[1..])
  }

  // Over any run of accesses and idle cycles, whatever the clock enables, the banks hold what one
  // flat array would hold.
  lemma {:induction false} RunWritesFlat(g: Geometry, r: Ram, ops: seq<Op>)
    requires Shaped(g, r) && !r.ack && forall op | op in ops :: WellFormed(op)
    ensures Flat(g, Performed(g, r, ops)) == FlatPerformed(g, Flat(g, r), ops)
    decreases |ops|
  {
    if ops != [] {
      OpRefinesFlat(g, r, ops[0]);
      RunWritesFlat(g, Perform(g, r, ops[0]).0, ops[1..]);
    }
  }

  lemma {:induction false} PerformedAck(g: Geometry, r: Ram, ops: seq<Op>)
    requires Shaped(g, r) && !r.ack && forall op | op in ops :: WellFormed(op)
    ensures !Performed(g, r, ops).ack
    decreases |ops|
  {
    if ops != [] {
      OpRefinesFlat(g, r, ops[0]);
      PerformedAck(g, Perform(g, r, ops[0]).0, ops[1..]);
    }
  }

  // A read that fetches its word returns the flat array's, whatever came before it, reads that did
  // not fetch theirs among it.
  lemma ReadAfterRun(g: Geometry, r: Ram, ops: seq<Op>, read: Op)
    requires Shaped(g, r) && !r.ack && forall op | op in ops :: WellFormed(op)
    requires read.Access? && !read.request.we && WellFormed(read) && Fetches(read)
    ensures Perform(g, Performed(g, r, ops), read).2
         == FlatRead(FlatPerformed(g, Flat(g, r), ops), g.FlatIndex(read.request.adr))
  {
    RunWritesFlat(g, r, ops);
    PerformedAck(g, r, ops);
    OpRefinesFlat(g, Performed(g, r, ops), read);
  }

  // If every read fetches its word, the banked RAM reads throughout like one flat array.
  lemma {:induction false} RunRefinesFlat(g: Geometry, r: Ram, ops: seq<Op>)
    requires Shaped(g, r) && !r.ack && forall op | op in ops :: WellFormed(op) && Fetches(op)
    ensures Reads(g, r, ops) == FlatReads(g, Flat(g, r), ops)
    decreases |ops|
  {
    if ops != [] {
      OpRefinesFlat(g, r, ops[0]);
      RunRefinesFlat(g, Perform(g, r, ops[0]).0, ops[1..]);
    }
  }

  lemma SecondCycle(enables: seq<bool>)
    requires EndsAccess(enables)
    ensures enables[1] <==> |enables| == 2
  {
  }

  // That is always so while the clocks run: such an access takes two cycles.
  lemma UngatedFetches(op: Op)
    requires WellFormed(op) && (op.Access? ==> forall i | 0 <= i < |op.enables| :: op.enables[i])
    ensures Fetches(op) && (op.Access? ==> |op.enables| == 2)
  {
    if op.Access? {
      SecondCycle(op.enables);
      assert Before(op.enables)[0];
    }
  }

  // A read returns the flat word of every RAM exactly when it fetches it: if the clock is off
  // from the request until the acknowledgement is taken, the word may be an old one.
  lemma ReadNeedsClockIff(g: Geometry, op: Op)
    requires g.Valid() && op.Access? && WellFormed(op) && !op.request.we && g.Bank(op.request.adr) < g.depth
    ensures (forall r | Shaped(g, r) && !r.ack ::
              Perform(g, r, op).2 == FlatRead(Flat(g, r), g.FlatIndex(op.request.adr)))
            <==> Fetches(op)
  {
    if Fetches(op) {
      forall r | Shaped(g, r) && !r.ack
        ensures Perform(g, r, op).2 == FlatRead(Flat(g, r), g.FlatIndex(op.request.adr))
      {
        OpRefinesFlat(g, r, op);
      }
    } else {
      var r := Stale(g);
      HeldRead(g, r, op.request, Before(op.enables));
      CellIsFlat(g, r, op.request.adr);
      assert Perform(g, r, op).2 != FlatRead(Flat(g, r), g.FlatIndex(op.request.adr));
    }
  }

  // Empty banks whose output registers hold something else.
  function Stale(g: Geometry): (r: Ram)
    requires g.Valid()
    ensures Shaped(g, r)
  {
    Ram(seq(g.depth, _ => seq(ROWS, _ => ZERO)), seq(g.depth, _ => Word(1, 0, 0, 0)), false)
  }

  // ----- The second port -----

  // Row r of bank b is flat word depth * r + b: with four banks, the word whose address is r
  // followed by the two bits of b, which is what the simulator's read ports fetch.
  lemma SecondPort(g: Geometry, ram: Ram, b: nat, row: nat)
    requires Shaped(g, ram) && g.dualPort && b < g.depth && row < ROWS
    ensures g.depth * row + b < g.Words() && Flat(g, ram)[g.depth * row + b] == ram.banks[b][row]
  {
    var a := g.depth * row + b;
    MulMonotone(g.depth, row + 1, ROWS);
    Distribute(g.depth, row, 1);
    DivModUnique(a, g.depth, row, b);
    DivModUnique(row, ROWS, 0, row);
  }
}
