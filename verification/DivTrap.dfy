/**
 Division in software: the trap frame of common/src/crt0-vexriscv.S (CONFIG_CPU_DIV_UNIMPLEMENTED)
 and the handler of common/src/instruction_handler.cc, against the RISC-V Unprivileged ISA
 20191213, section 7.2.
 */
module DivTrap {
  import opened Words

  const ILLEGAL_INSTRUCTION := 2
  const OPCODE_M := 0x33

  // Fields of an R-type instruction.
  function Opcode(i: UInt32): nat { i % 0x80 }
  function Rd(i: UInt32): (r: nat) ensures r < 32 { i / 0x80 % 32 }
  function Funct3(i: UInt32): (f: nat) ensures f < 8 { i / 0x1000 % 8 }
  function Rs1(i: UInt32): (r: nat) ensures r < 32 { i / 0x8000 % 32 }
  function Rs2(i: UInt32): (r: nat) ensures r < 32 { i / 0x10_0000 % 32 }
  function Funct7(i: UInt32): (f: nat) ensures f < 0x80 { i / 0x200_0000 }

  // div, divu, rem and remu.
  predicate IsDivision(i: UInt32) { Opcode(i) == OPCODE_M && Funct3(i) >= 4 && Funct7(i) == 1 }

  // Memory is addressed by word; the stack pointer x2 holds a byte address.
  datatype Hart = Hart(regs: seq<UInt32>, mem: seq<UInt32>, mcause: nat, mtval: UInt32, mepc: UInt32)
  {
    predicate Ready()
    {
      && |regs| == 32 && regs[0] == 0
      && regs[2] % 4 == 0 && 31 <= regs[2] / 4 < |mem|
    }

    function Sp(): nat
      requires Ready()
    {
      regs[2] / 4
    }
  }

  // libgcc's 64-bit routines: they truncate, and what they return for a zero divisor is theirs.
  datatype Libgcc = Libgcc(modZero: int -> int, umodZero: int -> int)

  function TruncDiv(x: int, y: int): int
    requires y != 0
  {
    if x >= 0 then x / y else -((-x) / y)
  }

  function TruncMod(x: int, y: int): int
    requires y != 0
  {
    x - y * TruncDiv(x, y)
  }

  // The word div_instruction_handler computes for funct3 4 to 7.
  function Computed(lib: Libgcc, funct3: nat, src1: UInt32, src2: UInt32): UInt32
  {
    if funct3 == 4 then (if src2 != 0 then TruncDiv(Wrap32(src1), Wrap32(src2)) else -1) % TWO_32
    else if funct3 == 5 then (if src2 != 0 then TruncDiv(src1, src2) else -1) % TWO_32
    else if funct3 == 6 then
      (if src2 != 0 then TruncMod(Wrap32(src1), Wrap32(src2)) else lib.modZero(Wrap32(src1))) % TWO_32
    else (if src2 != 0 then TruncMod(src1, src2) else lib.umodZero(src1)) % TWO_32
  }

  // ----- The trap, as one function of the machine -----

  predicate InFrame(k: int) { 1 <= k <= 31 && k != 2 }

  // Memory once trap_entry has stored every register but x0 and x2, xk at k words below sp.
  function Framed(regs: seq<UInt32>, mem: seq<UInt32>, sp: nat): (m: seq<UInt32>)
    requires |regs| == 32 && 31 <= sp < |mem|
    ensures |m| == |mem|
  {
    seq(|mem|, i requires 0 <= i < |mem| => if InFrame(sp - i) then regs[sp - i] else mem[i])
  }

  // Memory once the handler has run. Register xk is word 31 - k of the frame, that is, word sp - k.
  function Handled(lib: Libgcc, mem: seq<UInt32>, sp: nat, i: UInt32): (m: seq<UInt32>)
    requires 31 <= sp < |mem|
    ensures |m| == |mem|
  {
    if Opcode(i) == OPCODE_M && Funct3(i) >= 4 then
      mem[sp - Rd(i) := Computed(lib, Funct3(i), mem[sp - Rs1(i)], mem[sp - Rs2(i)])]
    else mem
  }

  function Restored(regs: seq<UInt32>, mem: seq<UInt32>, sp: nat): (r: seq<UInt32>)
    requires |regs| == 32 && 31 <= sp < |mem|
    ensures |r| == 32
  {
    seq(32, k requires 0 <= k < 32 => if InFrame(k) then mem[sp - k] else regs[k])
  }

  function TrapNext(lib: Libgcc, h: Hart): Hart
    requires h.Ready() && h.mcause == ILLEGAL_INSTRUCTION
  {
    var mem := Handled(lib, Framed(h.regs, h.mem, h.Sp()), h.Sp(), h.mtval);
    Hart(Restored(h.regs, mem, h.Sp()), mem, h.mcause, h.mtval,
         if Opcode(h.mtval) == OPCODE_M then (h.mepc + 4) % TWO_32 else h.mepc)
  }

  // ----- The same, in place -----

  class Core {
    const regs: array<UInt32>
    const mem: array<UInt32>
    var mcause: nat
    var mtval: UInt32
    var mepc: UInt32

    ghost function Current(): Hart
      reads this, regs, mem
    {
      Hart(regs[..], mem[..], mcause, mtval, mepc)
    }

    constructor (regs: array<UInt32>, mem: array<UInt32>, mcause: nat, mtval: UInt32, mepc: UInt32)
      ensures this.regs == regs && this.mem == mem && this.mcause == mcause && this.mtval == mtval && this.mepc == mepc
    {
      this.regs, this.mem, this.mcause, this.mtval, this.mepc := regs, mem, mcause, mtval, mepc;
    }

    // trap_entry to mret. The C code in between may leave anything in the registers, other than sp.
    method Trap(lib: Libgcc, clobbered: seq<UInt32>)
      requires regs != mem && Current().Ready() && mcause == ILLEGAL_INSTRUCTION && |clobbered| == 32
      modifies this, regs, mem
      ensures Current() == TrapNext(lib, old(Current()))
    {
      ghost var sp := Current().Sp();
      SaveRegisters(regs[2] / 4);
      regs[2] := regs[2] - 31 * 4;
      var regBase := regs[2] / 4;
      InstructionHandler(lib, regBase);
      Clobber(clobbered);
      Return(sp, old(regs[..]));
    }

    // What a C call may do to the registers.
    method Clobber(values: seq<UInt32>)
      requires regs != mem && regs.Length == 32 && |values| == 32
      modifies regs
      ensures regs[0] == old(regs[0]) && regs[2] == old(regs[2])
      ensures forall k | InFrame(k) :: regs[k] == values[k]
    {
      forall k | 0 < k < 32 && k != 2 {
        regs[k] := values[k];
      }
    }

    // From the return of the handler to mret.
    method Return(ghost sp: nat, ghost before: seq<UInt32>)
      requires regs != mem && regs.Length == |before| == 32 && 31 <= sp < mem.Length
      requires regs[0] == before[0] && regs[2] == (before[2] as int) - 31 * 4 && before[2] % 4 == 0
          && before[2] / 4 == sp
      modifies regs
      ensures regs[..] == Restored(before, mem[..], sp)
    {
      LoadRegisters(regs[2] / 4);
      regs[2] := regs[2] + 31 * 4;
    }

    method SaveRegisters(sp: nat)
      requires regs != mem && regs.Length == 32 && 31 <= sp < mem.Length
      modifies mem
      ensures mem[..] == Framed(regs[..], old(mem[..]), sp)
    {
      for k := 1 to 32
        invariant forall i | 0 <= i < mem.Length ::
          mem[i] == if InFrame(sp - i) && sp - i < k then regs[sp - i] else old(mem[i])
      {
        if k != 2 {
          mem[sp - k] := regs[k];
        }
      }
    }

    method LoadRegisters(base: nat)
      requires regs != mem && regs.Length == 32 && base + 31 < mem.Length
      modifies regs
      ensures forall k | 0 <= k < 32 :: regs[k] == if InFrame(k) then mem[base + 31 - k] else old(regs[k])
    {
      for k := 1 to 32
        invariant forall j | 0 <= j < 32 :: regs[j] == if InFrame(j) && j < k then mem[base + 31 - j] else old(regs[j])
      {
        if k != 2 {
          regs[k] := mem[base + 31 - k];
        }
      }
    }

    method InstructionHandler(lib: Libgcc, regBase: nat)
      requires regs != mem && regBase + 31 < mem.Length
      modifies this, mem
      ensures mem[..] == Handled(lib, old(mem[..]), regBase + 31, mtval)
      ensures mepc == if Opcode(mtval) == OPCODE_M then (old(mepc) + 4) % TWO_32 else old(mepc)
      ensures mtval == old(mtval) && mcause == old(mcause)
    {
      if Opcode(mtval) == OPCODE_M {
        DivInstructionHandler(lib, regBase, mtval);
        mepc := (mepc + 4) % TWO_32;
      }
    }

    method DivInstructionHandler(lib: Libgcc, regBase: nat, instruction: UInt32)
      requires regBase + 31 < mem.Length && Opcode(instruction) == OPCODE_M
      modifies mem
      ensures mem[..] == Handled(lib, old(mem[..]), regBase + 31, instruction)
    {
      var funct3, rdOffset := Funct3(instruction), 31 - Rd(instruction);
      var src1, src2 := mem[regBase + (31 - Rs1(instruction))], mem[regBase + (31 - Rs2(instruction))];
      var result: int;
      if funct3 == 4 {
        result := if src2 != 0 then TruncDiv(Wrap32(src1), Wrap32(src2)) else -1;
      } else if funct3 == 5 {
        result := if src2 != 0 then TruncDiv(src1, src2) else -1;
      } else if funct3 == 6 {
        result := if src2 != 0 then TruncMod(Wrap32(src1), Wrap32(src2)) else lib.modZero(Wrap32(src1));
      } else if funct3 == 7 {
        result := if src2 != 0 then TruncMod(src1, src2) else lib.umodZero(src1);
      } else {
        return;
      }
      mem[regBase + rdOffset] := result % TWO_32;
    }
  }

  // ----- What the ISA asks for -----

  function Abs(x: int): nat { if x < 0 then -x else x }

  // Division with the quotient rounded towards zero: the remainder is smaller than the divisor
  // and has the sign of the dividend.
  predicate Divides(a: int, b: int, q: int, r: int)
  {
    a == b * q + r && Abs(r) < Abs(b) && (r == 0 || (r < 0 <==> a < 0))
  }

  ghost predicate IsQuotient(a: int, b: int, q: int) { exists r :: Divides(a, b, q, r) }
  ghost predicate IsRemainder(a: int, b: int, r: int) { exists q :: Divides(a, b, q, r) }

  // Section 7.2: the quotient or remainder, and the results for division by zero and overflow.
  ghost predicate IsaResult(funct3: nat, rs1: UInt32, rs2: UInt32, rd: UInt32)
  {
    var a, b := Wrap32(rs1), Wrap32(rs2);
    if funct3 == 4 then
      if b == 0 then rd == TWO_32 - 1
      else if a == -TWO_31 && b == -1 then rd == TWO_31
      else IsQuotient(a, b, Wrap32(rd))
    else if funct3 == 5 then
      if rs2 == 0 then rd == TWO_32 - 1 else IsQuotient(rs1, rs2, rd)
    else if funct3 == 6 then
      if b == 0 then rd == rs1
      else if a == -TWO_31 && b == -1 then rd == 0
      else IsRemainder(a, b, Wrap32(rd))
    else
      if rs2 == 0 then rd == rs1 else IsRemainder(rs1, rs2, rd)
  }

  lemma TruncDivides(x: int, y: int)
    requires y != 0
    ensures Divides(x, y, TruncDiv(x, y), TruncMod(x, y))
    ensures Abs(TruncDiv(x, y)) <= Abs(x)
  {
    var a := Abs(x);
    var q := a / y;
    assert a == y * q + a % y;
    if x < 0 {
      assert y * -q == -(y * q);
    }
    QuotientSmall(a, y);
  }

  lemma QuotientSmall(a: nat, y: int)
    requires y != 0
    ensures Abs(a / y) <= a
  {
    var q := a / y;
    assert a == y * q + a % y && 0 <= a % y;
    if Abs(q) > a {
      assert Abs(y * q) == Abs(y) * Abs(q);
      MulMonotone(Abs(q), 1, Abs(y));
    }
  }

  lemma DividesUnique(a: int, b: int, q: int, r: int, q': int, r': int)
    requires b != 0 && Divides(a, b, q, r) && Divides(a, b, q', r')
    ensures q == q' && r == r'
  {
    Distribute(b, q, q');
    if q > q' {
      MulMonotone(Abs(b), 1, q - q');
    } else if q < q' {
      MulMonotone(Abs(b), 1, q' - q);
    }
  }

  lemma QuotientUnique(a: int, b: int, q: int, q': int)
    requires b != 0 && IsQuotient(a, b, q) && IsQuotient(a, b, q')
    ensures q == q'
  {
    var r :| Divides(a, b, q, r);
    var r' :| Divides(a, b, q', r');
    DividesUnique(a, b, q, r, q', r');
  }

  lemma RemainderUnique(a: int, b: int, r: int, r': int)
    requires b != 0 && IsRemainder(a, b, r) && IsRemainder(a, b, r')
    ensures r == r'
  {
    var q :| Divides(a, b, q, r);
    var q' :| Divides(a, b, q', r');
    DividesUnique(a, b, q, r, q', r');
  }

  lemma TruncIs(x: int, y: int)
    requires y != 0
    ensures IsQuotient(x, y, TruncDiv(x, y)) && IsRemainder(x, y, TruncMod(x, y))
    ensures Abs(TruncDiv(x, y)) <= Abs(x) && Abs(TruncMod(x, y)) < Abs(y)
  {
    TruncDivides(x, y);
  }

  // The handler computes what the ISA asks for; for the remainders, when the divisor is not zero.
  lemma ComputedIsIsa(lib: Libgcc, funct3: nat, a: UInt32, b: UInt32)
    requires 4 <= funct3 < 8 && (funct3 >= 6 ==> b != 0)
    ensures IsaResult(funct3, a, b, Computed(lib, funct3, a, b))
  {
    if b != 0 {
      if funct3 % 2 == 0 {
        SignedIsIsa(lib, funct3, a, b);
      } else {
        UnsignedIsIsa(lib, funct3, a, b);
      }
    }
  }

  lemma UnsignedIsIsa(lib: Libgcc, funct3: nat, a: UInt32, b: UInt32)
    requires (funct3 == 5 || funct3 == 7) && b != 0
    ensures IsaResult(funct3, a, b, Computed(lib, funct3, a, b))
  {
    TruncIs(a, b);
    PositiveTrunc(a, b);
  }

  lemma PositiveTrunc(x: nat, y: nat)
    requires y != 0
    ensures 0 <= TruncDiv(x, y) && 0 <= TruncMod(x, y)
  {
  }

  lemma SignedIsIsa(lib: Libgcc, funct3: nat, a: UInt32, b: UInt32)
    requires (funct3 == 4 || funct3 == 6) && b != 0
    ensures IsaResult(funct3, a, b, Computed(lib, funct3, a, b))
  {
    var x: int, y: int := Wrap32(a), Wrap32(b);
    var q, r := TruncDiv(x, y), TruncMod(x, y);
    TruncIs(x, y);
    if x == -TWO_31 && y == -1 {
      assert q == TWO_31 && r == 0;
    } else {
      SmallQuotient(x, y);
      WrapModulo(q);
      WrapModulo(r);
    }
  }

  lemma SmallQuotient(x: Int32, y: Int32)
    requires y != 0 && (y != -1 || x != -TWO_31)
    ensures -TWO_31 <= TruncDiv(x, y) < TWO_31
  {
    TruncDivides(x, y);
  }

  lemma WrapModulo(x: int)
    ensures -TWO_31 <= x < TWO_31 ==> Wrap32(x % TWO_32) == x
  {
  }

  lemma SameSigned(u: UInt32, v: UInt32)
    ensures Wrap32(u) == Wrap32(v) <==> u == v
  {
  }

  // No other word would do.
  lemma IsaResultUnique(funct3: nat, a: UInt32, b: UInt32, u: UInt32, v: UInt32)
    requires 4 <= funct3 < 8 && IsaResult(funct3, a, b, u) && IsaResult(funct3, a, b, v)
    ensures u == v
  {
    if funct3 == 4 || funct3 == 6 {
      SignedUnique(funct3, a, b, u, v);
    } else {
      UnsignedUnique(funct3, a, b, u, v);
    }
  }

  lemma UnsignedUnique(funct3: nat, a: UInt32, b: UInt32, u: UInt32, v: UInt32)
    requires (funct3 == 5 || funct3 == 7) && IsaResult(funct3, a, b, u) && IsaResult(funct3, a, b, v)
    ensures u == v
  {
    if b != 0 {
      if funct3 == 5 {
        QuotientUnique(a, b, u, v);
      } else {
        RemainderUnique(a, b, u, v);
      }
    }
  }

  lemma SignedUnique(funct3: nat, a: UInt32, b: UInt32, u: UInt32, v: UInt32)
    requires (funct3 == 4 || funct3 == 6) && IsaResult(funct3, a, b, u) && IsaResult(funct3, a, b, v)
    ensures u == v
  {
    var x, y := Wrap32(a), Wrap32(b);
    SameSigned(u, v);
    if y != 0 && !(x == -TWO_31 && y == -1) {
      if funct3 == 4 {
        QuotientUnique(x, y, Wrap32(u), Wrap32(v));
      } else {
        RemainderUnique(x, y, Wrap32(u), Wrap32(v));
      }
    }
  }

  // An instruction has been executed as the ISA says: its destination holds the result unless it is
  // x0, every other register and the program's side of the stack are as before, and the program
  // counter is at the next instruction.
  ghost predicate Executed(h: Hart, after: Hart)
    requires h.Ready()
  {
    var i := h.mtval;
    && |after.regs| == 32 && |after.mem| == |h.mem|
    && (forall k | 0 <= k < 32 && k != Rd(i) :: after.regs[k] == h.regs[k])
    && (if Rd(i) == 0 then after.regs[0] == 0
        else IsaResult(Funct3(i), h.regs[Rs1(i)], h.regs[Rs2(i)], after.regs[Rd(i)]))
    && (forall a | h.Sp() <= a < |h.mem| :: after.mem[a] == h.mem[a])
    && after.mepc == (h.mepc + 4) % TWO_32
  }

  // A division that trapped; a remainder by zero is libgcc's business.
  predicate Trapped(h: Hart)
  {
    && h.Ready() && h.mcause == ILLEGAL_INSTRUCTION
    && IsDivision(h.mtval)
    && (Funct3(h.mtval) >= 6 ==> h.regs[Rs2(h.mtval)] != 0)
  }

  predicate FramedFields(i: UInt32) { InFrame(Rd(i)) && InFrame(Rs1(i)) && InFrame(Rs2(i)) }

  // Saving, handling and restoring, for every register: the destination takes the computed word.
  lemma TrapEffect(lib: Libgcc, h: Hart)
    requires h.Ready() && h.mcause == ILLEGAL_INSTRUCTION && IsDivision(h.mtval) && FramedFields(h.mtval)
    ensures var i, after := h.mtval, TrapNext(lib, h);
            var word := Computed(lib, Funct3(i), h.regs[Rs1(i)], h.regs[Rs2(i)]);
            && after.regs == h.regs[Rd(i) := word]
            && forall a | h.Sp() <= a < |h.mem| :: after.mem[a] == h.mem[a]
  {
    var i, sp := h.mtval, h.Sp();
    var framed := Framed(h.regs, h.mem, sp);
    assert framed[sp - Rs1(i)] == h.regs[Rs1(i)] && framed[sp - Rs2(i)] == h.regs[Rs2(i)];
    var handled := Handled(lib, framed, sp, i);
    forall k | InFrame(k) && k != Rd(i) ensures handled[sp - k] == h.regs[k] {
      assert framed[sp - k] == h.regs[k];
    }
  }

  lemma TrapExecutes(lib: Libgcc, h: Hart)
    requires Trapped(h) && FramedFields(h.mtval)
    ensures Executed(h, TrapNext(lib, h))
  {
    var i := h.mtval;
    TrapEffect(lib, h);
    ComputedIsIsa(lib, Funct3(i), h.regs[Rs1(i)], h.regs[Rs2(i)]);
  }

  // ----- Registers the frame does not hold -----

  // A machine with 7 in the registers, its stack pointer at 400, and three stack words of our choice.
  function Witness(i: UInt32, atSp: UInt32, belowSp: UInt32): Hart
  {
    Hart(seq(32, k => if k == 0 then 0 else if k == 2 then 400 else 7),
         seq(128, a => if a == 100 then atSp else if a == 98 then belowSp else 0),
         ILLEGAL_INSTRUCTION, i, 0)
  }

  // What the handler reads for a register of the witness, and what the register holds.
  function ReadOperand(k: nat, atSp: UInt32, belowSp: UInt32): UInt32
  {
    if k == 0 then atSp else if k == 2 then belowSp else 7
  }

  function TrueOperand(k: nat): UInt32 { if k == 0 then 0 else if k == 2 then 400 else 7 }

  // If the trap executed the instruction on the witness, the word computed from the operands the
  // handler reads would be both the ISA's result and what the destination ends up with.
  lemma WitnessExecuted(lib: Libgcc, i: UInt32, atSp: UInt32, belowSp: UInt32)
    requires Trapped(Witness(i, atSp, belowSp))
    requires Executed(Witness(i, atSp, belowSp), TrapNext(lib, Witness(i, atSp, belowSp)))
    ensures var a, b := ReadOperand(Rs1(i), atSp, belowSp), ReadOperand(Rs2(i), atSp, belowSp);
            var word := Computed(lib, Funct3(i), a, b);
            var right := Computed(lib, Funct3(i), TrueOperand(Rs1(i)), TrueOperand(Rs2(i)));
            if Rd(i) == 0 then word == atSp else if Rd(i) == 2 then right == 400 else word == right
  {
    var h, after := Witness(i, atSp, belowSp), TrapNext(lib, Witness(i, atSp, belowSp));
    var framed := Framed(h.regs, h.mem, 100);
    assert framed[100 - Rs1(i)] == ReadOperand(Rs1(i), atSp, belowSp);
    assert framed[100 - Rs2(i)] == ReadOperand(Rs2(i), atSp, belowSp);
    if Rd(i) == 0 {
      assert after.mem[100] == h.mem[100] == atSp;
    } else {
      var a, b := h.regs[Rs1(i)], h.regs[Rs2(i)];
      ComputedIsIsa(lib, Funct3(i), a, b);
      IsaResultUnique(Funct3(i), a, b, after.regs[Rd(i)], Computed(lib, Funct3(i), a, b));
    }
  }

  lemma SmallOperands(lib: Libgcc, funct3: nat, a: UInt32, b: UInt32)
    requires 4 <= funct3 < 8 && a < TWO_31 && b < TWO_31
    ensures b != 0 ==> Computed(lib, funct3, a, b) == if funct3 < 6 then a / b else a % b
    ensures b == 0 && funct3 < 6 ==> Computed(lib, funct3, a, b) == TWO_32 - 1
  {
    SmallSigned(a);
    SmallSigned(b);
    if b != 0 {
      SmallTrunc(a, b);
    }
  }

  lemma SmallSigned(x: UInt32)
    requires x < TWO_31
    ensures Wrap32(x) == x
  {
  }

  lemma SmallTrunc(a: UInt32, b: UInt32)
    requires b != 0
    ensures TruncDiv(a, b) == a / b && TruncMod(a, b) == a % b
    ensures 0 <= a / b < TWO_32 && 0 <= a % b < TWO_32
  {
    DivideBack(a, b);
    QuotientSmall(a, b);
  }

  // On the witness the word differs from what lies at the stack pointer, the result from the stack
  // pointer, and the two from each other if an operand is outside the frame and is not both.
  lemma WitnessWords(lib: Libgcc, funct3: nat, k: nat, l: nat)
    requires 4 <= funct3 < 8 && k < 32 && l < 32 && !(funct3 >= 6 && l == 0)
    ensures var word := Computed(lib, funct3, ReadOperand(k, 11, 3), ReadOperand(l, 11, 3));
            var right := Computed(lib, funct3, TrueOperand(k), TrueOperand(l));
            && word != 11 && right != 400
            && ((!InFrame(k) || !InFrame(l)) && !(k == l == 2) ==> word != right)
  {
    SmallOperands(lib, funct3, ReadOperand(k, 11, 3), ReadOperand(l, 11, 3));
    SmallOperands(lib, funct3, TrueOperand(k), TrueOperand(l));
  }

  // The word libgcc's remainder makes of a zero dividend and a zero divisor.
  function ZeroByZero(lib: Libgcc, funct3: nat): UInt32
  {
    (if funct3 == 6 then lib.modZero(0) else lib.umodZero(0)) % TWO_32
  }

  // The remainder of x2 by itself comes out right although x2 is outside the frame, if libgcc's
  // remainder of zero by zero is zero.
  predicate StackPointerCancels(lib: Libgcc, i: UInt32)
  {
    Funct3(i) >= 6 && Rs1(i) == Rs2(i) == 2 && InFrame(Rd(i)) && ZeroByZero(lib, Funct3(i)) == 0
  }

  lemma StackPointerWords(lib: Libgcc, funct3: nat)
    requires 4 <= funct3 < 8
    ensures Computed(lib, funct3, 0, 0) == Computed(lib, funct3, 400, 400)
        <==> funct3 >= 6 && ZeroByZero(lib, funct3) == 0
  {
    SmallOperands(lib, funct3, 0, 0);
    SmallOperands(lib, funct3, 400, 400);
  }

  lemma SelfRemainder(lib: Libgcc, funct3: nat, a: UInt32)
    requires (funct3 == 6 || funct3 == 7) && (a == 0 ==> ZeroByZero(lib, funct3) == 0)
    ensures Computed(lib, funct3, a, a) == 0
    ensures a != 0 ==> IsaResult(funct3, a, a, 0)
  {
    if a != 0 {
      ByItself(a);
      ByItself(Wrap32(a));
    }
  }

  lemma ByItself(x: int)
    requires x != 0
    ensures TruncMod(x, x) == 0 && IsRemainder(x, x, 0)
  {
    assert Divides(x, x, 1, 0);
  }

  lemma SelfRemainderExecutes(lib: Libgcc, h: Hart)
    requires Trapped(h) && StackPointerCancels(lib, h.mtval)
    ensures Executed(h, TrapNext(lib, h))
  {
    var sp, framed := h.Sp(), Framed(h.regs, h.mem, h.Sp());
    SelfRemainder(lib, Funct3(h.mtval), framed[sp - 2]);
    SelfRemainder(lib, Funct3(h.mtval), h.regs[2]);
    var handled := Handled(lib, framed, sp, h.mtval);
    forall k | InFrame(k) && k != Rd(h.mtval) ensures handled[sp - k] == h.regs[k] {
      assert framed[sp - k] == h.regs[k];
    }
  }

  lemma UnframedFails(lib: Libgcc, i: UInt32)
    requires IsDivision(i) && !StackPointerCancels(lib, i)
    requires !FramedFields(i) && !(Funct3(i) >= 6 && Rs2(i) == 0)
    ensures exists h :: Trapped(h) && h.mtval == i && !Executed(h, TrapNext(lib, h))
  {
    var belowSp := if Rs1(i) == 2 && Rs2(i) == 2 && InFrame(Rd(i)) then 0 else 3;
    var h := Witness(i, 11, belowSp);
    assert Trapped(h) && h.mtval == i;
    if Executed(h, TrapNext(lib, h)) {
      WitnessExecuted(lib, i, 11, belowSp);
      WitnessWords(lib, Funct3(i), Rs1(i), Rs2(i));
      StackPointerWords(lib, Funct3(i));
      assert false;
    }
  }

  // Whatever libgcc is linked, the trap executes an instruction in every machine state exactly when
  // its destination and both operands are registers the frame holds, that is, neither x0 nor x2,
  // but for the remainder of x2 by itself. A remainder by x0 never has a divisor.
  lemma TrapExecutesIff(lib: Libgcc, i: UInt32)
    requires IsDivision(i)
    ensures (forall h | Trapped(h) && h.mtval == i :: Executed(h, TrapNext(lib, h)))
            <==> FramedFields(i) || StackPointerCancels(lib, i) || (Funct3(i) >= 6 && Rs2(i) == 0)
  {
    if FramedFields(i) || StackPointerCancels(lib, i) || (Funct3(i) >= 6 && Rs2(i) == 0) {
      forall h | Trapped(h) && h.mtval == i ensures Executed(h, TrapNext(lib, h)) {
        if FramedFields(i) {
          TrapExecutes(lib, h);
        } else {
          SelfRemainderExecutes(lib, h);
        }
      }
    } else {
      UnframedFails(lib, i);
    }
  }

  // A remainder by a register that holds zero is executed exactly when libgcc gives the dividend.
  lemma RemainderByZeroIff(lib: Libgcc, h: Hart)
    requires h.Ready() && h.mcause == ILLEGAL_INSTRUCTION && IsDivision(h.mtval) && FramedFields(h.mtval)
    requires Funct3(h.mtval) >= 6 && h.regs[Rs2(h.mtval)] == 0
    ensures var a := h.regs[Rs1(h.mtval)];
            Executed(h, TrapNext(lib, h)) <==>
            (if Funct3(h.mtval) == 6 then lib.modZero(Wrap32(a)) else lib.umodZero(a)) % TWO_32 == a
  {
    TrapEffect(lib, h);
  }

  // The handler never looks at funct7: an instruction with the same low 25 bits does the same.
  lemma Funct7Ignored(lib: Libgcc, h: Hart, i: UInt32)
    requires h.Ready() && h.mcause == ILLEGAL_INSTRUCTION && i % 0x200_0000 == h.mtval % 0x200_0000
    ensures TrapNext(lib, h.(mtval := i)) == TrapNext(lib, h).(mtval := i)
  {
    LowFields(i);
    LowFields(h.mtval);
  }

  lemma LowFields(i: UInt32)
    ensures var low := i % 0x200_0000;
            && Opcode(low) == Opcode(i) && Rd(low) == Rd(i) && Funct3(low) == Funct3(i)
            && Rs1(low) == Rs1(i) && Rs2(low) == Rs2(i)
  {
    LowField(i, 1, 0x80, 0x4_0000);
    LowField(i, 0x80, 0x20, 0x2000);
    LowField(i, 0x1000, 8, 0x400);
    LowField(i, 0x8000, 0x20, 0x20);
    LowField(i, 0x10_0000, 0x20, 1);
  }

  // A field of width w at place p.
  lemma LowField(i: nat, p: nat, w: nat, k: nat)
    requires p > 0 && w > 0 && p * w * k == 0x200_0000
    ensures i % 0x200_0000 / p % w == i / p % w
  {
    var q, low := i / 0x200_0000, i % 0x200_0000;
    DivideBack(low, p);
    calc {
      i;
      p * w * k * q + low;
      { MulAssoc(p, w, k); MulAssoc(p, w * k, q); MulAssoc(w, k, q); }
      p * (w * (k * q)) + (p * (low / p) + low % p);
      { Distribute(p, w * (k * q), low / p); }
      p * (w * (k * q) + low / p) + low % p;
    }
    DivModUnique(i, p, w * (k * q) + low / p, low % p);
    MultipleMod(w, k * q);
    ModSumZero(w * (k * q), low / p, w);
  }

  // Every other instruction leaves the registers alone, and is skipped if its opcode is 0x33 and
  // left to trap again if it is not.
  lemma OthersIgnored(lib: Libgcc, h: Hart)
    requires h.Ready() && h.mcause == ILLEGAL_INSTRUCTION
    requires Opcode(h.mtval) != OPCODE_M || Funct3(h.mtval) < 4
    ensures TrapNext(lib, h).regs == h.regs
    ensures TrapNext(lib, h).mepc == h.mepc <==> Opcode(h.mtval) != OPCODE_M
  {
    var framed := Framed(h.regs, h.mem, h.Sp());
    forall k | InFrame(k) ensures framed[h.Sp() - k] == h.regs[k] { }
  }

  // ----- The trap on an encoded instruction -----

  // An R-type instruction with the M extension's funct7, from its fields.
  function Encoding(rd: nat, funct3: nat, rs1: nat, rs2: nat): nat
  {
    0x200_0000 + 0x10_0000 * rs2 + 0x8000 * rs1 + 0x1000 * funct3 + 0x80 * rd + 0x33
  }

  lemma Decoded(rd: nat, funct3: nat, rs1: nat, rs2: nat)
    requires rd < 32 && funct3 < 8 && rs1 < 32 && rs2 < 32
    ensures Encoding(rd, funct3, rs1, rs2) < TWO_32
    ensures var i := Encoding(rd, funct3, rs1, rs2);
            && Opcode(i) == 0x33 && Rd(i) == rd && Funct3(i) == funct3
            && Rs1(i) == rs1 && Rs2(i) == rs2 && Funct7(i) == 1
  {
    var i := Encoding(rd, funct3, rs1, rs2);
    var above3 := 0x20 * 0x20 + 0x20 * rs2 + rs1;
    DivModUnique(i, 0x80, 0x20 * (8 * above3 + funct3) + rd, 0x33);
    DivModUnique(0x20 * (8 * above3 + funct3) + rd, 0x20, 8 * above3 + funct3, rd);
    DivModUnique(i, 0x1000, 8 * above3 + funct3, 0x80 * rd + 0x33);
    DivModUnique(8 * above3 + funct3, 8, above3, funct3);
    DivModUnique(i, 0x8000, above3, 0x1000 * funct3 + 0x80 * rd + 0x33);
    DivModUnique(above3, 0x20, 0x20 + rs2, rs1);
    DivModUnique(i, 0x10_0000, 0x20 + rs2, 0x8000 * rs1 + 0x1000 * funct3 + 0x80 * rd + 0x33);
    DivModUnique(0x20 + rs2, 0x20, 1, rs2);
    DivModUnique(i, 0x200_0000, 1, i - 0x200_0000);
  }

  // div, divu, rem and remu (funct3 4 to 7) of two registers into a third, other than x0 and x2: the
  // third ends with the ISA's result, and all other registers, the memory outside the trap frame
  // and all but the return address, which moves on, are kept.
  lemma EncodedDivision(lib: Libgcc, h: Hart, rd: nat, funct3: nat, rs1: nat, rs2: nat)
    requires h.Ready() && h.mcause == 2 && h.mtval == Encoding(rd, funct3, rs1, rs2) && 4 <= funct3 < 8
    requires 1 <= rd < 32 && rd != 2 && 1 <= rs1 < 32 && rs1 != 2 && 1 <= rs2 < 32 && rs2 != 2
    requires funct3 >= 6 ==> h.regs[rs2] != 0
    ensures var after := TrapNext(lib, h);
            && |after.regs| == 32 && IsaResult(funct3, h.regs[rs1], h.regs[rs2], after.regs[rd])
            && (forall k | 0 <= k < 32 && k != rd :: after.regs[k] == h.regs[k])
            && after.mepc == (h.mepc + 4) % TWO_32 && after.mcause == h.mcause && after.mtval == h.mtval
            && |after.mem| == |h.mem|
            && forall a | 0 <= a < |h.mem| && !(1 <= h.regs[2] / 4 - a <= 31) :: after.mem[a] == h.mem[a]
  {
    Decoded(rd, funct3, rs1, rs2);
    TrapExecutes(lib, h);
    TrapEffect(lib, h);
    OutsideFrame(lib, h);
  }

  lemma OutsideFrame(lib: Libgcc, h: Hart)
    requires Trapped(h) && FramedFields(h.mtval)
    ensures forall a | 0 <= a < |h.mem| && !(1 <= h.Sp() - a <= 31) :: TrapNext(lib, h).mem[a] == h.mem[a]
  {
    var sp, framed := h.Sp(), Framed(h.regs, h.mem, h.Sp());
    var after := Handled(lib, framed, sp, h.mtval);
    forall a | 0 <= a < |h.mem| && !(1 <= sp - a <= 31) ensures after[a] == h.mem[a] {
      assert !InFrame(sp - a) && a != sp - Rd(h.mtval);
      NotFramed(h.regs, h.mem, sp, a);
    }
  }

  lemma NotFramed(regs: seq<UInt32>, mem: seq<UInt32>, sp: nat, a: nat)
    requires |regs| == 32 && 31 <= sp < |mem| && a < |mem| && !InFrame(sp - a)
    ensures Framed(regs, mem, sp)[a] == mem[a]
  {
  }

  // For one: 100 divided by 7 is 14, by div x5, x6, x7.
  lemma OneDivision(lib: Libgcc, h: Hart)
    requires h.Ready() && h.mcause == 2 && h.mtval == 0x0273_42b3 && h.regs[6] == 100 && h.regs[7] == 7
    ensures TrapNext(lib, h).regs[5] == 14
    ensures forall k | 0 <= k < 32 && k != 5 :: TrapNext(lib, h).regs[k] == h.regs[k]
  {
    EncodedDivision(lib, h, 5, 4, 6, 7);
    HundredBySeven();
    IsaResultUnique(4, 100, 7, TrapNext(lib, h).regs[5], 14);
  }

  lemma HundredBySeven()
    ensures IsaResult(4, 100, 7, 14)
  {
    assert Divides(100, 7, 14, 2);
    assert IsQuotient(100, 7, 14);
  }
}
