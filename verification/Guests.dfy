// Guests whose instruction bodies are operations of Mmu: any sequence of loads, stores,
// fetches, CSR writes and flushes, decided on the core, the registers, the pc and the
// instruction, and one of the ways an instruction of temu/riscv_cpu_template.h ends. The
// evenness the loop of FetchLoop relies on is proved of every one of them.

module Guests {
  import opened Options
  import opened Bits
  import opened PhysMem
  import opened PageWalk
  import opened Cpu
  import opened Mmu
  import opened Traps
  import opened FetchLoop

  const CAUSE_ILLEGAL_INSTRUCTION := 2

  /** What an instruction does before it ends; traps and returns end it. */
  type BodyOp = op: ValidOp | !op.OTrap? && !op.OMret? && !op.OSret? witness OSfence

  /** C_NEXT_INSN or NEXT_INSN, by the size of the instruction; the next pc stored, then
      done_interp or JUMP_INSN; a jump relative to the pc (immediates have bit 0 clear); a jump
      to a register; mret or sret; an exception. */
  datatype End =
    | Advance
    | Resume(leaves: bool)
    | Branch(half: int)
    | JumpTo(target: Word)
    | Return(machine: bool)
    | Raise(code: nat, tval: int)

  /** The operations, the registers if none of them faults, and the end. */
  type Body = (Core, Regs, int, seq<bool>) -> (seq<BodyOp>, Regs, End)

  /** `(intx_t)v` for the loop of a width, stored in the 64-bit pc */
  function IntX(xlen: int, v: int): int {
    if xlen == 32 then
      var low := v % 0x1_0000_0000;
      if low < 0x8000_0000 then low else low + (WORD_LIMIT - 0x1_0000_0000)
    else v % WORD_LIMIT
  }

  /** The two low bits of an instruction tell its size. */
  function InsnSize(insn: seq<bool>): (n: int)
    ensures n in {2, 4}
  {
    if |insn| >= 2 && insn[0] && insn[1] then 4 else 2
  }

  /** illegal_insn */
  function Illegal(c: Core, insn: seq<bool>): Core { Pend(c, CAUSE_ILLEGAL_INSTRUCTION, Num(insn)) }

  function IllegalAt(m: Machine, insn: seq<bool>): Machine { m.(core := Illegal(m.core, insn)) }

  /** The operations up to the first fault, and whether there was none. */
  function RunBody(m: Machine, insn: seq<bool>, ops: seq<BodyOp>): (Machine, bool)
    decreases |ops|
  {
    if ops == [] then (m, true)
    else if !Legal(m.core, ops[0]) then (IllegalAt(m, insn), false)
    else
      var (m1, r) := Step(m, ops[0]);
      if r.Err? then (m1, false) else RunBody(m1, insn, ops[1..])
  }

  predicate ReturnLegal(c: Core, machine: bool) { if machine then c.priv == PRV_M else c.priv >= PRV_S }

  /** The end of an instruction at pc whose operations went through. */
  function Finally(m: Machine, x: Regs, y: Regs, pc: int, insn: seq<bool>, end: End): (Machine, Regs, Flow) {
    match end
    case Advance => (m, y, Plain(InsnSize(insn)))
    case Resume(leaves) => (SetPc(m, (pc + 4) % WORD_LIMIT), y, if leaves then Leave else Jump)
    case Branch(half) => (SetPc(m, IntX(m.core.curXlen, pc + 2 * half)), y, Jump)
    case JumpTo(target) => (SetPc(m, AlignDown(target, 2)), y, Jump)
    case Return(machine) =>
      if !ReturnLegal(m.core, machine) then (IllegalAt(m, insn), x, Except)
      else (if machine then Mret(SetPc(m, pc)) else Sret(SetPc(m, pc)), y, Leave)
    case Raise(code, tval) => (m.(core := Pend(m.core, code, tval)), x, Except)
  }

  function Exec(body: Body, m: Machine, x: Regs, pc: int, insn: seq<bool>): (Machine, Regs, Flow) {
    var (ops, y, end) := body(m.core, x, pc, insn);
    var (m1, ok) := RunBody(m, insn, ops);
    if ok then Finally(m1, x, y, pc, insn, end) else (m1, x, Except)
  }

  /** raise_interrupt */
  function InterruptOf(m: Machine): Option<Machine> {
    match FirstSet(PendingMask(m.core))
    case None => None
    case Some(i) => Some(Trap(m, Interrupt(i), 0))
  }

  /** raise_exception2 with the pending exception, if one is pending */
  function TrapOf(m: Machine): Machine {
    if 0 <= m.core.pendingException < 32 then Trap(m, Exception(m.core.pendingException), m.core.pendingTval) else m
  }

  function OpsGuest(body: Body): Guest {
    Guest((m, x, pc, insn) => Exec(body, m, x, pc, insn), InterruptOf, TrapOf)
  }

  // ----- the pc and the vectors stay even -----

  lemma WordRange(w: Word)
    ensures 0 <= Num(w) < WORD_LIMIT
  {
    NumBound(w);
    Pow2Of64();
  }

  lemma {:induction false} Pow2Add(a: nat, b: nat)
    ensures Pow2(a + b) == Pow2(a) * Pow2(b)
  {
    if a > 0 { Pow2Add(a - 1, b); }
  }

  lemma Pow2Of64()
    ensures Pow2(64) == WORD_LIMIT
  {
    assert Pow2(4) == 16;
    Pow2Add(4, 4);
    Pow2Add(8, 8);
    Pow2Add(16, 16);
    Pow2Add(32, 32);
  }

  lemma EvenMod32(v: int)
    requires v % 2 == 0
    ensures v % 0x1_0000_0000 % 2 == 0
  {
  }

  lemma IntXEven(xlen: int, v: int)
    requires v % 2 == 0
    ensures Even(IntX(xlen, v))
  {
    EvenMod(v);
    EvenMod32(v);
  }

  lemma AlignedIsEven(w: Word, n: int)
    requires n in {2, 4}
    ensures Even(AlignDown(w, n))
  {
    WordRange(w);
  }

  lemma ResolveKeepsEven(m: Machine, addr: Addr, log2: SizeLog2, acc: Access)
    requires EvenVectors(m)
    ensures EvenVectors(Lookup(m, addr, log2, acc).0)
  {
  }

  lemma LoadKeepsEven(m: Machine, addr: Addr, log2: SizeLog2)
    requires EvenVectors(m)
    ensures EvenVectors(Load(m, addr, log2).0)
  {
    if addr % Bytes(log2) == 0 {
      ResolveKeepsEven(m, addr, log2, Read);
    } else {
      var (a0, a1, l) := Parts(addr, log2);
      ResolveKeepsEven(m, a0, l, Read);
      ResolveKeepsEven(Load1(m, a0, l).0, a1, l, Read);
    }
  }

  lemma Store1KeepsEven(m: Machine, addr: Addr, val: seq<bool>, log2: SizeLog2)
    requires EvenVectors(m) && |val| >= 8 * Bytes(log2)
    ensures EvenVectors(Store1(m, addr, val, log2).0)
  {
    ResolveKeepsEven(m, addr, log2, Write);
  }

  lemma {:induction false} StoreBytesKeepEven(m: Machine, addr: Addr, val: seq<bool>, n: nat)
    requires EvenVectors(m) && |val| >= 8 * n
    ensures EvenVectors(StoreBytes(m, addr, val, n).0)
    decreases n
  {
    if n > 0 {
      Store1KeepsEven(m, addr, val, 0);
      var (m1, r) := Store1(m, addr, val, 0);
      if !r.Err? { StoreBytesKeepEven(m1, Mmu.Next(addr, 1), val[8..], n - 1); }
    }
  }

  lemma CsrKeepsEven(m: Machine, csr: int, val: Word)
    requires EvenVectors(m)
    ensures EvenVectors(WriteCsr(m, csr, val))
  {
    AlignedIsEven(val, 2);
    AlignedIsEven(val, 4);
  }

  /** Every operation of the CPU keeps the vectors even. A trap saves the pc, so it needs an
      even one; traps and returns set an even pc. */
  lemma StepKeepsEven(m: Machine, op: ValidOp)
    requires EvenVectors(m) && (op.OTrap? ==> EvenPc(m))
    ensures var m1 := Step(m, op).0;
            EvenVectors(m1) && (Legal(m.core, op) && (op.OTrap? || op.OMret? || op.OSret?) ==> EvenPc(m1))
  {
    if Legal(m.core, op) {
      match op
      case OLoad(a, l) => LoadKeepsEven(m, a, l);
      case OStore(a, v, l) =>
        if a % Bytes(l) == 0 { Store1KeepsEven(m, a, v, l); } else { StoreBytesKeepEven(m, a, v, Bytes(l)); }
      case OFetch(a) => FetchKeepsEven(m, a);
      case OCsr(csr, v) => CsrKeepsEven(m, csr, v);
      case OTrap(cause, tval) => TrapKeepsEven(m, cause, tval);
      case _ =>
    }
  }

  lemma TrapKeepsEven(m: Machine, cause: Cause, tval: int)
    requires EvenVectors(m) && EvenPc(m) && ValidCause(cause)
    ensures EvenVectors(Trap(m, cause, tval)) && EvenPc(Trap(m, cause, tval))
  {
  }

  lemma {:induction false} BodyKeepsEven(m: Machine, insn: seq<bool>, ops: seq<BodyOp>)
    requires EvenVectors(m)
    ensures EvenVectors(RunBody(m, insn, ops).0)
    decreases |ops|
  {
    if ops != [] && Legal(m.core, ops[0]) {
      StepKeepsEven(m, ops[0]);
      var (m1, r) := Step(m, ops[0]);
      if !r.Err? { BodyKeepsEven(m1, insn, ops[1..]); }
    }
  }

  lemma FinallyKeepsEven(m: Machine, x: Regs, y: Regs, pc: int, insn: seq<bool>, end: End)
    requires EvenVectors(m) && Even(pc)
    ensures var (m1, z, flow) := Finally(m, x, y, pc, insn, end); FlowOk(m1, flow)
  {
    match end
    case JumpTo(target) => AlignedIsEven(target, 2);
    case Resume(_) => EvenMod(pc + 4);
    case Branch(half) => IntXEven(m.core.curXlen, pc + 2 * half);
    case _ =>
  }

  lemma ExecKeepsEven(body: Body, m: Machine, x: Regs, pc: int, insn: seq<bool>)
    requires EvenVectors(m) && Even(pc)
    ensures var (m1, y, flow) := Exec(body, m, x, pc, insn); FlowOk(m1, flow)
  {
    var (ops, y, end) := body(m.core, x, pc, insn);
    BodyKeepsEven(m, insn, ops);
    var (m1, ok) := RunBody(m, insn, ops);
    if ok { FinallyKeepsEven(m1, x, y, pc, insn, end); }
  }

  /** Whatever its instructions do, a guest made of these operations keeps pc and vectors
      even. */
  lemma OpsKeepEven(body: Body)
    ensures KeepsEven(OpsGuest(body))
  {
    var g := OpsGuest(body);
    forall m, x, pc, insn {:trigger g.exec(m, x, pc, insn)} | EvenVectors(m) && Even(pc)
      ensures FlowOk(g.exec(m, x, pc, insn).0, g.exec(m, x, pc, insn).2)
    {
      ExecKeepsEven(body, m, x, pc, insn);
    }
    forall m | EvenVectors(m) && EvenPc(m) && g.interrupt(m).Some?
      ensures EvenVectors(g.interrupt(m).value) && EvenPc(g.interrupt(m).value)
    {
      TrapKeepsEven(m, Interrupt(FirstSet(PendingMask(m.core)).value), 0);
    }
    forall m | EvenVectors(m) && EvenPc(m) ensures EvenVectors(g.trap(m)) && EvenPc(g.trap(m)) {
      if 0 <= m.core.pendingException < 32 {
        TrapKeepsEven(m, Exception(m.core.pendingException), m.core.pendingTval);
      }
    }
  }
}
