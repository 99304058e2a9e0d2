// What a trap handler of temu/riscv_cpu.c finds: it starts at the vector last written for its
// mode, with cause, epc and tval in that mode's registers, and is not interrupted.

module TrapLaws {
  import opened Options
  import opened Arith
  import opened Bits
  import opened PhysMem
  import opened PageWalk
  import opened Cpu
  import opened Mmu
  import opened CsrLaws
  import opened Traps
  import opened TrapRuns
  import FetchLoop
  import FetchWalk
  import opened Guests
  import opened WalkInterp

  // ----- the context of the handler -----

  /** The trap registers of a mode. */
  datatype Handler = Handler(vector: int, epc: int, cause: int, tval: int)

  function HandlerOf(c: Core, p: Priv): Handler {
    if p == PRV_S then Handler(c.stvec, c.sepc, c.scause, c.stval) else Handler(c.mtvec, c.mepc, c.mcause, c.mtval)
  }

  function OtherMode(p: Priv): Priv { if p == PRV_S then PRV_M else PRV_S }

  /** A trap goes to the vector of its target mode, fills in that mode's registers and leaves
      those of the other. */
  lemma TrapContext(c: Core, cause: Cause, tval: int)
    requires ValidCause(cause)
    ensures var d, p := CoreTrap(c, cause, tval), TrapTarget(c, cause);
            && d.priv == p && d.pc == HandlerOf(c, p).vector
            && HandlerOf(d, p) == Handler(HandlerOf(c, p).vector, c.pc, CauseCode(c.curXlen, cause), tval)
            && HandlerOf(d, OtherMode(p)) == HandlerOf(c, OtherMode(p))
  {
  }

  function Number(cause: Cause): nat { match cause case Exception(n) => n case Interrupt(n) => n }

  lemma {:induction false} Pow2Grows(n: nat, m: nat)
    requires n <= m
    ensures Pow2(n) <= Pow2(m)
    decreases m
  {
    if n < m { Pow2Grows(n, m - 1); }
  }

  /** The handler can tell an interrupt from an exception by bit XLEN - 1 of the cause, and
      reads the number below it. */
  lemma CauseTells(xlen: nat, cause: Cause)
    requires xlen in {16, 32, 64, 128} && ValidCause(cause)
    ensures var code, flag := CauseCode(xlen, cause), Pow2(xlen - 1);
            && code / flag == (if cause.Interrupt? then 1 else 0)
            && code % flag == Number(cause)
  {
    Pow2Grows(5, xlen - 1);
    assert Pow2(5) == 32;
    match cause
    case Exception(n) => DivModUnique(n, Pow2(xlen - 1), 0, n);
    case Interrupt(n) => DivModUnique(n + Pow2(xlen - 1), Pow2(xlen - 1), 1, n);
  }

  /** No interrupt for the mode of the handler or a lower one is taken before the handler allows
      it. */
  lemma HandlerUninterrupted(c: Core, cause: Cause, tval: int)
    requires ValidCause(cause)
    ensures var d := CoreTrap(c, cause, tval);
            TakeInterrupt(d).1.Some? ==> Destination(d, TakeInterrupt(d).1.value) > d.priv
  {
    var d := CoreTrap(c, cause, tval);
    FirstSetIsLowest(PendingMask(d));
    HandlerMasks(c, cause, tval);
  }

  lemma HandlerMasks(c: Core, cause: Cause, tval: int)
    requires ValidCause(cause)
    ensures var d := CoreTrap(c, cause, tval);
            d.priv in {PRV_S, PRV_M} && (d.priv == PRV_M ==> !d.mstatus[MIE]) && (d.priv == PRV_S ==> !d.mstatus[SIE])
  {
  }

  // ----- vectors and delegation over runs -----

  /** stvec and mtvec */
  function VectorCsr(p: Priv): int { if p == PRV_S then 0x105 else 0x305 }

  /** medeleg and mideleg */
  function DelegationCsr(cause: Cause): int { if cause.Exception? then 0x302 else 0x303 }

  const SETUP: set<int> := {0x105, 0x305, 0x302, 0x303}

  /** The registers that decide where traps go, by number. */
  predicate SameAt(c: Core, d: Core, csr: int) {
    match csr
    case 0x105 => d.stvec == c.stvec
    case 0x305 => d.mtvec == c.mtvec
    case 0x302 => d.medeleg == c.medeleg
    case 0x303 => d.mideleg == c.mideleg
    case _ => true
  }

  predicate WritesCsr(op: ValidOp, csr: int) { op.OCsr? && op.csr == csr }

  lemma CsrKeepsSetup(c: Core, csr: int, val: Word, kept: int)
    requires csr in CSRS && kept != csr
    ensures SameAt(c, CoreWriteCsr(c, csr, val), kept)
  {
    WritesOwn(c, csr, val);
    RegisterKeepsSetup(c, csr, CoreWriteCsr(c, csr, val), kept);
  }

  lemma RegisterKeepsSetup(c: Core, csr: int, d: Core, kept: int)
    requires kept != csr
    ensures SameAt(c, WithRegister(c, csr, d), kept)
  {
  }

  lemma TrapKeepsSetup(c: Core, cause: Cause, tval: int, kept: int)
    requires ValidCause(cause)
    ensures SameAt(c, CoreTrap(c, cause, tval), kept) && SameAt(c, CoreMret(c), kept) && SameAt(c, CoreSret(c), kept)
  {
  }

  lemma StepKeepsSetup(c: Core, op: ValidOp, kept: int)
    requires !WritesCsr(op, kept)
    ensures SameAt(c, CoreStep(c, op).0, kept)
  {
    if Legal(c, op) {
      match op
      case OLoad(a, l) => LoadKeeps(c, a, l);
      case OStore(a, v, l) => StoreKeeps(c, a, v, l);
      case OFetch(a) => ResolveKeeps(c, a, Code);
      case OCsr(i, v) => CsrKeepsSetup(c, i, v, kept);
      case OTrap(cause, tval) => TrapKeepsSetup(c, cause, tval, kept);
      case OMret => TrapKeepsSetup(c, Exception(0), 0, kept);
      case OSret => TrapKeepsSetup(c, Exception(0), 0, kept);
      case _ =>
    }
  }

  lemma {:induction false} RunKeepsSetup(c: Core, ops: seq<ValidOp>, kept: int)
    requires forall op :: op in ops ==> !WritesCsr(op, kept)
    ensures SameAt(c, CoreRun(c, ops).0, kept)
    decreases |ops|
  {
    if ops != [] {
      StepKeepsSetup(c, ops[0], kept);
      RunKeepsSetup(CoreStep(c, ops[0]).0, ops[1..], kept);
    }
  }

  /** After a write of a mode's vector and any operations that do not write it again, a trap into
      that mode goes to the value written, rounded down to a multiple of four. */
  lemma TrapGoesToVector(c: Core, p: Priv, val: Word, ops: seq<ValidOp>, d: Core, cause: Cause, tval: int)
    requires p in {PRV_S, PRV_M} && (forall op :: op in ops ==> !WritesCsr(op, VectorCsr(p)))
    requires d == CoreRun(CoreWriteCsr(c, VectorCsr(p), val), ops).0
    requires ValidCause(cause) && TrapTarget(d, cause) == p
    ensures CoreTrap(d, cause, tval).pc == Num(val) / 4 * 4
  {
    NumberAfterWrite(c, VectorCsr(p), val);
    RunKeepsSetup(CoreWriteCsr(c, VectorCsr(p), val), ops, VectorCsr(p));
    TrapContext(d, cause, tval);
  }

  /** After a write of medeleg or mideleg and any operations that do not write it again, a trap
      goes to S exactly when it comes from U or S and its bit was written as one: exceptions up to
      15, and the three interrupts of S. */
  lemma DelegationFollows(c: Core, val: Word, ops: seq<ValidOp>, d: Core, cause: Cause, tval: int)
    requires ValidCause(cause) && (if cause.Exception? then cause.code < 16 else cause.irq in {1, 5, 9})
    requires (forall op :: op in ops ==> !WritesCsr(op, DelegationCsr(cause)))
    requires d == CoreRun(CoreWriteCsr(c, DelegationCsr(cause), val), ops).0
    ensures CoreTrap(d, cause, tval).priv == (if d.priv <= PRV_S && val[Number(cause)] then PRV_S else PRV_M)
  {
    ReadAfterWrite(c, DelegationCsr(cause), val, Number(cause));
    RunKeepsSetup(CoreWriteCsr(c, DelegationCsr(cause), val), ops, DelegationCsr(cause));
    TrapContext(d, cause, tval);
  }

  // ----- the width of the current mode -----

  /** The width field of a mode. */
  function WidthField(c: Core, p: Priv): Priv {
    if p == PRV_U then Field2(c.mstatus, UXL) else if p == PRV_S then Field2(c.mstatus, SXL) else c.mxl
  }

  /** The current XLEN is the one the field of the current mode names. */
  predicate WidthFollows(c: Core) { c.curXlen == XlenOf(WidthField(c, c.priv)) }

  lemma SetPrivWidth(c: Core, p: Priv)
    ensures p != c.priv ==> WidthFollows(CoreSetPriv(c, p))
    ensures p == c.priv ==> CoreSetPriv(c, p) == c
  {
  }

  /** A trap and a return leave the width fields and FS. */
  lemma StatusKeepsWidths(w: Word, priv: Priv, spp: Priv)
    requires spp <= PRV_S
    ensures forall k :: 32 <= k < 36 || FS <= k < FS + 2 ==>
              TrapStatusS(w, priv)[k] == w[k] && TrapStatusM(w, priv)[k] == w[k] && SretStatus(w, spp)[k] == w[k] && MretStatus(w)[k] == w[k]
  {
  }

  lemma TrapWidth(c: Core, cause: Cause, tval: int)
    requires WidthFollows(c) && ValidCause(cause)
    ensures WidthFollows(CoreTrap(c, cause, tval))
  {
    StatusKeepsWidths(c.mstatus, c.priv, PRV_U);
    SetPrivWidth(TrapEntry(c, cause, tval), TrapTarget(c, cause));
  }

  lemma ReturnWidth(c: Core)
    requires WidthFollows(c)
    ensures WidthFollows(CoreMret(c)) && WidthFollows(CoreSret(c))
  {
    var spp: Priv := if c.mstatus[SPP] then PRV_S else PRV_U;
    StatusKeepsWidths(c.mstatus, c.priv, spp);
    SetPrivWidth(c.(mstatus := MretStatus(c.mstatus)), Field2(c.mstatus, MPP));
    SetPrivWidth(c.(mstatus := SretStatus(c.mstatus, spp)), spp);
  }

  /** An mstatus write below M changes no width field in use. */
  lemma MstatusWidth(c: Core, val: Word)
    requires WidthFollows(c) && (c.priv == PRV_S ==> Field2(CoreSetMstatus(c, val).mstatus, SXL) == Field2(c.mstatus, SXL)) && c.priv != PRV_U
    ensures WidthFollows(CoreSetMstatus(c, val))
  {
  }

  lemma OtherRegister(c: Core, csr: int, d: Core)
    requires csr !in {0x100, 0x300, 0x301}
    ensures var e := WithRegister(c, csr, d); e.mstatus == c.mstatus && e.mxl == c.mxl && e.curXlen == c.curXlen && e.priv == c.priv
  {
  }

  lemma OtherWidth(c: Core, csr: int, val: Word)
    requires WidthFollows(c) && csr in CSRS && csr !in {0x100, 0x300, 0x301}
    ensures WidthFollows(CoreWriteCsr(c, csr, val))
  {
    WritesOwn(c, csr, val);
    OtherRegister(c, csr, CoreWriteCsr(c, csr, val));
    SameWidth(c, CoreWriteCsr(c, csr, val));
  }

  lemma SameWidth(c: Core, d: Core)
    requires WidthFollows(c) && d.mstatus == c.mstatus && d.mxl == c.mxl && d.curXlen == c.curXlen && d.priv == c.priv
    ensures WidthFollows(d)
  {
  }

  lemma MisaWidth(c: Core, val: Word)
    requires WidthFollows(c) && c.priv == PRV_M
    ensures WidthFollows(CoreWriteMisa(c, val))
  {
  }

  lemma SstatusWidth(c: Core, val: Word)
    requires WidthFollows(c) && c.priv != PRV_U
    ensures WidthFollows(CoreWriteCsr(c, 0x100, val))
  {
    SstatusKeepsSxl(c, val);
    MstatusWidth(c, SstatusValue(c, val));
  }

  lemma MachineWidth(c: Core, val: Word)
    requires WidthFollows(c) && c.priv == PRV_M
    ensures WidthFollows(CoreWriteCsr(c, 0x300, val)) && WidthFollows(CoreWriteCsr(c, 0x301, val))
  {
    MstatusWidth(c, val);
    MisaWidth(c, val);
  }

  lemma CsrWidth(c: Core, csr: int, val: Word)
    requires WidthFollows(c) && CsrAllowed(c, csr)
    ensures WidthFollows(CoreWriteCsr(c, csr, val))
  {
    if csr == 0x100 { SstatusWidth(c, val); } else if csr in {0x300, 0x301} { MachineWidth(c, val); } else { OtherWidth(c, csr, val); }
  }

  lemma StepWidth(c: Core, op: ValidOp)
    requires WidthFollows(c)
    ensures WidthFollows(CoreStep(c, op).0)
  {
    if Legal(c, op) {
      match op
      case OLoad(a, l) => LoadKeeps(c, a, l);
      case OStore(a, v, l) => StoreKeeps(c, a, v, l);
      case OFetch(a) => ResolveKeeps(c, a, Code);
      case OCsr(i, v) => CsrWidth(c, i, v);
      case OTrap(cause, tval) => TrapWidth(c, cause, tval);
      case OMret => ReturnWidth(c);
      case OSret => ReturnWidth(c);
      case _ =>
    }
  }

  /** Over every run the current XLEN is the one of the current mode's field: MXL in M, SXL in S
      and UXL in U, whatever traps, returns and writes to mstatus, sstatus and misa happen. */
  lemma {:induction false} RunWidth(c: Core, ops: seq<ValidOp>)
    requires WidthFollows(c)
    ensures WidthFollows(CoreRun(c, ops).0)
    decreases |ops|
  {
    if ops != [] {
      StepWidth(c, ops[0]);
      RunWidth(CoreStep(c, ops[0]).0, ops[1..]);
    }
  }

  /** FS never gets into the stored mstatus, so csr_read shows the field kept apart. */
  lemma StepKeepsFs(c: Core, op: ValidOp)
    requires FsApart(c)
    ensures FsApart(CoreStep(c, op).0)
  {
    if Legal(c, op) {
      match op
      case OLoad(a, l) => LoadKeeps(c, a, l);
      case OStore(a, v, l) => StoreKeeps(c, a, v, l);
      case OFetch(a) => ResolveKeeps(c, a, Code);
      case OCsr(i, v) => CsrKeepsFs(c, i, v);
      case OTrap(cause, tval) => TrapKeepsFs(c, cause, tval);
      case OMret => TrapKeepsFs(c, Exception(0), 0);
      case OSret => TrapKeepsFs(c, Exception(0), 0);
      case _ =>
    }
  }

  lemma TrapKeepsFs(c: Core, cause: Cause, tval: int)
    requires FsApart(c) && ValidCause(cause)
    ensures FsApart(CoreTrap(c, cause, tval)) && FsApart(CoreMret(c)) && FsApart(CoreSret(c))
  {
    StatusKeepsWidths(c.mstatus, c.priv, if c.mstatus[SPP] then PRV_S else PRV_U);
  }

  lemma CsrKeepsFs(c: Core, csr: int, val: Word)
    requires FsApart(c) && csr in CSRS
    ensures FsApart(CoreWriteCsr(c, csr, val))
  {
    if csr == 0x100 {
      MstatusKeepsFs(c, SstatusValue(c, val));
    } else if csr == 0x300 {
      MstatusKeepsFs(c, val);
    } else {
      WritesOwn(c, csr, val);
      RegisterKeepsStatus(c, csr, CoreWriteCsr(c, csr, val));
    }
  }

  lemma MstatusKeepsFs(c: Core, val: Word)
    requires FsApart(c)
    ensures FsApart(CoreSetMstatus(c, val))
  {
  }

  lemma RegisterKeepsStatus(c: Core, csr: int, d: Core)
    requires csr !in {0x100, 0x300}
    ensures WithRegister(c, csr, d).mstatus == c.mstatus
  {
  }

  lemma {:induction false} RunKeepsFs(c: Core, ops: seq<ValidOp>)
    requires FsApart(c)
    ensures FsApart(CoreRun(c, ops).0)
    decreases |ops|
  {
    if ops != [] {
      StepKeepsFs(c, ops[0]);
      RunKeepsFs(CoreStep(c, ops[0]).0, ops[1..]);
    }
  }

  // ----- faults reach the handler -----

  /** Fetch, load and store page faults are exceptions 12, 13 and 15. */
  function FaultCode(acc: Access): int { match acc case Code => 12 case Read => 13 case Write => 15 }

  lemma FaultPends(c: Core, addr: Addr, acc: Access)
    requires Resolve(c, addr, acc).1 == Fault
    ensures Resolve(c, addr, acc).0 == c.(pendingException := FaultCode(acc), pendingTval := addr)
  {
  }

  /** A page fault at pc reaches the handler with its cause, the address and the pc. */
  lemma FaultReachesHandler(c: Core, pc: int, addr: Addr, acc: Access)
    requires Resolve(c, addr, acc).1 == Fault
    ensures var d := Resolve(c, addr, acc).0.(pc := pc);
            var p := TrapTarget(d, Exception(FaultCode(acc)));
            var h := CoreTrapOf(d);
            && h.priv == p && h.pc == HandlerOf(c, p).vector
            && HandlerOf(h, p) == Handler(HandlerOf(c, p).vector, pc, FaultCode(acc), addr)
  {
    FaultPends(c, addr, acc);
    TrapContext(Resolve(c, addr, acc).0.(pc := pc), Exception(FaultCode(acc)), addr);
  }

  /** So does an illegal instruction, exception 2, with its own bits; nothing of it is done. */
  lemma IllegalReachesHandler(c: Core, x: FetchLoop.Regs, pc: int, cycles: int, insn: seq<bool>)
    ensures var p := TrapTarget(c, Exception(2));
            var next := WalkAbort(Illegal(c, insn), x, pc, cycles);
            && next.Stopped? && next.x == x && next.cycles == cycles - 1
            && next.c.priv == p && next.c.pc == HandlerOf(c, p).vector
            && HandlerOf(next.c, p) == Handler(HandlerOf(c, p).vector, pc, 2, Num(insn))
  {
    TrapContext(Illegal(c, insn).(pc := pc), Exception(2), Num(insn));
  }

  /** An interrupt is taken between two instructions: the handler finds the pc of the next one,
      the interrupt's number below the interrupt flag, and 0. */
  lemma InterruptReachesHandler(c: Core)
    requires TakeInterrupt(c).1.Some?
    ensures var (d, irq) := TakeInterrupt(c);
            var p := TrapTarget(c, Interrupt(irq.value));
            && d.priv == p && d.pc == HandlerOf(c, p).vector
            && HandlerOf(d, p) == Handler(HandlerOf(c, p).vector, c.pc, CauseCode(c.curXlen, Interrupt(irq.value)), 0)
  {
    TrapContext(c, Interrupt(TakeInterrupt(c).1.value), 0);
  }

  /** When a block is entered with cycles left, an interrupt that is due is taken before any
      instruction: the run stops in the handler, which returns to the pc of the block. */
  lemma TurnTakesInterrupt(body: Body, w: Walk, c: Core, irq: nat)
    requires w.entering && w.cycles > 0 && c == w.c.(pc := w.pc) && TakeInterrupt(c).1 == Some(irq)
    ensures var p := TrapTarget(c, Interrupt(irq));
            var next := WalkTurn(body, w);
            && next.Stopped? && next.x == w.x && next.cycles == w.cycles - 1 && next.c.priv == p
            && HandlerOf(next.c, p) == Handler(HandlerOf(c, p).vector, w.pc, CauseCode(c.curXlen, Interrupt(irq)), 0)
  {
    InterruptReachesHandler(c);
  }

  /** An instruction that cannot be fetched stops the run in the handler as well, with the fault
      of the fetch and the pc of the instruction. */
  lemma TurnFetchFault(body: Body, w: Walk, c: Core, d: Core)
    requires w.entering && w.cycles > 0 && c == w.c.(pc := w.pc) && TakeInterrupt(c).1.None?
    requires FetchWalk.WalkInsn(c, w.pc) == (d, None) && 0 <= d.pendingException < 32
    ensures var e := Exception(d.pendingException);
            var next := WalkTurn(body, w);
            && next.Stopped? && next.x == w.x && next.cycles == w.cycles - 1 && next.c.priv == TrapTarget(d, e)
            && HandlerOf(next.c, next.c.priv) == Handler(HandlerOf(d, next.c.priv).vector, w.pc, d.pendingException, d.pendingTval)
  {
    TrapContext(d.(pc := w.pc), Exception(d.pendingException), d.pendingTval);
  }

  /** A fetch from a page outside RAM is an access fault, exception 1. */
  lemma FetchOutsideRam(c: Core, addr: Addr)
    requires !Resolve(c, addr, Code).1.Host? && Resolve(c, addr, Code).1 != Fault
    ensures CoreFetch(c, addr).1 == Err && CoreFetch(c, addr).0.pendingException == 1 && CoreFetch(c, addr).0.pendingTval == addr
  {
  }

  lemma FirstPartFaults(c: Core, addr: Addr, log2: SizeLog2, a0: Addr, d: Core)
    requires log2 >= 2 && a0 == addr - addr % Bytes(log2) && Resolve(c, a0, Read) == (d, Fault)
    ensures CoreLoad(c, addr, log2) == (d, Err)
  {
    assert CoreLoad1(c, a0, Bytes(log2)) == (d, Err);
    if addr % Bytes(log2) != 0 { assert Parts(addr, log2).0 == a0; }
  }

  /** A load of 4 or 8 bytes that faults in its first part reports that part's address, which is
      the load's own exactly when it is aligned. */
  lemma LoadFaultAddress(c: Core, addr: Addr, log2: SizeLog2, a0: Addr)
    requires log2 >= 2 && a0 == addr - addr % Bytes(log2) && Resolve(c, a0, Read).1 == Fault
    ensures var (d, out) := CoreLoad(c, addr, log2); out == Err && d.pendingTval == a0 && (a0 == addr <==> addr % Bytes(log2) == 0)
  {
    FaultPends(c, a0, Read);
    FirstPartFaults(c, addr, log2, a0, Resolve(c, a0, Read).0);
  }
}
