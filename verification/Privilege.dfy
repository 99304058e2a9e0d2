// What code of a mode of temu/riscv_cpu.c can change: user code changes memory only, and
// supervisor code never a register, or a bit of one, that belongs to machine mode.

module Privilege {
  import opened Bits
  import opened PhysMem
  import opened PageWalk
  import opened Cpu
  import opened Mmu
  import opened Traps
  import opened TrapRuns
  import opened CsrLaws

  // ----- user mode -----

  /** User code may not touch a CSR of S or M, nor return from a trap. */
  lemma UserIllegal(c: Core, op: ValidOp)
    requires c.priv == PRV_U && (op.OCsr? || op.OMret? || op.OSret?)
    ensures CoreStep(c, op) == (c, Err)
  {
    if op.OCsr? && op.csr in CSRS { assert op.csr / 256 % 4 >= 1; }
  }

  lemma UserStep(c: Core, op: ValidOp)
    requires c.priv == PRV_U && !op.OTrap?
    ensures SameRegisters(c, CoreStep(c, op).0)
  {
    if op.OCsr? || op.OMret? || op.OSret? {
      UserIllegal(c, op);
    } else {
      match op
      case OLoad(a, l) => LoadKeeps(c, a, l);
      case OStore(a, v, l) => StoreKeeps(c, a, v, l);
      case OFetch(a) => ResolveKeeps(c, a, Code);
      case _ =>
    }
  }

  /** Between two traps user code, whatever it tries, changes memory only. */
  lemma {:induction false} UserConfined(c: Core, ops: seq<ValidOp>)
    requires c.priv == PRV_U && forall op :: op in ops ==> !op.OTrap?
    ensures SameRegisters(c, CoreRun(c, ops).0)
    decreases |ops|
  {
    if ops != [] {
      UserStep(c, ops[0]);
      UserConfined(CoreStep(c, ops[0]).0, ops[1..]);
    }
  }

  // ----- supervisor mode -----

  /** The bits of mstatus that are not in sstatus: MIE, MPIE, MPP, MPRV and SXL. */
  const MACHINE_BITS: set<int> := {3, 7, 11, 12, 17, 34, 35}

  /** The state of machine mode, with the interrupts it has not delegated. */
  predicate MachineSame(c: Core, d: Core) {
    && d.mtvec == c.mtvec && d.mscratch == c.mscratch && d.mepc == c.mepc && d.mcause == c.mcause && d.mtval == c.mtval
    && d.medeleg == c.medeleg && d.mideleg == c.mideleg && d.mcounteren == c.mcounteren && d.mxl == c.mxl
    && (forall i :: i in MACHINE_BITS ==> d.mstatus[i] == c.mstatus[i])
    && (forall i :: 0 <= i < 32 && !c.mideleg[i] ==> d.mie[i] == c.mie[i] && d.mip[i] == c.mip[i])
  }

  lemma SameTrans(a: Core, b: Core, c: Core)
    requires MachineSame(a, b) && MachineSame(b, c)
    ensures MachineSame(a, c)
  {
  }

  lemma RegistersSame(c: Core, d: Core)
    requires SameRegisters(c, d)
    ensures MachineSame(c, d) && d.priv == c.priv
  {
  }

  lemma MergedBit(w: Word, val: Word, mask: set<int>, i: int)
    requires i in MACHINE_BITS
    ensures var v := Merge(w, val, SSTATUS_MASK); v[i] == w[i] && Merge(w, v, mask)[i] == w[i]
  {
  }

  lemma SstatusSame(c: Core, val: Word)
    ensures MachineSame(c, CoreSetMstatus(c, SstatusValue(c, val))) && CoreSetMstatus(c, SstatusValue(c, val)).priv == c.priv
  {
    var v := SstatusValue(c, val);
    var w := MstatusWritable(v);
    forall i | i in MACHINE_BITS ensures Merge(c.mstatus, v, w)[i] == c.mstatus[i] { MergedBit(c.mstatus, val, w, i); }
    StatusSame(c, v, Merge(c.mstatus, v, w));
  }

  lemma StatusSame(c: Core, val: Word, w: Word)
    requires w == CoreSetMstatus(c, val).mstatus && forall i :: i in MACHINE_BITS ==> w[i] == c.mstatus[i]
    ensures MachineSame(c, CoreSetMstatus(c, val)) && CoreSetMstatus(c, val).priv == c.priv
  {
  }

  lemma MaskedSame(c: Core, val: Word)
    ensures MachineSame(c, CoreWriteCsr(c, 0x104, val)) && CoreWriteCsr(c, 0x104, val).priv == c.priv
    ensures MachineSame(c, CoreWriteCsr(c, 0x144, val)) && CoreWriteCsr(c, 0x144, val).priv == c.priv
  {
  }

  lemma OtherSame(c: Core, csr: int, d: Core)
    requires csr < 0x200 && csr !in {0x100, 0x104, 0x144}
    ensures MachineSame(c, WithRegister(c, csr, d)) && WithRegister(c, csr, d).priv == c.priv
  {
  }

  lemma CsrSame(c: Core, csr: int, val: Word)
    requires c.priv <= PRV_S && CsrAllowed(c, csr)
    ensures MachineSame(c, CoreWriteCsr(c, csr, val)) && CoreWriteCsr(c, csr, val).priv == c.priv
  {
    if csr == 0x100 {
      SstatusSame(c, val);
    } else if csr in {0x104, 0x144} {
      MaskedSame(c, val);
    } else {
      WritesOwn(c, csr, val);
      OtherSame(c, csr, CoreWriteCsr(c, csr, val));
    }
  }

  lemma SretSame(c: Core)
    ensures MachineSame(c, CoreSret(c)) && CoreSret(c).priv <= PRV_S
  {
  }

  lemma TrapSame(c: Core, cause: Cause, tval: int)
    requires ValidCause(cause) && TrapTarget(c, cause) == PRV_S
    ensures MachineSame(c, CoreTrap(c, cause, tval)) && CoreTrap(c, cause, tval).priv == PRV_S
  {
  }

  lemma SupervisorStep(c: Core, op: ValidOp)
    requires c.priv <= PRV_S && (op.OTrap? ==> TrapTarget(c, op.cause) == PRV_S)
    ensures var d := CoreStep(c, op).0; MachineSame(c, d) && d.priv <= PRV_S
  {
    if Legal(c, op) {
      match op
      case OLoad(a, l) => LoadKeeps(c, a, l); RegistersSame(c, CoreLoad(c, a, l).0);
      case OStore(a, v, l) => StoreKeeps(c, a, v, l); RegistersSame(c, CoreStore(c, a, v, l).0);
      case OFetch(a) => ResolveKeeps(c, a, Code); RegistersSame(c, CoreFetch(c, a).0);
      case OCsr(i, v) => CsrSame(c, i, v);
      case OTrap(cause, tval) => TrapSame(c, cause, tval);
      case OSret => SretSame(c);
      case _ =>
    }
  }

  /** No trap of the run goes to machine mode. */
  ghost predicate StaysBelow(c: Core, ops: seq<ValidOp>)
    decreases |ops|
  {
    ops == [] || ((ops[0].OTrap? ==> TrapTarget(c, ops[0].cause) == PRV_S) && StaysBelow(CoreStep(c, ops[0]).0, ops[1..]))
  }

  /** User and supervisor code, with the traps and returns between them, leaves the state of
      machine mode alone until a trap is taken into it. */
  lemma {:induction false} SupervisorConfined(c: Core, ops: seq<ValidOp>)
    requires c.priv <= PRV_S && StaysBelow(c, ops)
    ensures var d := CoreRun(c, ops).0; MachineSame(c, d) && d.priv <= PRV_S
    decreases |ops|
  {
    if ops != [] {
      var c1 := CoreStep(c, ops[0]).0;
      SupervisorStep(c, ops[0]);
      SupervisorConfined(c1, ops[1..]);
      SameTrans(c, c1, CoreRun(c1, ops[1..]).0);
    }
  }
}
