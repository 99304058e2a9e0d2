// The reserved privilege and the interrupts over every run of the CPU.

module TrapRuns {
  import opened Bits
  import opened PhysMem
  import opened PageWalk
  import opened Cpu
  import opened Mmu
  import opened Traps

  /** Neither running in the reserved privilege nor about to return to it. */
  predicate Reachable(c: Core) { c.priv != PRV_H && Field2(c.mstatus, MPP) != PRV_H }

  predicate SameControl(c: Core, d: Core) { d.priv == c.priv && d.mstatus == c.mstatus }

  /** An access changes RAM and the pending exception only. */
  predicate SameRegisters(c: Core, d: Core) {
    d == c.(ram := d.ram, pendingException := d.pendingException, pendingTval := d.pendingTval)
  }

  /** mstatus is the only register that can name the reserved privilege. */
  predicate NamesReserved(op: ValidOp) { op.OCsr? && op.csr == 0x300 && Field2(op.val, MPP) == PRV_H }

  lemma ResolveKeeps(c: Core, addr: Addr, acc: Access)
    ensures SameRegisters(c, Resolve(c, addr, acc).0)
  {
  }

  lemma LoadKeeps(c: Core, addr: Addr, log2: SizeLog2)
    ensures SameRegisters(c, CoreLoad(c, addr, log2).0)
  {
    var n := Bytes(log2);
    if addr % n == 0 {
      ResolveKeeps(c, addr, Read);
    } else {
      var (a0, a1, l) := Parts(addr, log2);
      ResolveKeeps(c, a0, Read);
      ResolveKeeps(CoreLoad1(c, a0, Bytes(l)).0, a1, Read);
    }
  }

  lemma {:induction false} StoreBytesKeep(c: Core, addr: Addr, val: seq<bool>, n: nat)
    requires |val| >= 8 * n
    ensures SameRegisters(c, CoreStoreBytes(c, addr, val, n).0)
    decreases n
  {
    if n > 0 {
      ResolveKeeps(c, addr, Write);
      var (c1, r) := CoreStore1(c, addr, val, 1);
      if !r.Err? { StoreBytesKeep(c1, Next(addr, 1), val[8..], n - 1); }
    }
  }

  lemma StoreKeeps(c: Core, addr: Addr, val: Word, log2: SizeLog2)
    ensures SameRegisters(c, CoreStore(c, addr, val, log2).0)
  {
    if addr % Bytes(log2) == 0 { ResolveKeeps(c, addr, Write); } else { StoreBytesKeep(c, addr, val, Bytes(log2)); }
  }

  lemma MstatusMpp(c: Core, val: Word)
    ensures var d := CoreSetMstatus(c, val); d.priv == c.priv && Field2(d.mstatus, MPP) == Field2(val, MPP)
  {
  }

  lemma SstatusMpp(c: Core, val: Word)
    ensures Field2(SstatusValue(c, val), MPP) == Field2(c.mstatus, MPP)
  {
  }

  lemma OtherCsr(c: Core, csr: int, val: Word)
    requires csr !in {0x100, 0x300}
    ensures SameControl(c, CoreWriteCsr(c, csr, val))
  {
  }

  lemma CsrReserved(c: Core, csr: int, val: Word)
    requires Reachable(c)
    ensures Reachable(CoreWriteCsr(c, csr, val)) <==> !(csr == 0x300 && Field2(val, MPP) == PRV_H)
  {
    if csr == 0x300 {
      MstatusMpp(c, val);
    } else if csr == 0x100 {
      SstatusMpp(c, val);
      MstatusMpp(c, SstatusValue(c, val));
    } else {
      OtherCsr(c, csr, val);
    }
  }

  /** One operation reaches the reserved privilege exactly by writing it into mstatus. */
  lemma StepReserved(c: Core, op: ValidOp)
    requires Reachable(c)
    ensures Reachable(CoreStep(c, op).0) <==> !(Legal(c, op) && NamesReserved(op))
  {
    match op
    case OLoad(a, l) => LoadKeeps(c, a, l);
    case OStore(a, v, l) => StoreKeeps(c, a, v, l);
    case OFetch(a) => ResolveKeeps(c, a, Code);
    case OCsr(i, v) => CsrReserved(c, i, v);
    case _ =>
  }

  /** Over every run that does not, whatever interrupt is taken at any point is the one the
      rule names: none in M with MIE clear, no delegated one in M, none that lowers privilege. */
  lemma {:induction false} RunDisciplined(c: Core, ops: seq<ValidOp>)
    requires Reachable(c) && forall op :: op in ops ==> !NamesReserved(op)
    ensures Reachable(CoreRun(c, ops).0) && Disciplined(CoreRun(c, ops).0)
    decreases |ops|
  {
    if ops == [] {
      InterruptDiscipline(c);
    } else {
      StepReserved(c, ops[0]);
      RunDisciplined(CoreStep(c, ops[0]).0, ops[1..]);
    }
  }
}
