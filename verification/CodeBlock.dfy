// An instruction that does not leave the block being executed must not change where the
// block's page translates to: the loop of temu/riscv_cpu_template.h goes on reading through
// the pointer the code TLB had when the block was entered.

module CodeBlock {
  import opened Bits
  import opened PhysMem
  import opened PageWalk
  import opened Cpu
  import opened Mmu
  import opened MmuProofs
  import opened MmuHazards
  import opened Guests

  /** The machine with the code TLB the block was entered with. */
  function AtEntry(m: Machine, block: Tlb): Machine { Machine(m.core, SetTlb(m.tlb, Code, block)) }

  /** Neither satp, nor SUM taken away from S, nor a store into a page-table entry of a page
      the block's code TLB has. */
  ghost predicate BlockSafe(m: Machine, block: Tlb, op: BodyOp) {
    match op
    case OStore(a, v, l) => !StoreHazard(AtEntry(m, block), a, v, l)
    case OCsr(csr, v) => csr != 0x180 && (csr in {0x100, 0x300} && m.core.priv == PRV_S && m.core.mstatus[SUM] ==> v[SUM])
    case _ => true
  }

  lemma AtEntryKeepsInv(m: Machine, block: Tlb)
    requires Inv(m) && GoodTlb(m.core, block, Code)
    ensures Inv(AtEntry(m, block))
  {
    forall acc ensures GoodTlb(m.core, TlbOf(AtEntry(m, block).tlb, acc), acc) {
      assert GoodTlb(m.core, TlbOf(m.tlb, acc), acc);
    }
  }

  lemma InvMeansGoodCode(m: Machine)
    requires Inv(m)
    ensures GoodTlb(m.core, m.tlb.code, Code)
  {
    assert GoodTlb(m.core, TlbOf(m.tlb, Code), Code);
  }

  // ----- loads and fetches only set accessed and dirty bits -----

  /** d differs from c in accessed and dirty bits and the pending exception. */
  ghost predicate Touched(c: Core, d: Core) {
    d == c.(ram := d.ram, pendingException := d.pendingException, pendingTval := d.pendingTval) && OnlySetsAD(c.ram, d.ram)
  }

  lemma ResolveTouches(c: Core, addr: Addr, acc: Access)
    ensures Touched(c, Resolve(c, addr, acc).0)
  {
    CommitOnlySetsAD(c, addr / PAGE, acc);
  }

  lemma TouchedTwice(c: Core, d: Core, e: Core)
    requires Touched(c, d) && Touched(d, e)
    ensures Touched(c, e)
  {
    OnlySetsADTrans(c.ram, d.ram, e.ram);
  }

  lemma LoadTouches(c: Core, addr: Addr, log2: SizeLog2)
    ensures Touched(c, CoreLoad(c, addr, log2).0)
  {
    if addr % Bytes(log2) == 0 {
      ResolveTouches(c, addr, Read);
    } else {
      var (a0, a1, l) := Parts(addr, log2);
      ResolveTouches(c, a0, Read);
      var c1 := CoreLoad1(c, a0, Bytes(l)).0;
      ResolveTouches(c1, a1, Read);
      TouchedTwice(c, c1, CoreLoad1(c1, a1, Bytes(l)).0);
    }
  }

  lemma FetchTouches(c: Core, addr: Addr)
    ensures Touched(c, CoreFetch(c, addr).0)
  {
    ResolveTouches(c, addr, Code);
  }

  lemma TouchedEntry(c: Core, d: Core, e: TlbEntry)
    requires Touched(c, d) && GoodEntry(c, e, Code)
    ensures GoodEntry(d, e, Code)
  {
    GoodEntryIgnoresAD(c, d.ram, e, Code);
    GoodEntrySame(c.(ram := d.ram), d, e, Code);
  }

  lemma TouchedKeepsBlock(c: Core, d: Core, block: Tlb)
    requires Touched(c, d) && GoodTlb(c, block, Code)
    ensures GoodTlb(d, block, Code)
  {
    forall i | 0 <= i < 256 && block[i].vaddr != INVALID ensures GoodEntry(d, block[i], Code) {
      TouchedEntry(c, d, block[i]);
    }
  }

  // ----- stores -----

  lemma Store1KeepsCode(m: Machine, addr: Addr, val: seq<bool>, log2: SizeLog2)
    requires |val| >= 8 * Bytes(log2)
    ensures Store1(m, addr, val, log2).0.tlb.code == m.tlb.code
  {
  }

  lemma Store1KeepsBlock(s: Machine, block: Tlb, addr: Addr, val: seq<bool>, log2: SizeLog2)
    requires Inv(s) && s.tlb.code == block && |val| >= 8 * Bytes(log2) && SafeStore1(s, addr, log2)
    ensures var (s1, r) := Store1(s, addr, val, log2);
            && Inv(s1) && (s1.core, r) == CoreStore1(s.core, addr, val, Bytes(log2))
            && s1.tlb.code == block && GoodTlb(s1.core, block, Code)
  {
    Store1Refines(s, addr, val, log2);
    Store1KeepsCode(s, addr, val, log2);
    InvMeansGoodCode(Store1(s, addr, val, log2).0);
  }

  lemma {:induction false} StoreBytesKeepBlock(s: Machine, block: Tlb, addr: Addr, val: seq<bool>, n: nat)
    requires Inv(s) && s.tlb.code == block && |val| >= 8 * n && SafeStoreBytes(s, addr, val, n)
    ensures GoodTlb(CoreStoreBytes(s.core, addr, val, n).0, block, Code)
    decreases n
  {
    if n > 0 {
      Store1KeepsBlock(s, block, addr, val, 0);
      var (s1, r) := Store1(s, addr, val, 0);
      if !r.Err? { StoreBytesKeepBlock(s1, block, Mmu.Next(addr, 1), val[8..], n - 1); }
    } else {
      InvMeansGoodCode(s);
    }
  }

  /** The store run with the block's code TLB in place ends in the same core. */
  lemma StoreKeepsBlock(m: Machine, block: Tlb, addr: Addr, val: Word, log2: SizeLog2)
    requires Inv(m) && GoodTlb(m.core, block, Code) && !StoreHazard(AtEntry(m, block), addr, val, log2)
    ensures GoodTlb(CoreStore(m.core, addr, val, log2).0, block, Code)
  {
    var s := AtEntry(m, block);
    AtEntryKeepsInv(m, block);
    if addr % Bytes(log2) == 0 { Store1KeepsBlock(s, block, addr, val, log2); }
    else { StoreBytesKeepBlock(s, block, addr, val, Bytes(log2)); }
  }

  // ----- control registers -----

  lemma MstatusKeepsBlock(c: Core, block: Tlb, val: Word)
    requires GoodTlb(c, block, Code) && (c.priv == PRV_S && c.mstatus[SUM] ==> val[SUM])
    ensures GoodTlb(CoreSetMstatus(c, val), block, Code)
  {
    forall i | 0 <= i < 256 && block[i].vaddr != INVALID ensures GoodEntry(CoreSetMstatus(c, val), block[i], Code) {
      CodeEntryKeeps(c, block[i], val);
    }
  }

  lemma InertKeepsBlock(c: Core, d: Core, block: Tlb)
    requires GoodTlb(c, block, Code) && SameTables(c, d) && d.priv == c.priv
    ensures GoodTlb(d, block, Code)
  {
    forall i | 0 <= i < 256 && block[i].vaddr != INVALID ensures GoodEntry(d, block[i], Code) {
      GoodEntrySame(c, d, block[i], Code);
    }
  }

  lemma SstatusKeepsBlock(c: Core, block: Tlb, val: Word)
    requires GoodTlb(c, block, Code) && (c.priv == PRV_S && c.mstatus[SUM] ==> val[SUM])
    ensures GoodTlb(CoreWriteCsr(c, 0x100, val), block, Code)
  {
    assert SstatusValue(c, val)[SUM] == val[SUM];
    MstatusKeepsBlock(c, block, SstatusValue(c, val));
  }

  lemma OtherKeepsBlock(c: Core, block: Tlb, csr: int, val: Word)
    requires GoodTlb(c, block, Code) && csr !in {0x100, 0x180, 0x300} && !MisaHazard(c, csr, val)
    ensures GoodTlb(CoreWriteCsr(c, csr, val), block, Code)
  {
    OtherCsrsAreInert(c, csr, val);
    InertKeepsBlock(c, CoreWriteCsr(c, csr, val), block);
  }

  lemma CsrKeepsBlock(c: Core, block: Tlb, csr: int, val: Word)
    requires GoodTlb(c, block, Code) && csr != 0x180 && !MisaHazard(c, csr, val)
    requires csr in {0x100, 0x300} && c.priv == PRV_S && c.mstatus[SUM] ==> val[SUM]
    ensures GoodTlb(CoreWriteCsr(c, csr, val), block, Code)
  {
    if csr == 0x100 {
      SstatusKeepsBlock(c, block, val);
    } else if csr == 0x300 {
      MstatusKeepsBlock(c, block, val);
      assert CoreWriteCsr(c, 0x300, val) == CoreSetMstatus(c, val);
    } else {
      OtherKeepsBlock(c, block, csr, val);
    }
  }

  /** A block-safe operation outside the hazards leaves every translation of the block's code
      TLB in place. */
  lemma StepKeepsBlock(m: Machine, block: Tlb, op: BodyOp)
    requires Inv(m) && GoodTlb(m.core, block, Code) && Legal(m.core, op) && !Hazard(m, op) && BlockSafe(m, block, op)
    ensures GoodTlb(CoreStep(m.core, op).0, block, Code)
  {
    if op.OLoad? {
      LoadTouches(m.core, op.addr, op.log2);
      TouchedKeepsBlock(m.core, CoreLoad(m.core, op.addr, op.log2).0, block);
    } else if op.OFetch? {
      FetchTouches(m.core, op.addr);
      TouchedKeepsBlock(m.core, CoreFetch(m.core, op.addr).0, block);
    } else if op.OStore? {
      StoreKeepsBlock(m, block, op.addr, op.val, op.log2);
    } else if op.OCsr? {
      CsrKeepsBlock(m.core, block, op.csr, op.val);
    }
  }
}
