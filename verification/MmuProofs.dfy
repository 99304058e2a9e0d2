// The TLBs of temu/riscv_cpu.c are invisible: coherence is kept by every operation that
// does not fall into one of four named hazards, and over every run without them the
// machine with TLBs computes what the machine without TLBs computes.

module MmuProofs {
  import opened Bits
  import opened PhysMem
  import opened PageWalk
  import opened Cpu
  import opened Mmu

  // ----- accessed and dirty updates are harmless -----

  lemma TranslateIgnoresAD(c: Core, ram: Ram, vp: int, acc: Access)
    requires OnlySetsAD(c.ram, ram)
    ensures SameTarget(Translate(c, vp, acc), Translate(c.(ram := ram), vp, acc))
    ensures Settled(Translate(c, vp, acc)) ==> Settled(Translate(c.(ram := ram), vp, acc))
    ensures TableReads(c, vp, acc) == TableReads(c.(ram := ram), vp, acc)
  {
    if UsesTables(c, vp, acc) {
      WalkIgnoresAD(c.ram, ram, Num(c.satp[..44]), vp, Levels(SatpMode(c.satp)) - 1, RegimeOf(c, acc), acc);
    }
  }

  /** Where the tables are used the translation is the walk, in this RAM and in any other. */
  lemma ByTables(c: Core, ram: Ram, vp: int, acc: Access)
    requires UsesTables(c, vp, acc)
    ensures Translate(c.(ram := ram), vp, acc)
         == WalkFrom(ram, Num(c.satp[..44]), vp, Levels(SatpMode(c.satp)) - 1, RegimeOf(c, acc), acc)
  {
  }

  lemma LeafUsesTables(c: Core, vp: int, acc: Access)
    ensures Translate(c, vp, acc).Leaf? ==> UsesTables(c, vp, acc)
  {
  }

  /** The update is of the entry read, and sets accessed and dirty bits. */
  lemma LeafIsTouched(c: Core, vp: int, acc: Access)
    ensures var o := Translate(c, vp, acc);
            && (UsesTables(c, vp, acc) ==> !o.Direct?)
            && (o.Leaf? ==> o.pte == WordAt(c.ram, o.key) && o.updated == Touch(o.pte, acc))
  {
    LeafUsesTables(c, vp, acc);
    if UsesTables(c, vp, acc) {
      ByTables(c, c.ram, vp, acc);
      assert c.(ram := c.ram) == c;
      WalkLeafIsRead(c.ram, Num(c.satp[..44]), vp, Levels(SatpMode(c.satp)) - 1, RegimeOf(c, acc), acc);
    }
  }

  lemma CommitTouches(c: Core, o: Outcome, acc: Access)
    requires o.Leaf? ==> o.pte == WordAt(c.ram, o.key) && o.updated == Touch(o.pte, acc)
    ensures var c1 := Commit(c, o); c1 == c.(ram := c1.ram) && OnlySetsAD(c.ram, c1.ram)
  {
    if o.Leaf? { TouchOnlySetsAD(c.ram, o.key, acc); }
  }

  lemma CommitOnlySetsAD(c: Core, vp: int, acc: Access)
    ensures var c1 := Commit(c, Translate(c, vp, acc));
            c1 == c.(ram := c1.ram) && OnlySetsAD(c.ram, c1.ram)
  {
    LeafIsTouched(c, vp, acc);
    CommitTouches(c, Translate(c, vp, acc), acc);
  }

  /** The walk o is settled by its own update. */
  lemma WalkSettles(c: Core, vp: int, acc: Access, o: Outcome)
    requires UsesTables(c, vp, acc) && o.Leaf?
    requires o == WalkFrom(c.ram, Num(c.satp[..44]), vp, Levels(SatpMode(c.satp)) - 1, RegimeOf(c, acc), acc)
    ensures Settled(Translate(c.(ram := SetWord(c.ram, o.key, o.updated)), vp, acc))
  {
    UpdateSettles(c.ram, Num(c.satp[..44]), vp, Levels(SatpMode(c.satp)) - 1, RegimeOf(c, acc), acc);
    ByTables(c, SetWord(c.ram, o.key, o.updated), vp, acc);
  }

  lemma CommitSettles(c: Core, vp: int, acc: Access)
    ensures Settled(Translate(Commit(c, Translate(c, vp, acc)), vp, acc))
  {
    var o := Translate(c, vp, acc);
    if o.Leaf? && o.updated != o.pte {
      LeafUsesTables(c, vp, acc);
      ByTables(c, c.ram, vp, acc);
      assert c.(ram := c.ram) == c;
      WalkSettles(c, vp, acc, o);
    }
  }

  /** After get_phys_addr has set accessed or dirty bits, every virtual page under every
      access kind translates as before, and repeating the translation writes nothing. */
  lemma AccessedDirtyTransparent(c: Core, vp: int, acc: Access, vp': int, acc': Access)
    ensures var c1 := Commit(c, Translate(c, vp, acc));
            && SameTarget(Translate(c, vp', acc'), Translate(c1, vp', acc'))
            && Commit(c1, Translate(c1, vp, acc)) == c1
  {
    var c1 := Commit(c, Translate(c, vp, acc));
    CommitOnlySetsAD(c, vp, acc);
    TranslateIgnoresAD(c, c1.ram, vp', acc');
    CommitSettles(c, vp, acc);
  }

  // ----- one entry -----

  /** A hit on a good entry is what the slow path would have done, side effects included. */
  lemma HitMeansWalk(c: Core, e: TlbEntry, addr: Addr, acc: Access)
    requires WellFormed(c.ram.ranges) && GoodEntry(c, e, acc) && PageBase(addr) == e.vaddr
    ensures Resolve(c, addr, acc) == (c, Host(e.addend + addr))
  {
    var o := Translate(c, addr / PAGE, acc);
    assert e.vaddr / PAGE == addr / PAGE;
    var p := o.page * PAGE;
    assert (p + addr % PAGE) / PAGE == p / PAGE;
    RamPageUniform(c.ram.ranges, p, p + addr % PAGE);
  }

  /** The entry for a settled translation that reaches RAM at ptr. */
  lemma EntryAt(d: Core, addr: Addr, acc: Access, o: Outcome, ptr: int)
    requires WellFormed(d.ram.ranges) && o == Translate(d, addr / PAGE, acc) && !o.PageFault? && Settled(o)
    requires PlaceOf(d.ram, o.page * PAGE + addr % PAGE) == Host(ptr)
    ensures GoodEntry(d, TlbEntry(PageBase(addr), ptr - addr), acc)
  {
    var p := o.page * PAGE;
    assert PageBase(addr) / PAGE == addr / PAGE && PageBase(addr) % PAGE == 0;
    assert (p + addr % PAGE) / PAGE == p / PAGE;
    RamPageUniform(d.ram.ranges, p + addr % PAGE, p);
  }

  /** What an access with the outcome o leaves, o1 being the outcome of its repetition. */
  lemma FilledEntry(c: Core, c1: Core, addr: Addr, acc: Access, o: Outcome, o1: Outcome, ptr: int)
    requires WellFormed(c.ram.ranges) && c1.ram.ranges == c.ram.ranges && o1 == Translate(c1, addr / PAGE, acc)
    requires !o.PageFault? && SameTarget(o, o1) && Settled(o1)
    requires PlaceOf(c.ram, o.page * PAGE + addr % PAGE) == Host(ptr)
    ensures GoodEntry(c1, TlbEntry(PageBase(addr), ptr - addr), acc)
  {
    EntryAt(c1, addr, acc, o1, ptr);
  }

  /** The entry filled by the slow path is good in the state the slow path leaves. */
  lemma FillIsGood(c: Core, addr: Addr, acc: Access)
    requires WellFormed(c.ram.ranges)
    requires Resolve(c, addr, acc).1.Host?
    ensures var (c1, w) := Resolve(c, addr, acc);
            GoodEntry(c1, TlbEntry(PageBase(addr), w.ptr - addr), acc)
  {
    var vp := addr / PAGE;
    var o := Translate(c, vp, acc);
    var (c1, w) := Resolve(c, addr, acc);
    CommitOnlySetsAD(c, vp, acc);
    AccessedDirtyTransparent(c, vp, acc, vp, acc);
    CommitSettles(c, vp, acc);
    FilledEntry(c, c1, addr, acc, o, Translate(c1, vp, acc), w.ptr);
  }

  lemma GoodEntryIgnoresAD(c: Core, ram: Ram, e: TlbEntry, acc: Access)
    requires GoodEntry(c, e, acc) && OnlySetsAD(c.ram, ram)
    ensures GoodEntry(c.(ram := ram), e, acc)
  {
    TranslateIgnoresAD(c, ram, e.vaddr / PAGE, acc);
  }

  /** Two cores that translate alike have the same good entries. */
  lemma GoodEntrySame(c: Core, d: Core, e: TlbEntry, acc: Access)
    requires GoodEntry(c, e, acc) && c.ram.ranges == d.ram.ranges
    requires Translate(c, e.vaddr / PAGE, acc) == Translate(d, e.vaddr / PAGE, acc)
    ensures GoodEntry(d, e, acc)
  {
  }

  // ----- whole TLBs -----

  lemma EmptyIsCoherent(c: Core)
    ensures Coherent(Machine(c, NoTlbs()))
  {
    forall acc ensures GoodTlb(c, TlbOf(NoTlbs(), acc), acc) {
      assert TlbOf(NoTlbs(), acc) == EmptyTlb();
    }
  }

  lemma CoherentIgnoresAD(m: Machine, ram: Ram)
    requires Coherent(m) && OnlySetsAD(m.core.ram, ram)
    ensures Coherent(m.(core := m.core.(ram := ram)))
  {
    var c := m.core.(ram := ram);
    forall acc ensures GoodTlb(c, TlbOf(m.tlb, acc), acc) {
      var t := TlbOf(m.tlb, acc);
      assert GoodTlb(m.core, t, acc);
      forall i | 0 <= i < 256 && t[i].vaddr != INVALID ensures GoodEntry(c, t[i], acc) {
        GoodEntryIgnoresAD(m.core, ram, t[i], acc);
      }
    }
  }

  /** Changing what translation does not read keeps coherence. */
  lemma CoherentSame(m: Machine, d: Core)
    requires Coherent(m) && m.core.ram.ranges == d.ram.ranges
    requires forall acc, i :: 0 <= i < 256 && TlbOf(m.tlb, acc)[i].vaddr != INVALID ==>
               Translate(m.core, TlbOf(m.tlb, acc)[i].vaddr / PAGE, acc) == Translate(d, TlbOf(m.tlb, acc)[i].vaddr / PAGE, acc)
    ensures Coherent(m.(core := d))
  {
    forall acc ensures GoodTlb(d, TlbOf(m.tlb, acc), acc) {
      var t := TlbOf(m.tlb, acc);
      assert GoodTlb(m.core, t, acc);
      forall i | 0 <= i < 256 && t[i].vaddr != INVALID ensures GoodEntry(d, t[i], acc) {
        GoodEntrySame(m.core, d, t[i], acc);
      }
    }
  }

  lemma CoherentUpdate(c: Core, tlb: Tlbs, acc: Access, k: nat, e: TlbEntry)
    requires Coherent(Machine(c, tlb)) && k < 256 && GoodEntry(c, e, acc)
    ensures Coherent(Machine(c, SetTlb(tlb, acc, TlbOf(tlb, acc)[k := e])))
  {
    var tlb' := SetTlb(tlb, acc, TlbOf(tlb, acc)[k := e]);
    forall acc' ensures GoodTlb(c, TlbOf(tlb', acc'), acc') {
      assert GoodTlb(c, TlbOf(tlb, acc'), acc');
      assert acc' != acc ==> TlbOf(tlb', acc') == TlbOf(tlb, acc');
    }
  }

  lemma CoherentFill(m: Machine, addr: Addr, acc: Access)
    requires Inv(m) && Resolve(m.core, addr, acc).1.Host?
    ensures var (c1, w) := Resolve(m.core, addr, acc);
            Inv(Machine(c1, SetTlb(m.tlb, acc, Fill(TlbOf(m.tlb, acc), addr, w.ptr))))
  {
    ResolveKeepsInv(m, addr, acc);
    FillIsGood(m.core, addr, acc);
    var (c1, w) := Resolve(m.core, addr, acc);
    CoherentUpdate(c1, m.tlb, acc, Index(addr), TlbEntry(PageBase(addr), w.ptr - addr));
  }

  lemma ResolveKeepsInv(m: Machine, addr: Addr, acc: Access)
    requires Inv(m)
    ensures Inv(m.(core := Resolve(m.core, addr, acc).0))
  {
    var c1 := Resolve(m.core, addr, acc).0;
    CommitOnlySetsAD(m.core, addr / PAGE, acc);
    if Translate(m.core, addr / PAGE, acc).PageFault? {
      CoherentSame(m, c1);
    } else {
      CoherentIgnoresAD(m, c1.ram);
    }
  }

  lemma PendKeepsInv(m: Machine, cause: int, tval: int)
    requires Inv(m)
    ensures Inv(m.(core := Pend(m.core, cause, tval)))
  {
    CoherentSame(m, Pend(m.core, cause, tval));
  }

  // ----- aligned accesses -----

  /** Only an aligned address of the entry's own page hits. */
  lemma HitPage(c: Core, t: Tlb, addr: Addr, log2: SizeLog2, acc: Access)
    requires GoodTlb(c, t, acc) && Hit(t, addr, log2)
    ensures t[Index(addr)].vaddr == PageBase(addr) && GoodEntry(c, t[Index(addr)], acc)
    ensures addr % Bytes(log2) == 0
  {
    var tag, al := Tag(addr, log2), addr % Bytes(log2);
    assert al < 8;
    assert tag % PAGE == al;
  }

  /** A TLB access reaches the host pointer a fresh walk reaches, with the same effects. */
  lemma LookupRefines(m: Machine, addr: Addr, log2: SizeLog2, acc: Access)
    requires Inv(m)
    ensures var (m1, w) := Lookup(m, addr, log2, acc);
            Inv(m1) && (m1.core, w) == Resolve(m.core, addr, acc)
  {
    var t := TlbOf(m.tlb, acc);
    assert GoodTlb(m.core, t, acc);
    if Hit(t, addr, log2) {
      HitPage(m.core, t, addr, log2, acc);
      HitMeansWalk(m.core, t[Index(addr)], addr, acc);
    } else if Resolve(m.core, addr, acc).1.Host? {
      CoherentFill(m, addr, acc);
    } else {
      ResolveKeepsInv(m, addr, acc);
    }
  }

  lemma Load1Refines(m: Machine, addr: Addr, log2: SizeLog2)
    requires Inv(m)
    ensures var (m1, r) := Load1(m, addr, log2);
            Inv(m1) && (m1.core, r) == CoreLoad1(m.core, addr, Bytes(log2))
  {
    LookupRefines(m, addr, log2, Read);
  }

  lemma FetchRefines(m: Machine, addr: Addr)
    requires Inv(m)
    ensures var (m1, r) := Fetch(m, addr);
            Inv(m1) && (m1.core, r) == CoreFetch(m.core, addr)
  {
    LookupRefines(m, addr, 0, Code);
    PendKeepsInv(Lookup(m, addr, 0, Code).0, CAUSE_FAULT_FETCH, addr);
  }

  /** The words about to be stored are page-table entries of no cached page. */
  ghost predicate SparesTables(m: Machine, keys: set<int>) {
    forall acc, i :: 0 <= i < 256 && TlbOf(m.tlb, acc)[i].vaddr != INVALID ==>
      TableReads(m.core, TlbOf(m.tlb, acc)[i].vaddr / PAGE, acc) !! keys
  }

  ghost predicate SafeStore1(m: Machine, addr: Addr, log2: SizeLog2) {
    var (m1, w) := Lookup(m, addr, log2, Write);
    w.Host? ==> SparesTables(m1, Keys(w.ptr, Bytes(log2)))
  }

  lemma StoreKeepsInv(m: Machine, ptr: int, n: nat, val: seq<bool>)
    requires Inv(m) && |val| >= 8 * n && SparesTables(m, Keys(ptr, n))
    ensures Inv(m.(core := m.core.(ram := StoreAt(m.core.ram, ptr, n, val))))
  {
    var d := m.core.(ram := StoreAt(m.core.ram, ptr, n, val));
    StoreFrame(m.core.ram, ptr, n, val);
    forall acc, i | 0 <= i < 256 && TlbOf(m.tlb, acc)[i].vaddr != INVALID
      ensures Translate(m.core, TlbOf(m.tlb, acc)[i].vaddr / PAGE, acc) == Translate(d, TlbOf(m.tlb, acc)[i].vaddr / PAGE, acc)
    {
      var vp := TlbOf(m.tlb, acc)[i].vaddr / PAGE;
      if UsesTables(m.core, vp, acc) {
        assert TableReads(m.core, vp, acc) !! Keys(ptr, n);
        WalkFrame(m.core.ram, d.ram, Num(d.satp[..44]), vp, Levels(SatpMode(d.satp)) - 1, RegimeOf(d, acc), acc);
      }
    }
    CoherentSame(m, d);
  }

  lemma Store1Refines(m: Machine, addr: Addr, val: seq<bool>, log2: SizeLog2)
    requires Inv(m) && |val| >= 8 * Bytes(log2) && SafeStore1(m, addr, log2)
    ensures var (m1, r) := Store1(m, addr, val, log2);
            Inv(m1) && (m1.core, r) == CoreStore1(m.core, addr, val, Bytes(log2))
  {
    LookupRefines(m, addr, log2, Write);
    var (m1, w) := Lookup(m, addr, log2, Write);
    if w.Host? {
      StoreKeepsInv(m1, w.ptr, Bytes(log2), val);
    }
  }

  /** satp never holds a mode the walk does not know. */
  lemma SatpModeStaysKnown(c: Core, val: Word)
    requires SatpMode(c.satp) in {0, 8, 9}
    ensures SatpMode(CoreWriteSatp(c, val).satp) in {0, 8, 9}
    ensures Num(val[60..64]) in {0, 8, 9} ==> SatpMode(CoreWriteSatp(c, val).satp) == SatpMode(val)
  {
    var mode := if Num(val[60..64]) in {0, 8, 9} then val[60..64] else c.satp[60..64];
    assert CoreWriteSatp(c, val).satp[60..64] == mode;
  }

  // ----- unaligned accesses -----

  lemma LoadPairRefines(m: Machine, a0: Addr, a1: Addr, l: SizeLog2)
    requires Inv(m)
    ensures var (m1, r0, r1) := LoadPair(m, a0, a1, l);
            Inv(m1) && (m1.core, r0, r1) == CoreLoadPair(m.core, a0, a1, l)
  {
    Load1Refines(m, a0, l);
    Load1Refines(Load1(m, a0, l).0, a1, l);
  }

  lemma LoadRefines(m: Machine, addr: Addr, log2: SizeLog2)
    requires Inv(m)
    ensures var (m1, r) := Load(m, addr, log2);
            Inv(m1) && (m1.core, r) == CoreLoad(m.core, addr, log2)
  {
    if addr % Bytes(log2) == 0 {
      Load1Refines(m, addr, log2);
    } else {
      var (a0, a1, l) := Parts(addr, log2);
      LoadPairRefines(m, a0, a1, l);
    }
  }

  ghost predicate SafeStoreBytes(m: Machine, addr: Addr, val: seq<bool>, n: nat)
    requires |val| >= 8 * n
    decreases n
  {
    n > 0 ==>
      && SafeStore1(m, addr, 0)
      && var (m1, r) := Store1(m, addr, val, 0);
         !r.Err? ==> SafeStoreBytes(m1, Next(addr, 1), val[8..], n - 1)
  }

  lemma {:induction false} StoreBytesRefines(m: Machine, addr: Addr, val: seq<bool>, n: nat)
    requires |val| >= 8 * n && Inv(m) && SafeStoreBytes(m, addr, val, n)
    ensures var (m1, r) := StoreBytes(m, addr, val, n);
            Inv(m1) && (m1.core, r) == CoreStoreBytes(m.core, addr, val, n)
    decreases n
  {
    if n > 0 {
      Store1Refines(m, addr, val, 0);
      var (m1, r) := Store1(m, addr, val, 0);
      if !r.Err? {
        StoreBytesRefines(m1, Next(addr, 1), val[8..], n - 1);
      }
    }
  }

  // ----- hazards -----

  /** A store into a page-table entry of a page that is still cached. */
  ghost predicate StoreHazard(m: Machine, addr: Addr, val: Word, log2: SizeLog2) {
    if addr % Bytes(log2) == 0 then !SafeStore1(m, addr, log2)
    else !SafeStoreBytes(m, addr, val, Bytes(log2))
  }

  /** A trap taken in M that overwrites the MPP field MPRV is translating with. */
  predicate TrapHazard(priv: Priv, mstatus: Word) {
    priv == PRV_M && mstatus[MPRV] && Field2(mstatus, MPP) != PRV_M
  }

  /** An mret from M to M while MPRV is set: MPP becomes U. */
  predicate MretHazard(mstatus: Word) {
    mstatus[MPRV] && Field2(mstatus, MPP) == PRV_M
  }

  /** A misa write that changes the width M-mode addresses are truncated to. */
  predicate MisaHazard(c: Core, csr: int, val: Word) {
    csr == 0x301 && CoreWriteMisa(c, val).curXlen != c.curXlen
  }

  ghost predicate Hazard(m: Machine, op: ValidOp) {
    Legal(m.core, op) &&
    match op
    case OStore(a, v, l) => StoreHazard(m, a, v, l)
    case OCsr(csr, v) => MisaHazard(m.core, csr, v)
    case OTrap(_, _) => TrapHazard(m.core.priv, m.core.mstatus)
    case OMret => MretHazard(m.core.mstatus)
    case _ => false
  }

  // ----- control changes -----

  /** Everything translation reads besides the privileges. */
  predicate SameTables(c: Core, d: Core) {
    && c.ram == d.ram && c.satp == d.satp && c.curXlen == d.curXlen
    && c.mstatus[SUM] == d.mstatus[SUM] && c.mstatus[MXR] == d.mstatus[MXR]
  }

  lemma SameControls(m: Machine, d: Core)
    requires Inv(m) && SameTables(m.core, d)
    requires forall acc :: EffectivePriv(m.core, acc) == EffectivePriv(d, acc)
    ensures Inv(m.(core := d))
  {
    forall acc, i | 0 <= i < 256 && TlbOf(m.tlb, acc)[i].vaddr != INVALID
      ensures Translate(m.core, TlbOf(m.tlb, acc)[i].vaddr / PAGE, acc) == Translate(d, TlbOf(m.tlb, acc)[i].vaddr / PAGE, acc)
    {
      assert EffectivePriv(m.core, acc) == EffectivePriv(d, acc);
    }
    CoherentSame(m, d);
  }

  lemma FlushKeepsInv(m: Machine, d: Core, flush: bool)
    requires Inv(m) && d.ram == m.core.ram
    requires !flush ==> Inv(m.(core := d))
    ensures Inv(FlushIf(m, d, flush))
  {
    if flush { EmptyIsCoherent(d); }
  }

  lemma SetMstatusKeepsInv(m: Machine, val: Word)
    requires Inv(m)
    ensures Inv(SetMstatus(m, val))
  {
    var d := CoreSetMstatus(m.core, val);
    if !MstatusFlushes(m.core, val) {
      SameControls(m, d);
    }
    FlushKeepsInv(m, d, MstatusFlushes(m.core, val));
  }

  lemma OtherCsrsAreInert(c: Core, csr: int, val: Word)
    requires csr !in {0x100, 0x180, 0x300} && !MisaHazard(c, csr, val)
    ensures var d := CoreWriteCsr(c, csr, val);
            SameTables(c, d) && d.priv == c.priv && d.mstatus == c.mstatus
  {
  }

  lemma WriteCsrKeepsInv(m: Machine, csr: int, val: Word)
    requires Inv(m) && CsrAllowed(m.core, csr) && !MisaHazard(m.core, csr, val)
    ensures Inv(WriteCsr(m, csr, val))
  {
    var d := CoreWriteCsr(m.core, csr, val);
    if csr == 0x100 {
      SetMstatusKeepsInv(m, SstatusValue(m.core, val));
    } else if csr == 0x300 {
      SetMstatusKeepsInv(m, val);
    } else if csr == 0x180 {
      FlushKeepsInv(m, d, true);
    } else {
      OtherCsrsAreInert(m.core, csr, val);
      SameControls(m, d);
    }
  }

  lemma TrapKeepsInv(m: Machine, cause: Cause, tval: int)
    requires Inv(m) && ValidCause(cause) && !TrapHazard(m.core.priv, m.core.mstatus)
    ensures Inv(Trap(m, cause, tval))
  {
    var d := CoreTrap(m.core, cause, tval);
    var flush := m.core.priv != TrapTarget(m.core, cause);
    if !flush {
      SameControls(m, d);
    }
    FlushKeepsInv(m, d, flush);
  }

  lemma MretKeepsInv(m: Machine)
    requires Inv(m) && m.core.priv == PRV_M && !MretHazard(m.core.mstatus)
    ensures Inv(Mret(m))
  {
    var d := CoreMret(m.core);
    var flush := m.core.priv != Field2(m.core.mstatus, MPP);
    if !flush {
      SameControls(m, d);
    }
    FlushKeepsInv(m, d, flush);
  }

  lemma SretKeepsInv(m: Machine)
    requires Inv(m)
    ensures Inv(Sret(m))
  {
    var d := CoreSret(m.core);
    var flush := m.core.priv != (if m.core.mstatus[SPP] then PRV_S else PRV_U);
    if !flush {
      SameControls(m, d);
    }
    FlushKeepsInv(m, d, flush);
  }

  lemma DropWritesKeepsInv(m: Machine, lo: int, n: int)
    requires Inv(m)
    ensures Inv(m.(tlb := m.tlb.(write := DropWrites(m.tlb.write, lo, n))))
  {
    var tlb := m.tlb.(write := DropWrites(m.tlb.write, lo, n));
    forall acc ensures GoodTlb(m.core, TlbOf(tlb, acc), acc) {
      assert GoodTlb(m.core, TlbOf(m.tlb, acc), acc);
    }
  }

  // ----- every run -----

  /** Outside the hazards one operation keeps coherence, and its new state and output are
      those of the machine without TLBs. */
  lemma StepRefines(m: Machine, op: ValidOp)
    requires Inv(m) && !Hazard(m, op)
    ensures var (m1, r) := Step(m, op);
            Inv(m1) && (m1.core, r) == CoreStep(m.core, op)
  {
    if Legal(m.core, op) {
      match op
      case OLoad(a, l) => LoadRefines(m, a, l);
      case OStore(a, v, l) =>
        if a % Bytes(l) == 0 { Store1Refines(m, a, v, l); }
        else { StoreBytesRefines(m, a, v, Bytes(l)); }
      case OFetch(a) => FetchRefines(m, a);
      case OCsr(csr, v) => WriteCsrKeepsInv(m, csr, v);
      case OSfence => EmptyIsCoherent(m.core);
      case OFlushWrite(lo, n) => DropWritesKeepsInv(m, lo, n);
      case OTrap(cause, tval) => TrapKeepsInv(m, cause, tval);
      case OMret => MretKeepsInv(m);
      case OSret => SretKeepsInv(m);
    }
  }

  ghost predicate HazardFree(m: Machine, ops: seq<ValidOp>)
    decreases |ops|
  {
    ops != [] ==> !Hazard(m, ops[0]) && HazardFree(Step(m, ops[0]).0, ops[1..])
  }

  /** TLB transparency: over every hazard-free run from any coherent machine, the outputs and the
      final registers and memory are those of the machine without TLBs. */
  lemma {:induction false} TlbTransparent(m: Machine, ops: seq<ValidOp>)
    requires Inv(m) && HazardFree(m, ops)
    ensures var (m1, rs) := Run(m, ops);
            Inv(m1) && (m1.core, rs) == CoreRun(m.core, ops)
    decreases |ops|
  {
    if ops != [] {
      StepRefines(m, ops[0]);
      TlbTransparent(Step(m, ops[0]).0, ops[1..]);
    }
  }
}
