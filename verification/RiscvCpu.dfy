// RISCVCPUState of temu/riscv_cpu_priv.h with the functions of temu/riscv_cpu.c that
// update it in place. Every method is proved equal to its function in Mmu.

module RiscvCpu {
  import opened Options
  import opened Arith
  import opened Bits
  import opened PhysMem
  import opened PageWalk
  import opened Cpu
  import opened Mmu
  import opened MmuProofs
  import opened Traps
  import CsrLaws
  import FetchLoop
  import TrapLaws

  /** Every valid entry carries a page address. */
  ghost predicate PageTags(t: seq<TlbEntry>) {
    forall i :: 0 <= i < |t| && t[i].vaddr != INVALID ==> t[i].vaddr % PAGE == 0
  }

  /** An unaligned address never matches a tag. */
  lemma UnalignedMisses(t: Tlb, addr: Addr, log2: SizeLog2)
    requires PageTags(t) && addr % Bytes(log2) != 0
    ensures !Hit(t, addr, log2)
  {
    var al := addr % Bytes(log2);
    assert 0 < al < 8;
    assert Tag(addr, log2) % PAGE == al;
  }

  /** `1 << vaddr_shift` at a level. */
  function PageSize(lvl: nat): (n: int)
    ensures n > 0
  {
    match lvl case 0 => 0x1000 case 1 => 0x20_0000 case 2 => 0x4000_0000 case _ => 0x80_0000_0000
  }

  lemma VpnOfAddress(v: int, lvl: nat)
    requires v >= 0
    ensures v / PageSize(lvl) % 512 == Vpn(v / PAGE, lvl)
  {
    DivModTwice(v, PAGE, PageSize(lvl) / PAGE);
  }

  lemma LowBits(v: int, lvl: nat)
    ensures var k := PageSize(lvl) / PAGE; v % PageSize(lvl) == v / PAGE % k * PAGE + v % PAGE
  {
    DivModTwice(v, PAGE, PageSize(lvl) / PAGE);
  }

  lemma SpliceOfAddress(page: int, v: int, lvl: nat)
    requires v >= 0 && page >= 0 && lvl <= 3
    ensures var p, n := page * PAGE, PageSize(lvl);
            v % n + (p - p % n) == Splice(page, v / PAGE, lvl) * PAGE + v % PAGE
  {
    LowBits(v, lvl);
    LowBits(page * PAGE, lvl);
    assert page * PAGE / PAGE == page && page * PAGE % PAGE == 0;
  }

  /** `vaddr & ((1 << cur_xlen) - 1)` when the XLEN is below 64 */
  function TruncAddress(v: int, xlen: int): int {
    if xlen == 16 then v % 0x1_0000 else if xlen == 32 then v % 0x1_0000_0000 else v
  }

  lemma TruncOfAddress(v: int, xlen: int)
    requires v >= 0
    ensures TruncAddress(v, xlen) == TruncPage(v / PAGE, xlen) * PAGE + v % PAGE
  {
    DivModTwice(v, PAGE, 0x10);
    DivModTwice(v, PAGE, 0x10_0000);
  }

  /** `(pte >> 1) & 7` */
  function Xwr(pte: Word): (xwr: int)
    ensures 0 <= xwr < 8
  {
    (if pte[1] then 1 else 0) + (if pte[2] then 2 else 0) + (if pte[3] then 4 else 0)
  }

  /** ACCESS_READ, ACCESS_WRITE and ACCESS_CODE are 0, 1 and 2: the value of `xwr >> access`. */
  function Shifted(xwr: int, acc: Access): int {
    match acc case Read => xwr case Write => xwr / 2 case Code => xwr / 4
  }

  /** The privilege and protection checks of get_phys_addr on the three bits as a number. */
  predicate Allowed(xwr: int, user: bool, reg: Regime, acc: Access) {
    && xwr != 2 && xwr != 6
    && (if reg.priv == PRV_S then !user || reg.sum else user)
    && Shifted(if reg.mxr && xwr >= 4 && xwr % 2 == 0 then xwr + 1 else xwr, acc) % 2 == 1
  }

  lemma AllowedIsPermitted(pte: Word, reg: Regime, acc: Access)
    ensures Xwr(pte) != 0 <==> IsLeaf(pte)
    ensures Xwr(pte) != 0 ==> (Allowed(Xwr(pte), pte[PTE_U], reg, acc) <==> !Reserved(pte) && Permitted(pte, reg, acc))
  {
  }

  class RiscvCpuState {
    var pc: int
    var priv: Priv
    var curXlen: int
    var mxl: Priv
    var fs: Priv
    var mstatus: Word
    var satp: Word
    var mtvec: int
    var mscratch: int
    var mepc: int
    var mcause: int
    var mtval: int
    var stvec: int
    var sscratch: int
    var sepc: int
    var scause: int
    var stval: int
    var mie: Word32
    var mip: Word32
    var medeleg: Word32
    var mideleg: Word32
    var mcounteren: Word32
    var scounteren: Word32
    var pendingException: int
    var pendingTval: int
    var ram: Ram
    const tlbRead: array<TlbEntry>
    const tlbWrite: array<TlbEntry>
    const tlbCode: array<TlbEntry>

    ghost predicate Valid()
      reads this, tlbRead, tlbWrite, tlbCode
    {
      && tlbRead.Length == tlbWrite.Length == tlbCode.Length == 256
      && tlbRead != tlbWrite && tlbRead != tlbCode && tlbWrite != tlbCode
      && PageTags(tlbRead[..]) && PageTags(tlbWrite[..]) && PageTags(tlbCode[..])
    }

    ghost function CoreState(): Core
      reads this
    {
      Core(pc, priv, curXlen, mxl, fs, mstatus, satp, mtvec, mscratch, mepc, mcause, mtval, stvec, sscratch, sepc,
           scause, stval, mie, mip, medeleg, mideleg, mcounteren, scounteren, pendingException, pendingTval, ram)
    }

    ghost function TlbState(): Tlbs
      reads this, tlbRead, tlbWrite, tlbCode
      requires Valid()
    {
      Tlbs(tlbRead[..], tlbWrite[..], tlbCode[..])
    }

    ghost function State(): Machine
      reads this, tlbRead, tlbWrite, tlbCode
      requires Valid()
    {
      Machine(CoreState(), TlbState())
    }

    function TlbArray(acc: Access): array<TlbEntry> {
      match acc case Read => tlbRead case Write => tlbWrite case Code => tlbCode
    }

    /** riscv_cpu_init */
    constructor (ranges: seq<Range>)
      ensures Valid() && fresh(tlbRead) && fresh(tlbWrite) && fresh(tlbCode)
      ensures TlbState() == NoTlbs()
      ensures pc == 0x1000 && priv == PRV_M && curXlen == 64 && ram == Ram(ranges, map[])
      ensures WellFormed(ranges) ==> Inv(State())
      ensures FetchLoop.EvenPc(State()) && FetchLoop.EvenVectors(State())
      ensures TrapLaws.WidthFollows(State().core) && CsrLaws.FsApart(State().core)
    {
      pc, priv, curXlen, mxl, fs := 0x1000, PRV_M, 64, 2, 0;
      mstatus := Zero()[UXL + 1 := true][SXL + 1 := true];
      satp := Zero();
      mtvec, mscratch, mepc, mcause, mtval := 0, 0, 0, 0, 0;
      stvec, sscratch, sepc, scause, stval := 0, 0, 0, 0, 0;
      mie, mip, medeleg, mideleg, mcounteren, scounteren := Zero32(), Zero32(), Zero32(), Zero32(), Zero32(), Zero32();
      pendingException, pendingTval := 0, 0;
      ram := Ram(ranges, map[]);
      tlbRead := new TlbEntry[256](_ => TlbEntry(INVALID, 0));
      tlbWrite := new TlbEntry[256](_ => TlbEntry(INVALID, 0));
      tlbCode := new TlbEntry[256](_ => TlbEntry(INVALID, 0));
      new;
      assert tlbRead[..] == EmptyTlb() && tlbWrite[..] == EmptyTlb() && tlbCode[..] == EmptyTlb();
      EmptyIsCoherent(CoreState());
    }

    /** tlb_flush_all */
    method TlbFlushAll()
      requires Valid()
      modifies tlbRead, tlbWrite, tlbCode
      ensures Valid() && TlbState() == NoTlbs()
    {
      for i := 0 to 256
        invariant forall k :: 0 <= k < i ==>
          tlbRead[k] == tlbWrite[k] == tlbCode[k] == TlbEntry(INVALID, 0)
      {
        tlbRead[i] := TlbEntry(INVALID, 0);
        tlbWrite[i] := TlbEntry(INVALID, 0);
        tlbCode[i] := TlbEntry(INVALID, 0);
      }
      assert tlbRead[..] == EmptyTlb() && tlbWrite[..] == EmptyTlb() && tlbCode[..] == EmptyTlb();
    }

    /** riscv_cpu_flush_tlb_write_range_ram */
    method FlushTlbWriteRange(lo: int, n: int)
      requires Valid()
      modifies tlbWrite
      ensures Valid() && State() == Step(old(State()), OFlushWrite(lo, n)).0
    {
      DropRange(tlbWrite, lo, n);
      assert tlbWrite[..] == DropWrites(old(tlbWrite[..]), lo, n);
    }

    /** The level loop of get_phys_addr. */
    method WalkTables(root: int, vaddr: Addr, levels: nat, reg: Regime, acc: Access) returns (ok: bool, paddr: int)
      requires root >= 0 && 1 <= levels <= 4
      modifies this`ram
      ensures var o := WalkFrom(old(ram), root, vaddr / PAGE, levels - 1, reg, acc);
              && ok == o.Leaf?
              && (ok ==> paddr == o.page * PAGE + vaddr % PAGE)
              && ram == if ok && o.updated != o.pte then SetWord(old(ram), o.key, o.updated) else old(ram)
    {
      ghost var vp := vaddr / PAGE;
      ghost var result := WalkFrom(ram, root, vp, levels - 1, reg, acc);
      var ptePage := root;
      for i := 0 to levels
        invariant ptePage >= 0 && ram == old(ram)
        invariant result == if i < levels then WalkFrom(ram, ptePage, vp, levels - 1 - i, reg, acc) else PageFault
      {
        var size := PageSize(levels - 1 - i);
        var pteAddr := ptePage * PAGE + vaddr / size % 512 * 8;
        VpnOfAddress(vaddr, levels - 1 - i);
        assert pteAddr == PteAddr(ptePage, vp, levels - 1 - i);
        var pte := PhysRead64(ram, pteAddr);
        if !pte[PTE_V] {
          return false, 0;
        }
        var base := PtePage(pte) * PAGE;
        AllowedIsPermitted(pte, reg, acc);
        if Xwr(pte) != 0 {
          if !Allowed(Xwr(pte), pte[PTE_U], reg, acc) {
            return false, 0;
          }
          NeedWriteIffChanges(pte, acc);
          SpliceOfAddress(PtePage(pte), vaddr, levels - 1 - i);
          if NeedWrite(pte, acc) {
            ram := PhysWrite64(ram, pteAddr, Touch(pte, acc));
          }
          return true, vaddr % size + (base - base % size);
        }
        ptePage := PtePage(pte);
      }
      return false, 0;
    }

    /** get_phys_addr */
    method GetPhysAddr(vaddr: Addr, acc: Access) returns (ok: bool, paddr: int)
      modifies this`ram
      ensures var o := Translate(old(CoreState()), vaddr / PAGE, acc);
              && ok == !o.PageFault?
              && (ok ==> paddr == o.page * PAGE + vaddr % PAGE)
              && ram == Commit(old(CoreState()), o).ram
    {
      ghost var c, vp := CoreState(), vaddr / PAGE;
      ghost var o := Translate(c, vp, acc);
      var p: Priv := if mstatus[MPRV] && acc != Code then Field2(mstatus, MPP) else priv;
      assert p == EffectivePriv(c, acc);
      var mode := SatpMode(satp);
      if p == PRV_M {
        TruncOfAddress(vaddr, curXlen);
        ok, paddr := true, TruncAddress(vaddr, curXlen);
        assert o == Direct(TruncPage(vp, curXlen));
      } else if mode == 0 {
        ok, paddr := true, vaddr;
        assert o == Direct(vp);
      } else if Levels(mode) == 0 || !Canonical(vaddr / PAGE, Levels(mode)) {
        ok, paddr := false, 0;
        assert o == PageFault;
      } else {
        ok, paddr := WalkSatp(vaddr, acc, Regime(p, mstatus[SUM], mstatus[MXR]), Levels(mode));
      }
    }

    /** get_phys_addr where it walks the tables of satp */
    method WalkSatp(vaddr: Addr, acc: Access, reg: Regime, levels: nat) returns (ok: bool, paddr: int)
      requires UsesTables(CoreState(), vaddr / PAGE, acc)
      requires reg == RegimeOf(CoreState(), acc) && levels == Levels(SatpMode(satp))
      modifies this`ram
      ensures var o := Translate(old(CoreState()), vaddr / PAGE, acc);
              && ok == !o.PageFault?
              && (ok ==> paddr == o.page * PAGE + vaddr % PAGE)
              && ram == Commit(old(CoreState()), o).ram
    {
      LeafIsTouched(CoreState(), vaddr / PAGE, acc);
      ByTables(CoreState(), ram, vaddr / PAGE, acc);
      assert CoreState().(ram := ram) == CoreState();
      ok, paddr := WalkTables(Num(satp[..44]), vaddr, levels, reg, acc);
    }

    /** What follows get_phys_addr, `c` and `o` being the state before it and its outcome. */
    method FinishAccess(addr: Addr, acc: Access, ok: bool, paddr: int, ghost c: Core, ghost o: Outcome) returns (w: Place)
      requires ok == !o.PageFault? && (ok ==> paddr == o.page * PAGE + addr % PAGE)
      requires CoreState() == Commit(c, o)
      modifies this`pendingException, this`pendingTval
      ensures (CoreState(), w) == Finish(c, addr, acc, o)
    {
      if !ok {
        pendingTval, pendingException := addr, PageFaultCause(acc);
        return Fault;
      }
      return PlaceOf(ram, paddr);
    }

    /** get_phys_addr and get_phys_mem_range */
    method ResolveCore(addr: Addr, acc: Access) returns (w: Place)
      modifies this`ram, this`pendingException, this`pendingTval
      ensures (CoreState(), w) == Resolve(old(CoreState()), addr, acc)
    {
      var ok, paddr := GetPhysAddr(addr, acc);
      w := FinishAccess(addr, acc, ok, paddr, old(CoreState()), Translate(old(CoreState()), addr / PAGE, acc));
    }

    method InstallEntry(addr: Addr, acc: Access, ptr: int)
      requires Valid()
      modifies TlbArray(acc)
      ensures Valid() && TlbState() == SetTlb(old(TlbState()), acc, Fill(TlbOf(old(TlbState()), acc), addr, ptr))
    {
      var t := TlbArray(acc);
      t[Index(addr)] := TlbEntry(PageBase(addr), ptr - addr);
      assert t[..] == Fill(TlbOf(old(TlbState()), acc), addr, ptr);
    }

    /** The aligned part of target_read_slow, target_write_slow and target_read_insn_slow. */
    method ResolveSlow(addr: Addr, acc: Access) returns (w: Place)
      requires Valid()
      modifies this`ram, this`pendingException, this`pendingTval, TlbArray(acc)
      ensures Valid() && (State(), w) == LookupSlow(old(State()), addr, acc)
    {
      w := ResolveCore(addr, acc);
      if w.Host? {
        InstallEntry(addr, acc, w.ptr);
      }
    }

    /** The TLB compare of the inline accessors, then the slow path. */
    method HostOf(addr: Addr, log2: SizeLog2, acc: Access) returns (w: Place)
      requires Valid()
      modifies this`ram, this`pendingException, this`pendingTval, TlbArray(acc)
      ensures Valid() && (State(), w) == Lookup(old(State()), addr, log2, acc)
    {
      var e := TlbArray(acc)[Index(addr)];
      if e.vaddr == Tag(addr, log2) {
        return Host(e.addend + addr);
      }
      w := ResolveSlow(addr, acc);
    }

    /** target_read_uN and target_read_slow. An unaligned address fails the TLB compare
        (`UnalignedMisses`), so the test of the slow path can come first. */
    method TargetRead(addr: Addr, log2: SizeLog2) returns (r: Out)
      requires Valid()
      modifies this`ram, this`pendingException, this`pendingTval, tlbRead
      ensures Valid() && (State(), r) == Load(old(State()), addr, log2)
      ensures addr % Bytes(log2) != 0 ==> !Hit(old(tlbRead[..]), addr, log2)
    {
      if addr % Bytes(log2) == 0 {
        r := ReadAligned(addr, log2);
      } else {
        UnalignedMisses(tlbRead[..], addr, log2);
        var (a0, a1, l) := Parts(addr, log2);
        var r0, r1 := ReadPair(a0, a1, l);
        r := if r1.Err? then Err else JoinHalves(r0, r1, addr % Bytes(log2), Bytes(log2));
      }
    }

    /** The two aligned reads of an unaligned one; a fault in the first is returned at once. */
    method ReadPair(a0: Addr, a1: Addr, l: SizeLog2) returns (r0: Out, r1: Out)
      requires Valid()
      modifies this`ram, this`pendingException, this`pendingTval, tlbRead
      ensures Valid() && (State(), r0, r1) == LoadPair(old(State()), a0, a1, l)
    {
      r0 := ReadAligned(a0, l);
      if r0.Err? { return Err, Err; }
      r1 := ReadAligned(a1, l);
    }

    method ReadAligned(addr: Addr, log2: SizeLog2) returns (r: Out)
      requires Valid()
      modifies this`ram, this`pendingException, this`pendingTval, tlbRead
      ensures Valid() && (State(), r) == Load1(old(State()), addr, log2)
    {
      var w := HostOf(addr, log2, Read);
      r := if w.Host? then Val(LoadAt(ram, w.ptr, Bytes(log2))) else OutOf(w);
    }

    method WriteAligned(addr: Addr, val: seq<bool>, log2: SizeLog2) returns (r: Out)
      requires Valid() && |val| >= 8 * Bytes(log2)
      modifies this`ram, this`pendingException, this`pendingTval, tlbWrite
      ensures Valid() && (State(), r) == Store1(old(State()), addr, val, log2)
    {
      var w := HostOf(addr, log2, Write);
      if w.Host? {
        ram := StoreAt(ram, w.ptr, Bytes(log2), val);
        r := Done;
      } else {
        r := OutOf(w);
      }
    }

    /** The byte loop of target_write_slow, one call per byte. */
    method WriteBytes(addr: Addr, val: seq<bool>, n: nat) returns (r: Out)
      requires Valid() && |val| >= 8 * n
      modifies this`ram, this`pendingException, this`pendingTval, tlbWrite
      ensures Valid() && (State(), r) == StoreBytes(old(State()), addr, val, n)
      decreases n
    {
      if n == 0 {
        return Done;
      }
      r := WriteAligned(addr, val, 0);
      if !r.Err? {
        r := WriteBytes(Next(addr, 1), val[8..], n - 1);
      }
    }

    /** target_write_uN and target_write_slow */
    method TargetWrite(addr: Addr, val: Word, log2: SizeLog2) returns (r: Out)
      requires Valid()
      modifies this`ram, this`pendingException, this`pendingTval, tlbWrite
      ensures Valid() && (State(), r) == Store(old(State()), addr, val, log2)
    {
      if addr % Bytes(log2) == 0 {
        r := WriteAligned(addr, val, log2);
      } else {
        r := WriteBytes(addr, val, Bytes(log2));
      }
    }

    /** The instruction fetch: code TLB, then target_read_insn_slow. */
    method ReadInsnPtr(addr: Addr) returns (r: Out)
      requires Valid()
      modifies this`ram, this`pendingException, this`pendingTval, tlbCode
      ensures Valid() && (State(), r) == Fetch(old(State()), addr)
    {
      var w := HostOf(addr, 0, Code);
      if w.Host? {
        return Ptr(w.ptr);
      }
      if !w.Fault? {
        pendingTval, pendingException := addr, CAUSE_FAULT_FETCH;
      }
      return Err;
    }

    /** set_mstatus */
    method WriteMstatus(val: Word)
      requires Valid()
      modifies this`fs, this`mstatus, tlbRead, tlbWrite, tlbCode
      ensures Valid() && State() == SetMstatus(old(State()), val)
    {
      if mstatus[MPRV] != val[MPRV] || mstatus[SUM] != val[SUM] || mstatus[MXR] != val[MXR] ||
         (mstatus[MPRV] && Field2(mstatus, MPP) != Field2(val, MPP)) {
        TlbFlushAll();
      }
      fs := Field2(val, FS);
      mstatus := Merge(mstatus, val, MstatusWritable(val));
    }

    /** The satp case of csr_write */
    method WriteSatp(val: Word)
      requires Valid()
      modifies this`satp, tlbRead, tlbWrite, tlbCode
      ensures Valid() && State() == WriteCsr(old(State()), 0x180, val)
    {
      var mode := satp[60..64];
      if Num(val[60..64]) in {0, 8, 9} {
        mode := val[60..64];
      }
      satp := val[..44] + seq(16, _ => false) + mode;
      TlbFlushAll();
    }

    /** The misa case of csr_write */
    method WriteMisa(val: Word)
      requires Valid()
      modifies this`mxl, this`curXlen
      ensures Valid() && State() == WriteCsr(old(State()), 0x301, val)
    {
      var newMxl := if curXlen == 32 then Field2(val, 30) else if curXlen == 16 then Field2(val, 14) else Field2(val, 62);
      if newMxl in {1, 2} && mxl != newMxl {
        mxl := newMxl;
        curXlen := XlenOf(newMxl);
      }
    }

    /** set_priv */
    method SetPriv(p: Priv)
      requires Valid()
      modifies this`priv, this`curXlen, tlbRead, tlbWrite, tlbCode
      ensures Valid() && State() == FlushIf(old(State()), CoreSetPriv(old(CoreState()), p), old(priv) != p)
    {
      if priv != p {
        TlbFlushAll();
        var l := if p == PRV_S then Field2(mstatus, SXL) else if p == PRV_U then Field2(mstatus, UXL) else mxl;
        curXlen := XlenOf(l);
        priv := p;
      }
    }

    /** The delegated half of raise_exception2, before its set_priv. */
    method EnterSupervisor(cause: Cause, trapValue: int)
      requires ValidCause(cause) && Delegated(CoreState(), cause)
      modifies this`scause, this`sepc, this`stval, this`mstatus
      ensures CoreState() == TrapEntry(old(CoreState()), cause, trapValue)
    {
      var st := mstatus;
      st := st[SPIE := st[priv]];
      st := st[SPP := priv == PRV_S];
      st := st[SIE := false];
      scause, sepc, stval, mstatus := CauseCode(curXlen, cause), pc, trapValue, st;
    }

    /** The other half. */
    method EnterMachine(cause: Cause, trapValue: int)
      requires ValidCause(cause) && !Delegated(CoreState(), cause)
      modifies this`mcause, this`mepc, this`mtval, this`mstatus
      ensures CoreState() == TrapEntry(old(CoreState()), cause, trapValue)
    {
      var st := mstatus;
      st := st[MPIE := st[priv]];
      st := SetField2(st, MPP, priv);
      st := st[MIE := false];
      mcause, mepc, mtval, mstatus := CauseCode(curXlen, cause), pc, trapValue, st;
    }

    /** raise_exception2 */
    method RaiseException(cause: Cause, trapValue: int)
      requires Valid() && ValidCause(cause)
      modifies this, tlbRead, tlbWrite, tlbCode
      ensures Valid() && State() == Trap(old(State()), cause, trapValue)
    {
      var deleg := priv <= PRV_S && match cause case Exception(n) => medeleg[n] case Interrupt(n) => mideleg[n];
      if deleg {
        EnterSupervisor(cause, trapValue);
        SetPriv(PRV_S);
        pc := stvec;
      } else {
        EnterMachine(cause, trapValue);
        SetPriv(PRV_M);
        pc := mtvec;
      }
    }

    /** The mstatus update of handle_sret; the privilege to return to is the result. */
    method LeaveSupervisor() returns (spp: Priv)
      modifies this`mstatus
      ensures spp == (if old(mstatus)[SPP] then PRV_S else PRV_U) && mstatus == SretStatus(old(mstatus), spp)
    {
      spp := if mstatus[SPP] then PRV_S else PRV_U;
      var st := mstatus;
      st := st[spp := st[SPIE]];
      st := st[SPIE := true];
      mstatus := st[SPP := false];
    }

    /** The mstatus update of handle_mret. */
    method LeaveMachine() returns (mpp: Priv)
      modifies this`mstatus
      ensures mpp == Field2(old(mstatus), MPP) && mstatus == MretStatus(old(mstatus))
    {
      mpp := Field2(mstatus, MPP);
      var st := mstatus;
      st := st[mpp := st[MPIE]];
      st := st[MPIE := true];
      mstatus := SetField2(st, MPP, PRV_U);
    }

    /** handle_sret */
    method HandleSret()
      requires Valid()
      modifies this`mstatus, this`priv, this`curXlen, this`pc, tlbRead, tlbWrite, tlbCode
      ensures Valid() && State() == Sret(old(State()))
    {
      var spp := LeaveSupervisor();
      SetPriv(spp);
      pc := sepc;
    }

    /** handle_mret */
    method HandleMret()
      requires Valid()
      modifies this`mstatus, this`priv, this`curXlen, this`pc, tlbRead, tlbWrite, tlbCode
      ensures Valid() && State() == Mret(old(State()))
    {
      var mpp := LeaveMachine();
      SetPriv(mpp);
      pc := mepc;
    }

    /** get_pending_irq_mask */
    method GetPendingIrqMask() returns (mask: Word32)
      ensures mask == PendingMask(CoreState())
    {
      var pending, enabled := And32(mip, mie), Zero32();
      if priv == PRV_M {
        if mstatus[MIE] {
          enabled := Not32(mideleg);
        }
      } else if priv == PRV_S {
        enabled := Not32(mideleg);
        if mstatus[SIE] {
          enabled := Or32(enabled, mideleg);
        }
      } else {
        enabled := Not32(Zero32());
      }
      mask := And32(pending, enabled);
      assert mask == PendingMask(CoreState());
    }

    /** raise_interrupt */
    method RaiseInterrupt() returns (irq: Option<nat>)
      requires Valid()
      modifies this, tlbRead, tlbWrite, tlbCode
      ensures Valid() && (CoreState(), irq) == TakeInterrupt(old(CoreState()))
      ensures State() == if irq.Some? then Trap(old(State()), Interrupt(irq.value), 0) else old(State())
    {
      var mask := GetPendingIrqMask();
      irq := FirstSet(mask);
      if irq.Some? {
        RaiseException(Interrupt(irq.value), 0);
      }
    }
  }
}
