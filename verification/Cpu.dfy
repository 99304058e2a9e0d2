// CPU control state, address translation and its three TLBs (temu/riscv_cpu.c,
// temu/riscv_cpu_priv.h), as functions on values. RiscvCpu.dfy holds the mutable class
// that is proved equal to these functions.

module Cpu {
  import opened Bits
  import opened PhysMem
  import opened PageWalk

  const WORD_LIMIT: int := 0x1_0000_0000_0000_0000
  type Addr = a: int | 0 <= a < WORD_LIMIT

  // mstatus bit positions; the interrupt enable of privilege p is bit p.
  const SIE := 1
  const MIE := 3
  const SPIE := 5
  const MPIE := 7
  const SPP := 8
  const MPP := 11
  const FS := 13
  const MPRV := 17
  const SUM := 18
  const MXR := 19
  const UXL := 32
  const SXL := 34

  /** UIE SIE MIE UPIE SPIE MPIE SPP MPP MPRV SUM MXR: MSTATUS_MASK without FS */
  const MSTATUS_MASK: set<int> := {0, 1, 3, 4, 5, 7, 8, 11, 12, 17, 18, 19}
  /** UIE SIE UPIE SPIE SPP FS XS SUM MXR UXL */
  const SSTATUS_MASK: set<int> := {0, 1, 4, 5, 8, 13, 14, 15, 16, 18, 19, 32, 33}

  const CAUSE_FAULT_FETCH := 1
  const CAUSE_FETCH_PAGE_FAULT := 12
  const CAUSE_LOAD_PAGE_FAULT := 13
  const CAUSE_STORE_PAGE_FAULT := 15

  /** RISCVCPUState without its TLBs. */
  datatype Core = Core(
    pc: int, priv: Priv, curXlen: int, mxl: Priv, fs: Priv,
    mstatus: Word, satp: Word,
    mtvec: int, mscratch: int, mepc: int, mcause: int, mtval: int,
    stvec: int, sscratch: int, sepc: int, scause: int, stval: int,
    mie: Word32, mip: Word32, medeleg: Word32, mideleg: Word32,
    mcounteren: Word32, scounteren: Word32,
    pendingException: int, pendingTval: int,
    ram: Ram)

  /** A core with the registers that translation ignores cleared. */
  function FillerCore(priv: Priv, mstatus: Word, xlen: int, mxl: Priv, satp: Word, ram: Ram): Core {
    Core(0, priv, xlen, mxl, 0, mstatus, satp, 0, 0, 0, 0, 0, 0, 0, 0, 0, 0,
         Zero32(), Zero32(), Zero32(), Zero32(), Zero32(), Zero32(), 0, 0, ram)
  }

  /** The two-bit field at position k. */
  function Field2(w: Word, k: nat): Priv
    requires k <= 62
  {
    (if w[k] then 1 else 0) + (if w[k + 1] then 2 else 0)
  }

  function SetField2(w: Word, k: nat, p: Priv): Word
    requires k <= 62
  {
    w[k := p == 1 || p == 3][k + 1 := p >= 2]
  }

  // ----- translation -----

  function EffectivePriv(c: Core, acc: Access): Priv {
    if c.mstatus[MPRV] && acc != Code then Field2(c.mstatus, MPP) else c.priv
  }

  /** `vaddr & ((1 << cur_xlen) - 1)` on pages. */
  function TruncPage(vp: int, curXlen: int): int {
    if curXlen == 16 then vp % 0x10 else if curXlen == 32 then vp % 0x10_0000 else vp
  }

  function SatpMode(satp: Word): int { Num(satp[60..64]) }

  /** Page-table levels of a mode; only 0, 8 and 9 can be in satp (see `WriteSatp`). */
  function Levels(mode: int): nat {
    if mode == 8 then 3 else if mode == 9 then 4 else 0
  }

  /** The sign-extension test on the virtual page. */
  predicate Canonical(vp: int, levels: nat) {
    var half := if levels == 3 then 0x400_0000 else 0x8_0000_0000;
    vp < half || vp >= 0x10_0000_0000_0000 - half
  }

  predicate UsesTables(c: Core, vp: int, acc: Access) {
    && EffectivePriv(c, acc) != PRV_M
    && SatpMode(c.satp) != 0
    && Levels(SatpMode(c.satp)) > 0
    && Canonical(vp, Levels(SatpMode(c.satp)))
  }

  function RegimeOf(c: Core, acc: Access): Regime {
    Regime(EffectivePriv(c, acc), c.mstatus[SUM], c.mstatus[MXR])
  }

  /** get_phys_addr, before the accessed and dirty update. */
  function Translate(c: Core, vp: int, acc: Access): Outcome {
    if EffectivePriv(c, acc) == PRV_M then Direct(TruncPage(vp, c.curXlen))
    else if SatpMode(c.satp) == 0 then Direct(vp)
    else if !UsesTables(c, vp, acc) then PageFault
    else WalkFrom(c.ram, Num(c.satp[..44]), vp, Levels(SatpMode(c.satp)) - 1, RegimeOf(c, acc), acc)
  }

  /** Host pointers of the page-table entries a translation reads. */
  function TableReads(c: Core, vp: int, acc: Access): set<int> {
    if !UsesTables(c, vp, acc) then {}
    else WalkReads(c.ram, Num(c.satp[..44]), vp, Levels(SatpMode(c.satp)) - 1)
  }

  /** The accessed and dirty update. */
  function Commit(c: Core, o: Outcome): Core {
    if o.Leaf? && o.updated != o.pte then c.(ram := SetWord(c.ram, o.key, o.updated)) else c
  }

  datatype Place = Fault | Unmapped | Device(range: int, offset: int) | Host(ptr: int)

  function PageFaultCause(acc: Access): int {
    match acc
    case Read => CAUSE_LOAD_PAGE_FAULT
    case Write => CAUSE_STORE_PAGE_FAULT
    case Code => CAUSE_FETCH_PAGE_FAULT
  }

  function Pend(c: Core, cause: int, tval: int): Core {
    c.(pendingException := cause, pendingTval := tval)
  }

  /** get_phys_mem_range on the translated address. */
  function PlaceOf(ram: Ram, paddr: int): Place {
    var i := FindRange(ram.ranges, paddr);
    if i == -1 then Unmapped
    else if ram.ranges[i].isRam then Host(HostPtr(ram, paddr))
    else Device(i, paddr - ram.ranges[i].addr)
  }

  /** What an access does with the outcome of its translation. */
  function Finish(c: Core, addr: Addr, acc: Access, o: Outcome): (Core, Place) {
    if o.PageFault? then (Pend(c, PageFaultCause(acc), addr), Fault)
    else (Commit(c, o), PlaceOf(c.ram, o.page * PAGE + addr % PAGE))
  }

  /** get_phys_addr followed by get_phys_mem_range. */
  function Resolve(c: Core, addr: Addr, acc: Access): (Core, Place) {
    Finish(c, addr, acc, Translate(c, addr / PAGE, acc))
  }

  // ----- TLBs -----

  const INVALID: int := WORD_LIMIT - 1

  datatype TlbEntry = TlbEntry(vaddr: int, addend: int)

  type Tlb = t: seq<TlbEntry> | |t| == 256 witness seq(256, _ => TlbEntry(0, 0))

  datatype Tlbs = Tlbs(read: Tlb, write: Tlb, code: Tlb)

  datatype Machine = Machine(core: Core, tlb: Tlbs)

  function Index(addr: int): (i: int)
    ensures 0 <= i < 256
  {
    addr / PAGE % 256
  }

  function PageBase(addr: int): int { addr - addr % PAGE }

  /** `addr & ~(PG_MASK & ~(size - 1))`: equals an entry's page only when addr is aligned. */
  function Tag(addr: int, log2: SizeLog2): int { PageBase(addr) + addr % Bytes(log2) }

  predicate Hit(t: Tlb, addr: int, log2: SizeLog2) {
    t[Index(addr)].vaddr == Tag(addr, log2)
  }

  function Fill(t: Tlb, addr: int, ptr: int): Tlb {
    t[Index(addr) := TlbEntry(PageBase(addr), ptr - addr)]
  }

  function EmptyTlb(): Tlb {
    seq(256, _ => TlbEntry(INVALID, 0))
  }

  /** tlb_init */
  function NoTlbs(): Tlbs { Tlbs(EmptyTlb(), EmptyTlb(), EmptyTlb()) }

  function TlbOf(t: Tlbs, acc: Access): Tlb {
    match acc case Read => t.read case Write => t.write case Code => t.code
  }

  function SetTlb(t: Tlbs, acc: Access, x: Tlb): Tlbs {
    match acc case Read => t.(read := x) case Write => t.(write := x) case Code => t.(code := x)
  }

  /** The entry agrees with a fresh walk, and that walk would write nothing. */
  ghost predicate GoodEntry(c: Core, e: TlbEntry, acc: Access) {
    && e.vaddr % PAGE == 0
    && var o := Translate(c, e.vaddr / PAGE, acc);
       && !o.PageFault?
       && Settled(o)
       && IsRamAt(c.ram, o.page * PAGE)
       && e.addend + e.vaddr == HostPtr(c.ram, o.page * PAGE)
  }

  ghost predicate GoodTlb(c: Core, t: Tlb, acc: Access) {
    forall i :: 0 <= i < 256 && t[i].vaddr != INVALID ==> GoodEntry(c, t[i], acc)
  }

  ghost predicate Coherent(m: Machine) {
    forall acc {:trigger TlbOf(m.tlb, acc)} :: GoodTlb(m.core, TlbOf(m.tlb, acc), acc)
  }

  ghost predicate Inv(m: Machine) {
    WellFormed(m.core.ram.ranges) && Coherent(m)
  }
}
