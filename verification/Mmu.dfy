// Memory accesses and control-register changes of temu/riscv_cpu.c, once with the TLBs
// (`Machine`) and once without them (`Core`), and the proof that the TLBs are invisible.

module Mmu {
  import opened Bits
  import opened PhysMem
  import opened PageWalk
  import opened Cpu

  /** What an access delivers. Device accesses report the range and offset they reach;
      an unmapped access succeeds with an unspecified value. */
  datatype Out =
    | Val(bits: seq<bool>)
    | Err
    | Mmio(range: int, offset: int)
    | NoRange
    | Pair(first: Out, second: Out)
    | Ptr(ptr: int)
    | Done

  // ----- memory accesses without TLBs -----

  function OutOf(w: Place): Out
    requires !w.Host?
  {
    match w case Fault => Err case Unmapped => NoRange case Device(i, off) => Mmio(i, off)
  }

  function CoreLoad1(c: Core, addr: Addr, n: nat): (Core, Out) {
    var (c1, w) := Resolve(c, addr, Read);
    (c1, if w.Host? then Val(LoadAt(c1.ram, w.ptr, n)) else OutOf(w))
  }

  function CoreStore1(c: Core, addr: Addr, val: seq<bool>, n: nat): (Core, Out)
    requires |val| >= 8 * n
  {
    var (c1, w) := Resolve(c, addr, Write);
    if w.Host? then (c1.(ram := StoreAt(c1.ram, w.ptr, n, val)), Done) else (c1, OutOf(w))
  }

  /** target_read_insn_slow: code runs from RAM only. */
  function CoreFetch(c: Core, addr: Addr): (Core, Out) {
    var (c1, w) := Resolve(c, addr, Code);
    match w
    case Host(p) => (c1, Ptr(p))
    case Fault => (c1, Err)
    case _ => (Pend(c1, CAUSE_FAULT_FETCH, addr), Err)
  }

  // ----- memory accesses through the TLBs -----

  /** The walk, which fills the TLB when it reaches RAM. */
  function LookupSlow(m: Machine, addr: Addr, acc: Access): (Machine, Place) {
    var (c1, w) := Resolve(m.core, addr, acc);
    if w.Host? then (Machine(c1, SetTlb(m.tlb, acc, Fill(TlbOf(m.tlb, acc), addr, w.ptr))), w)
    else (m.(core := c1), w)
  }

  /** The host pointer of an access: the TLB on a hit, else the walk. */
  function Lookup(m: Machine, addr: Addr, log2: SizeLog2, acc: Access): (Machine, Place) {
    var t := TlbOf(m.tlb, acc);
    if Hit(t, addr, log2) then (m, Host(t[Index(addr)].addend + addr)) else LookupSlow(m, addr, acc)
  }

  function Load1(m: Machine, addr: Addr, log2: SizeLog2): (Machine, Out) {
    var (m1, w) := Lookup(m, addr, log2, Read);
    (m1, if w.Host? then Val(LoadAt(m1.core.ram, w.ptr, Bytes(log2))) else OutOf(w))
  }

  function Store1(m: Machine, addr: Addr, val: seq<bool>, log2: SizeLog2): (Machine, Out)
    requires |val| >= 8 * Bytes(log2)
  {
    var (m1, w) := Lookup(m, addr, log2, Write);
    if w.Host? then (m1.(core := m1.core.(ram := StoreAt(m1.core.ram, w.ptr, Bytes(log2), val))), Done)
    else (m1, OutOf(w))
  }

  function Fetch(m: Machine, addr: Addr): (Machine, Out) {
    var (m1, w) := Lookup(m, addr, 0, Code);
    match w
    case Host(p) => (m1, Ptr(p))
    case Fault => (m1, Err)
    case _ => (m1.(core := Pend(m1.core, CAUSE_FAULT_FETCH, addr)), Err)
  }

  // ----- unaligned accesses are split (target_read_slow, target_write_slow) -----

  function Next(addr: int, n: int): Addr { (addr + n) % WORD_LIMIT }

  /** 16-bit accesses join two bytes, wider ones shift two aligned words together. */
  function JoinHalves(lo: Out, hi: Out, al: nat, n: nat): Out
    requires 0 < al < n
  {
    if lo.Val? && hi.Val? && |lo.bits| == 8 * n && |hi.bits| == 8 * n then
      Val(lo.bits[8 * al..] + hi.bits[..8 * al])
    else if lo.Val? && hi.Val? then Val(lo.bits + hi.bits)
    else Pair(lo, hi)
  }

  /** The two aligned parts of an unaligned load, and their size. */
  function Parts(addr: Addr, log2: SizeLog2): (Addr, Addr, SizeLog2) {
    var n := Bytes(log2);
    if log2 == 1 then (addr, Next(addr, 1), 0) else (addr - addr % n, Next(addr - addr % n, n), log2)
  }

  function CoreLoadPair(c: Core, a0: Addr, a1: Addr, l: SizeLog2): (Core, Out, Out) {
    var (c1, r0) := CoreLoad1(c, a0, Bytes(l));
    if r0.Err? then (c1, Err, Err)
    else var (c2, r1) := CoreLoad1(c1, a1, Bytes(l)); (c2, r0, r1)
  }

  function CoreLoad(c: Core, addr: Addr, log2: SizeLog2): (Core, Out) {
    var n := Bytes(log2);
    if addr % n == 0 then CoreLoad1(c, addr, n)
    else
      var (a0, a1, l) := Parts(addr, log2);
      var (c1, r0, r1) := CoreLoadPair(c, a0, a1, l);
      (c1, if r1.Err? then Err else JoinHalves(r0, r1, addr % n, n))
  }

  function LoadPair(m: Machine, a0: Addr, a1: Addr, l: SizeLog2): (Machine, Out, Out) {
    var (m1, r0) := Load1(m, a0, l);
    if r0.Err? then (m1, Err, Err)
    else var (m2, r1) := Load1(m1, a1, l); (m2, r0, r1)
  }

  function Load(m: Machine, addr: Addr, log2: SizeLog2): (Machine, Out) {
    var n := Bytes(log2);
    if addr % n == 0 then Load1(m, addr, log2)
    else
      var (a0, a1, l) := Parts(addr, log2);
      var (m1, r0, r1) := LoadPair(m, a0, a1, l);
      (m1, if r1.Err? then Err else JoinHalves(r0, r1, addr % n, n))
  }

  /** Byte stores in address order; the first fault stops them, earlier bytes stay written. */
  function CoreStoreBytes(c: Core, addr: Addr, val: seq<bool>, n: nat): (Core, Out)
    requires |val| >= 8 * n
    decreases n
  {
    if n == 0 then (c, Done)
    else
      var (c1, r) := CoreStore1(c, addr, val, 1);
      if r.Err? then (c1, Err) else CoreStoreBytes(c1, Next(addr, 1), val[8..], n - 1)
  }

  function StoreBytes(m: Machine, addr: Addr, val: seq<bool>, n: nat): (Machine, Out)
    requires |val| >= 8 * n
    decreases n
  {
    if n == 0 then (m, Done)
    else
      var (m1, r) := Store1(m, addr, val, 0);
      if r.Err? then (m1, Err) else StoreBytes(m1, Next(addr, 1), val[8..], n - 1)
  }

  function CoreStore(c: Core, addr: Addr, val: Word, log2: SizeLog2): (Core, Out) {
    if addr % Bytes(log2) == 0 then CoreStore1(c, addr, val, Bytes(log2))
    else CoreStoreBytes(c, addr, val, Bytes(log2))
  }

  function Store(m: Machine, addr: Addr, val: Word, log2: SizeLog2): (Machine, Out) {
    if addr % Bytes(log2) == 0 then Store1(m, addr, val, log2)
    else StoreBytes(m, addr, val, Bytes(log2))
  }

  // ----- control registers -----

  /** The fields of mstatus that a write of `val` may change. The legality of SXL is
      tested on the UXL field, as in the source. */
  function MstatusWritable(val: Word): set<int> {
    if Field2(val, UXL) in {1, 2} then MSTATUS_MASK + {32, 33, 34, 35} else MSTATUS_MASK
  }

  predicate MstatusFlushes(c: Core, val: Word) {
    || c.mstatus[MPRV] != val[MPRV] || c.mstatus[SUM] != val[SUM] || c.mstatus[MXR] != val[MXR]
    || (c.mstatus[MPRV] && Field2(c.mstatus, MPP) != Field2(val, MPP))
  }

  function CoreSetMstatus(c: Core, val: Word): Core {
    c.(fs := Field2(val, FS), mstatus := Merge(c.mstatus, val, MstatusWritable(val)))
  }

  function FlushIf(m: Machine, c: Core, flush: bool): Machine {
    Machine(c, if flush then NoTlbs() else m.tlb)
  }

  function SetMstatus(m: Machine, val: Word): Machine {
    FlushIf(m, CoreSetMstatus(m.core, val), MstatusFlushes(m.core, val))
  }

  /** An unsupported mode leaves the mode field; there are no ASIDs. */
  function CoreWriteSatp(c: Core, val: Word): Core {
    var mode := if Num(val[60..64]) in {0, 8, 9} then val[60..64] else c.satp[60..64];
    c.(satp := val[..44] + seq(16, _ => false) + mode)
  }

  /** misa: a new MXL of 1 or 2 changes the current XLEN, and flushes nothing. */
  function CoreWriteMisa(c: Core, val: Word): Core {
    var mxl := if c.curXlen == 32 then Field2(val, 30) else if c.curXlen == 16 then Field2(val, 14) else Field2(val, 62);
    if mxl in {1, 2} && c.mxl != mxl then c.(mxl := mxl, curXlen := XlenOf(mxl)) else c
  }

  function XlenOf(mxl: Priv): int {
    match mxl case 0 => 16 case 1 => 32 case 2 => 64 case _ => 128
  }

  /** set_priv on the core; the TLBs are flushed exactly when the privilege changes. */
  function CoreSetPriv(c: Core, p: Priv): Core {
    if c.priv == p then c
    else
      var mxl := if p == PRV_S then Field2(c.mstatus, SXL) else if p == PRV_U then Field2(c.mstatus, UXL) else c.mxl;
      c.(curXlen := XlenOf(mxl), priv := p)
  }

  // ----- traps -----

  datatype Cause = Exception(code: nat) | Interrupt(irq: nat)

  predicate ValidCause(cause: Cause) {
    match cause case Exception(n) => n < 32 case Interrupt(n) => n < 32
  }

  predicate Delegated(c: Core, cause: Cause)
    requires ValidCause(cause)
  {
    c.priv <= PRV_S && match cause case Exception(n) => c.medeleg[n] case Interrupt(n) => c.mideleg[n]
  }

  /** The interrupt flag is the top bit of the current XLEN. */
  function CauseCode(xlen: int, cause: Cause): int {
    match cause
    case Exception(n) => n
    case Interrupt(n) => n + (if xlen >= 1 then Pow2(xlen - 1) else 0)
  }

  /** mstatus after a trap into S, into M, after sret and after mret. */
  function TrapStatusS(w: Word, priv: Priv): Word { w[SPIE := w[priv]][SPP := priv == PRV_S][SIE := false] }
  function TrapStatusM(w: Word, priv: Priv): Word { SetField2(w[MPIE := w[priv]], MPP, priv)[MIE := false] }
  function SretStatus(w: Word, spp: Priv): Word { w[spp := w[SPIE]][SPIE := true][SPP := false] }
  function MretStatus(w: Word): Word { SetField2(w[Field2(w, MPP) := w[MPIE]][MPIE := true], MPP, PRV_U) }

  /** raise_exception2 up to set_priv. */
  function TrapEntry(c: Core, cause: Cause, tval: int): Core
    requires ValidCause(cause)
  {
    var code := CauseCode(c.curXlen, cause);
    if Delegated(c, cause) then
      c.(scause := code, sepc := c.pc, stval := tval, mstatus := TrapStatusS(c.mstatus, c.priv))
    else
      c.(mcause := code, mepc := c.pc, mtval := tval, mstatus := TrapStatusM(c.mstatus, c.priv))
  }

  function CoreTrap(c: Core, cause: Cause, tval: int): Core
    requires ValidCause(cause)
  {
    if Delegated(c, cause) then CoreSetPriv(TrapEntry(c, cause, tval), PRV_S).(pc := c.stvec)
    else CoreSetPriv(TrapEntry(c, cause, tval), PRV_M).(pc := c.mtvec)
  }

  function TrapTarget(c: Core, cause: Cause): Priv
    requires ValidCause(cause)
  {
    if Delegated(c, cause) then PRV_S else PRV_M
  }

  function Trap(m: Machine, cause: Cause, tval: int): Machine
    requires ValidCause(cause)
  {
    FlushIf(m, CoreTrap(m.core, cause, tval), m.core.priv != TrapTarget(m.core, cause))
  }

  function CoreSret(c: Core): Core {
    var spp: Priv := if c.mstatus[SPP] then PRV_S else PRV_U;
    CoreSetPriv(c.(mstatus := SretStatus(c.mstatus, spp)), spp).(pc := c.sepc)
  }

  function Sret(m: Machine): Machine {
    FlushIf(m, CoreSret(m.core), m.core.priv != (if m.core.mstatus[SPP] then PRV_S else PRV_U))
  }

  function CoreMret(c: Core): Core {
    var mpp := Field2(c.mstatus, MPP);
    CoreSetPriv(c.(mstatus := MretStatus(c.mstatus)), mpp).(pc := c.mepc)
  }

  function Mret(m: Machine): Machine {
    FlushIf(m, CoreMret(m.core), m.core.priv != Field2(m.core.mstatus, MPP))
  }

  // ----- csr_write -----

  /** A register that drops its low bits. */
  function AlignDown(val: Word, n: int): int
    requires n > 0
  {
    Num(val) - Num(val) % n
  }

  const SUPERVISOR_IRQS: set<int> := {1, 5, 9}   // SSIP STIP SEIP
  const EXCEPTIONS: set<int> := {0, 1, 2, 3, 4, 5, 6, 7, 8, 9, 10, 11, 12, 13, 14, 15}
  const COUNTERS: set<int> := {0, 2}

  const CSRS: set<int> := {
    0x100, 0x104, 0x105, 0x106, 0x140, 0x141, 0x142, 0x143, 0x144, 0x180,
    0x300, 0x301, 0x302, 0x303, 0x304, 0x305, 0x306, 0x340, 0x341, 0x342, 0x343, 0x344}

  /** The privilege a register number asks for. */
  predicate CsrAllowed(c: Core, csr: int) {
    csr in CSRS && c.priv >= csr / 256 % 4
  }

  function SstatusValue(c: Core, val: Word): Word { Merge(c.mstatus, val, SSTATUS_MASK) }

  function CoreWriteCsr(c: Core, csr: int, val: Word): Core {
    var delegated := set i | 0 <= i < 32 && c.mideleg[i];
    if csr == 0x100 then CoreSetMstatus(c, SstatusValue(c, val))
    else if csr == 0x104 then c.(mie := Merge32(c.mie, val, delegated))
    else if csr == 0x105 then c.(stvec := AlignDown(val, 4))
    else if csr == 0x106 then c.(scounteren := Merge32(Zero32(), val, COUNTERS))
    else if csr == 0x140 then c.(sscratch := Num(val))
    else if csr == 0x141 then c.(sepc := AlignDown(val, 2))
    else if csr == 0x142 then c.(scause := Num(val))
    else if csr == 0x143 then c.(stval := Num(val))
    else if csr == 0x144 then c.(mip := Merge32(c.mip, val, delegated))
    else if csr == 0x180 then CoreWriteSatp(c, val)
    else if csr == 0x300 then CoreSetMstatus(c, val)
    else if csr == 0x301 then CoreWriteMisa(c, val)
    else if csr == 0x302 then c.(medeleg := Merge32(c.medeleg, val, EXCEPTIONS))
    else if csr == 0x303 then c.(mideleg := Merge32(c.mideleg, val, SUPERVISOR_IRQS))
    else if csr == 0x304 then c.(mie := Merge32(c.mie, val, SUPERVISOR_IRQS + {3, 7}))
    else if csr == 0x305 then c.(mtvec := AlignDown(val, 4))
    else if csr == 0x306 then c.(mcounteren := Merge32(Zero32(), val, COUNTERS))
    else if csr == 0x340 then c.(mscratch := Num(val))
    else if csr == 0x341 then c.(mepc := AlignDown(val, 2))
    else if csr == 0x342 then c.(mcause := Num(val))
    else if csr == 0x343 then c.(mtval := Num(val))
    else c.(mip := Merge32(c.mip, val, {1, 5}))
  }

  predicate CsrFlushes(c: Core, csr: int, val: Word) {
    || csr == 0x180
    || (csr == 0x100 && MstatusFlushes(c, SstatusValue(c, val)))
    || (csr == 0x300 && MstatusFlushes(c, val))
  }

  function WriteCsr(m: Machine, csr: int, val: Word): Machine {
    FlushIf(m, CoreWriteCsr(m.core, csr, val), CsrFlushes(m.core, csr, val))
  }

  // ----- runs -----

  /** An illegal register access, mret or sret has no effect here: the trap that follows
      is an operation of its own. */
  datatype Op =
    | OLoad(addr: Addr, log2: SizeLog2)
    | OStore(addr: Addr, val: Word, log2: SizeLog2)
    | OFetch(addr: Addr)
    | OCsr(csr: int, val: Word)
    | OSfence
    | OFlushWrite(lo: int, n: int)
    | OTrap(cause: Cause, tval: int)
    | OMret
    | OSret

  type ValidOp = op: Op | op.OTrap? ==> ValidCause(op.cause) witness OSfence

  predicate Legal(c: Core, op: ValidOp) {
    match op
    case OCsr(csr, _) => CsrAllowed(c, csr)
    case OMret => c.priv == PRV_M
    case OSret => c.priv >= PRV_S
    case _ => true
  }

  /** The machine without TLBs. */
  function CoreStep(c: Core, op: ValidOp): (Core, Out) {
    if !Legal(c, op) then (c, Err)
    else
      match op
      case OLoad(a, l) => CoreLoad(c, a, l)
      case OStore(a, v, l) => CoreStore(c, a, v, l)
      case OFetch(a) => CoreFetch(c, a)
      case OCsr(i, v) => (CoreWriteCsr(c, i, v), Done)
      case OSfence => (c, Done)
      case OFlushWrite(_, _) => (c, Done)
      case OTrap(cause, tval) => (CoreTrap(c, cause, tval), Done)
      case OMret => (CoreMret(c), Done)
      case OSret => (CoreSret(c), Done)
  }

  /** riscv_cpu_flush_tlb_write_range_ram */
  function DropWrites(t: Tlb, lo: int, n: int): Tlb {
    seq(256, i requires 0 <= i < 256 =>
      if t[i].vaddr != INVALID && lo <= t[i].addend + t[i].vaddr < lo + n then t[i].(vaddr := INVALID) else t[i])
  }

  /** The loop of riscv_cpu_flush_tlb_write_range_ram on the array of the write TLB. */
  method DropRange(entries: array<TlbEntry>, lo: int, n: int)
    requires entries.Length == 256
    modifies entries
    ensures entries[..] == DropWrites(old(entries[..]), lo, n)
  {
    for i := 0 to 256
      invariant forall k :: i <= k < 256 ==> entries[k] == old(entries[k])
      invariant forall k :: 0 <= k < i ==> entries[k] == DropWrites(old(entries[..]), lo, n)[k]
    {
      if entries[i].vaddr != INVALID {
        var ptr := entries[i].addend + entries[i].vaddr;
        if lo <= ptr < lo + n { entries[i] := entries[i].(vaddr := INVALID); }
      }
    }
    assert entries[..] == DropWrites(old(entries[..]), lo, n);
  }

  /** The machine with TLBs. */
  function Step(m: Machine, op: ValidOp): (Machine, Out) {
    if !Legal(m.core, op) then (m, Err)
    else
      match op
      case OLoad(a, l) => Load(m, a, l)
      case OStore(a, v, l) => Store(m, a, v, l)
      case OFetch(a) => Fetch(m, a)
      case OCsr(i, v) => (WriteCsr(m, i, v), Done)
      case OSfence => (m.(tlb := NoTlbs()), Done)
      case OFlushWrite(lo, n) => (m.(tlb := m.tlb.(write := DropWrites(m.tlb.write, lo, n))), Done)
      case OTrap(cause, tval) => (Trap(m, cause, tval), Done)
      case OMret => (Mret(m), Done)
      case OSret => (Sret(m), Done)
  }

  /** Final state and outputs of a run. */
  function CoreRun(c: Core, ops: seq<ValidOp>): (Core, seq<Out>)
    decreases |ops|
  {
    if ops == [] then (c, [])
    else
      var (c1, r) := CoreStep(c, ops[0]);
      var (c2, rs) := CoreRun(c1, ops[1..]);
      (c2, [r] + rs)
  }

  function Run(m: Machine, ops: seq<ValidOp>): (Machine, seq<Out>)
    decreases |ops|
  {
    if ops == [] then (m, [])
    else
      var (m1, r) := Step(m, ops[0]);
      var (m2, rs) := Run(m1, ops[1..]);
      (m2, [r] + rs)
  }
}
