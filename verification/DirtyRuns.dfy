// The dirty bitmaps of temu/iomem.c under the CPU of temu/riscv_cpu.c: every byte of tracked
// RAM that changes between two reports is in a page of the second one, except for accessed and
// dirty bits of page-table entries, which the page walk sets unreported.

module DirtyRuns {
  import opened Arith
  import opened Bits
  import opened PhysMem
  import opened PageWalk
  import opened Cpu
  import opened Mmu
  import opened MmuProofs
  import Dirty
  import MmuHazards

  /** The CPU and the bitmaps of its memory map. */
  datatype System = System(m: Machine, banks: seq<Dirty.Bank>)

  function MemOf(s: System): Dirty.Mem { Dirty.Mem(s.banks, s.m.tlb.write) }

  ghost predicate Coupled(s: System) {
    Dirty.Inv(MemOf(s)) && s.m.core.ram.ranges == Dirty.Ranges(s.banks)
  }

  function Byte(s: System, q: int): seq<bool> { LoadByte(s.m.core.ram, q) }

  /** The page of a host byte in its range. */
  function PageIn(b: Dirty.Bank, q: int): int { (q - b.mem) / PAGE }

  // ----- what one step does -----

  ghost predicate SameMap(s: System, t: System) {
    && |t.banks| == |s.banks|
    && forall i :: 0 <= i < |s.banks| ==>
         var b, d := s.banks[i], t.banks[i];
         d.isRam == b.isRam && d.mem == b.mem && d.orgSize == b.orgSize && d.tracked == b.tracked
  }

  /** Byte q with nothing but accessed and dirty bits set: bits 6 and 7 of the first byte of
      its word. */
  predicate GrewAD(b1: seq<bool>, b2: seq<bool>, q: int) {
    && |b1| == |b2| == 8
    && forall i :: 0 <= i < 8 ==> if q % 8 == 0 && i in {PTE_A, PTE_D} then b1[i] ==> b2[i] else b1[i] == b2[i]
  }

  /** d1 and d2 say whether the page of the byte is dirty after the first and the second step. */
  lemma GrewTrans(b1: seq<bool>, b2: seq<bool>, b3: seq<bool>, q: int, d1: bool, d2: bool)
    requires (GrewAD(b1, b2, q) || d1) && (GrewAD(b2, b3, q) || d2) && (d1 ==> d2)
    ensures GrewAD(b1, b3, q) || d2
  {
  }

  /** Byte q of range i changed only in accessed and dirty bits, or its page is dirty. */
  ghost predicate Seen(s: System, t: System, i: int, q: int)
    requires Coupled(t) && 0 <= i < |t.banks| && t.banks[i].tracked
  {
    GrewAD(Byte(s, q), Byte(t, q), q) || Dirty.IsDirty(t.banks[i], PageIn(t.banks[i], q))
  }

  /** A step that clears no bit. */
  ghost predicate Moves(s: System, t: System) {
    && Coupled(s) && Coupled(t) && SameMap(s, t)
    && (forall i, p :: 0 <= i < |s.banks| && s.banks[i].tracked && Dirty.IsDirty(s.banks[i], p) ==> Dirty.IsDirty(t.banks[i], p))
    && (forall i, q :: 0 <= i < |s.banks| && s.banks[i].tracked && Dirty.Hosts(s.banks[i], q) ==> Seen(s, t, i, q))
  }

  lemma MovesTrans(s: System, t: System, u: System)
    requires Moves(s, t) && Moves(t, u)
    ensures Moves(s, u)
  {
    forall i, q | 0 <= i < |s.banks| && s.banks[i].tracked && Dirty.Hosts(s.banks[i], q) ensures Seen(s, u, i, q) {
      assert Seen(s, t, i, q) && Seen(t, u, i, q);
      var p := PageIn(s.banks[i], q);
      GrewTrans(Byte(s, q), Byte(t, q), Byte(u, q), q, Dirty.IsDirty(t.banks[i], p), Dirty.IsDirty(u.banks[i], p));
    }
  }

  lemma MovesSelf(s: System)
    requires Coupled(s)
    ensures Moves(s, s)
  {
  }

  /** The walk, seen on one byte. */
  lemma GrewByte(r1: Ram, r2: Ram, q: int)
    requires OnlySetsAD(r1, r2)
    ensures GrewAD(LoadByte(r1, q), LoadByte(r2, q), q)
  {
    assert GrowsAD(WordAt(r1, WordKey(q)), WordAt(r2, WordKey(q)));
  }

  /** Entries of a TLB may go. */
  predicate Shrunk(t: Tlb, r: Tlb) { forall k :: 0 <= k < 256 ==> r[k].vaddr == INVALID || r[k] == t[k] }

  lemma ShrunkKeeps(banks: seq<Dirty.Bank>, t: Tlb, r: Tlb)
    requires Dirty.Inv(Dirty.Mem(banks, t)) && Shrunk(t, r)
    ensures Dirty.Inv(Dirty.Mem(banks, r))
  {
    forall k | 0 <= k < 256 ensures Dirty.EntryOk(Dirty.Mem(banks, r), r[k]) {
      assert Dirty.EntryOk(Dirty.Mem(banks, t), t[k]);
    }
  }

  /** A step that stores nothing: the walk may set bits, write entries may go. */
  lemma QuietMoves(s: System, m: Machine)
    requires Coupled(s) && Shrunk(s.m.tlb.write, m.tlb.write) && OnlySetsAD(s.m.core.ram, m.core.ram)
    ensures Moves(s, System(m, s.banks))
  {
    ShrunkKeeps(s.banks, s.m.tlb.write, m.tlb.write);
    forall i, q | 0 <= i < |s.banks| && s.banks[i].tracked && Dirty.Hosts(s.banks[i], q)
      ensures Seen(s, System(m, s.banks), i, q)
    {
      GrewByte(s.m.core.ram, m.core.ram, q);
    }
  }

  // ----- the walk -----

  lemma ResolveWrites(c: Core, addr: Addr, acc: Access)
    ensures OnlySetsAD(c.ram, Resolve(c, addr, acc).0.ram)
  {
    CommitOnlySetsAD(c, addr / PAGE, acc);
  }

  lemma LookupWrites(m: Machine, addr: Addr, log2: SizeLog2, acc: Access)
    ensures var m1 := Lookup(m, addr, log2, acc).0;
            OnlySetsAD(m.core.ram, m1.core.ram) && (acc != Write ==> m1.tlb.write == m.tlb.write)
  {
    ResolveWrites(m.core, addr, acc);
  }

  // ----- stores -----

  /** The ranges after target_write_slow, which sets the dirty bit; o is the outcome of the
      translation. */
  function BanksAfter(s: System, addr: Addr, o: Outcome): seq<Dirty.Bank>
    requires Dirty.AllShaped(MemOf(s))
  {
    if o.PageFault? then s.banks else Dirty.Store(MemOf(s), addr, o.page * PAGE + addr % PAGE).banks
  }

  /** The ranges after an aligned store. */
  function StoreBanks(s: System, addr: Addr, log2: SizeLog2): seq<Dirty.Bank>
    requires Dirty.AllShaped(MemOf(s))
  {
    if Hit(s.m.tlb.write, addr, log2) then s.banks else BanksAfter(s, addr, Translate(s.m.core, addr / PAGE, Write))
  }

  function StoreOne(s: System, addr: Addr, val: seq<bool>, log2: SizeLog2): System
    requires Dirty.AllShaped(MemOf(s)) && |val| >= 8 * Bytes(log2)
  {
    System(Store1(s.m, addr, val, log2).0, StoreBanks(s, addr, log2))
  }

  lemma AlignedHit(t: Tlb, addr: Addr, log2: SizeLog2)
    requires addr % Bytes(log2) == 0
    ensures Hit(t, addr, log2) <==> Hit(t, addr, 0)
  {
  }

  lemma SameCell(start: int, orgSize: int, x: int)
    requires start % PAGE == 0 && 0 <= start < orgSize && orgSize % PAGE == 0 && 0 <= x < PAGE
    ensures start <= start + x < orgSize && (start + x) / PAGE == start / PAGE
  {
  }

  /** Every byte a hit on the write TLB stores to is in a dirty page. */
  lemma HitIsDirty(d: Dirty.Mem, addr: Addr, n: int, i: int, q: int)
    requires Dirty.Inv(d) && Hit(d.tlb, addr, 0) && n in {1, 2, 4, 8} && addr % n == 0
    requires var ptr := d.tlb[Index(addr)].addend + addr; ptr <= q < ptr + n
    requires 0 <= i < |d.banks| && d.banks[i].tracked && Dirty.Hosts(d.banks[i], q)
    ensures Dirty.IsDirty(d.banks[i], PageIn(d.banks[i], q))
  {
    var e := d.tlb[Index(addr)];
    assert e.vaddr == PageBase(addr) && e.vaddr != INVALID;
    assert Dirty.EntryOk(d, e);
    var j :| 0 <= j < |d.banks| && Dirty.Backed(d.banks[j], Dirty.PageOf(e));
    var b := d.banks[j];
    RoomInPage(addr, n);
    SameCell(Dirty.PageOf(e) - b.mem, b.orgSize, q - Dirty.PageOf(e));
    assert Dirty.Hosts(b, q);
  }

  /** A store of n bytes at ptr after the walk, the write TLB holding ptr for addr. */
  lemma StoredMoves(s: System, t: System, addr: Addr, ptr: int, n: nat, val: seq<bool>, ram: Ram)
    requires Coupled(s) && SameMap(s, t) && Dirty.Inv(MemOf(t)) && n in {1, 2, 4, 8} && addr % n == 0 && |val| >= 8 * n
    requires forall i, p :: 0 <= i < |s.banks| && s.banks[i].tracked && Dirty.IsDirty(s.banks[i], p) ==> Dirty.IsDirty(t.banks[i], p)
    requires Hit(t.m.tlb.write, addr, 0) && t.m.tlb.write[Index(addr)].addend + addr == ptr
    requires OnlySetsAD(s.m.core.ram, ram) && ram.ranges == Dirty.Ranges(t.banks)
    requires t.m.core.ram == StoreAt(ram, ptr, n, val)
    ensures Moves(s, t)
  {
    StoreFrame(ram, ptr, n, val);
    forall i, q | 0 <= i < |s.banks| && s.banks[i].tracked && Dirty.Hosts(s.banks[i], q) ensures Seen(s, t, i, q) {
      if ptr <= q < ptr + n { HitIsDirty(MemOf(t), addr, n, i, q); } else { GrewByte(s.m.core.ram, ram, q); }
    }
  }

  /** What a missed store does to the bitmaps and the write TLB, when it reaches RAM. */
  lemma MissedStore(s: System, addr: Addr, paddr: int)
    requires Coupled(s) && !Hit(s.m.tlb.write, addr, 0) && addr % PAGE == paddr % PAGE && Dirty.InRam(MemOf(s), paddr)
    ensures IsRamAt(s.m.core.ram, paddr) && PlaceOf(s.m.core.ram, paddr) == Host(HostPtr(s.m.core.ram, paddr))
    ensures var d, ptr := Dirty.Store(MemOf(s), addr, paddr), HostPtr(s.m.core.ram, paddr);
            && Dirty.Inv(d) && d.tlb == Fill(s.m.tlb.write, addr, ptr) && Hit(d.tlb, addr, 0) && d.tlb[Index(addr)].addend + addr == ptr
            && Dirty.Ranges(d.banks) == Dirty.Ranges(s.banks) && SameMap(s, System(s.m, d.banks))
            && forall i, p :: 0 <= i < |s.banks| && s.banks[i].tracked && Dirty.IsDirty(s.banks[i], p) ==> Dirty.IsDirty(d.banks[i], p)
  {
    Dirty.StoreKeeps(MemOf(s), addr, paddr);
    forall i, p | 0 <= i < |s.banks| && s.banks[i].tracked && Dirty.IsDirty(s.banks[i], p)
      ensures Dirty.IsDirty(Dirty.Store(MemOf(s), addr, paddr).banks[i], p)
    {
      Dirty.StoreBit(MemOf(s), addr, paddr, i, p);
    }
  }

  /** target_write_slow with the outcome o of the translation. */
  function SlowStore(s: System, addr: Addr, val: seq<bool>, n: nat, o: Outcome): System
    requires Dirty.AllShaped(MemOf(s)) && |val| >= 8 * n
  {
    var (c, w) := Finish(s.m.core, addr, Write, o);
    System(if !w.Host? then s.m.(core := c)
           else Machine(c.(ram := StoreAt(c.ram, w.ptr, n, val)), s.m.tlb.(write := Fill(s.m.tlb.write, addr, w.ptr))),
           BanksAfter(s, addr, o))
  }

  function StoredAt(s: System, c: Core, addr: Addr, paddr: int, ptr: int, val: seq<bool>, n: nat): System
    requires Dirty.AllShaped(MemOf(s)) && |val| >= 8 * n
  {
    System(Machine(c.(ram := StoreAt(c.ram, ptr, n, val)), s.m.tlb.(write := Fill(s.m.tlb.write, addr, ptr))),
           Dirty.Store(MemOf(s), addr, paddr).banks)
  }

  lemma StoredAtMoves(s: System, c: Core, addr: Addr, paddr: int, ptr: int, val: seq<bool>, n: nat)
    requires Coupled(s) && n in {1, 2, 4, 8} && |val| >= 8 * n && addr % n == 0 && !Hit(s.m.tlb.write, addr, 0)
    requires addr % PAGE == paddr % PAGE && Dirty.InRam(MemOf(s), paddr) && IsRamAt(s.m.core.ram, paddr)
    requires ptr == HostPtr(s.m.core.ram, paddr) && OnlySetsAD(s.m.core.ram, c.ram)
    ensures Moves(s, StoredAt(s, c, addr, paddr, ptr, val, n))
  {
    MissedStore(s, addr, paddr);
    StoredMoves(s, StoredAt(s, c, addr, paddr, ptr, val, n), addr, ptr, n, val, c.ram);
  }

  lemma RamStoreIs(s: System, addr: Addr, val: seq<bool>, n: nat, o: Outcome, paddr: int)
    requires Dirty.AllShaped(MemOf(s)) && |val| >= 8 * n && !o.PageFault? && paddr == o.page * PAGE + addr % PAGE
    requires IsRamAt(s.m.core.ram, paddr) && PlaceOf(s.m.core.ram, paddr) == Host(HostPtr(s.m.core.ram, paddr))
    ensures SlowStore(s, addr, val, n, o) == StoredAt(s, Commit(s.m.core, o), addr, paddr, HostPtr(s.m.core.ram, paddr), val, n)
  {
  }

  /** What the walk of an access may write. */
  ghost predicate SetsADOnly(c: Core, o: Outcome) { OnlySetsAD(c.ram, Commit(c, o).ram) }

  lemma RamStoreMoves(s: System, addr: Addr, val: seq<bool>, n: nat, o: Outcome)
    requires Coupled(s) && n in {1, 2, 4, 8} && |val| >= 8 * n && addr % n == 0 && !Hit(s.m.tlb.write, addr, 0)
    requires !o.PageFault? && Dirty.InRam(MemOf(s), o.page * PAGE + addr % PAGE) && SetsADOnly(s.m.core, o)
    ensures Moves(s, SlowStore(s, addr, val, n, o))
  {
    var paddr := o.page * PAGE + addr % PAGE;
    assert addr % PAGE == paddr % PAGE;
    MissedStore(s, addr, paddr);
    RamStoreIs(s, addr, val, n, o, paddr);
    StoredAtMoves(s, Commit(s.m.core, o), addr, paddr, HostPtr(s.m.core.ram, paddr), val, n);
  }

  lemma NoRamMoves(s: System, addr: Addr, val: seq<bool>, n: nat, o: Outcome)
    requires Coupled(s) && |val| >= 8 * n && !Hit(s.m.tlb.write, addr, 0) && SetsADOnly(s.m.core, o)
    requires o.PageFault? || !Dirty.InRam(MemOf(s), o.page * PAGE + addr % PAGE)
    ensures Moves(s, SlowStore(s, addr, val, n, o))
  {
    QuietMoves(s, s.m.(core := Finish(s.m.core, addr, Write, o).0));
  }

  lemma SlowStoreMoves(s: System, addr: Addr, val: seq<bool>, n: nat, o: Outcome)
    requires Coupled(s) && n in {1, 2, 4, 8} && |val| >= 8 * n && addr % n == 0 && !Hit(s.m.tlb.write, addr, 0)
    requires SetsADOnly(s.m.core, o)
    ensures Moves(s, SlowStore(s, addr, val, n, o))
  {
    if !o.PageFault? && Dirty.InRam(MemOf(s), o.page * PAGE + addr % PAGE) {
      RamStoreMoves(s, addr, val, n, o);
    } else {
      NoRamMoves(s, addr, val, n, o);
    }
  }

  lemma SlowMachine(s: System, addr: Addr, val: seq<bool>, log2: SizeLog2, c: Core, w: Place, o: Outcome)
    requires Dirty.AllShaped(MemOf(s)) && |val| >= 8 * Bytes(log2) && !Hit(s.m.tlb.write, addr, log2)
    requires (c, w) == Resolve(s.m.core, addr, Write) == Finish(s.m.core, addr, Write, o)
    ensures Store1(s.m, addr, val, log2).0 == SlowStore(s, addr, val, Bytes(log2), o).m
  {
  }

  lemma MissIsSlow(s: System, addr: Addr, val: seq<bool>, log2: SizeLog2)
    requires Dirty.AllShaped(MemOf(s)) && |val| >= 8 * Bytes(log2) && !Hit(s.m.tlb.write, addr, log2)
    ensures StoreOne(s, addr, val, log2) == SlowStore(s, addr, val, Bytes(log2), Translate(s.m.core, addr / PAGE, Write))
  {
    var (c, w) := Resolve(s.m.core, addr, Write);
    SlowMachine(s, addr, val, log2, c, w, Translate(s.m.core, addr / PAGE, Write));
  }

  lemma StoreOneMoves(s: System, addr: Addr, val: seq<bool>, log2: SizeLog2)
    requires Coupled(s) && |val| >= 8 * Bytes(log2) && addr % Bytes(log2) == 0
    ensures Moves(s, StoreOne(s, addr, val, log2))
  {
    var t := s.m.tlb.write;
    AlignedHit(t, addr, log2);
    if Hit(t, addr, log2) {
      StoredMoves(s, StoreOne(s, addr, val, log2), addr, t[Index(addr)].addend + addr, Bytes(log2), val, s.m.core.ram);
    } else {
      MissIsSlow(s, addr, val, log2);
      CommitOnlySetsAD(s.m.core, addr / PAGE, Write);
      SlowStoreMoves(s, addr, val, Bytes(log2), Translate(s.m.core, addr / PAGE, Write));
    }
  }

  // ----- every operation of the CPU -----

  lemma BytesStep(m: Machine, addr: Addr, val: seq<bool>, n: nat, m1: Machine, r: Out)
    requires 0 < n && |val| >= 8 * n && (m1, r) == Store1(m, addr, val, 0)
    ensures StoreBytes(m, addr, val, n).0 == if r.Err? then m1 else StoreBytes(m1, Next(addr, 1), val[8..], n - 1).0
  {
  }

  /** The byte stores of an unaligned store. */
  ghost function StoreAll(s: System, addr: Addr, val: seq<bool>, n: nat): (r: System)
    requires Coupled(s) && |val| >= 8 * n
    ensures r.m == StoreBytes(s.m, addr, val, n).0
    decreases n
  {
    if n == 0 then s
    else
      StoreOneMoves(s, addr, val, 0);
      var s1, out := StoreOne(s, addr, val, 0), Store1(s.m, addr, val, 0).1;
      BytesStep(s.m, addr, val, n, s1.m, out);
      if out.Err? then s1 else StoreAll(s1, Next(addr, 1), val[8..], n - 1)
  }

  lemma {:induction false} StoreAllMoves(s: System, addr: Addr, val: seq<bool>, n: nat)
    requires Coupled(s) && |val| >= 8 * n
    ensures Moves(s, StoreAll(s, addr, val, n))
    decreases n
  {
    if n == 0 {
      MovesSelf(s);
    } else {
      StoreOneMoves(s, addr, val, 0);
      StoreAllRest(s, StoreOne(s, addr, val, 0), addr, val, n);
    }
  }

  lemma StoreAllRest(s: System, s1: System, addr: Addr, val: seq<bool>, n: nat)
    requires 0 < n && |val| >= 8 * n && Moves(s, s1) && s1 == StoreOne(s, addr, val, 0)
    ensures Moves(s, StoreAll(s, addr, val, n))
    decreases n, 0
  {
    if !Store1(s.m, addr, val, 0).1.Err? {
      StoreAllMoves(s1, Next(addr, 1), val[8..], n - 1);
      MovesTrans(s, s1, StoreAll(s1, Next(addr, 1), val[8..], n - 1));
    }
  }

  lemma LoadMoves(s: System, addr: Addr, log2: SizeLog2)
    requires Coupled(s)
    ensures Moves(s, System(Load(s.m, addr, log2).0, s.banks))
  {
    if addr % Bytes(log2) == 0 {
      LookupWrites(s.m, addr, log2, Read);
    } else {
      var (a0, a1, l) := Parts(addr, log2);
      var m1 := Load1(s.m, a0, l).0;
      LookupWrites(s.m, a0, l, Read);
      LookupWrites(m1, a1, l, Read);
      OnlySetsADTrans(s.m.core.ram, m1.core.ram, Load1(m1, a1, l).0.core.ram);
    }
    QuietMoves(s, Load(s.m, addr, log2).0);
  }

  lemma FetchMoves(s: System, addr: Addr)
    requires Coupled(s)
    ensures Moves(s, System(Fetch(s.m, addr).0, s.banks))
  {
    LookupWrites(s.m, addr, 0, Code);
    QuietMoves(s, Fetch(s.m, addr).0);
  }

  predicate IsAccess(op: ValidOp) { op.OLoad? || op.OStore? || op.OFetch? }

  lemma CsrKeepsRam(c: Core, csr: int, val: Word)
    ensures CoreWriteCsr(c, csr, val).ram == c.ram
  {
  }

  lemma ControlKeepsRam(m: Machine, op: ValidOp)
    requires !IsAccess(op)
    ensures Step(m, op).0.core.ram == m.core.ram
  {
    if op.OCsr? { CsrKeepsRam(m.core, op.csr, op.val); }
  }

  lemma ControlShrinks(m: Machine, op: ValidOp)
    requires !IsAccess(op)
    ensures Shrunk(m.tlb.write, Step(m, op).0.tlb.write)
  {
  }

  /** Operations without an access leave RAM alone and at most drop write entries. */
  lemma ControlMoves(s: System, op: ValidOp)
    requires Coupled(s) && !IsAccess(op)
    ensures Moves(s, System(Step(s.m, op).0, s.banks))
  {
    ControlKeepsRam(s.m, op);
    ControlShrinks(s.m, op);
    QuietMoves(s, Step(s.m, op).0);
  }

  // ----- events -----

  /** An operation of the CPU, a report, a single-page reset, or a byte a device writes through
      the pointer of phys_mem_get_ram_ptr. */
  datatype Event =
    | Cpu(op: ValidOp)
    | Report(i: int)
    | Reset(i: int, offset: int)
    | Dma(paddr: int, val: seq<bool>)

  ghost predicate Legal(s: System, e: Event) {
    match e
    case Cpu(_) => true
    case Report(i) => 0 <= i < |s.banks| && s.banks[i].tracked
    case Reset(i, offset) => 0 <= i < |s.banks| && 0 <= offset < s.banks[i].orgSize
    case Dma(_, val) => |val| == 8
  }

  function WithMem(s: System, d: Dirty.Mem): System { System(s.m.(tlb := s.m.tlb.(write := d.tlb)), d.banks) }

  ghost function AfterStore(s: System, addr: Addr, val: Word, log2: SizeLog2): System
    requires Coupled(s)
  {
    if addr % Bytes(log2) == 0 then StoreOne(s, addr, val, log2) else StoreAll(s, addr, val, Bytes(log2))
  }

  function AfterDma(s: System, paddr: int, val: seq<bool>): System
    requires Dirty.AllShaped(MemOf(s)) && |val| == 8
  {
    if !Dirty.InRam(MemOf(s), paddr) || !IsRamAt(s.m.core.ram, paddr) then s
    else
      System(s.m.(core := s.m.core.(ram := StoreByte(s.m.core.ram, HostPtr(s.m.core.ram, paddr), val))),
             Dirty.GetRamPtr(MemOf(s), paddr, true).banks)
  }

  /** The state after an event. */
  ghost function After(s: System, e: Event): System
    requires Coupled(s) && Legal(s, e)
  {
    match e
    case Cpu(op) => if op.OStore? then AfterStore(s, op.addr, op.val, op.log2) else System(Step(s.m, op).0, s.banks)
    case Report(i) => WithMem(s, Dirty.GetDirty(MemOf(s), i).0)
    case Reset(i, offset) => WithMem(s, Dirty.ResetDirty(MemOf(s), i, offset))
    case Dma(paddr, val) => AfterDma(s, paddr, val)
  }

  predicate Clears(e: Event, i: int, p: int) {
    match e
    case Report(j) => j == i
    case Reset(j, offset) => j == i && offset / PAGE == p
    case _ => false
  }

  /** An event keeps what it does not clear, and no other change of a byte goes unseen. */
  ghost predicate Tracks(s: System, t: System, e: Event) {
    && Coupled(s) && Coupled(t) && SameMap(s, t)
    && (forall i, p :: 0 <= i < |s.banks| && s.banks[i].tracked && Dirty.IsDirty(s.banks[i], p) && !Clears(e, i, p) ==> Dirty.IsDirty(t.banks[i], p))
    && (forall i, q :: 0 <= i < |s.banks| && s.banks[i].tracked && Dirty.Hosts(s.banks[i], q) ==> Seen(s, t, i, q))
  }

  lemma CpuMoves(s: System, op: ValidOp)
    requires Coupled(s)
    ensures var t := After(s, Cpu(op)); Moves(s, t) && t.m == Step(s.m, op).0
  {
    match op
    case OStore(a, v, l) =>
      if a % Bytes(l) == 0 { StoreOneMoves(s, a, v, l); } else { StoreAllMoves(s, a, v, Bytes(l)); }
    case OLoad(a, l) => LoadMoves(s, a, l);
    case OFetch(a) => FetchMoves(s, a);
    case _ => ControlMoves(s, op);
  }

  lemma ReportTracks(s: System, i: int)
    requires Coupled(s) && Legal(s, Report(i))
    ensures Tracks(s, After(s, Report(i)), Report(i))
  {
    var d := Dirty.GetDirty(MemOf(s), i).0;
    Dirty.GetDirtyKeeps(MemOf(s), i);
    forall j, p | 0 <= j < |s.banks| && s.banks[j].tracked ensures Dirty.IsDirty(d.banks[j], p) == (Dirty.IsDirty(s.banks[j], p) && i != j) {
      Dirty.GetBit(MemOf(s), i, j, p);
    }
  }

  lemma ResetTracks(s: System, i: int, offset: int)
    requires Coupled(s) && Legal(s, Reset(i, offset))
    ensures Tracks(s, After(s, Reset(i, offset)), Reset(i, offset))
  {
    var d := Dirty.ResetDirty(MemOf(s), i, offset);
    Dirty.ResetDirtyKeeps(MemOf(s), i, offset);
    forall j, p | 0 <= j < |s.banks| && s.banks[j].tracked
      ensures Dirty.IsDirty(d.banks[j], p) == (Dirty.IsDirty(s.banks[j], p) && !(i == j && offset / PAGE == p))
    {
      Dirty.ResetBit(MemOf(s), i, offset, j, p);
    }
  }

  lemma DmaHost(s: System, paddr: int, i: int)
    requires Coupled(s) && Dirty.InRam(MemOf(s), paddr) && 0 <= i < |s.banks|
    ensures IsRamAt(s.m.core.ram, paddr)
    ensures Dirty.Hosts(s.banks[i], HostPtr(s.m.core.ram, paddr)) ==>
              i == Dirty.FindBank(MemOf(s), paddr) && PageIn(s.banks[i], HostPtr(s.m.core.ram, paddr)) == (paddr - s.banks[i].addr) / PAGE
  {
    Dirty.Found(MemOf(s), paddr);
    assert Dirty.Hosts(s.banks[Dirty.FindBank(MemOf(s), paddr)], HostPtr(s.m.core.ram, paddr));
  }

  lemma DmaTracks(s: System, paddr: int, val: seq<bool>)
    requires Coupled(s) && |val| == 8
    ensures Tracks(s, AfterDma(s, paddr, val), Dma(paddr, val))
  {
    if Dirty.InRam(MemOf(s), paddr) {
      var t := AfterDma(s, paddr, val);
      Dirty.GetRamPtrKeeps(MemOf(s), paddr, true);
      forall i, p | 0 <= i < |s.banks| && s.banks[i].tracked
        ensures Dirty.IsDirty(t.banks[i], p) == (Dirty.IsDirty(s.banks[i], p) || (i == Dirty.FindBank(MemOf(s), paddr) && p == (paddr - s.banks[i].addr) / PAGE))
      {
        DmaHost(s, paddr, i);
        Dirty.PtrBit(MemOf(s), paddr, true, i, p);
      }
      forall i, q | 0 <= i < |s.banks| && s.banks[i].tracked && Dirty.Hosts(s.banks[i], q) ensures Seen(s, t, i, q) {
        DmaHost(s, paddr, i);
        if q != HostPtr(s.m.core.ram, paddr) { OtherByte(s.m.core.ram, HostPtr(s.m.core.ram, paddr), val, q); }
      }
    }
  }

  lemma AfterTracks(s: System, e: Event)
    requires Coupled(s) && Legal(s, e)
    ensures Tracks(s, After(s, e), e)
  {
    match e
    case Cpu(op) => CpuMoves(s, op);
    case Report(i) => ReportTracks(s, i);
    case Reset(i, offset) => ResetTracks(s, i, offset);
    case Dma(paddr, val) => DmaTracks(s, paddr, val);
  }

  // ----- runs -----

  ghost predicate IsRun(ss: seq<System>, es: seq<Event>) {
    && |ss| == |es| + 1 && Coupled(ss[0])
    && forall l :: 0 <= l < |es| ==> Coupled(ss[l]) && Legal(ss[l], es[l]) && After(ss[l], es[l]) == ss[l + 1]
  }

  lemma {:induction false} MapStays(ss: seq<System>, es: seq<Event>, k: nat)
    requires IsRun(ss, es) && k < |ss|
    ensures Coupled(ss[k]) && SameMap(ss[0], ss[k])
    decreases k
  {
    if k > 0 {
      MapStays(ss, es, k - 1);
      AfterTracks(ss[k - 1], es[k - 1]);
    }
  }

  lemma TrackedByte(s: System, t: System, e: Event, i: int, q: int, p: int)
    requires Tracks(s, t, e) && 0 <= i < |s.banks| && s.banks[i].tracked && Dirty.Hosts(s.banks[i], q)
    requires p == PageIn(s.banks[i], q) && !Clears(e, i, p)
    ensures |t.banks| == |s.banks| && t.banks[i].tracked
    ensures Dirty.IsDirty(s.banks[i], p) ==> Dirty.IsDirty(t.banks[i], p)
    ensures GrewAD(Byte(s, q), Byte(t, q), q) || Dirty.IsDirty(t.banks[i], p)
  {
    assert Seen(s, t, i, q);
  }

  /** One event: a dirty page stays so, and a byte of a clean one changes only in accessed and
      dirty bits. */
  lemma OneEvent(ss: seq<System>, es: seq<Event>, i: int, q: int, p: int, l: nat)
    requires IsRun(ss, es) && l < |es| && 0 <= i < |ss[0].banks| && ss[0].banks[i].tracked && Dirty.Hosts(ss[0].banks[i], q)
    requires p == PageIn(ss[0].banks[i], q) && !Clears(es[l], i, p)
    ensures Coupled(ss[l]) && Coupled(ss[l + 1]) && |ss[l].banks| == |ss[l + 1].banks| == |ss[0].banks|
    ensures ss[l].banks[i].tracked && ss[l + 1].banks[i].tracked
    ensures Dirty.IsDirty(ss[l].banks[i], p) ==> Dirty.IsDirty(ss[l + 1].banks[i], p)
    ensures GrewAD(Byte(ss[l], q), Byte(ss[l + 1], q), q) || Dirty.IsDirty(ss[l + 1].banks[i], p)
  {
    MapStays(ss, es, l);
    AfterTracks(ss[l], es[l]);
    TrackedByte(ss[l], After(ss[l], es[l]), es[l], i, q, p);
  }

  /** As long as the bit of its page is not cleared, a changed byte is in a dirty page, unless
      only accessed and dirty bits were set. */
  lemma {:induction false} ChangeIsSeen(ss: seq<System>, es: seq<Event>, i: int, q: int, p: int, j: nat, k: nat)
    requires IsRun(ss, es) && j <= k < |ss| && 0 <= i < |ss[0].banks| && ss[0].banks[i].tracked && Dirty.Hosts(ss[0].banks[i], q)
    requires p == PageIn(ss[0].banks[i], q) && forall l :: j <= l < k ==> !Clears(es[l], i, p)
    ensures Coupled(ss[k]) && |ss[k].banks| == |ss[0].banks| && ss[k].banks[i].tracked
    ensures GrewAD(Byte(ss[j], q), Byte(ss[k], q), q) || Dirty.IsDirty(ss[k].banks[i], p)
    decreases k
  {
    if k == j {
      MapStays(ss, es, k);
    } else {
      ChangeIsSeen(ss, es, i, q, p, j, k - 1);
      OneEvent(ss, es, i, q, p, k - 1);
      GrewTrans(Byte(ss[j], q), Byte(ss[k - 1], q), Byte(ss[k], q), q,
                Dirty.IsDirty(ss[k - 1].banks[i], p), Dirty.IsDirty(ss[k].banks[i], p));
    }
  }

  /** Between two reports of a range, with whatever the CPU and the devices do, and no reset of
      the page on its own: a byte of the range that changed is in a page of the second report,
      or it is the first byte of its word and only its bits 6 and 7 were set. */
  lemma ReportShowsChange(ss: seq<System>, es: seq<Event>, i: int, q: int, p: int, j: nat, k: nat)
    requires IsRun(ss, es) && j < k < |es| && es[j] == Report(i) && es[k] == Report(i)
    requires 0 <= i < |ss[0].banks| && ss[0].banks[i].tracked && Dirty.Hosts(ss[0].banks[i], q) && p == PageIn(ss[0].banks[i], q)
    requires forall l :: j < l < k ==> !Clears(es[l], i, p)
    ensures Coupled(ss[k]) && 0 <= i < |ss[k].banks| && ss[k].banks[i].tracked
    ensures Dirty.BitAt(Dirty.GetDirty(MemOf(ss[k]), i).1, p) || GrewAD(Byte(ss[j], q), Byte(ss[k], q), q)
  {
    ChangeIsSeen(ss, es, i, q, p, j + 1, k);
    assert After(ss[j], es[j]) == ss[j + 1];
  }

  // ----- what the walk writes is not reported -----

  function PtrOf(w: Place): set<int> { if w.Host? then {w.ptr} else {} }

  /** Where an aligned store goes in RAM, if it does. */
  function StorePtr(m: Machine, addr: Addr, log2: SizeLog2): set<int> { PtrOf(Lookup(m, addr, log2, Write).1) }

  function BytePtrs(m: Machine, addr: Addr, val: seq<bool>, n: nat): set<int>
    requires |val| >= 8 * n
    decreases n
  {
    if n == 0 then {}
    else
      var (m1, r) := Store1(m, addr, val, 0);
      StorePtr(m, addr, 0) + if r.Err? then {} else BytePtrs(m1, Next(addr, 1), val[8..], n - 1)
  }

  /** The host pointers an operation stores through; those of the walk are not among them. */
  function StorePtrs(m: Machine, op: ValidOp): set<int> {
    if !op.OStore? then {}
    else if op.addr % Bytes(op.log2) == 0 then StorePtr(m, op.addr, op.log2)
    else BytePtrs(m, op.addr, op.val, Bytes(op.log2))
  }

  ghost predicate InPage(b: Dirty.Bank, p: int, ptrs: set<int>) {
    exists ptr :: ptr in ptrs && Dirty.Hosts(b, ptr) && p == PageIn(b, ptr)
  }

  /** Page p of range i is dirty in t exactly when it was in s or one of ptrs is in it. */
  ghost predicate Dirties(s: System, t: System, ptrs: set<int>, i: int, p: int)
    requires Coupled(s) && 0 <= i < |s.banks| && s.banks[i].tracked
  {
    && Coupled(t) && SameMap(s, t)
    && (Dirty.IsDirty(t.banks[i], p) <==> Dirty.IsDirty(s.banks[i], p) || InPage(s.banks[i], p, ptrs))
  }

  lemma OnePtr(b: Dirty.Bank, p: int, ptr: int)
    ensures InPage(b, p, {ptr}) <==> Dirty.Hosts(b, ptr) && p == PageIn(b, ptr)
  {
    if Dirty.Hosts(b, ptr) && p == PageIn(b, ptr) { assert ptr in {ptr}; }
  }

  /** The host pointer of a missed store that reaches RAM. */
  lemma MissedTarget(s: System, addr: Addr, paddr: int)
    requires Coupled(s) && !Hit(s.m.tlb.write, addr, 0)
    ensures PlaceOf(s.m.core.ram, paddr).Host? <==> Dirty.InRam(MemOf(s), paddr)
    ensures Dirty.InRam(MemOf(s), paddr) ==> PlaceOf(s.m.core.ram, paddr) == Host(Dirty.Target(MemOf(s), addr, paddr))
  {
  }

  lemma HitDirties(s: System, addr: Addr, val: seq<bool>, log2: SizeLog2, i: int, p: int)
    requires Coupled(s) && |val| >= 8 * Bytes(log2) && addr % Bytes(log2) == 0 && Hit(s.m.tlb.write, addr, log2)
    requires 0 <= i < |s.banks| && s.banks[i].tracked
    ensures Dirties(s, StoreOne(s, addr, val, log2), StorePtr(s.m, addr, log2), i, p)
  {
    var ptr := s.m.tlb.write[Index(addr)].addend + addr;
    AlignedHit(s.m.tlb.write, addr, log2);
    StoreOneMoves(s, addr, val, log2);
    OnePtr(s.banks[i], p, ptr);
    if Dirty.Hosts(s.banks[i], ptr) { HitIsDirty(MemOf(s), addr, Bytes(log2), i, ptr); }
  }

  /** The bitmaps after a missed store to paddr. */
  lemma MissBanks(s: System, addr: Addr, paddr: int, i: int, p: int)
    requires Coupled(s) && !Hit(s.m.tlb.write, addr, 0) && addr % PAGE == paddr % PAGE
    requires 0 <= i < |s.banks| && s.banks[i].tracked
    ensures var banks := Dirty.Store(MemOf(s), addr, paddr).banks;
            && |banks| == |s.banks| && Dirty.Shaped(banks[i]) && banks[i].tracked
            && (Dirty.IsDirty(banks[i], p) <==>
                  Dirty.IsDirty(s.banks[i], p) || InPage(s.banks[i], p, PtrOf(PlaceOf(s.m.core.ram, paddr))))
  {
    Dirty.StoreBit(MemOf(s), addr, paddr, i, p);
    MissedTarget(s, addr, paddr);
    if Dirty.InRam(MemOf(s), paddr) { OnePtr(s.banks[i], p, Dirty.Target(MemOf(s), addr, paddr)); }
  }

  /** The pointer of a missed store; w is where the outcome o of its translation leads. */
  lemma MissPtr(m: Machine, addr: Addr, log2: SizeLog2, o: Outcome, c: Core, w: Place)
    requires !Hit(m.tlb.write, addr, log2) && (c, w) == Resolve(m.core, addr, Write) == Finish(m.core, addr, Write, o)
    ensures StorePtr(m, addr, log2) == if o.PageFault? then {} else PtrOf(PlaceOf(m.core.ram, o.page * PAGE + addr % PAGE))
  {
  }

  lemma SlowDirties(s: System, t: System, addr: Addr, o: Outcome, i: int, p: int)
    requires Moves(s, t) && !Hit(s.m.tlb.write, addr, 0) && 0 <= i < |s.banks| && s.banks[i].tracked
    requires t.banks == BanksAfter(s, addr, o)
    ensures Dirties(s, t, if o.PageFault? then {} else PtrOf(PlaceOf(s.m.core.ram, o.page * PAGE + addr % PAGE)), i, p)
  {
    if !o.PageFault? {
      var paddr := o.page * PAGE + addr % PAGE;
      assert addr % PAGE == paddr % PAGE;
      MissBanks(s, addr, paddr, i, p);
    }
  }

  lemma MissDirties(s: System, addr: Addr, val: seq<bool>, log2: SizeLog2, i: int, p: int)
    requires Coupled(s) && |val| >= 8 * Bytes(log2) && addr % Bytes(log2) == 0 && !Hit(s.m.tlb.write, addr, log2)
    requires 0 <= i < |s.banks| && s.banks[i].tracked
    ensures Dirties(s, StoreOne(s, addr, val, log2), StorePtr(s.m, addr, log2), i, p)
  {
    var o := Translate(s.m.core, addr / PAGE, Write);
    var (c, w) := Resolve(s.m.core, addr, Write);
    AlignedHit(s.m.tlb.write, addr, log2);
    StoreOneMoves(s, addr, val, log2);
    MissPtr(s.m, addr, log2, o, c, w);
    SlowDirties(s, StoreOne(s, addr, val, log2), addr, o, i, p);
  }

  lemma StoreOneDirties(s: System, addr: Addr, val: seq<bool>, log2: SizeLog2, i: int, p: int)
    requires Coupled(s) && |val| >= 8 * Bytes(log2) && addr % Bytes(log2) == 0
    requires 0 <= i < |s.banks| && s.banks[i].tracked
    ensures Dirties(s, StoreOne(s, addr, val, log2), StorePtr(s.m, addr, log2), i, p)
  {
    if Hit(s.m.tlb.write, addr, log2) { HitDirties(s, addr, val, log2, i, p); } else { MissDirties(s, addr, val, log2, i, p); }
  }

  lemma DirtiesTrans(s: System, t: System, u: System, ptrs: set<int>, more: set<int>, i: int, p: int)
    requires Coupled(s) && 0 <= i < |s.banks| && s.banks[i].tracked && Dirties(s, t, ptrs, i, p)
    requires Dirties(t, u, more, i, p)
    ensures Dirties(s, u, ptrs + more, i, p)
  {
    assert InPage(s.banks[i], p, ptrs + more) <==> InPage(s.banks[i], p, ptrs) || InPage(t.banks[i], p, more) by {
      if InPage(s.banks[i], p, ptrs) { var ptr :| ptr in ptrs && Dirty.Hosts(s.banks[i], ptr) && p == PageIn(s.banks[i], ptr); assert ptr in ptrs + more; }
      if InPage(t.banks[i], p, more) { var ptr :| ptr in more && Dirty.Hosts(t.banks[i], ptr) && p == PageIn(t.banks[i], ptr); assert ptr in ptrs + more; }
    }
  }

  lemma {:induction false} StoreAllDirties(s: System, addr: Addr, val: seq<bool>, n: nat, i: int, p: int)
    requires Coupled(s) && |val| >= 8 * n && 0 <= i < |s.banks| && s.banks[i].tracked
    ensures Dirties(s, StoreAll(s, addr, val, n), BytePtrs(s.m, addr, val, n), i, p)
    decreases n
  {
    if n > 0 {
      StoreOneDirties(s, addr, val, 0, i, p);
      var s1, r := StoreOne(s, addr, val, 0), Store1(s.m, addr, val, 0).1;
      if !r.Err? {
        StoreAllDirties(s1, Next(addr, 1), val[8..], n - 1, i, p);
        DirtiesTrans(s, s1, StoreAll(s1, Next(addr, 1), val[8..], n - 1), StorePtr(s.m, addr, 0),
                     BytePtrs(s1.m, Next(addr, 1), val[8..], n - 1), i, p);
      }
    }
  }

  lemma StoreDirties(s: System, addr: Addr, val: Word, log2: SizeLog2, i: int, p: int)
    requires Coupled(s) && 0 <= i < |s.banks| && s.banks[i].tracked
    ensures Dirties(s, AfterStore(s, addr, val, log2), StorePtrs(s.m, OStore(addr, val, log2)), i, p)
  {
    if addr % Bytes(log2) == 0 { StoreOneDirties(s, addr, val, log2, i, p); }
    else { StoreAllDirties(s, addr, val, Bytes(log2), i, p); }
  }

  /** What every operation of the CPU marks: exactly the pages it stores to. The walks mark
      none, those of stores included. */
  lemma CpuDirties(s: System, op: ValidOp, i: int, p: int)
    requires Coupled(s) && 0 <= i < |s.banks| && s.banks[i].tracked
    ensures Dirties(s, After(s, Cpu(op)), StorePtrs(s.m, op), i, p)
  {
    if op.OStore? { StoreDirties(s, op.addr, op.val, op.log2, i, p); } else { CpuMoves(s, op); }
  }

  /** The event stores into page p of range i: an operation of the CPU, or a device. */
  ghost predicate Marks(s: System, e: Event, i: int, p: int) {
    && 0 <= i < |s.banks|
    && match e
       case Cpu(op) => InPage(s.banks[i], p, StorePtrs(s.m, op))
       case Dma(paddr, _) => Dirty.InRam(MemOf(s), paddr) && i == Dirty.FindBank(MemOf(s), paddr) && p == (paddr - s.banks[i].addr) / PAGE
       case _ => false
  }

  lemma DmaBit(s: System, paddr: int, val: seq<bool>, i: int, p: int)
    requires Coupled(s) && |val| == 8 && 0 <= i < |s.banks| && s.banks[i].tracked
    ensures var t := AfterDma(s, paddr, val);
            && Coupled(t) && SameMap(s, t)
            && (Dirty.IsDirty(t.banks[i], p) <==> Dirty.IsDirty(s.banks[i], p) || Marks(s, Dma(paddr, val), i, p))
  {
    DmaTracks(s, paddr, val);
    if Dirty.InRam(MemOf(s), paddr) {
      DmaHost(s, paddr, i);
      Dirty.Found(MemOf(s), paddr);
      Dirty.PtrBit(MemOf(s), paddr, true, i, p);
      assert Dirty.Hosts(s.banks[Dirty.FindBank(MemOf(s), paddr)], HostPtr(s.m.core.ram, paddr));
    }
  }

  /** What an event does to one dirty bit. */
  lemma AfterBit(s: System, e: Event, i: int, p: int)
    requires Coupled(s) && Legal(s, e) && 0 <= i < |s.banks| && s.banks[i].tracked
    ensures var t := After(s, e);
            && Coupled(t) && SameMap(s, t)
            && (Dirty.IsDirty(t.banks[i], p) <==> !Clears(e, i, p) && (Dirty.IsDirty(s.banks[i], p) || Marks(s, e, i, p)))
  {
    AfterTracks(s, e);
    match e
    case Cpu(op) => CpuDirties(s, op, i, p);
    case Report(j) => Dirty.GetBit(MemOf(s), j, i, p);
    case Reset(j, offset) => Dirty.ResetBit(MemOf(s), j, offset, i, p);
    case Dma(paddr, val) => DmaBit(s, paddr, val, i, p);
  }

  ghost predicate MarkedAt(ss: seq<System>, es: seq<Event>, i: int, p: int, l: int) {
    0 <= l < |es| < |ss| && Coupled(ss[l]) && Marks(ss[l], es[l], i, p)
  }

  ghost predicate MarkedIn(ss: seq<System>, es: seq<Event>, i: int, p: int, j: int, k: int) {
    exists l :: MarkedAt(ss, es, i, p, l) && j <= l < k
  }

  lemma MarkedNext(ss: seq<System>, es: seq<Event>, i: int, p: int, j: int, k: int)
    requires j <= k
    ensures MarkedIn(ss, es, i, p, j, k + 1) <==> MarkedIn(ss, es, i, p, j, k) || MarkedAt(ss, es, i, p, k)
  {
    if MarkedIn(ss, es, i, p, j, k + 1) {
      var l :| MarkedAt(ss, es, i, p, l) && j <= l < k + 1;
    }
  }

  /** While its bit is not cleared a page is dirty exactly when it was, or was stored to since. */
  lemma {:induction false} BitIsMarks(ss: seq<System>, es: seq<Event>, i: int, p: int, j: nat, k: nat)
    requires IsRun(ss, es) && j <= k < |ss| && 0 <= i < |ss[0].banks| && ss[0].banks[i].tracked
    requires forall l :: j <= l < k ==> !Clears(es[l], i, p)
    ensures Coupled(ss[j]) && Coupled(ss[k]) && SameMap(ss[0], ss[j]) && SameMap(ss[0], ss[k])
    ensures Dirty.IsDirty(ss[k].banks[i], p) <==> Dirty.IsDirty(ss[j].banks[i], p) || MarkedIn(ss, es, i, p, j, k)
    decreases k
  {
    if k == j {
      MapStays(ss, es, k);
    } else {
      BitIsMarks(ss, es, i, p, j, k - 1);
      MapStays(ss, es, k);
      AfterBit(ss[k - 1], es[k - 1], i, p);
      MarkedNext(ss, es, i, p, j, k - 1);
    }
  }

  /** Between two reports of a range, with no reset of the page on its own, the second report
      lists a page exactly when the CPU or a device stored to it in between. */
  lemma ReportListsStores(ss: seq<System>, es: seq<Event>, i: int, p: int, j: nat, k: nat)
    requires IsRun(ss, es) && j < k < |es| && es[j] == Report(i) && es[k] == Report(i)
    requires 0 <= i < |ss[0].banks| && ss[0].banks[i].tracked && forall l :: j < l < k ==> !Clears(es[l], i, p)
    ensures Coupled(ss[k]) && 0 <= i < |ss[k].banks| && ss[k].banks[i].tracked
    ensures Dirty.BitAt(Dirty.GetDirty(MemOf(ss[k]), i).1, p) <==> MarkedIn(ss, es, i, p, j + 1, k)
  {
    MapStays(ss, es, j);
    AfterBit(ss[j], es[j], i, p);
    BitIsMarks(ss, es, i, p, j + 1, k);
  }

  /** One page of RAM holding its own page table, whose entry has not been accessed. */
  function UnusedEntry(): Word { Zero()[PTE_V := true][PTE_R := true] }

  function UnusedTable(): Ram { Ram([Range(0, PAGE, true, 0)], map[8 := UnusedEntry()]) }

  function OneClean(): Dirty.Bank { Dirty.Bank(0, PAGE, PAGE, true, 0, true, [Dirty.Clean(1), Dirty.Clean(1)], 0) }

  /** S mode with the root table in page 0 */
  function UnusedSystem(): System {
    System(Machine(FillerCore(PRV_S, Zero(), 64, 2, MmuHazards.Sv39AtZero(), UnusedTable()), NoTlbs()), [OneClean()])
  }

  lemma UnusedWalk(reg: Regime)
    requires reg.priv == PRV_S
    ensures var o := WalkFrom(UnusedTable(), 0, 0x4_0000, 2, reg, Read);
            o.Leaf? && o.key == 8 && o.pte == UnusedEntry() && o.updated == Touch(UnusedEntry(), Read)
  {
    var ram := UnusedTable();
    assert FindRange(ram.ranges, 8) == 0;
    assert PteAddr(0, 0x4_0000, 2) == 8;
    assert PhysRead64(ram, 8) == UnusedEntry();
  }

  lemma UnusedTranslate(c: Core)
    requires c == UnusedSystem().m.core
    ensures var o := Translate(c, 0x4_0000, Read);
            o.Leaf? && o.key == 8 && o.pte == UnusedEntry() && o.updated == Touch(UnusedEntry(), Read)
  {
    MmuHazards.Sv39AtZeroFields();
    UnusedWalk(RegimeOf(c, Read));
    assert Translate(c, 0x4_0000, Read) == WalkFrom(UnusedTable(), 0, 0x4_0000, 2, RegimeOf(c, Read), Read);
  }

  /** A load that misses commits the walk's update. */
  lemma MissCommits(m: Machine, addr: Addr, o: Outcome)
    requires !Hit(m.tlb.read, addr, 0) && o == Translate(m.core, addr / PAGE, Read) && o.Leaf? && o.updated != o.pte
    ensures Step(m, OLoad(addr, 0)).0.core.ram == SetWord(m.core.ram, o.key, o.updated)
  {
  }

  lemma UnusedIsCoupled()
    ensures Coupled(UnusedSystem())
  {
    var d := MemOf(UnusedSystem());
    assert forall k :: 0 <= k < 256 ==> Dirty.EntryOk(d, d.tlb[k]);
  }

  lemma ByteOfWord(ram: Ram, w: Word)
    requires w[PTE_A] != WordAt(ram, 8)[PTE_A]
    ensures LoadByte(SetWord(ram, 8, w), 8) != LoadByte(ram, 8)
  {
    assert LoadByte(SetWord(ram, 8, w), 8)[PTE_A] == w[PTE_A];
  }

  /** A load whose walk changes a byte of a clean tracked page: the next report does not list
      the page. */
  lemma LoadUnreported(s: System, addr: Addr, o: Outcome, i: int, q: int)
    requires Coupled(s) && !Hit(s.m.tlb.read, addr, 0)
    requires o == Translate(s.m.core, addr / PAGE, Read) && o.Leaf? && o.updated != o.pte
    requires LoadByte(SetWord(s.m.core.ram, o.key, o.updated), q) != Byte(s, q)
    requires 0 <= i < |s.banks| && s.banks[i].tracked && !Dirty.IsDirty(s.banks[i], PageIn(s.banks[i], q))
    ensures var t := After(s, Cpu(OLoad(addr, 0)));
            && Byte(t, q) != Byte(s, q)
            && Coupled(t) && i < |t.banks| && t.banks[i].tracked
            && !Dirty.BitAt(Dirty.GetDirty(MemOf(t), i).1, PageIn(s.banks[i], q))
  {
    MissCommits(s.m, addr, o);
    CpuDirties(s, OLoad(addr, 0), i, PageIn(s.banks[i], q));
  }

  /** There is such a load. */
  lemma LoadUnreportedWitness() returns (s: System, addr: Addr, o: Outcome)
    ensures Coupled(s) && !Hit(s.m.tlb.read, addr, 0)
    ensures o == Translate(s.m.core, addr / PAGE, Read) && o.Leaf? && o.updated != o.pte
    ensures LoadByte(SetWord(s.m.core.ram, o.key, o.updated), 8) != Byte(s, 8)
    ensures |s.banks| == 1 && s.banks[0].tracked && Dirty.Hosts(s.banks[0], 8) && !Dirty.IsDirty(s.banks[0], PageIn(s.banks[0], 8))
  {
    s, addr := UnusedSystem(), 0x4000_0000;
    o := Translate(s.m.core, 0x4_0000, Read);
    UnusedIsCoupled();
    UnusedTranslate(s.m.core);
    ByteOfWord(s.m.core.ram, Touch(UnusedEntry(), Read));
  }
}
