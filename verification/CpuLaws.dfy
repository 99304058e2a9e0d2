// Address translation and the next pc of temu/riscv_cpu.c in the terms of the RISC-V Privileged
// Architecture v1.10: which bits of mstatus, satp and the leaf decide an access, where the
// physical address lies, and where an instruction goes on.

module CpuLaws {
  import opened Options
  import opened Arith
  import opened Bits
  import opened PhysMem
  import opened PageWalk
  import opened Cpu
  import opened Mmu
  import opened FetchLoop
  import opened FetchWalk
  import opened Guests
  import opened WalkInterp
  import SecondWalker
  import Unaligned

  // ----- which accesses are allowed -----

  /** MPRV (bit 17) makes loads and stores use MPP (bits 11 and 12). */
  function ModeOf(c: Core, acc: Access): nat {
    if acc != Code && c.mstatus[17] then (if c.mstatus[11] then 1 else 0) + (if c.mstatus[12] then 2 else 0) else c.priv
  }

  /** Bare, Sv39 or Sv48 in the mode field of satp. */
  predicate Mode(satp: Word, mode: int) {
    match mode
    case 0 => !satp[60] && !satp[61] && !satp[62] && !satp[63]
    case 8 => !satp[60] && !satp[61] && !satp[62] && satp[63]
    case 9 => satp[60] && !satp[61] && !satp[62] && satp[63]
    case _ => false
  }

  lemma ModeBits(satp: Word, mode: int)
    requires mode in {0, 8, 9}
    ensures SatpMode(satp) == mode <==> Mode(satp, mode)
  {
    NumOfFour(satp[60..64]);
  }

  /** The address is the sign extension of its low 39 or 48 bits. */
  predicate SignExtended(addr: Addr, mode: int) {
    if mode == 8 then addr / 0x40_0000_0000 in {0, 0x3FF_FFFF} else addr / 0x8000_0000_0000 in {0, 0x1_FFFF}
  }

  lemma CanonicalIsSigned(addr: Addr, mode: int)
    requires mode in {8, 9}
    ensures Canonical(addr / PAGE, Levels(mode)) <==> SignExtended(addr, mode)
  {
    DivModTwice(addr, PAGE, 0x400_0000);
    DivModTwice(addr, PAGE, 0x8_0000_0000);
  }

  /** The leaf of a page in the tables satp names, of three or four levels. */
  function LeafOf(c: Core, addr: Addr): SecondWalker.Found {
    SecondWalker.FindLeaf(c.ram, Num(c.satp[..44]), addr / PAGE, if c.satp[60] then 3 else 2)
  }

  /** The leaf lets the mode make the access: SUM is bit 18 and MXR bit 19 of mstatus. */
  predicate LeafAllows(pte: Word, mode: nat, sum: bool, mxr: bool, acc: Access) {
    && (mode == 1 ==> !pte[4] || sum) && (mode != 1 ==> pte[4])
    && (acc.Write? ==> pte[2]) && (acc.Code? ==> pte[3]) && (acc.Read? ==> pte[1] || (mxr && pte[3]))
  }

  lemma ModeIsPriv(c: Core, acc: Access)
    ensures EffectivePriv(c, acc) == ModeOf(c, acc)
  {
  }

  lemma NotDirect(c: Core, vp: int, acc: Access)
    requires EffectivePriv(c, acc) != PRV_M && SatpMode(c.satp) != 0
    ensures !Translate(c, vp, acc).Direct?
  {
    if UsesTables(c, vp, acc) {
      SecondWalker.WalkIsLeafThenCheck(c.ram, Num(c.satp[..44]), vp, Levels(SatpMode(c.satp)) - 1, RegimeOf(c, acc), acc);
    }
  }

  /** The address itself; M mode cuts it to the current XLEN. */
  function OwnAddress(c: Core, addr: Addr, acc: Access): int {
    if ModeOf(c, acc) == 3 && c.curXlen == 32 then addr % 0x1_0000_0000
    else if ModeOf(c, acc) == 3 && c.curXlen == 16 then addr % 0x1_0000
    else addr
  }

  /** M mode and Bare translate to the address itself, and nothing else does. */
  lemma DirectExact(c: Core, addr: Addr, acc: Access)
    ensures Translate(c, addr / PAGE, acc).Direct? <==> ModeOf(c, acc) == 3 || Mode(c.satp, 0)
    ensures Translate(c, addr / PAGE, acc).Direct? ==>
              Translate(c, addr / PAGE, acc).page * PAGE + addr % PAGE == OwnAddress(c, addr, acc)
  {
    ModeBits(c.satp, 0);
    ModeIsPriv(c, acc);
    DivModTwice(addr, PAGE, 0x10_0000);
    DivModTwice(addr, PAGE, 0x10);
    if EffectivePriv(c, acc) != PRV_M && SatpMode(c.satp) != 0 { NotDirect(c, addr / PAGE, acc); }
  }

  lemma TablesUsed(c: Core, addr: Addr, acc: Access)
    requires ModeOf(c, acc) != 3 && !Mode(c.satp, 0)
    ensures UsesTables(c, addr / PAGE, acc) <==>
              (Mode(c.satp, 8) && SignExtended(addr, 8)) || (Mode(c.satp, 9) && SignExtended(addr, 9))
  {
    ModeIsPriv(c, acc);
    ModeBits(c.satp, 0);
    ModeBits(c.satp, 8);
    ModeBits(c.satp, 9);
    CanonicalIsSigned(addr, 8);
    CanonicalIsSigned(addr, 9);
  }

  /** Everywhere else an access is allowed exactly when satp names Sv39 or Sv48, the address is
      the sign extension of its 39 or 48 low bits, the tables lead to a leaf, and the bits of the
      leaf allow it. */
  lemma AccessExact(c: Core, addr: Addr, acc: Access)
    requires ModeOf(c, acc) != 3 && !Mode(c.satp, 0)
    ensures Translate(c, addr / PAGE, acc).Leaf? <==>
              && ((Mode(c.satp, 8) && SignExtended(addr, 8)) || (Mode(c.satp, 9) && SignExtended(addr, 9)))
              && LeafOf(c, addr).LeafAt?
              && LeafAllows(LeafOf(c, addr).pte, ModeOf(c, acc), c.mstatus[18], c.mstatus[19], acc)
  {
    TablesUsed(c, addr, acc);
    DirectExact(c, addr, acc);
    ModeIsPriv(c, acc);
    if UsesTables(c, addr / PAGE, acc) {
      ModeBits(c.satp, 8);
      ModeBits(c.satp, 9);
      SecondWalker.WalkExact(c.ram, Num(c.satp[..44]), addr / PAGE, Levels(SatpMode(c.satp)) - 1, RegimeOf(c, acc), acc);
    }
  }

  // ----- where the access goes -----

  function Pow512(n: nat): int { if n == 0 then 1 else 512 * Pow512(n - 1) }

  lemma Powers512()
    ensures Pow512(1) == 512 && Pow512(2) == 0x4_0000 && Pow512(3) == 0x800_0000 && Pow512(4) == 0x10_0000_0000
  {
    assert Pow512(1) == 512;
    assert Pow512(2) == 0x4_0000;
    assert Pow512(3) == 0x800_0000;
  }

  /** The four table indices are the digits of the page number to base 512. */
  lemma IndicesAreDigits(vp: int)
    requires 0 <= vp
    ensures vp % Pow512(4) == Vpn(vp, 0) + Vpn(vp, 1) * Pow512(1) + Vpn(vp, 2) * Pow512(2) + Vpn(vp, 3) * Pow512(3)
    ensures forall lvl :: 0 <= lvl < 4 ==> 0 <= Vpn(vp, lvl) < 512
  {
    Powers512();
    DivModTwice(vp, 512, 512);
    DivModTwice(vp, 0x4_0000, 512);
    DivModTwice(vp, 0x800_0000, 512);
  }

  /** A leaf at a level maps 512^level pages: its high part is the entry's, its low part the
      address's. */
  lemma SuperpageExact(page: int, vp: int, lvl: nat)
    requires 0 <= page && 0 <= vp && lvl < 4
    ensures var n := Pow512(lvl); n > 0 && Splice(page, vp, lvl) / n == page / n && Splice(page, vp, lvl) % n == vp % n
  {
    Powers512();
    if lvl > 0 { DivModUnique(Splice(page, vp, lvl), Pow512(lvl), page / Pow512(lvl), vp % Pow512(lvl)); }
  }

  lemma Powers52()
    ensures Pow2(10) == 0x400 && Pow2(52) == 0x10_0000_0000_0000
  {
    assert Pow2(4) == 16;
    assert Pow2(8) == 0x100;
    Pow2Add(4, 6);
    Pow2Add(26, 26);
    Pow2Add(13, 13);
    assert Pow2(12) == 0x1000;
  }

  /** `(pte >> 10) << 12` in 64 bits */
  lemma PtePageExact(pte: Word)
    ensures Num(pte) / 0x400 % 0x10_0000_0000_0000 == PtePage(pte)
  {
    Powers52();
    var above := pte[10..];
    NumSplit(pte, 10);
    NumSplit(above, 52);
    assert above[..52] == pte[10..62];
    NumBound(pte[..10]);
    NumBound(pte[10..62]);
    DivModUnique(Num(pte), 0x400, Num(above), Num(pte[..10]));
    DivModUnique(Num(above), 0x10_0000_0000_0000, Num(above[52..]), PtePage(pte));
  }

  /** An address belongs to the one range that holds it, at its distance from the range's start;
      outside all ranges it is unmapped. */
  lemma PlaceExact(ram: Ram, paddr: int, i: nat)
    requires WellFormed(ram.ranges) && i < |ram.ranges| && InRange(ram.ranges[i], paddr)
    ensures var r := ram.ranges[i];
            PlaceOf(ram, paddr) == if r.isRam then Host(r.mem + (paddr - r.addr)) else Device(i, paddr - r.addr)
  {
    FindRangeIsFirst(ram.ranges, paddr);
  }

  lemma UnmappedExact(ram: Ram, paddr: int)
    ensures PlaceOf(ram, paddr) == Unmapped <==> forall r :: r in ram.ranges ==> !InRange(r, paddr)
  {
    FindRangeIsFirst(ram.ranges, paddr);
    var i := FindRange(ram.ranges, paddr);
    if i >= 0 { assert ram.ranges[i] in ram.ranges; }
  }

  // ----- what is executed -----

  /** half is the two bytes at a, each where a fetch of its own address would find it. */
  ghost predicate HalfAt(c: Core, a: Addr, half: seq<bool>) {
    |half| == 16 && ByteAt(c, Mmu.Next(a, 0), half[0..8]) && ByteAt(c, Mmu.Next(a, 1), half[8..16])
  }

  /** A fetch at a finds the byte, and changes nothing. */
  ghost predicate ByteAt(c: Core, a: Addr, byte: seq<bool>) {
    var (d, w) := Resolve(c, a, Code);
    d == c && w.Host? && byte == LoadByte(c.ram, w.ptr)
  }

  lemma TwoBytes(ram: Ram, p: int)
    ensures LoadAt(ram, p, 2)[0..8] == LoadByte(ram, p) && LoadAt(ram, p, 2)[8..16] == LoadByte(ram, p + 1)
  {
    assert LoadAt(ram, p, 2) == LoadByte(ram, p) + LoadAt(ram, p + 1, 1);
    assert LoadAt(ram, p + 1, 1) == LoadByte(ram, p + 1) + LoadAt(ram, p + 2, 0);
  }

  lemma ByteFetched(c: Core, a: Addr, c1: Core, p: int, k: nat)
    requires WellFormed(c.ram.ranges) && a % 2 == 0 && k < 2 && Resolve(c, a, Code) == (c1, Host(p))
    ensures WellFormed(c1.ram.ranges) && Resolve(c1, Mmu.Next(a, k), Code) == (c1, Host(p + k))
  {
    RoomInPage(a, 2);
    Unaligned.InOnePage(a, k);
    Unaligned.Again(c, a, Mmu.Next(a, k), Code);
  }

  lemma HalfOf(c1: Core, a: Addr, p: int, half: seq<bool>)
    requires half == LoadAt(c1.ram, p, 2)
    requires Resolve(c1, Mmu.Next(a, 0), Code) == (c1, Host(p)) && Resolve(c1, Mmu.Next(a, 1), Code) == (c1, Host(p + 1))
    ensures HalfAt(c1, a, half)
  {
    TwoBytes(c1.ram, p);
  }

  lemma FetchedAt(c: Core, a: Addr, c1: Core, p: int)
    ensures CoreFetch(c, a) == (c1, Ptr(p)) ==> Resolve(c, a, Code) == (c1, Host(p))
    ensures !CoreFetch(c, a).1.Ptr? ==> CoreFetch(c, a).0.pendingTval == a
  {
  }

  lemma HalfFetched(c: Core, a: Addr, c1: Core, p: int)
    requires WellFormed(c.ram.ranges) && a % 2 == 0 && CoreFetch(c, a) == (c1, Ptr(p))
    ensures WellFormed(c1.ram.ranges) && HalfAt(c1, a, LoadAt(c1.ram, p, 2))
  {
    FetchedAt(c, a, c1, p);
    ByteFetched(c, a, c1, p, 0);
    ByteFetched(c, a, c1, p, 1);
    HalfOf(c1, a, p, LoadAt(c1.ram, p, 2));
  }

  lemma NextEven(pc: Addr)
    requires pc % 2 == 0
    ensures Mmu.Next(pc, 2) % 2 == 0
  {
  }

  predicate Long(half: seq<bool>)
    requires |half| >= 2
  {
    half[0] && half[1]
  }

  lemma FirstFetched(c: Core, pc: Addr)
    requires WalkInsn(c, pc).1.Some?
    ensures CoreFetch(c, pc).1.Ptr?
  {
  }

  /** What the fetches at pc and pc + 2 make of the instruction. */
  lemma ShortInsn(c: Core, pc: Addr, c1: Core, p: int, d: Core, insn: seq<bool>)
    requires CoreFetch(c, pc) == (c1, Ptr(p)) && WalkInsn(c, pc) == (d, Some(insn)) && !Long(LoadAt(c1.ram, p, 2))
    ensures d == c1 && |insn| == 32 && insn[..16] == LoadAt(c1.ram, p, 2)
  {
  }

  lemma LongInsn(c: Core, pc: Addr, c1: Core, p: int, d: Core, insn: seq<bool>) returns (q: int)
    requires CoreFetch(c, pc) == (c1, Ptr(p)) && WalkInsn(c, pc) == (d, Some(insn)) && Long(LoadAt(c1.ram, p, 2))
    ensures CoreFetch(c1, Mmu.Next(pc, 2)) == (d, Ptr(q))
    ensures |insn| == 32 && insn[..16] == LoadAt(c1.ram, p, 2) && insn[16..] == LoadAt(d.ram, q, 2)
  {
    q := CoreFetch(c1, Mmu.Next(pc, 2)).1.ptr;
    assert insn == LoadAt(c1.ram, p, 2) + LoadAt(d.ram, q, 2);
  }

  /** The instruction is its bytes in address order: two from c1 on, the other two from d on. */
  ghost predicate InsnBytes(c1: Core, d: Core, pc: Addr, insn: seq<bool>) {
    && |insn| == 32 && HalfAt(c1, pc, insn[..16])
    && if Long(insn) then HalfAt(d, Mmu.Next(pc, 2), insn[16..]) else d == c1
  }

  lemma TwoLow(insn: seq<bool>)
    requires |insn| == 32
    ensures Long(insn) == Long(insn[..16])
  {
  }

  /** The instruction at an even pc is its bytes in address order: two, or four when the two low
      bits are set, each where a fetch of its own address finds it, even across pages. */
  lemma FetchIsBytes(c: Core, pc: Addr, d: Core, insn: seq<bool>)
    requires WellFormed(c.ram.ranges) && pc % 2 == 0 && WalkInsn(c, pc) == (d, Some(insn))
    ensures InsnBytes(CoreFetch(c, pc).0, d, pc, insn)
  {
    FirstFetched(c, pc);
    var (c1, out) := CoreFetch(c, pc);
    HalfFetched(c, pc, c1, out.ptr);
    if Long(LoadAt(c1.ram, out.ptr, 2)) {
      var q := LongInsn(c, pc, c1, out.ptr, d, insn);
      NextEven(pc);
      HalfFetched(c1, Mmu.Next(pc, 2), d, q);
    } else {
      ShortInsn(c, pc, c1, out.ptr, d, insn);
    }
    TwoLow(insn);
  }

  /** A fetch that fails reports the halfword it failed at. */
  lemma FetchFails(c: Core, pc: Addr)
    requires WalkInsn(c, pc).1.None?
    ensures WalkInsn(c, pc).0.pendingTval == if CoreFetch(c, pc).1.Ptr? then Mmu.Next(pc, 2) else pc
  {
  }

  // ----- where an instruction goes on -----

  /** A jump of a 32-bit loop stores the sign extension of the low 32 bits of its target, one of
      a 64-bit loop the target modulo 2^64. */
  lemma IntXExact(v: int)
    ensures IntX(64, v) == v % WORD_LIMIT
    ensures var s := (v + 0x8000_0000) % 0x1_0000_0000 - 0x8000_0000; IntX(32, v) == s % WORD_LIMIT
  {
    var low := v % 0x1_0000_0000;
    var q := v / 0x1_0000_0000;
    if low < 0x8000_0000 {
      DivModUnique(v + 0x8000_0000, 0x1_0000_0000, q, low + 0x8000_0000);
    } else {
      DivModUnique(v + 0x8000_0000, 0x1_0000_0000, q + 1, low - 0x8000_0000);
    }
  }

  /** The next instruction after one of two bytes, or of four when both low bits are set; the
      branch target in the current width; the register value with bit 0 cleared. */
  function Successor(d: Core, pc: Addr, insn: seq<bool>, end: End): int
    requires |insn| >= 2 && (end.Advance? || end.Branch? || end.JumpTo?)
  {
    match end
    case Branch(half) => if d.curXlen == 32 then (pc + 2 * half + 0x8000_0000) % 0x1_0000_0000 - 0x8000_0000 else pc + 2 * half
    case JumpTo(target) => 2 * Num(target[1..])
    case _ => pc + if insn[0] && insn[1] then 4 else 2
  }

  lemma EndPc(d: Core, x: Regs, y: Regs, pc: Addr, cycles: int, insn: seq<bool>, end: End)
    requires |insn| >= 2 && (end.Advance? || end.Branch? || end.JumpTo?)
    ensures var (e, z, flow) := CoreFinally(d, x, y, pc, insn, end);
            var next := WalkAfter(pc, cycles, e, z, flow);
            next.Going? && next.w.pc == Successor(d, pc, insn, end) % WORD_LIMIT && next.w.x == y && next.w.cycles == cycles - 1
  {
    match end
    case JumpTo(target) => WordRange(target);
    case Branch(half) => IntXExact(pc + 2 * half);
    case _ =>
  }

  /** Where an instruction goes on whose operations d came of, without a fault. */
  lemma NextPc(body: Body, c: Core, x: Regs, pc: Addr, cycles: int, insn: seq<bool>, ops: seq<BodyOp>, y: Regs, end: End, d: Core)
    requires |insn| >= 2 && (end.Advance? || end.Branch? || end.JumpTo?)
    requires body(c, x, pc, insn) == (ops, y, end) && CoreBody(c, insn, ops) == (d, true)
    ensures var next := WalkExec(body, c, x, pc, cycles, insn);
            next.Going? && next.w.pc == Successor(d, pc, insn, end) % WORD_LIMIT && next.w.x == y && next.w.cycles == cycles - 1
  {
    EndPc(d, x, y, pc, cycles, insn, end);
    assert CoreExec(body, c, x, pc, insn) == CoreFinally(d, x, y, pc, insn, end);
  }

  /** After a system instruction, which has four bytes, the loop goes on behind it or is left with
      the pc there. */
  lemma ResumePc(d: Core, x: Regs, y: Regs, pc: Addr, cycles: int, insn: seq<bool>, leaves: bool)
    ensures var (e, z, flow) := CoreFinally(d, x, y, pc, insn, Resume(leaves));
            var next := WalkAfter(pc, cycles, e, z, flow);
            if leaves then next == Stopped(d.(pc := (pc + 4) % WORD_LIMIT), y, cycles - 1)
            else next.Going? && next.w.pc == (pc + 4) % WORD_LIMIT && next.w.entering && next.w.x == y && next.w.cycles == cycles - 1
  {
  }
}
