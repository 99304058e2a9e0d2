// What csr_write of temu/riscv_cpu.c leaves behind: the writable bits of one register, and what
// csr_read then returns through each of the numbers that show it.

module CsrLaws {
  import opened Bits
  import opened PhysMem
  import opened PageWalk
  import opened Cpu
  import opened Mmu

  // ----- registers by number -----

  /** Registers that keep a number: tvec, scratch, epc, cause and tval of S and M. */
  const NUMBERS: set<int> := {0x105, 0x140, 0x141, 0x142, 0x143, 0x305, 0x340, 0x341, 0x342, 0x343}

  function NumberOf(c: Core, csr: int): int
    requires csr in NUMBERS
  {
    match csr
    case 0x105 => c.stvec
    case 0x140 => c.sscratch
    case 0x141 => c.sepc
    case 0x142 => c.scause
    case 0x143 => c.stval
    case 0x305 => c.mtvec
    case 0x340 => c.mscratch
    case 0x341 => c.mepc
    case 0x342 => c.mcause
    case _ => c.mtval
  }

  /** c with the register of a number taken from d. */
  function WithRegister(c: Core, csr: int, d: Core): Core {
    match csr
    case 0x100 => c.(mstatus := d.mstatus, fs := d.fs)
    case 0x300 => c.(mstatus := d.mstatus, fs := d.fs)
    case 0x104 => c.(mie := d.mie)
    case 0x304 => c.(mie := d.mie)
    case 0x144 => c.(mip := d.mip)
    case 0x344 => c.(mip := d.mip)
    case 0x105 => c.(stvec := d.stvec)
    case 0x106 => c.(scounteren := d.scounteren)
    case 0x140 => c.(sscratch := d.sscratch)
    case 0x141 => c.(sepc := d.sepc)
    case 0x142 => c.(scause := d.scause)
    case 0x143 => c.(stval := d.stval)
    case 0x180 => c.(satp := d.satp)
    case 0x301 => c.(mxl := d.mxl, curXlen := d.curXlen)
    case 0x302 => c.(medeleg := d.medeleg)
    case 0x303 => c.(mideleg := d.mideleg)
    case 0x305 => c.(mtvec := d.mtvec)
    case 0x306 => c.(mcounteren := d.mcounteren)
    case 0x340 => c.(mscratch := d.mscratch)
    case 0x341 => c.(mepc := d.mepc)
    case 0x342 => c.(mcause := d.mcause)
    case 0x343 => c.(mtval := d.mtval)
    case _ => c
  }

  lemma SupervisorOwn(c: Core, csr: int, val: Word)
    requires csr in CSRS && csr < 0x200
    ensures CoreWriteCsr(c, csr, val) == WithRegister(c, csr, CoreWriteCsr(c, csr, val))
  {
    if csr == 0x100 {} else if csr < 0x140 {} else if csr < 0x143 {} else {}
  }

  lemma MachineOwn(c: Core, csr: int, val: Word)
    requires csr in CSRS && csr >= 0x300
    ensures CoreWriteCsr(c, csr, val) == WithRegister(c, csr, CoreWriteCsr(c, csr, val))
  {
    if csr < 0x302 {} else if csr < 0x305 {} else if csr < 0x341 {} else {}
  }

  /** A write changes no register but its own. */
  lemma WritesOwn(c: Core, csr: int, val: Word)
    requires csr in CSRS
    ensures CoreWriteCsr(c, csr, val) == WithRegister(c, csr, CoreWriteCsr(c, csr, val))
  {
    if csr < 0x200 { SupervisorOwn(c, csr, val); } else { MachineOwn(c, csr, val); }
  }

  // ----- csr_read -----

  /** Registers that csr_read shows bit by bit. */
  const FLAGS: set<int> := {0x100, 0x104, 0x106, 0x144, 0x180, 0x300, 0x302, 0x303, 0x304, 0x306, 0x344}

  /** get_mstatus without the SD bit: the field FS is kept apart. */
  function Status(c: Core): Word {
    c.mstatus[FS := c.mstatus[FS] || c.fs in {1, 3}][FS + 1 := c.mstatus[FS + 1] || c.fs >= 2]
  }

  function Masked(w: Word, mask: set<int>): Word { seq(64, i requires 0 <= i < 64 => i in mask && w[i]) }

  /** get_mstatus: SD is the top bit of the current XLEN, where the word has one. */
  function WithSd(w: Word, xlen: int): Word {
    if 0 < xlen <= 64 && ((w[FS] && w[FS + 1]) || (w[15] && w[16])) then w[xlen - 1 := true] else w
  }

  /** csr_read of a register of FLAGS; sie and sip show delegated interrupts only. */
  function ReadFlags(c: Core, csr: int): (r: seq<bool>)
    requires csr in FLAGS
    ensures |r| == Width(csr)
  {
    match csr
    case 0x100 => WithSd(Masked(Status(c), SSTATUS_MASK), c.curXlen)
    case 0x104 => And32(c.mie, c.mideleg)
    case 0x106 => c.scounteren
    case 0x144 => And32(c.mip, c.mideleg)
    case 0x180 => c.satp
    case 0x300 => WithSd(Status(c), c.curXlen)
    case 0x302 => c.medeleg
    case 0x303 => c.mideleg
    case 0x304 => c.mie
    case 0x306 => c.mcounteren
    case _ => c.mip
  }

  function Width(csr: int): nat { if csr in {0x100, 0x180, 0x300} then 64 else 32 }

  // ----- what a write leaves -----

  /** Bare, Sv39 and Sv48 are the modes satp takes. */
  predicate KnownMode(val: Word) { !val[61] && !val[62] && (val[63] || !val[60]) }

  /** UXL names 32 or 64 bits. */
  predicate KnownUxl(val: Word) { val[32] != val[33] }

  /** The bits a write of val takes over from it. */
  predicate Writable(c: Core, csr: int, val: Word, i: nat)
    requires csr in FLAGS && i < Width(csr)
  {
    match csr
    case 0x100 => i in {0, 1, 4, 5, 8, 13, 14, 18, 19} || (i in {32, 33} && KnownUxl(val))
    case 0x104 => c.mideleg[i]
    case 0x106 => i in {0, 2}
    case 0x144 => c.mideleg[i]
    case 0x180 => i < 44 || (i >= 60 && KnownMode(val))
    case 0x300 => i in {0, 1, 3, 4, 5, 7, 8, 11, 12, 13, 14, 17, 18, 19} || (32 <= i < 36 && KnownUxl(val))
    case 0x302 => i < 16
    case 0x303 => i in {1, 5, 9}
    case 0x304 => i in {1, 3, 5, 7, 9}
    case 0x306 => i in {0, 2}
    case _ => i in {1, 5}
  }

  /** The bits a write clears: counters that do not exist, and the ASID. */
  predicate Cleared(csr: int, i: nat) {
    (csr in {0x106, 0x306} && i !in {0, 2}) || (csr == 0x180 && 44 <= i < 60)
  }

  /** FS is not kept in the stored mstatus. */
  predicate FsApart(c: Core) { !c.mstatus[FS] && !c.mstatus[FS + 1] }

  /** The bit that summarises FS and XS is computed, not stored. */
  predicate IsSd(c: Core, csr: int, i: nat) { csr in {0x100, 0x300} && i == c.curXlen - 1 }

  lemma SatpReads(c: Core, val: Word, i: nat)
    requires i < 64
    ensures CoreWriteSatp(c, val).satp[i] == if Writable(c, 0x180, val, i) then val[i] else if 44 <= i < 60 then false else c.satp[i]
  {
    NumOfFour(val[60..64]);
  }

  /** Writing mstatus takes the bits of mask, and FS. */
  lemma StatusMerged(c: Core, val: Word, i: nat)
    requires i < 64 && FsApart(c)
    ensures Status(CoreSetMstatus(c, val))[i] == if i in {FS, FS + 1} || i in MstatusWritable(val) then val[i] else Status(c)[i]
  {
    var d := CoreSetMstatus(c, val);
    assert d.mstatus[i] == if i in MstatusWritable(val) then val[i] else c.mstatus[i];
    if i == FS {} else if i == FS + 1 {} else {}
  }

  lemma UxlKnown(val: Word)
    ensures Field2(val, UXL) in {1, 2} <==> KnownUxl(val)
  {
  }

  lemma StatusReads(c: Core, val: Word, i: nat)
    requires i < 64 && FsApart(c)
    ensures Status(CoreSetMstatus(c, val))[i] == if Writable(c, 0x300, val, i) then val[i] else Status(c)[i]
  {
    StatusMerged(c, val, i);
    UxlKnown(val);
  }

  lemma SstatusReads(c: Core, val: Word, i: nat)
    requires i < 64 && FsApart(c)
    ensures Status(CoreSetMstatus(c, SstatusValue(c, val)))[i] == if Writable(c, 0x100, val, i) then val[i] else Status(c)[i]
  {
    StatusMerged(c, SstatusValue(c, val), i);
    UxlKnown(SstatusValue(c, val));
  }

  lemma StatusReadAfterWrite(c: Core, csr: int, val: Word, i: nat)
    requires csr in {0x100, 0x300} && i < 64 && FsApart(c) && !IsSd(c, csr, i)
    ensures ReadFlags(CoreWriteCsr(c, csr, val), csr)[i] == if Writable(c, csr, val, i) then val[i] else ReadFlags(c, csr)[i]
  {
    if csr == 0x100 { SstatusReads(c, val, i); } else { StatusReads(c, val, i); }
  }

  lemma SupervisorReadAfterWrite(c: Core, csr: int, val: Word, i: nat)
    requires csr in {0x104, 0x106, 0x144} && i < 32
    ensures ReadFlags(CoreWriteCsr(c, csr, val), csr)[i]
         == if Writable(c, csr, val, i) then val[i] else if Cleared(csr, i) then false else ReadFlags(c, csr)[i]
  {
    if csr == 0x104 {} else if csr == 0x106 {} else {}
  }

  lemma MachineReadAfterWrite(c: Core, csr: int, val: Word, i: nat)
    requires csr in {0x302, 0x303, 0x304, 0x306, 0x344} && i < 32
    ensures ReadFlags(CoreWriteCsr(c, csr, val), csr)[i]
         == if Writable(c, csr, val, i) then val[i] else if Cleared(csr, i) then false else ReadFlags(c, csr)[i]
  {
    if csr == 0x302 {} else if csr == 0x303 {} else if csr == 0x304 {} else if csr == 0x306 {} else {}
  }

  /** What csr_read returns after a write: the written value in the writable bits, the old one
      elsewhere. */
  lemma ReadAfterWrite(c: Core, csr: int, val: Word, i: nat)
    requires csr in FLAGS && i < Width(csr) && (csr in {0x100, 0x300} ==> FsApart(c)) && !IsSd(c, csr, i)
    ensures ReadFlags(CoreWriteCsr(c, csr, val), csr)[i]
         == if Writable(c, csr, val, i) then val[i] else if Cleared(csr, i) then false else ReadFlags(c, csr)[i]
  {
    if csr in {0x100, 0x300} {
      StatusReadAfterWrite(c, csr, val, i);
    } else if csr == 0x180 {
      SatpReads(c, val, i);
    } else if csr < 0x200 {
      SupervisorReadAfterWrite(c, csr, val, i);
    } else {
      MachineReadAfterWrite(c, csr, val, i);
    }
  }

  /** The registers that hold a number take the whole value; vectors are rounded down to a
      multiple of four and return addresses to an even one. */
  lemma NumberAfterWrite(c: Core, csr: int, val: Word)
    requires csr in NUMBERS
    ensures NumberOf(CoreWriteCsr(c, csr, val), csr)
         == if csr in {0x105, 0x305} then Num(val) / 4 * 4 else if csr in {0x141, 0x341} then Num(val) / 2 * 2 else Num(val)
  {
    if csr < 0x142 {} else if csr < 0x305 {} else {}
  }

  /** misa takes a width of 32 or 64 bits from the two top bits of the current XLEN, which then
      is the new XLEN; it keeps its width otherwise. */
  lemma MisaAfterWrite(c: Core, val: Word)
    requires c.curXlen in {16, 32, 64} && c.curXlen == XlenOf(c.mxl)
    ensures var (d, top) := (CoreWriteCsr(c, 0x301, val), c.curXlen - 1);
            && d.curXlen == XlenOf(d.mxl)
            && (val[top] != val[top - 1] ==> d.curXlen == if val[top] then 64 else 32)
            && (val[top] == val[top - 1] ==> d.curXlen == c.curXlen)
  {
  }

  // ----- what other numbers show -----

  /** The numbers through which the register of csr can be seen. */
  function Views(csr: int): set<int> {
    match csr
    case 0x100 => {0x100, 0x300}
    case 0x300 => {0x100, 0x300}
    case 0x104 => {0x104, 0x304}
    case 0x304 => {0x104, 0x304}
    case 0x144 => {0x144, 0x344}
    case 0x344 => {0x144, 0x344}
    case 0x303 => {0x303, 0x104, 0x144}
    case 0x301 => {0x301, 0x100, 0x300}
    case _ => {csr}
  }

  lemma OthersReadSame(c: Core, d: Core, csr: int, other: int)
    requires csr in CSRS && other !in Views(csr)
    ensures other in FLAGS ==> ReadFlags(WithRegister(c, csr, d), other) == ReadFlags(c, other)
    ensures other in NUMBERS ==> NumberOf(WithRegister(c, csr, d), other) == NumberOf(c, other)
  {
    if csr < 0x106 {} else if csr < 0x143 {} else if csr < 0x302 {} else if csr < 0x306 {} else {}
  }

  /** Every number that does not show the written register reads as before. */
  lemma OthersUnchanged(c: Core, csr: int, val: Word, other: int)
    requires csr in CSRS && other !in Views(csr)
    ensures other in FLAGS ==> ReadFlags(CoreWriteCsr(c, csr, val), other) == ReadFlags(c, other)
    ensures other in NUMBERS ==> NumberOf(CoreWriteCsr(c, csr, val), other) == NumberOf(c, other)
  {
    WritesOwn(c, csr, val);
    OthersReadSame(c, CoreWriteCsr(c, csr, val), csr, other);
  }

  /** Through sie and sip the supervisor changes delegated interrupts only, and mie and mip show
      each bit it wrote. */
  lemma SupervisorView(c: Core, val: Word, i: nat)
    requires i < 32
    ensures ReadFlags(CoreWriteCsr(c, 0x104, val), 0x304)[i] == if c.mideleg[i] then val[i] else ReadFlags(c, 0x304)[i]
    ensures ReadFlags(CoreWriteCsr(c, 0x144, val), 0x344)[i] == if c.mideleg[i] then val[i] else ReadFlags(c, 0x344)[i]
  {
  }

  /** A write of sstatus shows in mstatus, in the bits of sstatus only. */
  lemma SstatusInMstatus(c: Core, val: Word, i: nat)
    requires i < 64 && FsApart(c) && !IsSd(c, 0x300, i)
    ensures ReadFlags(CoreWriteCsr(c, 0x100, val), 0x300)[i] == if Writable(c, 0x100, val, i) then val[i] else ReadFlags(c, 0x300)[i]
  {
    SstatusReads(c, val, i);
  }
}
