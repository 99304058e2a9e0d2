// Dirty pages of temu/iomem.c: double-buffered bitmaps kept in step with the write TLB
// of temu/riscv_cpu.c. Every store between two reports is in the second one.

module Dirty {
  import opened Bits
  import opened PhysMem
  import opened Cpu
  import opened Mmu

  /** PhysMemoryRange with its bitmaps; `tab` is dirty_bits_tab, used when `tracked`. */
  datatype Bank = Bank(addr: int, orgSize: int, size: int, isRam: bool, mem: int, tracked: bool, tab: seq<seq<Word32>>, index: int)

  datatype Mem = Mem(banks: seq<Bank>, tlb: Tlb)

  // ----- bitmaps -----

  predicate BitAt(words: seq<Word32>, page: int) { 0 <= page && page / 32 < |words| && words[page / 32][page % 32] }

  function PutBit(words: seq<Word32>, page: int, bit: bool): seq<Word32> {
    if 0 <= page && page / 32 < |words| then words[page / 32 := words[page / 32][page % 32 := bit]] else words
  }

  function Clean(n: nat): seq<Word32> { seq(n, _ => Zero32()) }

  /** dirty_bits, as a number of 32-bit words */
  function MapWords(orgSize: int): int { (orgSize / PAGE + 31) / 32 }

  predicate Shaped(b: Bank) {
    && (b.isRam ==> b.orgSize > 0 && b.orgSize % PAGE == 0 && b.addr % PAGE == 0)
    && (b.size == 0 || b.size == b.orgSize)
    && (b.tracked ==> b.isRam && |b.tab| == 2 && 0 <= b.index < 2 && |b.tab[0]| == |b.tab[1]| == MapWords(b.orgSize))
  }

  type ValidBank = b: Bank | Shaped(b) witness Bank(0, 0, 0, false, 0, false, [], 0)

  /** The bitmap in use. */
  function Current(b: Bank): seq<Word32>
    requires Shaped(b) && b.tracked
  {
    b.tab[b.index]
  }

  predicate IsDirty(b: Bank, page: int)
    requires Shaped(b) && b.tracked
  {
    BitAt(Current(b), page)
  }

  function SetCurrent(b: Bank, words: seq<Word32>): Bank
    requires Shaped(b) && b.tracked
  {
    b.(tab := b.tab[b.index := words])
  }

  /** phys_mem_set_dirty_bit */
  function SetDirty(b: Bank, offset: int): Bank
    requires Shaped(b)
  {
    if b.tracked then SetCurrent(b, PutBit(Current(b), offset / PAGE, true)) else b
  }

  // ----- operations -----

  ghost predicate AllShaped(m: Mem) { forall i :: 0 <= i < |m.banks| ==> Shaped(m.banks[i]) }

  function Ranges(banks: seq<Bank>): (r: seq<Range>)
    ensures |r| == |banks|
  {
    seq(|banks|, i requires 0 <= i < |banks| => Range(banks[i].addr, banks[i].size, banks[i].isRam, banks[i].mem))
  }

  /** get_phys_mem_range */
  function FindBank(m: Mem, paddr: int): (i: int)
    ensures -1 <= i < |m.banks|
  {
    FindRange(Ranges(m.banks), paddr)
  }

  predicate InRam(m: Mem, paddr: int) { FindBank(m, paddr) >= 0 && m.banks[FindBank(m, paddr)].isRam }

  /** A store to an address that translates to paddr, aligned to its size: the write TLB or
      target_write_slow. */
  function Store(m: Mem, addr: int, paddr: int): Mem
    requires AllShaped(m)
  {
    if Hit(m.tlb, addr, 0) || !InRam(m, paddr) then m
    else
      var i := FindBank(m, paddr);
      var b := m.banks[i];
      Mem(m.banks[i := SetDirty(b, paddr - b.addr)], Fill(m.tlb, addr, b.mem + (paddr - b.addr)))
  }

  /** The host byte a store writes, if it writes RAM. */
  function Target(m: Mem, addr: int, paddr: int): (ptr: int)
    requires Hit(m.tlb, addr, 0) || InRam(m, paddr)
  {
    if Hit(m.tlb, addr, 0) then m.tlb[Index(addr)].addend + addr
    else var b := m.banks[FindBank(m, paddr)]; b.mem + (paddr - b.addr)
  }

  predicate AnyBit(words: seq<Word32>) { exists i :: 0 <= i < |words| && words[i] != Zero32() }

  /** default_get_dirty_bits: reports the bitmap in use and takes the other one, cleared. */
  function GetDirty(m: Mem, i: int): (Mem, seq<Word32>)
    requires AllShaped(m) && 0 <= i < |m.banks| && m.banks[i].tracked
  {
    var b := m.banks[i];
    var tlb := if AnyBit(Current(b)) && b.size != 0 then DropWrites(m.tlb, b.mem, b.orgSize) else m.tlb;
    var other := b.(index := 1 - b.index);
    (Mem(m.banks[i := SetCurrent(other, Clean(|Current(b)|))], tlb), Current(b))
  }

  /** phys_mem_reset_dirty_bit */
  function ResetDirty(m: Mem, i: int, offset: int): Mem
    requires AllShaped(m) && 0 <= i < |m.banks|
  {
    var b := m.banks[i];
    if !b.tracked || !IsDirty(b, offset / PAGE) then m
    else
      Mem(m.banks[i := SetCurrent(b, PutBit(Current(b), offset / PAGE, false))],
          DropWrites(m.tlb, b.mem + offset / PAGE * PAGE, PAGE))
  }

  /** default_set_addr */
  function SetAddr(m: Mem, i: int, addr: int, enabled: bool): Mem
    requires 0 <= i < |m.banks|
  {
    var b := m.banks[i];
    var tlb := if b.isRam then DropWrites(m.tlb, b.mem, b.orgSize) else m.tlb;
    if enabled then
      if b.size == 0 || b.addr != addr then Mem(m.banks[i := b.(addr := addr, size := b.orgSize)], tlb) else m
    else if b.size != 0 then Mem(m.banks[i := b.(addr := 0, size := 0)], tlb)
    else m
  }

  /** phys_mem_get_ram_ptr: a device asks for a pointer into a page. */
  function GetRamPtr(m: Mem, paddr: int, isRw: bool): Mem
    requires AllShaped(m)
  {
    if !InRam(m, paddr) || !isRw then m
    else
      var i := FindBank(m, paddr);
      m.(banks := m.banks[i := SetDirty(m.banks[i], paddr - m.banks[i].addr)])
  }

  // ----- the invariant -----

  /** The host bytes of a range. */
  predicate Hosts(b: Bank, ptr: int) { b.isRam && b.mem <= ptr < b.mem + b.orgSize }

  ghost predicate Apart(m: Mem) {
    forall i, j, ptr :: 0 <= i < |m.banks| && 0 <= j < |m.banks| && Hosts(m.banks[i], ptr) && Hosts(m.banks[j], ptr) ==> i == j
  }

  /** A write-TLB entry leads into an enabled range, to the start of a page that is dirty. */
  predicate Backed(b: Bank, ptr: int) {
    && Shaped(b) && Hosts(b, ptr) && b.size != 0 && (ptr - b.mem) % PAGE == 0
    && (b.tracked ==> IsDirty(b, (ptr - b.mem) / PAGE))
  }

  function PageOf(e: TlbEntry): int { e.addend + e.vaddr }

  ghost predicate EntryOk(m: Mem, e: TlbEntry) {
    e.vaddr != INVALID ==> e.vaddr % PAGE == 0 && exists i :: 0 <= i < |m.banks| && Backed(m.banks[i], PageOf(e))
  }

  ghost predicate TlbOk(m: Mem) { forall k :: 0 <= k < 256 ==> EntryOk(m, m.tlb[k]) }

  ghost predicate Inv(m: Mem) { AllShaped(m) && Apart(m) && TlbOk(m) }

  // ----- it is kept -----

  lemma BankUpdateKeeps(m: Mem, i: int, b: Bank, tlb: Tlb)
    requires Inv(m) && 0 <= i < |m.banks| && Shaped(b)
    requires b.isRam == m.banks[i].isRam && b.mem == m.banks[i].mem && b.orgSize == m.banks[i].orgSize
    requires forall k :: 0 <= k < 256 ==>
      || tlb[k].vaddr == INVALID
      || (tlb[k].vaddr % PAGE == 0 && Backed(b, PageOf(tlb[k])))
      || (tlb[k] == m.tlb[k] && (Backed(m.banks[i], PageOf(tlb[k])) ==> Backed(b, PageOf(tlb[k]))))
    ensures Inv(Mem(m.banks[i := b], tlb))
  {
    var r := Mem(m.banks[i := b], tlb);
    assert forall j, ptr :: 0 <= j < |m.banks| ==> (Hosts(r.banks[j], ptr) <==> Hosts(m.banks[j], ptr));
    forall k | 0 <= k < 256 ensures EntryOk(r, r.tlb[k]) {
      if tlb[k].vaddr != INVALID {
        if tlb[k].vaddr % PAGE == 0 && Backed(b, PageOf(tlb[k])) {
          assert Backed(r.banks[i], PageOf(tlb[k]));
        } else {
          assert EntryOk(m, m.tlb[k]);
          var j :| 0 <= j < |m.banks| && Backed(m.banks[j], PageOf(m.tlb[k]));
          assert Backed(r.banks[j], PageOf(tlb[k]));
        }
      }
    }
  }

  lemma PutBitBits(words: seq<Word32>, page: int, bit: bool, p: int)
    requires 0 <= page && page / 32 < |words|
    ensures |PutBit(words, page, bit)| == |words|
    ensures BitAt(PutBit(words, page, bit), p) == if p == page then bit else BitAt(words, p)
  {
    if p / 32 == page / 32 && p % 32 == page % 32 { assert p == page; }
  }

  /** A page of a range has its bit in the map. */
  lemma PageInMap(orgSize: int, offset: int)
    requires orgSize > 0 && orgSize % PAGE == 0 && 0 <= offset < orgSize
    ensures 0 <= offset / PAGE < orgSize / PAGE && offset / PAGE / 32 < MapWords(orgSize)
  {
  }

  lemma SetDirtyBits(b: Bank, offset: int, p: int)
    requires Shaped(b) && b.isRam && 0 <= offset < b.orgSize
    ensures Shaped(SetDirty(b, offset))
    ensures b.tracked ==> IsDirty(SetDirty(b, offset), p) == (p == offset / PAGE || IsDirty(b, p))
  {
    PageInMap(b.orgSize, offset);
    if b.tracked { PutBitBits(Current(b), offset / PAGE, true, p); }
  }

  lemma Found(m: Mem, paddr: int)
    requires AllShaped(m) && InRam(m, paddr)
    ensures var b := m.banks[FindBank(m, paddr)]; b.size == b.orgSize != 0 && 0 <= paddr - b.addr < b.orgSize
  {
    FindRangeIsFirst(Ranges(m.banks), paddr);
  }

  lemma SetDirtyKeeps(m: Mem, i: int, offset: int, tlb: Tlb)
    requires Inv(m) && 0 <= i < |m.banks| && m.banks[i].isRam && 0 <= offset < m.banks[i].orgSize
    requires forall k :: 0 <= k < 256 ==>
      (tlb[k] == m.tlb[k] || (tlb[k].vaddr % PAGE == 0 && Backed(SetDirty(m.banks[i], offset), PageOf(tlb[k]))))
    ensures Inv(Mem(m.banks[i := SetDirty(m.banks[i], offset)], tlb))
  {
    var b := SetDirty(m.banks[i], offset);
    forall p ensures Shaped(b) && (b.tracked ==> IsDirty(b, p) == (p == offset / PAGE || IsDirty(m.banks[i], p))) {
      SetDirtyBits(m.banks[i], offset, p);
    }
    BankUpdateKeeps(m, i, b, tlb);
  }

  /** The page start of a pointer, from the page offset of the address. */
  lemma PageStart(mem: int, offset: int, addr: int)
    requires 0 <= offset && offset % PAGE == addr % PAGE
    ensures var start := mem + offset - addr + PageBase(addr);
            start == mem + offset / PAGE * PAGE && (start - mem) % PAGE == 0 && (start - mem) / PAGE == offset / PAGE
  {
    assert PageBase(addr) == addr - addr % PAGE && offset == offset / PAGE * PAGE + offset % PAGE;
  }

  lemma FillBacked(b: Bank, offset: int, addr: Addr)
    requires Shaped(b) && b.isRam && b.size != 0 && 0 <= offset < b.orgSize && offset % PAGE == addr % PAGE
    ensures PageBase(addr) % PAGE == 0
    ensures Backed(SetDirty(b, offset), PageOf(TlbEntry(PageBase(addr), b.mem + offset - addr)))
  {
    PageStart(b.mem, offset, addr);
    SetDirtyBits(b, offset, offset / PAGE);
    assert (b.mem + offset / PAGE * PAGE - b.mem) / PAGE == offset / PAGE;
  }

  lemma FillKeeps(m: Mem, i: int, offset: int, addr: Addr)
    requires Inv(m) && 0 <= i < |m.banks| && m.banks[i].isRam && m.banks[i].size != 0
    requires 0 <= offset < m.banks[i].orgSize && offset % PAGE == addr % PAGE
    ensures Inv(Mem(m.banks[i := SetDirty(m.banks[i], offset)], Fill(m.tlb, addr, m.banks[i].mem + offset)))
  {
    FillBacked(m.banks[i], offset, addr);
    SetDirtyKeeps(m, i, offset, Fill(m.tlb, addr, m.banks[i].mem + offset));
  }

  lemma StoreKeeps(m: Mem, addr: Addr, paddr: int)
    requires Inv(m) && addr % PAGE == paddr % PAGE
    ensures Inv(Store(m, addr, paddr))
  {
    if !Hit(m.tlb, addr, 0) && InRam(m, paddr) {
      Found(m, paddr);
      var i := FindBank(m, paddr);
      FillKeeps(m, i, paddr - m.banks[i].addr, addr);
    }
  }

  lemma GetRamPtrKeeps(m: Mem, paddr: int, isRw: bool)
    requires Inv(m)
    ensures Inv(GetRamPtr(m, paddr, isRw))
  {
    if InRam(m, paddr) && isRw {
      Found(m, paddr);
      var i := FindBank(m, paddr);
      SetDirtyKeeps(m, i, paddr - m.banks[i].addr, m.tlb);
    }
  }

  lemma AnyBitMeans(words: seq<Word32>, p: int)
    requires BitAt(words, p)
    ensures AnyBit(words)
  {
    assert words[p / 32][p % 32] && !Zero32()[p % 32];
  }

  /** A range an entry leads to is enabled and has a dirty page. */
  lemma BusyRange(b: Bank, ptr: int)
    requires Backed(b, ptr) && b.tracked
    ensures b.size != 0 && AnyBit(Current(b))
  {
    AnyBitMeans(Current(b), (ptr - b.mem) / PAGE);
  }

  lemma GetDirtyKeeps(m: Mem, i: int)
    requires Inv(m) && 0 <= i < |m.banks| && m.banks[i].tracked
    ensures Inv(GetDirty(m, i).0)
  {
    var b, r := m.banks[i], GetDirty(m, i).0;
    forall k | 0 <= k < 256 && r.tlb[k].vaddr != INVALID
      ensures r.tlb[k] == m.tlb[k] && !Backed(b, PageOf(r.tlb[k]))
    {
      if !(AnyBit(Current(b)) && b.size != 0) {
        if Backed(b, PageOf(m.tlb[k])) { BusyRange(b, PageOf(m.tlb[k])); }
      }
    }
    BankUpdateKeeps(m, i, r.banks[i], r.tlb);
  }

  lemma ResetDirtyKeeps(m: Mem, i: int, offset: int)
    requires Inv(m) && 0 <= i < |m.banks| && 0 <= offset < m.banks[i].orgSize
    ensures Inv(ResetDirty(m, i, offset))
  {
    var b, r := m.banks[i], ResetDirty(m, i, offset);
    if b.tracked && IsDirty(b, offset / PAGE) {
      PageInMap(b.orgSize, offset);
      forall p ensures Shaped(r.banks[i]) && IsDirty(r.banks[i], p) == (p != offset / PAGE && IsDirty(b, p)) {
        PutBitBits(Current(b), offset / PAGE, false, p);
      }
      forall k | 0 <= k < 256 && r.tlb[k].vaddr != INVALID
        ensures r.tlb[k] == m.tlb[k] && (Backed(b, PageOf(r.tlb[k])) ==> Backed(r.banks[i], PageOf(r.tlb[k])))
      {
        SamePage(PageOf(r.tlb[k]) - b.mem, offset);
      }
      BankUpdateKeeps(m, i, r.banks[i], r.tlb);
    }
  }

  lemma SamePage(start: int, offset: int)
    requires 0 <= offset
    ensures start % PAGE == 0 && start / PAGE == offset / PAGE ==> start == offset / PAGE * PAGE
  {
  }

  lemma SetAddrKeeps(m: Mem, i: int, addr: int, enabled: bool)
    requires Inv(m) && 0 <= i < |m.banks| && (m.banks[i].isRam ==> addr % PAGE == 0)
    ensures Inv(SetAddr(m, i, addr, enabled))
  {
    var b, r := m.banks[i], SetAddr(m, i, addr, enabled);
    if r != m {
      forall k | 0 <= k < 256 && r.tlb[k].vaddr != INVALID
        ensures r.tlb[k] == m.tlb[k] && !Backed(b, PageOf(r.tlb[k]))
      {
      }
      BankUpdateKeeps(m, i, r.banks[i], r.tlb);
    }
  }

  // ----- runs -----

  datatype Event =
    | Stored(addr: Addr, paddr: int)
    | Flushed
    | Reported(i: int)
    | Reset(i: int, offset: int)
    | Moved(i: int, base: int, enabled: bool)
    | PtrGiven(paddr: int, isRw: bool)

  ghost predicate Legal(m: Mem, op: Event) {
    match op
    case Stored(addr, paddr) => addr % PAGE == paddr % PAGE
    case Reported(i) => 0 <= i < |m.banks| && m.banks[i].tracked
    case Reset(i, offset) => 0 <= i < |m.banks| && 0 <= offset < m.banks[i].orgSize
    case Moved(i, addr, _) => 0 <= i < |m.banks| && (m.banks[i].isRam ==> addr % PAGE == 0)
    case _ => true
  }

  /** Flushed is any full flush of the TLBs. */
  ghost function Apply(m: Mem, op: Event): Mem
    requires AllShaped(m) && Legal(m, op)
  {
    match op
    case Stored(addr, paddr) => Store(m, addr, paddr)
    case Flushed => m.(tlb := EmptyTlb())
    case Reported(i) => GetDirty(m, i).0
    case Reset(i, offset) => ResetDirty(m, i, offset)
    case Moved(i, addr, enabled) => SetAddr(m, i, addr, enabled)
    case PtrGiven(paddr, isRw) => GetRamPtr(m, paddr, isRw)
  }

  lemma ApplyKeeps(m: Mem, op: Event)
    requires Inv(m) && Legal(m, op)
    ensures Inv(Apply(m, op))
  {
    match op
    case Stored(addr, paddr) => StoreKeeps(m, addr, paddr);
    case Flushed => assert forall k :: 0 <= k < 256 ==> EntryOk(Apply(m, op), EmptyTlb()[k]);
    case Reported(i) => GetDirtyKeeps(m, i);
    case Reset(i, offset) => ResetDirtyKeeps(m, i, offset);
    case Moved(i, addr, enabled) => SetAddrKeeps(m, i, addr, enabled);
    case PtrGiven(paddr, isRw) => GetRamPtrKeeps(m, paddr, isRw);
  }

  /** The operation stores into page p of range i, or hands it out for writing. */
  ghost predicate Touches(m: Mem, op: Event, i: int, p: int) {
    && 0 <= i < |m.banks|
    && match op
       case Stored(addr, paddr) =>
         && (Hit(m.tlb, addr, 0) || InRam(m, paddr))
         && var ptr := Target(m, addr, paddr); Hosts(m.banks[i], ptr) && p == (ptr - m.banks[i].mem) / PAGE
       case PtrGiven(paddr, isRw) => isRw && InRam(m, paddr) && i == FindBank(m, paddr) && p == (paddr - m.banks[i].addr) / PAGE
       case _ => false
  }

  predicate Clears(op: Event, i: int, p: int) {
    match op
    case Reported(j) => j == i
    case Reset(j, offset) => j == i && offset / PAGE == p
    case _ => false
  }

  /** A store that hits the write TLB goes to a page that is dirty already. */
  lemma FastStoreIsDirty(m: Mem, addr: Addr, i: int)
    requires Inv(m) && Hit(m.tlb, addr, 0) && 0 <= i < |m.banks| && m.banks[i].tracked
    requires Hosts(m.banks[i], m.tlb[Index(addr)].addend + addr)
    ensures IsDirty(m.banks[i], (m.tlb[Index(addr)].addend + addr - m.banks[i].mem) / PAGE)
  {
    var e := m.tlb[Index(addr)];
    assert e.vaddr == PageBase(addr) && e.vaddr != INVALID;
    assert EntryOk(m, e);
    var j :| 0 <= j < |m.banks| && Backed(m.banks[j], PageOf(e));
    var b := m.banks[j];
    InsidePage(PageOf(e) - b.mem, addr, b.orgSize);
    assert Hosts(b, e.addend + addr);
  }

  lemma InsidePage(start: int, addr: int, orgSize: int)
    requires start % PAGE == 0 && 0 <= start < orgSize && orgSize % PAGE == 0
    ensures var at := start - PageBase(addr) + addr; start <= at < orgSize && at / PAGE == start / PAGE
  {
  }

  /** A slow store touches the page of its physical address. */
  lemma SlowStoreTouches(m: Mem, addr: Addr, paddr: int, i: int, p: int)
    requires Inv(m) && !Hit(m.tlb, addr, 0) && InRam(m, paddr) && 0 <= i < |m.banks|
    ensures Touches(m, Stored(addr, paddr), i, p) <==>
              i == FindBank(m, paddr) && p == (paddr - m.banks[i].addr) / PAGE
  {
    Found(m, paddr);
    var j := FindBank(m, paddr);
    assert Hosts(m.banks[j], Target(m, addr, paddr));
  }

  lemma StoreBit(m: Mem, addr: Addr, paddr: int, i: int, p: int)
    requires Inv(m) && addr % PAGE == paddr % PAGE && 0 <= i < |m.banks| && m.banks[i].tracked
    ensures var b := Store(m, addr, paddr).banks[i];
            Shaped(b) && b.tracked && IsDirty(b, p) == (IsDirty(m.banks[i], p) || Touches(m, Stored(addr, paddr), i, p))
  {
    if Hit(m.tlb, addr, 0) {
      if Touches(m, Stored(addr, paddr), i, p) { FastStoreIsDirty(m, addr, i); }
    } else if InRam(m, paddr) {
      Found(m, paddr);
      SlowStoreTouches(m, addr, paddr, i, p);
      if i == FindBank(m, paddr) { SetDirtyBits(m.banks[i], paddr - m.banks[i].addr, p); }
    }
  }

  lemma PtrBit(m: Mem, paddr: int, isRw: bool, i: int, p: int)
    requires Inv(m) && 0 <= i < |m.banks| && m.banks[i].tracked
    ensures var b := GetRamPtr(m, paddr, isRw).banks[i];
            Shaped(b) && b.tracked && IsDirty(b, p) == (IsDirty(m.banks[i], p) || Touches(m, PtrGiven(paddr, isRw), i, p))
  {
    if InRam(m, paddr) {
      Found(m, paddr);
      if i == FindBank(m, paddr) { SetDirtyBits(m.banks[i], paddr - m.banks[i].addr, p); }
    }
  }

  lemma ResetBit(m: Mem, j: int, offset: int, i: int, p: int)
    requires Inv(m) && 0 <= i < |m.banks| && m.banks[i].tracked && 0 <= j < |m.banks| && 0 <= offset < m.banks[j].orgSize
    ensures var b := ResetDirty(m, j, offset).banks[i];
            Shaped(b) && b.tracked && IsDirty(b, p) == (IsDirty(m.banks[i], p) && !(j == i && offset / PAGE == p))
  {
    if j == i && IsDirty(m.banks[i], offset / PAGE) { PutBitBits(Current(m.banks[i]), offset / PAGE, false, p); }
  }

  lemma GetBit(m: Mem, j: int, i: int, p: int)
    requires Inv(m) && 0 <= i < |m.banks| && m.banks[i].tracked && 0 <= j < |m.banks| && m.banks[j].tracked
    ensures var b := GetDirty(m, j).0.banks[i];
            Shaped(b) && b.tracked && IsDirty(b, p) == (IsDirty(m.banks[i], p) && j != i)
  {
  }

  lemma MoveBit(m: Mem, j: int, addr: int, enabled: bool, i: int, p: int)
    requires Inv(m) && 0 <= i < |m.banks| && m.banks[i].tracked && 0 <= j < |m.banks|
    requires m.banks[j].isRam ==> addr % PAGE == 0
    ensures var b := SetAddr(m, j, addr, enabled).banks[i];
            Shaped(b) && b.tracked && IsDirty(b, p) == IsDirty(m.banks[i], p)
  {
  }

  /** What one operation does to one dirty bit. */
  lemma ApplyBit(m: Mem, op: Event, i: int, p: int)
    requires Inv(m) && Legal(m, op) && 0 <= i < |m.banks| && m.banks[i].tracked
    ensures var r := Apply(m, op);
            && |r.banks| == |m.banks| && Shaped(r.banks[i]) && r.banks[i].tracked
            && IsDirty(r.banks[i], p) == (!Clears(op, i, p) && (IsDirty(m.banks[i], p) || Touches(m, op, i, p)))
  {
    match op
    case Stored(addr, paddr) => StoreBit(m, addr, paddr, i, p);
    case Reported(j) => GetBit(m, j, i, p);
    case Reset(j, offset) => ResetBit(m, j, offset, i, p);
    case Moved(j, base, enabled) => MoveBit(m, j, base, enabled, i, p);
    case PtrGiven(paddr, isRw) => PtrBit(m, paddr, isRw, i, p);
    case _ =>
  }

  ghost predicate IsRun(ms: seq<Mem>, ops: seq<Event>) {
    && |ms| == |ops| + 1 && Inv(ms[0])
    && forall k :: 0 <= k < |ops| ==> AllShaped(ms[k]) && Legal(ms[k], ops[k]) && Apply(ms[k], ops[k]) == ms[k + 1]
  }

  /** Step j touched page p of range i and nothing before step k cleared it. */
  ghost predicate TouchedSince(ms: seq<Mem>, ops: seq<Event>, i: int, p: int, j: int, k: int) {
    && 0 <= j < k <= |ops| < |ms| && Touches(ms[j], ops[j], i, p)
    && forall l :: j < l < k ==> !Clears(ops[l], i, p)
  }

  /** No clearing before step k: what was dirty at the start still is. */
  ghost predicate Untouched(ops: seq<Event>, i: int, p: int, k: int) {
    k <= |ops| && forall l :: 0 <= l < k ==> !Clears(ops[l], i, p)
  }

  lemma RunStep(ms: seq<Mem>, ops: seq<Event>, i: int, p: int, k: nat)
    requires IsRun(ms, ops) && k < |ops| && Inv(ms[k]) && 0 <= i < |ms[k].banks| && ms[k].banks[i].tracked
    ensures Inv(ms[k + 1]) && |ms[k + 1].banks| == |ms[k].banks| && ms[k + 1].banks[i].tracked
    ensures IsDirty(ms[k + 1].banks[i], p) <==>
              !Clears(ops[k], i, p) && (IsDirty(ms[k].banks[i], p) || Touches(ms[k], ops[k], i, p))
  {
    ApplyKeeps(ms[k], ops[k]);
    ApplyBit(ms[k], ops[k], i, p);
  }

  /** In every reachable state a page is dirty exactly when it was stored to or handed out
      since its bit was last cleared (or was dirty from the start). */
  lemma {:induction false} DirtyExact(ms: seq<Mem>, ops: seq<Event>, i: int, p: int, k: nat)
    requires IsRun(ms, ops) && k <= |ops| && 0 <= i < |ms[0].banks| && ms[0].banks[i].tracked
    ensures Inv(ms[k]) && |ms[k].banks| == |ms[0].banks| && ms[k].banks[i].tracked
    ensures IsDirty(ms[k].banks[i], p) <==>
              || EverSince(ms, ops, i, p, k)
              || (Untouched(ops, i, p, k) && IsDirty(ms[0].banks[i], p))
    decreases k
  {
    if k > 0 {
      DirtyExact(ms, ops, i, p, k - 1);
      RunStep(ms, ops, i, p, k - 1);
      SinceStep(ms, ops, i, p, k - 1);
      UntouchedStep(ops, i, p, k - 1);
    }
  }

  lemma UntouchedStep(ops: seq<Event>, i: int, p: int, k: nat)
    requires k < |ops|
    ensures Untouched(ops, i, p, k + 1) <==> Untouched(ops, i, p, k) && !Clears(ops[k], i, p)
  {
  }

  ghost predicate EverSince(ms: seq<Mem>, ops: seq<Event>, i: int, p: int, k: int) {
    exists j :: TouchedSince(ms, ops, i, p, j, k)
  }

  lemma SinceStep(ms: seq<Mem>, ops: seq<Event>, i: int, p: int, k: nat)
    requires k < |ops| < |ms|
    ensures EverSince(ms, ops, i, p, k + 1) <==>
              Touches(ms[k], ops[k], i, p) || (EverSince(ms, ops, i, p, k) && !Clears(ops[k], i, p))
  {
    if Touches(ms[k], ops[k], i, p) { assert TouchedSince(ms, ops, i, p, k, k + 1); }
    if EverSince(ms, ops, i, p, k) && !Clears(ops[k], i, p) {
      var j :| TouchedSince(ms, ops, i, p, j, k);
      assert TouchedSince(ms, ops, i, p, j, k + 1);
    }
    if EverSince(ms, ops, i, p, k + 1) && !Touches(ms[k], ops[k], i, p) {
      var j :| TouchedSince(ms, ops, i, p, j, k + 1);
      assert TouchedSince(ms, ops, i, p, j, k);
    }
  }

  /** Between two reports of a range the second one lists exactly the pages stored to or
      handed out in between, apart from pages reset one by one. */
  lemma ReportIsExact(ms: seq<Mem>, ops: seq<Event>, i: int, p: int, j: int, k: int)
    requires IsRun(ms, ops) && 0 <= j < k < |ops| && ops[j] == Reported(i) && ops[k] == Reported(i)
    requires forall l :: j < l < k ==> ops[l] != Reported(i)
    ensures 0 <= i < |ms[k].banks| && AllShaped(ms[k]) && ms[k].banks[i].tracked
    ensures BitAt(GetDirty(ms[k], i).1, p) <==> exists l :: j < l && TouchedSince(ms, ops, i, p, l, k)
  {
    BanksStay(ms, ops, j);
    DirtyExact(ms, ops, i, p, k);
    assert Clears(ops[j], i, p);
    forall l | TouchedSince(ms, ops, i, p, l, k) ensures j < l {
    }
  }

  /** Ranges stay tracked or untracked. */
  lemma {:induction false} BanksStay(ms: seq<Mem>, ops: seq<Event>, k: nat)
    requires IsRun(ms, ops) && k <= |ops|
    ensures |ms[k].banks| == |ms[0].banks|
    ensures forall i :: 0 <= i < |ms[0].banks| ==> ms[k].banks[i].tracked == ms[0].banks[i].tracked
    decreases k
  {
    if k > 0 { BanksStay(ms, ops, k - 1); }
  }
}
