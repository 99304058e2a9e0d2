// The Sv39 walk of the main emulator (csr_file.h, `translate`) and its agreement with the
// walk of temu/riscv_cpu.c modelled in PageWalk.

module SecondWalker {
  import opened Options
  import opened Arith
  import opened Bits
  import opened PhysMem
  import opened PageWalk
  import Cpu

  const DRAM_BASE := 0x8000_0000
  const U32 := 0x1_0000_0000
  const U64 := 0x1_0000_0000_0000_0000

  datatype Kind = Inst | Load | Stor

  /** The CSR fields `translate` reads; ppn is satp.PPN, 44 bits wide. */
  datatype Csrs = Csrs(mode: int, ppn: int, mprv: bool, mpp: Priv)

  /** Denied is the result -1; Thrown is the exception of vector::at. */
  datatype Result = Denied | Thrown | Pa(addr: int)

  /** sv39va_t::write_reg */
  datatype Sv39Va = Sv39Va(pageOffset: int, vpn0: int, vpn1: int, vpn2: int)

  function VaOf(val: int): Sv39Va {
    Sv39Va(val % 0x1000, val / 0x1000 % 0x200, val / 0x20_0000 % 0x200, val / 0x4000_0000 % 0x200)
  }

  /** sv39pa_t::read_reg: PPN2 is a uint32_t, so the sum is taken in 32 bits. */
  function PaOf(pageOffset: int, ppn0: int, ppn1: int, ppn2: int): int {
    ((ppn2 % 0x400_0000 * 0x4000_0000) % U32 + ppn1 % 0x200 * 0x20_0000 + ppn0 % 0x200 * 0x1000 + pageOffset % 0x1000) % U32
  }

  // sv39pte_t::write_reg
  function Ppn0(pte: Word): int { Num(pte[10..19]) }
  function Ppn1(pte: Word): int { Num(pte[19..28]) }
  function Ppn2(pte: Word): int { Num(pte[28..54]) }

  /** PPN, computed in 32 bits as well. */
  function Ppn(pte: Word): int { ((Ppn2(pte) * 0x4_0000) % U32 + Ppn1(pte) * 0x200 + Ppn0(pte)) % U32 }

  /** The index into the memory array; an address below RAM is used as it is. */
  function MemIndex(pteAddr: int): int { (if pteAddr >= DRAM_BASE then pteAddr - DRAM_BASE else pteAddr) / 8 }

  predicate Invalid(pte: Word) { !pte[PTE_V] || (!pte[PTE_R] && pte[PTE_W]) }

  predicate LeafPte(pte: Word) { pte[PTE_R] || pte[PTE_X] }

  /** The checks on the leaf at the end. */
  function Finish(pte: Word, kind: Kind, addr: int): Result {
    if kind == Stor && (!pte[PTE_A] || !pte[PTE_D]) then Denied
    else if kind != Stor && !pte[PTE_A] then Denied
    else if kind == Stor && !pte[PTE_W] then Denied
    else Pa(addr)
  }

  /** memory.at of an entry's address */
  function Fetch(memory: seq<Word>, pteAddr: int): Option<Word> {
    var i := MemIndex(pteAddr);
    if 0 <= i < |memory| then Some(memory[i]) else None
  }

  /** An entry is invalid, a leaf, or leads on. */
  function Decide(pte: Option<Word>, kind: Kind, leafAddr: int, next: Result): Result {
    if pte == None then Thrown
    else if Invalid(pte.value) then Denied
    else if LeafPte(pte.value) then Finish(pte.value, kind, leafAddr)
    else next
  }

  function Or0(pte: Option<Word>): Word { if pte.Some? then pte.value else Zero() }

  function VpnOf(va: Sv39Va, lvl: nat): int {
    if lvl == 0 then va.vpn0 else if lvl == 1 then va.vpn1 else va.vpn2
  }

  /** A superpage takes its low fields from the virtual address. */
  function LeafAddr(va: Sv39Va, pte: Word, lvl: nat): int {
    PaOf(va.pageOffset, if lvl == 0 then Ppn0(pte) else va.vpn0, if lvl <= 1 then Ppn1(pte) else va.vpn1, Ppn2(pte))
  }

  /** The three levels, which the source writes out one inside the other. With 44-bit page
      numbers no 64-bit sum wraps. */
  function Descend(memory: seq<Word>, a: int, va: Sv39Va, kind: Kind, lvl: nat): Result
    decreases lvl
  {
    var pte := Fetch(memory, a + VpnOf(va, lvl) * 8);
    Decide(pte, kind, LeafAddr(va, Or0(pte), lvl),
           if lvl == 0 then Denied else Descend(memory, Ppn(Or0(pte)) * PAGE, va, kind, lvl - 1))
  }

  /** translate, in the two modes it knows */
  function Translate(memory: seq<Word>, csrs: Csrs, virtualAddr: int, kind: Kind, priv: Priv): Result
    requires csrs.mode == 0 || csrs.mode == 8
  {
    if csrs.mode == 0 then Pa(virtualAddr)
    else if priv == PRV_M && !csrs.mprv then Pa(virtualAddr)
    else if priv == PRV_M && csrs.mprv && kind == Inst then Pa(virtualAddr)
    else if csrs.mprv && csrs.mpp == 3 then Pa(virtualAddr)
    else Descend(memory, csrs.ppn * PAGE, VaOf(virtualAddr), kind, 2)
  }

  // ----- the common structure of both walks -----

  datatype Found = NoLeaf | LeafAt(lvl: nat, pte: Word, key: int)

  /** The entry at physical address a, with what lies behind it. */
  function Examined(ram: Ram, a: int, lvl: nat, next: Found): Found {
    var pte := PhysRead64(ram, a);
    if !pte[PTE_V] then NoLeaf
    else if IsLeaf(pte) then if Reserved(pte) then NoLeaf else LeafAt(lvl, pte, HostPtr(ram, a))
    else next
  }

  /** The leaf a virtual page leads to, whatever the permissions. */
  function FindLeaf(ram: Ram, basePage: int, vp: int, lvl: nat): Found
    decreases lvl
  {
    var a := PteAddr(basePage, vp, lvl);
    Examined(ram, a, lvl, if lvl == 0 then NoLeaf else FindLeaf(ram, PtePage(PhysRead64(ram, a)), vp, lvl - 1))
  }

  /** get_phys_addr is: find the leaf, then check the permissions. */
  lemma {:induction false} WalkIsLeafThenCheck(ram: Ram, basePage: int, vp: int, lvl: nat, reg: Regime, acc: Access)
    ensures var l := FindLeaf(ram, basePage, vp, lvl);
            WalkFrom(ram, basePage, vp, lvl, reg, acc) ==
            if l.NoLeaf? || !Permitted(l.pte, reg, acc) then PageFault
            else Leaf(LeafPage(l.pte, vp, l.lvl), l.key, l.pte, Touch(l.pte, acc))
    decreases lvl
  {
    var pte := PhysRead64(ram, PteAddr(basePage, vp, lvl));
    if pte[PTE_V] && !IsLeaf(pte) && lvl > 0 {
      WalkIsLeafThenCheck(ram, PtePage(pte), vp, lvl - 1, reg, acc);
    }
  }

  /** The protection bits of section 4.3.1 of the Privileged Architecture v1.10: a store needs
      W, a fetch X, a load R or, with MXR, X. */
  predicate Grants(pte: Word, reg: Regime, acc: Access) {
    && (acc.Write? ==> pte[PTE_W])
    && (acc.Code? ==> pte[PTE_X])
    && (acc.Read? ==> pte[PTE_R] || (reg.mxr && pte[PTE_X]))
  }

  /** U pages are for U mode, and for S mode when SUM is set. */
  predicate PassesUser(pte: Word, reg: Regime) {
    && (reg.priv == PRV_S && pte[PTE_U] ==> reg.sum)
    && (reg.priv != PRV_S ==> pte[PTE_U])
  }

  /** Which walks succeed, bit by bit of the leaf they find. */
  lemma WalkExact(ram: Ram, basePage: int, vp: int, lvl: nat, reg: Regime, acc: Access)
    ensures var l := FindLeaf(ram, basePage, vp, lvl);
            WalkFrom(ram, basePage, vp, lvl, reg, acc).Leaf? <==>
              && l.LeafAt?
              && (acc.Write? ==> l.pte[2]) && (acc.Code? ==> l.pte[3])
              && (acc.Read? ==> l.pte[1] || (reg.mxr && l.pte[3]))
              && (reg.priv == 1 ==> !l.pte[4] || reg.sum) && (reg.priv != 1 ==> l.pte[4])
  {
    WalkIsLeafThenCheck(ram, basePage, vp, lvl, reg, acc);
  }

  // ----- arithmetic of the page numbers -----

  lemma Powers()
    ensures Pow2(8) == 0x100 && Pow2(9) == 0x200 && Pow2(26) == 0x400_0000
  {
    assert Pow2(4) == 16;
    assert Pow2(8) == 0x100;
    assert Pow2(12) == 0x1000;
    assert Pow2(16) == 0x1_0000;
    assert Pow2(20) == 0x10_0000;
    assert Pow2(24) == 0x100_0000;
  }

  /** The fields of an entry and its whole page number; hi are the bits above 54. */
  lemma PageFields(pte: Word) returns (hi: nat)
    ensures 0 <= Ppn0(pte) < 0x200 && 0 <= Ppn1(pte) < 0x200 && 0 <= Ppn2(pte) < 0x400_0000
    ensures PtePage(pte) == Ppn0(pte) + 0x200 * Ppn1(pte) + 0x4_0000 * Ppn2(pte) + 0x1000_0000_0000 * hi
  {
    Powers();
    var b := pte[10..62];
    NumSplit(b, 9);
    NumSplit(b[9..], 9);
    NumSplit(b[9..][9..], 26);
    assert b[..9] == pte[10..19] && b[9..][..9] == pte[19..28] && b[9..][9..][..26] == pte[28..54];
    NumBound(pte[10..19]);
    NumBound(pte[19..28]);
    NumBound(pte[28..54]);
    hi := Num(b[9..][9..][26..]);
  }

  /** A pointer below 2^32 pages is followed to the same table. */
  lemma PpnIsPage(pte: Word)
    ensures PtePage(pte) < U32 ==> Ppn(pte) == PtePage(pte)
  {
    var hi := PageFields(pte);
  }

  lemma VpnFields(va: int)
    requires va >= 0
    ensures var f, vp := VaOf(va), va / PAGE;
            && f.vpn0 == Vpn(vp, 0) && f.vpn1 == Vpn(vp, 1) && f.vpn2 == Vpn(vp, 2) && f.pageOffset == va % PAGE
  {
    DivModTwice(va, 0x1000, 0x200);
    DivModTwice(va, 0x1000, 0x4_0000);
  }

  /** A page put together from its fields, cut to 32 bits. */
  lemma CutAddress(p0: int, p1: int, p2: int, hi: int, offset: int)
    requires 0 <= p0 < 0x200 && 0 <= p1 < 0x200 && 0 <= p2 < 0x400_0000 && 0 <= offset < PAGE
    ensures PaOf(offset, p0, p1, p2) == ((p0 + 0x200 * p1 + 0x4_0000 * p2 + 0x1000_0000_0000 * hi) * PAGE + offset) % U32
  {
    var q, r := p2 / 4, p2 % 4;
    var sum := r * 0x4000_0000 + p1 * 0x20_0000 + p0 * 0x1000 + offset;
    DivModUnique(p2 * 0x4000_0000, U32, q, r * 0x4000_0000);
    DivModUnique((p0 + 0x200 * p1 + 0x4_0000 * p2 + 0x1000_0000_0000 * hi) * PAGE + offset, U32, q + 0x100_0000 * hi, sum);
    assert sum % U32 == sum;
  }

  /** A superpage takes its low fields from the virtual address. */
  lemma SplicedFields(pte: Word, vp: int, lvl: nat, hi: int)
    requires vp >= 0 && lvl <= 2
    requires PtePage(pte) == Ppn0(pte) + 0x200 * Ppn1(pte) + 0x4_0000 * Ppn2(pte) + 0x1000_0000_0000 * hi
    requires 0 <= Ppn0(pte) < 0x200 && 0 <= Ppn1(pte) < 0x200
    ensures LeafPage(pte, vp, lvl) == (if lvl == 0 then Ppn0(pte) else vp % 0x200)
              + 0x200 * (if lvl <= 1 then Ppn1(pte) else vp / 0x200 % 0x200) + 0x4_0000 * Ppn2(pte) + 0x1000_0000_0000 * hi
  {
    var page := PtePage(pte);
    DivModUnique(page, 0x200, Ppn1(pte) + 0x200 * Ppn2(pte) + 0x8_0000_0000 * hi, Ppn0(pte));
    DivModUnique(page, 0x4_0000, Ppn2(pte) + 0x400_0000 * hi, Ppn0(pte) + 0x200 * Ppn1(pte));
    DivModTwice(vp, 0x200, 0x200);
  }

  /** The 32-bit physical address is the true one modulo 2^32, for all page sizes. */
  lemma PaIsTruncated(pte: Word, va: int, lvl: nat)
    requires 0 <= va && lvl <= 2
    ensures var f := VaOf(va);
            LeafAddr(f, pte, lvl) == (LeafPage(pte, va / PAGE, lvl) * PAGE + va % PAGE) % U32
  {
    var f := VaOf(va);
    var hi := PageFields(pte);
    VpnFields(va);
    SplicedFields(pte, va / PAGE, lvl, hi);
    CutAddress(if lvl == 0 then Ppn0(pte) else f.vpn0, if lvl <= 1 then Ppn1(pte) else f.vpn1, Ppn2(pte), hi, f.pageOffset);
  }

  // ----- agreement -----

  /** The memory array is the RAM at DRAM_BASE. */
  ghost predicate Mirrors(ram: Ram, memory: seq<Word>) {
    forall i :: 0 <= i < |memory| ==> PhysRead64(ram, DRAM_BASE + 8 * i) == memory[i]
  }

  /** The tables the walk visits are in that RAM, and pointers stay below 2^32 pages. */
  ghost predicate InTables(ram: Ram, memory: seq<Word>, basePage: int, vp: int, lvl: nat)
    decreases lvl
  {
    var a := PteAddr(basePage, vp, lvl);
    var pte := PhysRead64(ram, a);
    && DRAM_BASE <= a < DRAM_BASE + 8 * |memory|
    && (pte[PTE_V] && !IsLeaf(pte) && lvl > 0 ==>
          PtePage(pte) < U32 && InTables(ram, memory, PtePage(pte), vp, lvl - 1))
  }

  /** What translate makes of the leaf. */
  ghost function Outcome32(l: Found, va: int, kind: Kind): Result
    requires va >= 0
  {
    if l.NoLeaf? then Denied else Finish(l.pte, kind, (LeafPage(l.pte, va / PAGE, l.lvl) * PAGE + va % PAGE) % U32)
  }

  /** The entry both walkers look at. */
  lemma Fetched(ram: Ram, memory: seq<Word>, base: int, va: int, lvl: nat)
    requires 0 <= va && lvl <= 2 && 0 <= base < 0x1000_0000_0000
    requires Mirrors(ram, memory) && InTables(ram, memory, base, va / PAGE, lvl)
    ensures Fetch(memory, base * PAGE + VpnOf(VaOf(va), lvl) * 8) == Some(PhysRead64(ram, PteAddr(base, va / PAGE, lvl)))
  {
    VpnFields(va);
    FetchedAt(ram, memory, base, VpnOf(VaOf(va), lvl));
  }

  lemma FetchedAt(ram: Ram, memory: seq<Word>, base: int, vpn: int)
    requires Mirrors(ram, memory) && 0 <= base < 0x1000_0000_0000 && 0 <= vpn < 0x200
    requires DRAM_BASE <= base * PAGE + 8 * vpn < DRAM_BASE + 8 * |memory|
    ensures Fetch(memory, base * PAGE + vpn * 8) == Some(PhysRead64(ram, base * PAGE + 8 * vpn))
  {
    assert (base * PAGE + 8 * vpn) % 8 == 0;
    InRamIndex(ram, memory, base * PAGE + 8 * vpn);
  }

  lemma InRamIndex(ram: Ram, memory: seq<Word>, a: int)
    requires Mirrors(ram, memory) && DRAM_BASE <= a < DRAM_BASE + 8 * |memory| && a % 8 == 0
    ensures Fetch(memory, a) == Some(PhysRead64(ram, a))
  {
    assert a == DRAM_BASE + 8 * MemIndex(a);
  }

  /** One entry is decided on alike, if the next one is. */
  lemma DecideAgrees(pte: Word, kind: Kind, key: int, lvl: nat, next: Result, sub: Found, va: int)
    requires va >= 0 && (pte[PTE_V] && !IsLeaf(pte) ==> next == Outcome32(sub, va, kind))
    ensures Decide(Some(pte), kind, (LeafPage(pte, va / PAGE, lvl) * PAGE + va % PAGE) % U32, next)
         == Outcome32(if !pte[PTE_V] then NoLeaf
                      else if IsLeaf(pte) then if Reserved(pte) then NoLeaf else LeafAt(lvl, pte, key) else sub, va, kind)
  {
  }

  /** One level of both walks: r and l are what they make of the entry at pteAddr, next and
      sub what they find behind it. */
  lemma LevelAgrees(ram: Ram, memory: seq<Word>, base: int, va: int, kind: Kind, lvl: nat, next: Result, sub: Found, r: Result, l: Found)
    requires 0 <= va && lvl <= 2 && 0 <= base < 0x1000_0000_0000
    requires Mirrors(ram, memory) && InTables(ram, memory, base, va / PAGE, lvl)
    requires var pte := PhysRead64(ram, PteAddr(base, va / PAGE, lvl));
             && (pte[PTE_V] && !IsLeaf(pte) ==> next == Outcome32(sub, va, kind))
             && r == Decide(Some(pte), kind, LeafAddr(VaOf(va), pte, lvl), next)
    requires l == Examined(ram, PteAddr(base, va / PAGE, lvl), lvl, sub)
    ensures r == Outcome32(l, va, kind)
  {
    var a := PteAddr(base, va / PAGE, lvl);
    var pte := PhysRead64(ram, a);
    PaIsTruncated(pte, va, lvl);
    DecideAgrees(pte, kind, if IsRamAt(ram, a) then HostPtr(ram, a) else 0, lvl, next, sub, va);
  }

  lemma DescendIs(memory: seq<Word>, a: int, f: Sv39Va, kind: Kind, lvl: nat, pte: Word)
    requires Fetch(memory, a + VpnOf(f, lvl) * 8) == Some(pte)
    ensures Descend(memory, a, f, kind, lvl) ==
              Decide(Some(pte), kind, LeafAddr(f, pte, lvl),
                     if lvl == 0 then Denied else Descend(memory, Ppn(pte) * PAGE, f, kind, lvl - 1))
  {
  }

  lemma {:induction false} DescendAgrees(ram: Ram, memory: seq<Word>, base: int, va: int, kind: Kind, lvl: nat)
    requires 0 <= va && lvl <= 2 && 0 <= base < 0x1000_0000_0000
    requires Mirrors(ram, memory) && InTables(ram, memory, base, va / PAGE, lvl)
    ensures Descend(memory, base * PAGE, VaOf(va), kind, lvl) == Outcome32(FindLeaf(ram, base, va / PAGE, lvl), va, kind)
    decreases lvl
  {
    var pte := PhysRead64(ram, PteAddr(base, va / PAGE, lvl));
    Fetched(ram, memory, base, va, lvl);
    DescendIs(memory, base * PAGE, VaOf(va), kind, lvl, pte);
    var r, l := Descend(memory, base * PAGE, VaOf(va), kind, lvl), FindLeaf(ram, base, va / PAGE, lvl);
    if lvl == 0 {
      LevelAgrees(ram, memory, base, va, kind, lvl, Denied, NoLeaf, r, l);
    } else {
      if pte[PTE_V] && !IsLeaf(pte) {
        PpnIsPage(pte);
        DescendAgrees(ram, memory, PtePage(pte), va, kind, lvl - 1);
      }
      LevelAgrees(ram, memory, base, va, kind, lvl, Descend(memory, Ppn(pte) * PAGE, VaOf(va), kind, lvl - 1),
                  FindLeaf(ram, PtePage(pte), va / PAGE, lvl - 1), r, l);
    }
  }

  function AccessOf(kind: Kind): Access {
    match kind case Inst => Code case Load => Read case Stor => Write
  }

  /** What get_phys_addr makes of the leaf. */
  ghost function Outcome64(l: Found, va: int, reg: Regime, acc: Access): Outcome {
    if l.NoLeaf? || !Permitted(l.pte, reg, acc) then PageFault
    else Leaf(LeafPage(l.pte, va / PAGE, l.lvl), l.key, l.pte, Touch(l.pte, acc))
  }

  /** Structural faults coincide, each walker applies its own checks to the same leaf, and
      when both succeed the physical addresses are equal exactly when the true one is below
      2^32; then the first walker has nothing to write. */
  ghost predicate Agree(l: Found, t: Result, o: Outcome, va: int, kind: Kind, reg: Regime) {
    && t != Thrown
    && (l.NoLeaf? ==> t == Denied && o.PageFault?)
    && (l.LeafAt? ==>
          && (t.Pa? <==> l.pte[PTE_A] && (kind == Stor ==> l.pte[PTE_D] && l.pte[PTE_W]))
          && (o.Leaf? <==> Grants(l.pte, reg, AccessOf(kind)) && PassesUser(l.pte, reg)))
    && (t.Pa? && o.Leaf? ==>
          && t.addr == (o.page * PAGE + va % PAGE) % U32
          && (t.addr == o.page * PAGE + va % PAGE <==> o.page * PAGE + va % PAGE < U32)
          && Settled(o))
  }

  lemma SameLeafAgrees(l: Found, va: int, kind: Kind, reg: Regime)
    requires va >= 0 && (l.LeafAt? ==> l.lvl <= 2)
    ensures Agree(l, Outcome32(l, va, kind), Outcome64(l, va, reg, AccessOf(kind)), va, kind, reg)
  {
    if l.LeafAt? {
      NeedWriteIffChanges(l.pte, AccessOf(kind));
      LeafPageIsNat(l.pte, va / PAGE, l.lvl);
      CutIsSmall(LeafPage(l.pte, va / PAGE, l.lvl) * PAGE + va % PAGE);
    }
  }

  lemma CutIsSmall(x: int)
    requires x >= 0
    ensures x % U32 == x <==> x < U32
  {
  }

  lemma LeafPageIsNat(pte: Word, vp: int, lvl: nat)
    requires vp >= 0 && lvl <= 2
    ensures LeafPage(pte, vp, lvl) >= 0
  {
    var hi := PageFields(pte);
    SplicedFields(pte, vp, lvl, hi);
  }

  lemma {:induction false} LeafLevel(ram: Ram, base: int, vp: int, lvl: nat)
    ensures var l := FindLeaf(ram, base, vp, lvl); l.LeafAt? ==> l.lvl <= lvl
    decreases lvl
  {
    var pte := PhysRead64(ram, PteAddr(base, vp, lvl));
    if lvl > 0 { LeafLevel(ram, PtePage(pte), vp, lvl - 1); }
  }

  /** The two walkers on one RAM image, in S or U mode without MPRV. */
  lemma WalkersAgree(ram: Ram, memory: seq<Word>, csrs: Csrs, va: int, kind: Kind, priv: Priv, reg: Regime)
    requires csrs.mode == 8 && !csrs.mprv && priv != PRV_M && 0 <= csrs.ppn < 0x1000_0000_0000 && 0 <= va < U64
    requires Mirrors(ram, memory) && InTables(ram, memory, csrs.ppn, va / PAGE, 2)
    ensures Agree(FindLeaf(ram, csrs.ppn, va / PAGE, 2), Translate(memory, csrs, va, kind, priv),
                  WalkFrom(ram, csrs.ppn, va / PAGE, 2, reg, AccessOf(kind)), va, kind, reg)
  {
    var l := FindLeaf(ram, csrs.ppn, va / PAGE, 2);
    DescendAgrees(ram, memory, csrs.ppn, va, kind, 2);
    WalkIsLeafThenCheck(ram, csrs.ppn, va / PAGE, 2, reg, AccessOf(kind));
    LeafLevel(ram, csrs.ppn, va / PAGE, 2);
    SameLeafAgrees(l, va, kind, reg);
  }

  /** A store to a leaf with A and D set that passes the U and SUM test: both walks answer, or
      neither does. */
  lemma StoresAgree(ram: Ram, memory: seq<Word>, csrs: Csrs, va: int, priv: Priv, reg: Regime, l: Found)
    requires csrs.mode == 8 && !csrs.mprv && priv != PRV_M && 0 <= csrs.ppn < 0x1000_0000_0000 && 0 <= va < U64
    requires Mirrors(ram, memory) && InTables(ram, memory, csrs.ppn, va / PAGE, 2)
    requires l == FindLeaf(ram, csrs.ppn, va / PAGE, 2) && (l.LeafAt? ==> l.pte[PTE_A] && l.pte[PTE_D] && PassesUser(l.pte, reg))
    ensures Translate(memory, csrs, va, Stor, priv).Pa? <==> WalkFrom(ram, csrs.ppn, va / PAGE, 2, reg, Write).Leaf?
    ensures WalkFrom(ram, csrs.ppn, va / PAGE, 2, reg, Write).Leaf? ==> l.LeafAt? && l.pte[PTE_W]
  {
    WalkersAgree(ram, memory, csrs, va, Stor, priv, reg);
    WalkExact(ram, csrs.ppn, va / PAGE, 2, reg, Write);
  }

  /** The same against get_phys_addr of a whole CPU state in S or U mode with Sv39. */
  lemma CpuAgrees(c: Cpu.Core, memory: seq<Word>, csrs: Csrs, va: Cpu.Addr, kind: Kind)
    requires csrs.mode == 8 == Cpu.SatpMode(c.satp) && csrs.ppn == Num(c.satp[..44])
    requires !csrs.mprv && !c.mstatus[Cpu.MPRV] && c.priv != PRV_M && Cpu.Canonical(va / PAGE, 3)
    requires Mirrors(c.ram, memory) && InTables(c.ram, memory, csrs.ppn, va / PAGE, 2)
    ensures var t := Translate(memory, csrs, va, kind, c.priv);
            var o := Cpu.Translate(c, va / PAGE, AccessOf(kind));
            Agree(FindLeaf(c.ram, csrs.ppn, va / PAGE, 2), t, o, va, kind, Cpu.RegimeOf(c, AccessOf(kind)))
  {
    NumBound(c.satp[..44]);
    Powers44();
    WalkersAgree(c.ram, memory, csrs, va, kind, c.priv, Cpu.RegimeOf(c, AccessOf(kind)));
  }

  lemma Powers44()
    ensures Pow2(44) == 0x1000_0000_0000
  {
    assert Pow2(8) == 0x100;
    assert Pow2(16) == 0x1_0000;
    assert Pow2(24) == 0x100_0000;
    assert Pow2(32) == 0x1_0000_0000;
    assert Pow2(40) == 0x100_0000_0000;
  }

  /** A 9-bit field at d below bit 39 does not see the bits above. */
  lemma FieldOfRest(va: int, d: int, m: int)
    requires va >= 0 && d > 0 && m > 0
    ensures d * (0x200 * m) > 0 && va % (d * (0x200 * m)) / d % 0x200 == va / d % 0x200
  {
    var k, x := 0x200 * m, va / d;
    DivModTwice(va, d, k);
    DivModUnique(va % (d * k), d, x % k, va % d);
    DivModTwice(x, 0x200, m);
    DivModUnique(x % k, 0x200, x / 0x200 % m, x % 0x200);
  }

  /** Without the sign-extension test of the CPU the two agree exactly on canonical addresses
      and where the CPU would refuse the leaf anyway. */
  lemma CanonicalExact(c: Cpu.Core, memory: seq<Word>, csrs: Csrs, va: Cpu.Addr, kind: Kind)
    requires csrs.mode == 8 == Cpu.SatpMode(c.satp) && csrs.ppn == Num(c.satp[..44])
    requires !csrs.mprv && !c.mstatus[Cpu.MPRV] && c.priv != PRV_M
    requires Mirrors(c.ram, memory) && InTables(c.ram, memory, csrs.ppn, va / PAGE, 2)
    ensures var l, t := FindLeaf(c.ram, csrs.ppn, va / PAGE, 2), Translate(memory, csrs, va, kind, c.priv);
            var o, reg := Cpu.Translate(c, va / PAGE, AccessOf(kind)), Cpu.RegimeOf(c, AccessOf(kind));
            Agree(l, t, o, va, kind, reg)
            <==> Cpu.Canonical(va / PAGE, 3) || l.NoLeaf? || !(Grants(l.pte, reg, AccessOf(kind)) && PassesUser(l.pte, reg))
  {
    if Cpu.Canonical(va / PAGE, 3) {
      CpuAgrees(c, memory, csrs, va, kind);
    } else {
      NumBound(c.satp[..44]);
      Powers44();
      WalkersAgree(c.ram, memory, csrs, va, kind, c.priv, Cpu.RegimeOf(c, AccessOf(kind)));
      NonCanonicalFaults(c, va / PAGE, AccessOf(kind));
    }
  }

  lemma NonCanonicalFaults(c: Cpu.Core, vp: int, acc: Access)
    requires Cpu.SatpMode(c.satp) == 8 && !c.mstatus[Cpu.MPRV] && c.priv != PRV_M && !Cpu.Canonical(vp, 3)
    ensures Cpu.Translate(c, vp, acc) == PageFault
  {
  }

  // A leaf for virtual page 0 as the first entry of a root table at the start of RAM.

  function OneLeaf(): Word { Zero()[PTE_V := true][PTE_R := true][PTE_A := true] }

  function OneLeafCore(): Cpu.Core {
    Cpu.FillerCore(PRV_S, Zero(), 64, 2, Zero()[63 := true][19 := true], Ram([Range(DRAM_BASE, PAGE, true, 0)], map[0 := OneLeaf()]))
  }

  /** The value of a field with one bit set. */
  lemma OneBit(b: seq<bool>, k: nat)
    requires k < |b| && forall i :: 0 <= i < |b| ==> b[i] == (i == k)
    ensures Num(b) == Pow2(k)
  {
    NumSplit(b, k);
    NumOfZeros(b[..k]);
    NumOfZeros(b[k..][1..]);
    assert Num(b[k..]) == 1;
  }

  lemma OneLeafSatp()
    ensures var satp := OneLeafCore().satp; Cpu.SatpMode(satp) == 8 && Num(satp[..44]) == 0x8_0000
  {
    var satp := OneLeafCore().satp;
    OneBit(satp[60..64], 3);
    OneBit(satp[..44], 19);
    assert Pow2(8) == 0x100;
    assert Pow2(16) == 0x1_0000;
  }

  lemma OneLeafTables()
    ensures var ram := OneLeafCore().ram;
            && Mirrors(ram, [OneLeaf()]) && InTables(ram, [OneLeaf()], 0x8_0000, 0x800_0000, 2)
            && FindLeaf(ram, 0x8_0000, 0x800_0000, 2) == LeafAt(2, OneLeaf(), 0)
  {
    var ram := OneLeafCore().ram;
    assert PteAddr(0x8_0000, 0x800_0000, 2) == DRAM_BASE;
    assert FindRange(ram.ranges, DRAM_BASE) == 0;
    assert PhysRead64(ram, DRAM_BASE) == OneLeaf();
  }

  /** The failing input: at 2^39 the second walker reads the leaf of address 0, where the CPU
      reports a page fault. */
  lemma NonCanonicalAnswered()
    ensures var c, va := OneLeafCore(), 0x80_0000_0000;
            && Translate([OneLeaf()], Csrs(8, 0x8_0000, false, 0), va, Load, PRV_S).Pa?
            && Cpu.Translate(c, va / PAGE, Read) == PageFault
  {
    var c, va, reg := OneLeafCore(), 0x80_0000_0000, Cpu.RegimeOf(OneLeafCore(), Read);
    OneLeafSatp();
    OneLeafTables();
    WalkersAgree(c.ram, [OneLeaf()], Csrs(8, 0x8_0000, false, 0), va, Load, PRV_S, reg);
    NonCanonicalFaults(c, va / PAGE, Read);
  }

  /** The second walker looks at 39 bits only. */
  lemma HighBitsIgnored(memory: seq<Word>, csrs: Csrs, va: int, kind: Kind, priv: Priv)
    requires csrs.mode == 8 && !csrs.mprv && priv != PRV_M && va >= 0
    ensures Translate(memory, csrs, va, kind, priv) == Translate(memory, csrs, va % 0x80_0000_0000, kind, priv)
  {
    SameFields(va);
  }

  lemma SameFields(va: int)
    requires va >= 0
    ensures VaOf(va) == VaOf(va % 0x80_0000_0000)
  {
    FieldOfRest(va, 0x1000, 0x4_0000);
    FieldOfRest(va, 0x20_0000, 0x200);
    FieldOfRest(va, 0x4000_0000, 1);
    DivModTwice(va, 0x1000, 0x800_0000);
  }
}
