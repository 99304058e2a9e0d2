// get_phys_addr of temu/riscv_cpu.c (MAX_XLEN = 64): the Sv39/Sv48 table walk with its
// permission checks and accessed/dirty updates (section 4.3.2 of the RISC-V Privileged
// Architecture v1.10).
//
// A virtual address v is split into its page v / 4096 and its offset, because every
// decision of the walk is taken on the page.

module PageWalk {
  import opened Bits
  import opened PhysMem

  datatype Access = Read | Write | Code

  type Priv = p: nat | p <= 3
  const PRV_U: Priv := 0
  const PRV_S: Priv := 1
  const PRV_M: Priv := 3

  // Bits of a page-table entry.
  const PTE_V := 0
  const PTE_R := 1
  const PTE_W := 2
  const PTE_X := 3
  const PTE_U := 4
  const PTE_A := 6
  const PTE_D := 7

  /** What the walk depends on besides RAM: effective privilege, SUM and MXR. */
  datatype Regime = Regime(priv: Priv, sum: bool, mxr: bool)

  /** `key` is the host pointer of the leaf entry, `pte` its old value and `updated` the
      value with the accessed (and dirty) bits set. */
  datatype Outcome =
    | PageFault
    | Direct(page: int)
    | Leaf(page: int, key: int, pte: Word, updated: Word)

  /** The table index of a page at a level: `(vaddr >> vaddr_shift) & pte_mask`. */
  function Vpn(vp: int, lvl: nat): int {
    match lvl
    case 0 => vp % 512
    case 1 => vp / 512 % 512
    case 2 => vp / 0x4_0000 % 512
    case _ => vp / 0x800_0000 % 512
  }

  /** `(vaddr & vaddr_mask) | (paddr & ~vaddr_mask)` on pages. */
  function Splice(page: int, vp: int, lvl: nat): int {
    match lvl
    case 0 => page
    case 1 => page - page % 512 + vp % 512
    case 2 => page - page % 0x4_0000 + vp % 0x4_0000
    case _ => page - page % 0x800_0000 + vp % 0x800_0000
  }

  /** The page of `paddr = (pte >> 10) << 12`: 64-bit shifts drop the two top bits. */
  function PtePage(pte: Word): int {
    Num(pte[10..62])
  }

  predicate IsLeaf(pte: Word) { pte[PTE_R] || pte[PTE_W] || pte[PTE_X] }

  /** `xwr` is 2 or 6: writable but not readable. */
  predicate Reserved(pte: Word) { pte[PTE_W] && !pte[PTE_R] }

  /** Privilege and protection checks on a leaf; MXR lets loads use executable pages. */
  predicate Permitted(pte: Word, reg: Regime, acc: Access) {
    && (if reg.priv == PRV_S then !(pte[PTE_U] && !reg.sum) else pte[PTE_U])
    && match acc
       case Read => pte[PTE_R] || (reg.mxr && pte[PTE_X])
       case Write => pte[PTE_W]
       case Code => pte[PTE_X]
  }

  function Touch(pte: Word, acc: Access): Word {
    if acc.Write? then pte[PTE_A := true][PTE_D := true] else pte[PTE_A := true]
  }

  /** The test of the source: is a write of the entry needed? */
  predicate NeedWrite(pte: Word, acc: Access) {
    !pte[PTE_A] || (!pte[PTE_D] && acc.Write?)
  }

  function PteAddr(basePage: int, vp: int, lvl: nat): int {
    basePage * PAGE + 8 * Vpn(vp, lvl)
  }

  function LeafPage(pte: Word, vp: int, lvl: nat): int {
    Splice(PtePage(pte), vp, lvl)
  }

  /** A valid entry that leads to another table. */
  predicate Points(pte: Word) { pte[PTE_V] && !IsLeaf(pte) }

  /** What the walk makes of the last entry it reads. */
  function Arrive(ram: Ram, a: int, vp: int, lvl: nat, reg: Regime, acc: Access): Outcome {
    var pte := PhysRead64(ram, a);
    if !pte[PTE_V] || !IsLeaf(pte) || Reserved(pte) || !Permitted(pte, reg, acc) then PageFault
    else Leaf(LeafPage(pte, vp, lvl), HostPtr(ram, a), pte, Touch(pte, acc))
  }

  /** The level loop, from level `lvl` down to 0. */
  function WalkFrom(ram: Ram, basePage: int, vp: int, lvl: nat, reg: Regime, acc: Access): Outcome
    decreases lvl
  {
    var a := PteAddr(basePage, vp, lvl);
    var pte := PhysRead64(ram, a);
    if Points(pte) && lvl > 0 then WalkFrom(ram, PtePage(pte), vp, lvl - 1, reg, acc)
    else Arrive(ram, a, vp, lvl, reg, acc)
  }

  /** Host pointers of the page-table entries the walk reads. */
  function WalkReads(ram: Ram, basePage: int, vp: int, lvl: nat): set<int>
    decreases lvl
  {
    var a := PteAddr(basePage, vp, lvl);
    var pte := PhysRead64(ram, a);
    var here := if IsRamAt(ram, a) then {HostPtr(ram, a)} else {};
    if Points(pte) && lvl > 0 then here + WalkReads(ram, PtePage(pte), vp, lvl - 1) else here
  }

  // ----- accessed and dirty bits -----

  /** `e2` is `e1` with accessed or dirty bits set. */
  predicate GrowsAD(e1: Word, e2: Word) {
    && (forall i :: 0 <= i < 64 && i != PTE_A && i != PTE_D ==> e1[i] == e2[i])
    && (e1[PTE_A] ==> e2[PTE_A])
    && (e1[PTE_D] ==> e2[PTE_D])
  }

  /** Two outcomes agree, the second with more accessed or dirty bits in the leaf. */
  predicate SameTarget(o1: Outcome, o2: Outcome) {
    match (o1, o2)
    case (PageFault, PageFault) => true
    case (Direct(p1), Direct(p2)) => p1 == p2
    case (Leaf(p1, k1, e1, _), Leaf(p2, k2, e2, _)) => p1 == p2 && k1 == k2 && GrowsAD(e1, e2)
    case _ => false
  }

  /** No bit is left to set. */
  predicate Settled(o: Outcome) {
    o.Leaf? ==> o.updated == o.pte
  }

  /** `r2` is `r1` with accessed or dirty bits set in some words. */
  ghost predicate OnlySetsAD(r1: Ram, r2: Ram) {
    && r1.ranges == r2.ranges
    && forall k {:trigger WordAt(r1, k)} {:trigger WordAt(r2, k)} :: GrowsAD(WordAt(r1, k), WordAt(r2, k))
  }

  lemma OnlySetsADTrans(r1: Ram, r2: Ram, r3: Ram)
    requires OnlySetsAD(r1, r2) && OnlySetsAD(r2, r3)
    ensures OnlySetsAD(r1, r3)
  {
    forall k {:trigger WordAt(r1, k)} {:trigger WordAt(r3, k)} | true ensures GrowsAD(WordAt(r1, k), WordAt(r3, k)) {
      assert GrowsAD(WordAt(r1, k), WordAt(r2, k)) && GrowsAD(WordAt(r2, k), WordAt(r3, k));
    }
  }

  /** The test of the source decides exactly whether the entry would change. */
  lemma NeedWriteIffChanges(pte: Word, acc: Access)
    ensures NeedWrite(pte, acc) <==> Touch(pte, acc) != pte
  {
    if !NeedWrite(pte, acc) {
      assert Touch(pte, acc) == pte;
    } else if !pte[PTE_A] {
      assert Touch(pte, acc)[PTE_A] != pte[PTE_A];
    } else {
      assert Touch(pte, acc)[PTE_D] != pte[PTE_D];
    }
  }

  lemma TouchOnlySetsAD(ram: Ram, key: int, acc: Access)
    ensures OnlySetsAD(ram, SetWord(ram, key, Touch(WordAt(ram, key), acc)))
  {
  }

  /** An entry that differs only in A and D is read the same way. */
  lemma PteFieldsAgree(e1: Word, e2: Word, reg: Regime, acc: Access)
    requires GrowsAD(e1, e2)
    ensures e1[PTE_V] == e2[PTE_V] && IsLeaf(e1) == IsLeaf(e2) && Reserved(e1) == Reserved(e2)
    ensures PtePage(e1) == PtePage(e2)
    ensures Permitted(e1, reg, acc) == Permitted(e2, reg, acc)
    ensures Touch(e1, acc) == e1 ==> Touch(e2, acc) == e2
  {
    assert e1[10..62] == e2[10..62];
    NeedWriteIffChanges(e1, acc);
    NeedWriteIffChanges(e2, acc);
  }

  lemma PteGrows(r1: Ram, r2: Ram, a: int)
    requires OnlySetsAD(r1, r2)
    ensures GrowsAD(PhysRead64(r1, a), PhysRead64(r2, a)) && IsRamAt(r1, a) == IsRamAt(r2, a)
    ensures IsRamAt(r1, a) ==> HostPtr(r1, a) == HostPtr(r2, a)
  {
  }

  /** Pointers stay pointers to the same table. */
  lemma PointerStays(r1: Ram, r2: Ram, a: int)
    requires OnlySetsAD(r1, r2)
    ensures Points(PhysRead64(r1, a)) == Points(PhysRead64(r2, a)) && PtePage(PhysRead64(r1, a)) == PtePage(PhysRead64(r2, a))
  {
    PteGrows(r1, r2, a);
    PteFieldsAgree(PhysRead64(r1, a), PhysRead64(r2, a), Regime(PRV_U, false, false), Read);
  }

  lemma {:induction false} ReadsIgnoreAD(r1: Ram, r2: Ram, basePage: int, vp: int, lvl: nat)
    requires OnlySetsAD(r1, r2)
    ensures WalkReads(r1, basePage, vp, lvl) == WalkReads(r2, basePage, vp, lvl)
    decreases lvl
  {
    var a := PteAddr(basePage, vp, lvl);
    PteGrows(r1, r2, a);
    PteFieldsAgree(PhysRead64(r1, a), PhysRead64(r2, a), Regime(PRV_U, false, false), Read);
    if lvl > 0 { ReadsIgnoreAD(r1, r2, PtePage(PhysRead64(r1, a)), vp, lvl - 1); }
  }

  /** The second outcome is the first one with more accessed or dirty bits. */
  predicate Grown(o1: Outcome, o2: Outcome) { SameTarget(o1, o2) && (Settled(o1) ==> Settled(o2)) }

  lemma ArriveIgnoresAD(r1: Ram, r2: Ram, a: int, vp: int, lvl: nat, reg: Regime, acc: Access)
    requires OnlySetsAD(r1, r2)
    ensures Grown(Arrive(r1, a, vp, lvl, reg, acc), Arrive(r2, a, vp, lvl, reg, acc))
  {
    PteGrows(r1, r2, a);
    PteFieldsAgree(PhysRead64(r1, a), PhysRead64(r2, a), reg, acc);
  }

  /** Setting accessed or dirty bits anywhere in RAM, even in words that are pointer
      entries of the same tables, changes no translation. */
  lemma {:induction false} WalkIgnoresAD(r1: Ram, r2: Ram, basePage: int, vp: int, lvl: nat, reg: Regime, acc: Access)
    requires OnlySetsAD(r1, r2)
    ensures Grown(WalkFrom(r1, basePage, vp, lvl, reg, acc), WalkFrom(r2, basePage, vp, lvl, reg, acc))
    ensures WalkReads(r1, basePage, vp, lvl) == WalkReads(r2, basePage, vp, lvl)
    decreases lvl
  {
    ReadsIgnoreAD(r1, r2, basePage, vp, lvl);
    var a := PteAddr(basePage, vp, lvl);
    PointerStays(r1, r2, a);
    if Points(PhysRead64(r1, a)) && lvl > 0 {
      WalkIgnoresAD(r1, r2, PtePage(PhysRead64(r1, a)), vp, lvl - 1, reg, acc);
    } else {
      ArriveIgnoresAD(r1, r2, a, vp, lvl, reg, acc);
    }
  }

  /** Changing RAM outside the entries a walk reads leaves the walk alone. */
  lemma {:induction false} WalkFrame(r1: Ram, r2: Ram, basePage: int, vp: int, lvl: nat, reg: Regime, acc: Access)
    requires r1.ranges == r2.ranges
    requires forall k :: k in WalkReads(r1, basePage, vp, lvl) ==> WordAt(r2, k) == WordAt(r1, k)
    ensures WalkFrom(r2, basePage, vp, lvl, reg, acc) == WalkFrom(r1, basePage, vp, lvl, reg, acc)
    decreases lvl
  {
    var a := PteAddr(basePage, vp, lvl);
    var pte := PhysRead64(r1, a);
    if IsRamAt(r1, a) {
      assert HostPtr(r1, a) in WalkReads(r1, basePage, vp, lvl);
      if pte[PTE_V] && !IsLeaf(pte) && lvl > 0 {
        WalkFrame(r1, r2, PtePage(pte), vp, lvl - 1, reg, acc);
      }
    }
  }

  /** The word a successful walk wants to update is the leaf entry it has read. */
  lemma {:induction false} WalkLeafIsRead(ram: Ram, basePage: int, vp: int, lvl: nat, reg: Regime, acc: Access)
    ensures var o := WalkFrom(ram, basePage, vp, lvl, reg, acc);
            !o.Direct? && (o.Leaf? ==>
              o.pte == WordAt(ram, o.key) && o.updated == Touch(o.pte, acc) &&
              o.key in WalkReads(ram, basePage, vp, lvl))
    decreases lvl
  {
    var a := PteAddr(basePage, vp, lvl);
    var pte := PhysRead64(ram, a);
    if pte[PTE_V] && !IsLeaf(pte) && lvl > 0 {
      WalkLeafIsRead(ram, PtePage(pte), vp, lvl - 1, reg, acc);
    }
  }

  /** A walk after its own update has nothing left to write. */
  lemma UpdateSettles(ram: Ram, basePage: int, vp: int, lvl: nat, reg: Regime, acc: Access)
    requires WalkFrom(ram, basePage, vp, lvl, reg, acc).Leaf?
    ensures var o := WalkFrom(ram, basePage, vp, lvl, reg, acc);
            Settled(WalkFrom(SetWord(ram, o.key, o.updated), basePage, vp, lvl, reg, acc))
  {
    var o := WalkFrom(ram, basePage, vp, lvl, reg, acc);
    var ram' := SetWord(ram, o.key, o.updated);
    WalkLeafIsRead(ram, basePage, vp, lvl, reg, acc);
    WalkLeafIsRead(ram', basePage, vp, lvl, reg, acc);
    TouchOnlySetsAD(ram, o.key, acc);
    WalkIgnoresAD(ram, ram', basePage, vp, lvl, reg, acc);
    NeedWriteIffChanges(o.updated, acc);
  }
}
