// Three of the four hazards of MmuProofs are exact: for the given control state, the
// operation keeps every coherent TLB coherent if and only if the hazard is absent. The
// source flushes nothing on these paths (temu/riscv_cpu.c:961-977, 1112-1117, 1143-1155).

module MmuHazards {
  import opened Bits
  import opened PhysMem
  import opened PageWalk
  import opened Cpu
  import opened Mmu
  import opened MmuProofs

  /** satp in Sv39 mode with its root table in page 0. */
  function Sv39AtZero(): Word { Zero()[63 := true] }

  /** One page of RAM at physical 0; entry 1 of the root table maps virtual 0x4000_0000 to it. */
  function OneTable(p: Priv): Ram {
    var pte := Zero()[PTE_V := true][PTE_R := true][PTE_W := true][PTE_X := true][PTE_U := p != PRV_S][PTE_A := true][PTE_D := true];
    Ram([Range(0, PAGE, true, 0)], map[8 := pte])
  }

  function OneEntry(e: TlbEntry): Tlbs {
    NoTlbs().(read := EmptyTlb()[Index(e.vaddr) := e])
  }

  lemma OneEntryCoherent(c: Core, e: TlbEntry)
    requires GoodEntry(c, e, Read)
    ensures Coherent(Machine(c, OneEntry(e)))
  {
    EmptyIsCoherent(c);
    CoherentUpdate(c, NoTlbs(), Read, Index(e.vaddr), e);
  }

  lemma OneEntryBroken(c: Core, e: TlbEntry)
    requires e.vaddr != INVALID && !GoodEntry(c, e, Read)
    ensures !Coherent(Machine(c, OneEntry(e)))
  {
    assert OneEntry(e).read[Index(e.vaddr)] == e;
    assert !GoodTlb(c, TlbOf(OneEntry(e), Read), Read);
  }

  lemma Sv39AtZeroFields()
    ensures SatpMode(Sv39AtZero()) == 8 && Num(Sv39AtZero()[..44]) == 0
  {
    NumOfZeros(Sv39AtZero()[..44]);
    var m := Sv39AtZero()[60..64];
    assert m == [false, false, false, true];
    assert m[1..] == [false, false, true] && m[1..][1..] == [false, true] && m[1..][1..][1..] == [true];
    assert Num([true][1..]) == 0;
  }

  lemma OneTableWalk(p: Priv, reg: Regime)
    requires reg.priv == p && p != PRV_M
    ensures var o := WalkFrom(OneTable(p), 0, 0x4_0000, 2, reg, Read);
            o.Leaf? && o.page == 0 && Settled(o)
  {
    var ram := OneTable(p);
    assert FindRange(ram.ranges, 8) == 0;
    assert PteAddr(0, 0x4_0000, 2) == 8;
    var pte := PhysRead64(ram, 8);
    NumOfZeros(pte[10..62]);
    NeedWriteIffChanges(pte, Read);
  }

  lemma OneTableTranslates(c: Core, p: Priv)
    requires c.ram == OneTable(p) && EffectivePriv(c, Read) == p && p != PRV_M
    requires SatpMode(c.satp) == 8 && Num(c.satp[..44]) == 0
    ensures GoodEntry(c, TlbEntry(0x4000_0000, -0x4000_0000), Read)
  {
    OneTableWalk(p, RegimeOf(c, Read));
    var o := Translate(c, 0x4_0000, Read);
    assert o == WalkFrom(OneTable(p), 0, 0x4_0000, 2, RegimeOf(c, Read), Read);
    assert FindRange(OneTable(p).ranges, 0) == 0;
  }

  /** The mapped page, read with M privilege, is outside RAM. */
  lemma DirectMisses(d: Core, p: Priv)
    requires d.ram == OneTable(p) && EffectivePriv(d, Read) == PRV_M && d.curXlen == 64
    ensures !GoodEntry(d, TlbEntry(0x4000_0000, -0x4000_0000), Read)
  {
    assert Translate(d, 0x4_0000, Read) == Direct(0x4_0000);
    assert FindRange(d.ram.ranges, 0x4000_0000) == -1;
  }

  lemma TrapFromM(c: Core, cause: Cause, tval: int)
    requires ValidCause(cause) && c.priv == PRV_M
    ensures var d := CoreTrap(c, cause, tval);
            d.ram == c.ram && d.curXlen == c.curXlen && d.priv == PRV_M &&
            d.mstatus[MPRV] == c.mstatus[MPRV] && Field2(d.mstatus, MPP) == PRV_M
    ensures TrapTarget(c, cause) == PRV_M
  {
  }

  /** The witness against a hazardous trap. */
  lemma TrapBreaks(c: Core, cause: Cause, tval: int)
    requires ValidCause(cause) && TrapHazard(c.priv, c.mstatus)
    requires c.ram == OneTable(Field2(c.mstatus, MPP)) && c.satp == Sv39AtZero() && c.curXlen == 64
    ensures var m := Machine(c, OneEntry(TlbEntry(0x4000_0000, -0x4000_0000)));
            Inv(m) && !Coherent(Trap(m, cause, tval))
  {
    assert WellFormed(OneTable(Field2(c.mstatus, MPP)).ranges);
    var e := TlbEntry(0x4000_0000, -0x4000_0000);
    Sv39AtZeroFields();
    OneTableTranslates(c, Field2(c.mstatus, MPP));
    OneEntryCoherent(c, e);
    TrapFromM(c, cause, tval);
    DirectMisses(CoreTrap(c, cause, tval), Field2(c.mstatus, MPP));
    OneEntryBroken(CoreTrap(c, cause, tval), e);
  }

  /** A trap keeps every coherent TLB coherent exactly when it is not a trap from M that
      changes the MPP used by MPRV. */
  lemma TrapHazardExact(priv: Priv, mstatus: Word, cause: Cause, tval: int)
    requires ValidCause(cause)
    ensures (forall m :: Inv(m) && m.core.priv == priv && m.core.mstatus == mstatus ==> Coherent(Trap(m, cause, tval)))
            <==> !TrapHazard(priv, mstatus)
  {
    if TrapHazard(priv, mstatus) {
      var c := FillerCore(PRV_M, mstatus, 64, 2, Sv39AtZero(), OneTable(Field2(mstatus, MPP)));
      TrapBreaks(c, cause, tval);
    } else {
      forall m | Inv(m) && m.core.priv == priv && m.core.mstatus == mstatus ensures Coherent(Trap(m, cause, tval)) {
        TrapKeepsInv(m, cause, tval);
      }
    }
  }

  function EmptyPage(): Ram { Ram([Range(0, PAGE, true, 0)], map[]) }

  lemma MretFromM(c: Core)
    requires c.priv == PRV_M && MretHazard(c.mstatus)
    ensures var d := CoreMret(c);
            d.ram == c.ram && d.satp == c.satp && EffectivePriv(d, Read) == PRV_U
  {
  }

  lemma EmptyTableWalk(reg: Regime)
    ensures WalkFrom(EmptyPage(), 0, 0, 2, reg, Read) == PageFault
  {
    assert PhysRead64(EmptyPage(), PteAddr(0, 0, 2)) == Zero();
  }

  /** Virtual 0 read with U privilege through an empty root table faults. */
  lemma EmptyTableFaults(d: Core)
    requires d.ram == EmptyPage() && EffectivePriv(d, Read) == PRV_U
    requires SatpMode(d.satp) == 8 && Num(d.satp[..44]) == 0
    ensures !GoodEntry(d, TlbEntry(0, 0), Read)
  {
    EmptyTableWalk(RegimeOf(d, Read));
    assert Translate(d, 0, Read) == WalkFrom(EmptyPage(), 0, 0, 2, RegimeOf(d, Read), Read);
  }

  /** The witness against a hazardous mret. */
  lemma MretBreaks(c: Core)
    requires c.priv == PRV_M && MretHazard(c.mstatus)
    requires c.ram == EmptyPage() && c.satp == Sv39AtZero() && c.curXlen == 64
    ensures var m := Machine(c, OneEntry(TlbEntry(0, 0)));
            Inv(m) && !Coherent(Mret(m))
  {
    assert WellFormed(EmptyPage().ranges);
    var e := TlbEntry(0, 0);
    assert FindRange(c.ram.ranges, 0) == 0;
    assert Translate(c, 0, Read) == Direct(0);
    OneEntryCoherent(c, e);
    MretFromM(c);
    Sv39AtZeroFields();
    EmptyTableFaults(CoreMret(c));
    OneEntryBroken(CoreMret(c), e);
  }

  /** An mret, executed in M as it must be, keeps every coherent TLB coherent exactly when
      it does not return to M with MPRV set. */
  lemma MretHazardExact(mstatus: Word)
    ensures (forall m :: Inv(m) && m.core.priv == PRV_M && m.core.mstatus == mstatus ==> Coherent(Mret(m)))
            <==> !MretHazard(mstatus)
  {
    if MretHazard(mstatus) {
      var c := FillerCore(PRV_M, mstatus, 64, 2, Sv39AtZero(), EmptyPage());
      MretBreaks(c);
    } else {
      forall m | Inv(m) && m.core.priv == PRV_M && m.core.mstatus == mstatus ensures Coherent(Mret(m)) {
        MretKeepsInv(m);
      }
    }
  }

  /** The MXL field a misa write is read from. */
  function NewMxl(xlen: int, val: Word): Priv { if xlen == 32 then Field2(val, 30) else Field2(val, 62) }

  /** A misa write in M with a 32- or 64-bit XLEN keeps every coherent TLB coherent exactly
      when it is refused, changes nothing or names the width in use. */
  lemma MisaHazardExact(xlen: int, mxl: Priv, val: Word)
    requires xlen in {32, 64}
    ensures (forall m :: Inv(m) && m.core.priv == PRV_M && m.core.curXlen == xlen && m.core.mxl == mxl
                         ==> Coherent(WriteCsr(m, 0x301, val)))
            <==> NewMxl(xlen, val) !in {1, 2} || NewMxl(xlen, val) == mxl || XlenOf(NewMxl(xlen, val)) == xlen
  {
    // physical page of the entry: above 4 GiB before a narrowing, page 0 before a widening
    var base := if xlen == 64 then 0x1_0000_0000 else 0;
    var c := FillerCore(PRV_M, Zero(), xlen, mxl, Zero(), Ram([Range(base, PAGE, true, 0)], map[]));
    var d := CoreWriteMisa(c, val);
    if d.curXlen != xlen {
      var e := TlbEntry(0x1_0000_0000, -0x1_0000_0000);
      assert FindRange(c.ram.ranges, base) == 0;
      assert Translate(c, 0x10_0000, Read) == Direct(base / PAGE);
      OneEntryCoherent(c, e);
      var m := Machine(c, OneEntry(e));
      assert Inv(m);
      assert WriteCsr(m, 0x301, val) == Machine(d, m.tlb);
      var page := if xlen == 64 then 0 else 0x10_0000;
      assert Translate(d, 0x10_0000, Read) == Direct(page);
      assert FindRange(d.ram.ranges, page * PAGE) == -1;
      OneEntryBroken(d, e);
    } else {
      forall m | Inv(m) && m.core.priv == PRV_M && m.core.curXlen == xlen && m.core.mxl == mxl
        ensures Coherent(WriteCsr(m, 0x301, val))
      {
        WriteCsrKeepsInv(m, 0x301, val);
      }
    }
  }

  // ----- the block being executed -----

  /** Granting SUM, or changing it outside S, takes no code page away. */
  lemma {:induction false} CodeWalkKeeps(ram: Ram, basePage: int, vp: int, lvl: nat, r1: Regime, r2: Regime)
    requires r1.priv == r2.priv && (r1.priv == PRV_S && r1.sum ==> r2.sum)
    requires WalkFrom(ram, basePage, vp, lvl, r1, Code).Leaf?
    ensures WalkFrom(ram, basePage, vp, lvl, r2, Code) == WalkFrom(ram, basePage, vp, lvl, r1, Code)
    decreases lvl
  {
    var pte := PhysRead64(ram, PteAddr(basePage, vp, lvl));
    if lvl > 0 && !IsLeaf(pte) { CodeWalkKeeps(ram, PtePage(pte), vp, lvl - 1, r1, r2); }
  }

  lemma CodeEntryKeeps(c: Core, e: TlbEntry, val: Word)
    requires GoodEntry(c, e, Code) && (c.priv == PRV_S && c.mstatus[SUM] ==> val[SUM])
    ensures GoodEntry(CoreSetMstatus(c, val), e, Code)
  {
    var vp := e.vaddr / PAGE;
    if UsesTables(c, vp, Code) {
      CodeWalkKeeps(c.ram, Num(c.satp[..44]), vp, Levels(SatpMode(c.satp)) - 1,
                    RegimeOf(c, Code), RegimeOf(CoreSetMstatus(c, val), Code));
    }
  }

  lemma UserPageWalk(reg: Regime)
    requires reg.priv == PRV_S
    ensures var o := WalkFrom(OneTable(PRV_U), 0, 0x4_0000, 2, reg, Code);
            if reg.sum then o.Leaf? && o.page == 0 && Settled(o) else o == PageFault
  {
    var ram := OneTable(PRV_U);
    assert FindRange(ram.ranges, 8) == 0;
    assert PteAddr(0, 0x4_0000, 2) == 8;
    var pte := PhysRead64(ram, 8);
    NumOfZeros(pte[10..62]);
    NeedWriteIffChanges(pte, Code);
  }

  lemma UserPageEntry(c: Core)
    requires c.priv == PRV_S && c.ram == OneTable(PRV_U) && SatpMode(c.satp) == 8 && Num(c.satp[..44]) == 0
    ensures GoodEntry(c, TlbEntry(0x4000_0000, -0x4000_0000), Code) <==> c.mstatus[SUM]
  {
    UserPageWalk(RegimeOf(c, Code));
    var o := Translate(c, 0x4_0000, Code);
    assert o == WalkFrom(OneTable(PRV_U), 0, 0x4_0000, 2, RegimeOf(c, Code), Code);
    assert FindRange(OneTable(PRV_U).ranges, 0) == 0;
  }

  lemma SumBreaks(c: Core, val: Word)
    requires c == FillerCore(PRV_S, c.mstatus, 64, 2, Sv39AtZero(), OneTable(PRV_U)) && c.mstatus[SUM] && !val[SUM]
    ensures var e := TlbEntry(0x4000_0000, -0x4000_0000);
            GoodEntry(c, e, Code) && !GoodEntry(CoreSetMstatus(c, val), e, Code)
  {
    Sv39AtZeroFields();
    UserPageEntry(c);
    UserPageEntry(CoreSetMstatus(c, val));
  }

  /** A write to mstatus or sstatus does not leave the block being executed, whose page was
      translated before: it stays right for every code page exactly unless S loses SUM. */
  lemma SumHazardExact(p: Priv, w: Word, val: Word)
    ensures (forall c: Core, e :: c.priv == p && c.mstatus == w && GoodEntry(c, e, Code) ==> GoodEntry(CoreSetMstatus(c, val), e, Code))
            <==> !(p == PRV_S && w[SUM] && !val[SUM])
  {
    if p == PRV_S && w[SUM] && !val[SUM] {
      SumBreaks(FillerCore(PRV_S, w, 64, 2, Sv39AtZero(), OneTable(PRV_U)), val);
    } else {
      forall c: Core, e | c.priv == p && c.mstatus == w && GoodEntry(c, e, Code) ensures GoodEntry(CoreSetMstatus(c, val), e, Code) {
        CodeEntryKeeps(c, e, val);
      }
    }
  }
}
