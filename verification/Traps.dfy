// Interrupt selection, trap entry and return of temu/riscv_cpu.c.

module Traps {
  import opened Options
  import opened Bits
  import PhysMem
  import opened PageWalk
  import opened Cpu
  import opened Mmu

  const PRV_H: Priv := 2

  /** get_pending_irq_mask */
  function PendingMask(c: Core): (m: Word32) {
    seq(32, i requires 0 <= i < 32 =>
      c.mip[i] && c.mie[i] &&
      if c.priv == PRV_M then c.mstatus[MIE] && !c.mideleg[i]
      else if c.priv == PRV_S then !c.mideleg[i] || c.mstatus[SIE]
      else true)
  }

  /** ctz32, None for an empty mask */
  function FirstSet(m: seq<bool>): (r: Option<nat>)
    ensures r.Some? ==> r.value < |m|
  {
    if |m| == 0 then None
    else if m[0] then Some(0)
    else match FirstSet(m[1..]) case None => None case Some(i) => Some(i + 1)
  }

  /** raise_interrupt: the new state, and the interrupt taken. */
  function TakeInterrupt(c: Core): (Core, Option<nat>) {
    match FirstSet(PendingMask(c))
    case None => (c, None)
    case Some(i) => (CoreTrap(c, Interrupt(i), 0), Some(i))
  }

  lemma {:induction false} FirstSetIsLowest(m: seq<bool>)
    ensures match FirstSet(m)
            case None => forall j :: 0 <= j < |m| ==> !m[j]
            case Some(i) => m[i] && forall j :: 0 <= j < i ==> !m[j]
  {
    if |m| > 0 && !m[0] {
      FirstSetIsLowest(m[1..]);
      assert forall j :: 1 <= j < |m| ==> m[j] == m[1..][j - 1];
    }
  }

  // ----- the rule of section 3.1.9 of the Privileged Architecture v1.10 -----

  /** The mode an interrupt is for. */
  function Destination(c: Core, i: nat): Priv
    requires i < 32
  {
    if c.mideleg[i] then PRV_S else PRV_M
  }

  predicate ModeEnables(w: Word, p: Priv) { if p == PRV_S then w[SIE] else w[MIE] }

  /** Enabled when running below the destination, or in it with its enable bit set. */
  predicate GloballyEnabled(c: Core, i: nat)
    requires i < 32
  {
    var d := Destination(c, i);
    c.priv < d || (c.priv == d && ModeEnables(c.mstatus, d))
  }

  /** The mask is the architectural rule, in every privilege but the reserved one; there it
      is that rule exactly for the interrupts that are not delegated. */
  lemma PendingMaskIsRule(c: Core, i: nat)
    requires i < 32 && c.mip[i] && c.mie[i]
    ensures (PendingMask(c)[i] <==> GloballyEnabled(c, i)) <==> (c.priv != PRV_H || !c.mideleg[i])
  {
  }

  /** The lowest enabled interrupt is taken; it goes to its destination, never from M when
      delegated or when MIE is clear, and never lowers the privilege. Nothing is taken
      only when nothing is enabled. */
  ghost predicate Disciplined(c: Core) {
    match TakeInterrupt(c)
    case (d, Some(i)) =>
      && i < 32
      && c.mip[i] && c.mie[i] && GloballyEnabled(c, i)
      && (forall j :: 0 <= j < i ==> !(c.mip[j] && c.mie[j] && GloballyEnabled(c, j)))
      && (c.priv == PRV_M ==> c.mstatus[MIE] && !c.mideleg[i])
      && d.priv == Destination(c, i) && d.priv >= c.priv
    case (d, None) =>
      d == c && forall j :: 0 <= j < 32 ==> !(c.mip[j] && c.mie[j] && GloballyEnabled(c, j))
  }

  lemma InterruptDiscipline(c: Core)
    requires c.priv != PRV_H
    ensures Disciplined(c)
  {
    var m := PendingMask(c);
    FirstSetIsLowest(m);
    forall j | 0 <= j < 32 ensures m[j] <==> c.mip[j] && c.mie[j] && GloballyEnabled(c, j) {
      if c.mip[j] && c.mie[j] { PendingMaskIsRule(c, j); }
    }
  }

  /** In the reserved privilege everything is enabled and nothing is delegated: a delegated
      interrupt goes to M there, and there only. */
  lemma DisciplineExact(p: Priv)
    ensures (forall c: Core :: c.priv == p ==> Disciplined(c)) <==> p != PRV_H
  {
    if p == PRV_H {
      var one := Zero32()[1 := true];
      var c := FillerCore(PRV_H, Zero(), 64, 2, Zero(), PhysMem.Ram([], map[])).(mip := one, mie := one, mideleg := one);
      FirstSetIsLowest(PendingMask(c));
      assert PendingMask(c)[1];
      assert !Disciplined(c);
    } else {
      forall c: Core | c.priv == p ensures Disciplined(c) { InterruptDiscipline(c); }
    }
  }

  /** No trap lowers the privilege. */
  lemma TrapNeverLowers(c: Core, cause: Cause, tval: int)
    requires ValidCause(cause)
    ensures CoreTrap(c, cause, tval).priv >= c.priv
    ensures CoreTrap(c, cause, tval).priv == TrapTarget(c, cause)
  {
  }

  /** `d` is any state the M handler leaves, with mepc and mstatus as the trap set them.
      mret restores privilege, pc and the enable bit of the trapped mode; of the rest of
      mstatus only MIE (when coming from below), MPIE and MPP differ. */
  lemma TrapThenMret(c: Core, cause: Cause, tval: int, d: Core)
    requires ValidCause(cause) && !Delegated(c, cause)
    requires var t := CoreTrap(c, cause, tval); d.priv == PRV_M && d.mepc == t.mepc && d.mstatus == t.mstatus
    ensures var r := CoreMret(d);
            && r.priv == c.priv && r.pc == c.pc
            && r.mstatus[c.priv] == c.mstatus[c.priv]
            && r.mstatus == SetField2(c.mstatus[MIE := c.priv == PRV_M && c.mstatus[MIE]][MPIE := true], MPP, PRV_U)
  {
    var r := CoreMret(d);
    var want := SetField2(c.mstatus[MIE := c.priv == PRV_M && c.mstatus[MIE]][MPIE := true], MPP, PRV_U);
    assert Field2(d.mstatus, MPP) == c.priv;
    assert forall i :: 0 <= i < 64 ==> r.mstatus[i] == want[i];
  }

  /** The same for a delegated trap and sret. */
  lemma TrapThenSret(c: Core, cause: Cause, tval: int, d: Core)
    requires ValidCause(cause) && Delegated(c, cause)
    requires var t := CoreTrap(c, cause, tval); d.sepc == t.sepc && d.mstatus == t.mstatus
    ensures var r := CoreSret(d);
            && r.priv == c.priv && r.pc == c.pc
            && r.mstatus[c.priv] == c.mstatus[c.priv]
            && r.mstatus == c.mstatus[SIE := c.priv == PRV_S && c.mstatus[SIE]][SPIE := true][SPP := false]
  {
    var r := CoreSret(d);
    var want := c.mstatus[SIE := c.priv == PRV_S && c.mstatus[SIE]][SPIE := true][SPP := false];
    assert forall i :: 0 <= i < 64 ==> r.mstatus[i] == want[i];
  }

  // ----- the width fields -----

  predicate LegalWidth(f: Priv) { f == 1 || f == 2 }

  /** The source guards SXL with a test of UXL: a write keeps a legal SXL legal, whatever
      the old state, exactly when it does not pair a legal UXL with an illegal SXL. */
  lemma SxlGuardExact(val: Word)
    ensures (forall c: Core :: LegalWidth(Field2(c.mstatus, SXL)) ==> LegalWidth(Field2(CoreSetMstatus(c, val).mstatus, SXL)))
            <==> (LegalWidth(Field2(val, UXL)) ==> LegalWidth(Field2(val, SXL)))
  {
    if LegalWidth(Field2(val, UXL)) && !LegalWidth(Field2(val, SXL)) {
      var c := FillerCore(PRV_M, Zero()[SXL + 1 := true], 64, 2, Zero(), PhysMem.Ram([], map[]));
      assert Field2(c.mstatus, SXL) == 2;
      assert Field2(CoreSetMstatus(c, val).mstatus, SXL) == Field2(val, SXL);
    }
  }

  /** Returning to S with an illegal SXL selects an XLEN the interpreter has no loop for. */
  lemma IllegalSxlWidth(c: Core)
    requires c.priv != PRV_S
    ensures CoreSetPriv(c, PRV_S).curXlen in {32, 64} <==> LegalWidth(Field2(c.mstatus, SXL))
  {
  }

  /** Through sstatus SXL never changes. */
  lemma SstatusKeepsSxl(c: Core, val: Word)
    ensures Field2(CoreSetMstatus(c, SstatusValue(c, val)).mstatus, SXL) == Field2(c.mstatus, SXL)
  {
  }
}
