// The instructions the loop of temu/riscv_cpu_template.h executes are those the page walk
// reaches: the fetch fast path of FetchLoop joined to the coherent code TLB of MmuProofs.

module FetchWalk {
  import opened Options
  import opened PhysMem
  import opened PageWalk
  import opened Cpu
  import opened Mmu
  import opened MmuProofs
  import opened FetchLoop

  /** The instruction at pc when its first halfword is at ptr; `next` is the fetch at pc + 2,
      made for a 32-bit instruction only. A compressed one comes with the halfword behind it,
      or with zeros at the end of its page. */
  function Assemble(c: Core, pc: Addr, ptr: int, next: (Core, Out)): (Core, Option<seq<bool>>) {
    var low := LoadAt(c.ram, ptr, 2);
    if !(low[0] && low[1]) then
      (c, Some(low + if LeavesRoom(pc, 4) then LoadAt(c.ram, ptr + 2, 2) else seq(16, _ => false)))
    else if !next.1.Ptr? then (next.0, None)
    else (next.0, Some(low + LoadAt(next.0.ram, next.1.ptr, 2)))
  }

  function FromFirst(pc: Addr, first: (Core, Out)): (Core, Option<seq<bool>>) {
    var (c, out) := first;
    if !out.Ptr? then (c, None) else Assemble(c, pc, out.ptr, CoreFetch(c, Mmu.Next(pc, 2)))
  }

  /** The instruction at pc as the machine without TLBs fetches it; None when a walk fails. */
  function WalkInsn(c: Core, pc: Addr): (Core, Option<seq<bool>>) { FromFirst(pc, CoreFetch(c, pc)) }

  /** The machine is coherent, and so is the code TLB the current block was entered with. */
  ghost predicate Current(l: Loop) { Inv(l.m) && (l.codePtr < l.codeEnd ==> GoodTlb(l.m.core, l.block, Code)) }

  /** What a good code TLB maps is what the walk reaches, and the walk writes nothing. */
  lemma MappedIsWalked(c: Core, t: Tlb, addr: Addr, ptr: int)
    requires WellFormed(c.ram.ranges) && GoodTlb(c, t, Code) && MapsTo(t, addr, ptr)
    ensures CoreFetch(c, addr) == (c, Ptr(ptr))
  {
    HitPage(c, t, addr, 0, Code);
    HitMeansWalk(c, t[Index(addr)], addr, Code);
  }

  lemma SetPcKeepsInv(m: Machine, pc: int)
    requires Inv(m)
    ensures Inv(SetPc(m, pc))
  {
    SameControls(m, SetPc(m, pc).core);
  }

  lemma PairIsWhole(c: Core, pc: Addr, ptr: int)
    requires LeavesRoom(pc, 4)
    ensures Assemble(c, pc, ptr, (c, Ptr(ptr + 2))) == (c, Some(LoadAt(c.ram, ptr, 4)))
  {
    LoadParts(c.ram, ptr);
  }

  lemma PairIsWalked(c: Core, t: Tlb, pc: Addr, ptr: int)
    requires WellFormed(c.ram.ranges) && GoodTlb(c, t, Code) && LeavesRoom(pc, 4)
    requires MapsTo(t, pc, ptr) && MapsTo(t, Mmu.Next(pc, 2), ptr + 2)
    ensures WalkInsn(c, pc) == (c, Some(LoadAt(c.ram, ptr, 4)))
  {
    MappedIsWalked(c, t, pc, ptr);
    MappedIsWalked(c, t, Mmu.Next(pc, 2), ptr + 2);
    PairIsWhole(c, pc, ptr);
  }

  /** Four bytes of one page under a good TLB. */
  lemma WholeIsWalked(l: Loop)
    requires Inv(l.m) && InBlock(l) && l.codePtr < l.codeEnd && GoodTlb(l.m.core, l.block, Code)
    ensures WalkInsn(l.m.core, GetPc(l)) == (l.m.core, Some(Insn32(l.m, l.codePtr)))
  {
    var pc := GetPc(l);
    RoomLeft(l);
    InsidePage(pc, 2);
    MapsAlong(l.block, pc, l.codePtr, 2);
    PairIsWalked(l.m.core, l.block, pc, l.codePtr);
  }

  /** A preparation and the walk from c end alike. */
  ghost predicate SameFetch(p: Prepared, c: Core, r: Option<seq<bool>>) {
    && (p.Ready? ==> Inv(p.l.m) && p.l.m.core == c && r == Some(p.insn))
    && (p.Faulted? ==> Inv(p.l.m) && p.l.m.core == c && r == None)
  }

  /** The last halfword of a page, and the first one of the next page where needed. */
  lemma StraddleIsWalked(l: Loop)
    requires Inv(l.m) && InBlock(l) && l.codePtr >= l.codeEnd && GoodTlb(l.m.core, l.block, Code)
    ensures var (c, r) := WalkInsn(l.m.core, GetPc(l)); SameFetch(Straddle(l), c, r)
  {
    RoomLeft(l);
    MappedIsWalked(l.m.core, l.block, GetPc(l), l.codePtr);
    FetchRefines(l.m, Mmu.Next(GetPc(l), 2));
  }

  /** The core the fetch of a turn starts from: the pc is stored only when a block is entered. */
  function Start(l: Loop): Core { if l.codePtr < l.codeEnd then l.m.core else SetPc(l.m, GetPc(l)).core }

  /** The block entered at pc. */
  lemma EnterIsWalked(l: Loop, m: Machine, pc: Addr)
    requires Inv(m) && pc % 2 == 0
    ensures var (m1, out) := Fetch(m, pc);
            && Inv(m1) && (!out.Ptr? ==> WalkInsn(m.core, pc) == (m1.core, None))
            && (out.Ptr? ==> WalkInsn(m.core, pc) == WalkInsn(m1.core, pc) && InBlock(Enter(l, m1, pc, out.ptr)) &&
                             GetPc(Enter(l, m1, pc, out.ptr)) == pc && GoodTlb(m1.core, m1.tlb.code, Code))
  {
    var (m1, out) := Fetch(m, pc);
    FetchRefines(m, pc);
    assert GoodTlb(m1.core, TlbOf(m1.tlb, Code), Code);
    if out.Ptr? {
      FetchMaps(m, pc);
      MappedIsWalked(m1.core, m1.tlb.code, pc, out.ptr);
      EnterInBlock(l, m, pc);
      EnterPc(l, m1, pc, out.ptr);
    }
  }

  lemma EnteredIsWalk(g: Guest, l: Loop)
    requires PcOk(l) && Current(l) && l.codePtr >= l.codeEnd && l.cycles > 0 && g.interrupt(SetPc(l.m, GetPc(l))).None?
    ensures var (c, r) := WalkInsn(SetPc(l.m, GetPc(l)).core, GetPc(l)); SameFetch(Prepare(g, l), c, r)
    ensures Prepare(g, l).Ready? ==> Current(Prepare(g, l).l)
  {
    var pc, m := GetPc(l), SetPc(l.m, GetPc(l));
    SetPcKeepsInv(l.m, pc);
    EnterIsWalked(l, m, pc);
    var (m1, out) := Fetch(m, pc);
    if out.Ptr? {
      var l1 := Enter(l, m1, pc, out.ptr);
      if l1.codePtr >= l1.codeEnd { StraddleIsWalked(l1); } else { WholeIsWalked(l1); }
    }
  }

  /** Every instruction a turn executes is the one the page walk reaches at the pc, read from
      memory as the walk leaves it; and a turn that takes no interrupt fails to fetch exactly
      when the walk does, with the same exception pending. */
  lemma FetchIsWalk(g: Guest, l: Loop)
    requires PcOk(l) && Current(l)
    ensures var p, (c, r) := Prepare(g, l), WalkInsn(Start(l), GetPc(l));
            && (p.Ready? ==> Current(p.l) && p.l.m.core == c && r == Some(p.insn))
            && (p.Faulted? ==> Inv(p.l.m) && p.l.m.core == c && r == None)
  {
    if l.codePtr < l.codeEnd {
      WholeIsWalked(l);
    } else if l.cycles > 0 && g.interrupt(SetPc(l.m, GetPc(l))).None? {
      EnteredIsWalk(g, l);
    }
  }

  // ----- the whole loop -----

  ghost predicate TrapKeeps(g: Guest, l: Loop) { Inv(g.trap(SetPc(l.m, GetPc(l)))) }

  /** What the guest does in this turn, at the machine reached, keeps the TLBs coherent; and
      an instruction that stays in the block does not change where the pages of the code TLB
      it was entered with translate to. */
  ghost predicate CarefulTurn(g: Guest, l: Loop) {
    match Prepare(g, l)
    case Ready(l1, insn) =>
      var (m, x, flow) := g.exec(l1.m, l1.x, GetPc(l1), insn);
      && Inv(m) && (flow.Plain? && l1.codePtr + flow.len < l1.codeEnd ==> GoodTlb(m.core, l1.block, Code))
      && (flow.Except? ==> TrapKeeps(g, l1.(m := m)))
    case Spent => true
    case Interrupted(m) => Inv(m)
    case Faulted(l1) => TrapKeeps(g, l1)
  }

  ghost predicate Careful(g: Guest, l: Loop)
    requires KeepsEven(g) && LoopOk(l) && Overshoot(l)
    decreases Measure(l)
  {
    InterpTurn(g, l);
    CarefulTurn(g, l) && (Turn(g, l).On? ==> Careful(g, Turn(g, l).l))
  }

  ghost predicate NextCurrent(n: Next) { if n.On? then Current(n.l) else Inv(n.m) }

  lemma TurnStaysCurrent(g: Guest, l: Loop)
    requires CarefulTurn(g, l) && PcOk(l) && Current(l)
    ensures NextCurrent(Turn(g, l))
  {
    SetPcKeepsInv(l.m, GetPc(l));
    match Prepare(g, l)
    case Ready(l1, insn) =>
      FetchIsWalk(g, l);
      var (m, x, flow) := g.exec(l1.m, l1.x, GetPc(l1), insn);
      AfterStaysCurrent(g, l1, m, x, flow);
    case _ =>
  }

  lemma AfterStaysCurrent(g: Guest, l: Loop, m: Machine, x: Regs, flow: Flow)
    requires Inv(m) && (flow.Plain? && l.codePtr + flow.len < l.codeEnd ==> GoodTlb(m.core, l.block, Code))
    requires flow.Except? ==> TrapKeeps(g, l.(m := m))
    ensures NextCurrent(After(g, l, m, x, flow))
  {
    if flow.Except? {
      assert GetPc(l.(m := m, x := x, cycles := l.cycles - 1)) == GetPc(l.(m := m));
    }
  }

  /** Every turn of a careful run fetches what the walk reaches, and the loop leaves a
      coherent machine. */
  ghost predicate FetchesWalk(g: Guest, l: Loop)
    requires KeepsEven(g) && LoopOk(l) && Overshoot(l)
    decreases Measure(l)
  {
    InterpTurn(g, l);
    var (c, r) := WalkInsn(Start(l), GetPc(l));
    SameFetch(Prepare(g, l), c, r) && (Turn(g, l).On? ==> FetchesWalk(g, Turn(g, l).l))
  }

  lemma {:induction false} InterpStaysCoherent(g: Guest, l: Loop)
    requires KeepsEven(g) && LoopOk(l) && Overshoot(l) && Current(l) && Careful(g, l)
    ensures FetchesWalk(g, l) && Inv(Interp(g, l).0)
    decreases Measure(l)
  {
    InterpTurn(g, l);
    FetchIsWalk(g, l);
    TurnStaysCurrent(g, l);
    if Turn(g, l).On? { InterpStaysCoherent(g, Turn(g, l).l); }
  }
}
