// The interpreter of temu/riscv_cpu_template.h without TLBs and without code pointers: it
// fetches every instruction by the page walk at the pc. Outside the hazards of MmuProofs and
// CodeBlock the real loop, with its TLBs and its fast path, computes exactly this.

module WalkInterp {
  import opened Options
  import opened Bits
  import opened PhysMem
  import opened PageWalk
  import opened Cpu
  import opened Mmu
  import opened MmuProofs
  import opened Traps
  import opened FetchLoop
  import opened FetchWalk
  import opened Guests
  import opened CodeBlock

  // ----- instructions, interrupts and traps on the core alone -----

  function CoreBody(c: Core, insn: seq<bool>, ops: seq<BodyOp>): (Core, bool)
    decreases |ops|
  {
    if ops == [] then (c, true)
    else if !Legal(c, ops[0]) then (Illegal(c, insn), false)
    else
      var (c1, r) := CoreStep(c, ops[0]);
      if r.Err? then (c1, false) else CoreBody(c1, insn, ops[1..])
  }

  function CoreFinally(c: Core, x: Regs, y: Regs, pc: int, insn: seq<bool>, end: End): (r: (Core, Regs, Flow))
    ensures r.2.Plain? ==> r.2.len in {2, 4}
  {
    match end
    case Advance => (c, y, Plain(InsnSize(insn)))
    case Resume(leaves) => (c.(pc := (pc + 4) % WORD_LIMIT), y, if leaves then Leave else Jump)
    case Branch(half) => (c.(pc := IntX(c.curXlen, pc + 2 * half)), y, Jump)
    case JumpTo(target) => (c.(pc := AlignDown(target, 2)), y, Jump)
    case Return(machine) =>
      if !ReturnLegal(c, machine) then (Illegal(c, insn), x, Except)
      else (if machine then CoreMret(c.(pc := pc)) else CoreSret(c.(pc := pc)), y, Leave)
    case Raise(code, tval) => (Pend(c, code, tval), x, Except)
  }

  function CoreExec(body: Body, c: Core, x: Regs, pc: int, insn: seq<bool>): (r: (Core, Regs, Flow))
    ensures r.2.Plain? ==> r.2.len in {2, 4}
  {
    var (ops, y, end) := body(c, x, pc, insn);
    var (c1, ok) := CoreBody(c, insn, ops);
    if ok then CoreFinally(c1, x, y, pc, insn, end) else (c1, x, Except)
  }

  function CoreTrapOf(c: Core): Core {
    if 0 <= c.pendingException < 32 then CoreTrap(c, Exception(c.pendingException), c.pendingTval) else c
  }

  // ----- the interpreter -----

  /** `entering` when a block is to be entered: the budget and the interrupts are looked at
      only then, after a jump and at the end of a page. */
  datatype Walk = Walk(c: Core, x: Regs, pc: Addr, entering: bool, cycles: int)

  datatype WalkNext = Going(w: Walk) | Stopped(c: Core, x: Regs, cycles: int)

  predicate WalkOk(w: Walk) { !w.entering ==> w.pc % PAGE < 4094 }

  function WalkAbort(c: Core, x: Regs, pc: int, cycles: int): WalkNext {
    Stopped(CoreTrapOf(c.(pc := pc)), x, cycles - 1)
  }

  function WalkAfter(pc: Addr, cycles: int, c: Core, x: Regs, flow: Flow): WalkNext {
    match flow
    case Plain(len) => Going(Walk(c, x, (pc + len) % WORD_LIMIT, pc % PAGE + len >= 4094, cycles - 1))
    case Jump => Going(Walk(c, x, c.pc % WORD_LIMIT, true, cycles - 1))
    case Leave => Stopped(c, x, cycles - 1)
    case Except => WalkAbort(c, x, pc, cycles - 1)
  }

  function WalkExec(body: Body, c: Core, x: Regs, pc: Addr, cycles: int, insn: seq<bool>): WalkNext {
    var (d, y, flow) := CoreExec(body, c, x, pc, insn);
    WalkAfter(pc, cycles, d, y, flow)
  }

  function WalkRun(body: Body, w: Walk, c: Core): WalkNext {
    var (c1, r) := WalkInsn(c, w.pc);
    if r.None? then WalkAbort(c1, w.x, w.pc, w.cycles) else WalkExec(body, c1, w.x, w.pc, w.cycles, r.value)
  }

  function WalkTurn(body: Body, w: Walk): WalkNext {
    if !w.entering then WalkRun(body, w, w.c)
    else
      var c := w.c.(pc := w.pc);
      if w.cycles <= 0 then Stopped(c, w.x, w.cycles)
      else
        var (d, irq) := TakeInterrupt(c);
        if irq.Some? then Stopped(d, w.x, w.cycles - 1) else WalkRun(body, w, c)
  }

  function WalkMeasure(w: Walk): nat {
    (if w.cycles > 0 then w.cycles else 0) * 4096 + (if w.entering then 0 else 4096 - w.pc % PAGE)
  }

  lemma AfterDecreases(w: Walk, c: Core, x: Regs, flow: Flow)
    requires WalkOk(w) && (flow.Plain? ==> flow.len in {2, 4}) && (w.entering ==> w.cycles > 0)
    ensures var n := WalkAfter(w.pc, w.cycles, c, x, flow); n.Going? ==> WalkOk(n.w) && WalkMeasure(n.w) < WalkMeasure(w)
  {
    if flow.Plain? && (w.pc % PAGE) + flow.len < 4094 { InsidePage(w.pc, flow.len); }
  }

  lemma TurnDecreases(body: Body, w: Walk)
    requires WalkOk(w)
    ensures var n := WalkTurn(body, w); n.Going? ==> WalkOk(n.w) && WalkMeasure(n.w) < WalkMeasure(w)
  {
    var c := if w.entering then w.c.(pc := w.pc) else w.c;
    var (c1, r) := WalkInsn(c, w.pc);
    if r.Some? && (w.entering ==> w.cycles > 0) {
      var (c2, x, flow) := CoreExec(body, c1, w.x, w.pc, r.value);
      AfterDecreases(w, c2, x, flow);
    }
  }

  ghost function RunWalk(body: Body, w: Walk): (Core, Regs, int)
    requires WalkOk(w)
    decreases WalkMeasure(w)
  {
    TurnDecreases(body, w);
    match WalkTurn(body, w)
    case Going(w1) => RunWalk(body, w1)
    case Stopped(c, x, cycles) => (c, x, cycles)
  }

  // ----- instructions outside the hazards -----

  /** No operation falls into a hazard, and none of an instruction that stays in the block
      touches its page. */
  ghost predicate SafeOps(m: Machine, block: Tlb, insn: seq<bool>, ops: seq<BodyOp>, stays: bool)
    decreases |ops|
  {
    ops != [] && Legal(m.core, ops[0]) ==>
      && !Hazard(m, ops[0]) && (stays ==> BlockSafe(m, block, ops[0]))
      && var (m1, r) := Step(m, ops[0]);
         !r.Err? ==> SafeOps(m1, block, insn, ops[1..], stays)
  }

  predicate NoTrapHazard(c: Core) { !TrapHazard(c.priv, c.mstatus) }

  predicate SafeEnd(c: Core, end: End) { end == Return(true) && c.priv == PRV_M ==> !MretHazard(c.mstatus) }

  /** Whether the next instruction is read through the code pointer; `room` is what is left
      of the block. */
  predicate Stays(end: End, insn: seq<bool>, room: int) { end.Advance? && InsnSize(insn) < room }

  ghost predicate SafeExec(body: Body, m: Machine, block: Tlb, room: int, x: Regs, pc: int, insn: seq<bool>) {
    var (ops, y, end) := body(m.core, x, pc, insn);
    var (m1, ok) := RunBody(m, insn, ops);
    && SafeOps(m, block, insn, ops, Stays(end, insn, room))
    && (ok ==> SafeEnd(m1.core, end))
    && (Exec(body, m, x, pc, insn).2.Except? ==> NoTrapHazard(m1.core))
  }

  lemma {:induction false} BodyRefines(m: Machine, block: Tlb, insn: seq<bool>, ops: seq<BodyOp>, stays: bool)
    requires Inv(m) && SafeOps(m, block, insn, ops, stays) && (stays ==> GoodTlb(m.core, block, Code))
    ensures var (m1, ok) := RunBody(m, insn, ops);
            Inv(m1) && (m1.core, ok) == CoreBody(m.core, insn, ops) && (stays && ok ==> GoodTlb(m1.core, block, Code))
    decreases |ops|
  {
    if ops != [] {
      if Legal(m.core, ops[0]) {
        StepRefines(m, ops[0]);
        if stays { StepKeepsBlock(m, block, ops[0]); }
        var (m1, r) := Step(m, ops[0]);
        if !r.Err? { BodyRefines(m1, block, insn, ops[1..], stays); }
      } else {
        PendKeepsInv(m, CAUSE_ILLEGAL_INSTRUCTION, Num(insn));
      }
    }
  }

  lemma FinallyRefines(m: Machine, x: Regs, y: Regs, pc: int, insn: seq<bool>, end: End)
    requires Inv(m) && SafeEnd(m.core, end)
    ensures var (m1, z, flow) := Finally(m, x, y, pc, insn, end);
            && Inv(m1) && (m1.core, z, flow) == CoreFinally(m.core, x, y, pc, insn, end)
            && (flow.Plain? ==> end.Advance? && m1 == m && flow.len == InsnSize(insn))
            && (flow.Except? ==> m1.core.priv == m.core.priv && m1.core.mstatus == m.core.mstatus)
  {
    match end
    case Advance =>
    case Resume(_) => SetPcKeepsInv(m, (pc + 4) % WORD_LIMIT);
    case Branch(half) => SetPcKeepsInv(m, IntX(m.core.curXlen, pc + 2 * half));
    case JumpTo(target) => SetPcKeepsInv(m, AlignDown(target, 2));
    case Return(machine) =>
      if !ReturnLegal(m.core, machine) { PendKeepsInv(m, CAUSE_ILLEGAL_INSTRUCTION, Num(insn)); }
      else { ReturnRefines(m, pc, machine); }
    case Raise(code, tval) => PendKeepsInv(m, code, tval);
  }

  lemma ReturnRefines(m: Machine, pc: int, machine: bool)
    requires Inv(m) && SafeEnd(m.core, Return(machine)) && ReturnLegal(m.core, machine)
    ensures var r := if machine then Mret(SetPc(m, pc)) else Sret(SetPc(m, pc));
            Inv(r) && r.core == if machine then CoreMret(m.core.(pc := pc)) else CoreSret(m.core.(pc := pc))
  {
    SetPcKeepsInv(m, pc);
    if machine { MretKeepsInv(SetPc(m, pc)); } else { SretKeepsInv(SetPc(m, pc)); }
  }

  /** An instruction outside the hazards is the same with and without TLBs. */
  lemma ExecRefines(body: Body, m: Machine, block: Tlb, room: int, x: Regs, pc: int, insn: seq<bool>)
    requires Inv(m) && (room > 0 ==> GoodTlb(m.core, block, Code)) && SafeExec(body, m, block, room, x, pc, insn)
    ensures var (m1, z, flow) := Exec(body, m, x, pc, insn);
            && Inv(m1) && (m1.core, z, flow) == CoreExec(body, m.core, x, pc, insn)
            && (flow.Plain? && flow.len < room ==> GoodTlb(m1.core, block, Code))
            && (flow.Except? ==> NoTrapHazard(m1.core))
  {
    var (ops, y, end) := body(m.core, x, pc, insn);
    BodyRefines(m, block, insn, ops, Stays(end, insn, room));
    var (m1, ok) := RunBody(m, insn, ops);
    if ok { FinallyRefines(m1, x, y, pc, insn, end); }
  }

  lemma TrapOfRefines(m: Machine)
    requires Inv(m) && NoTrapHazard(m.core)
    ensures Inv(TrapOf(m)) && TrapOf(m).core == CoreTrapOf(m.core)
  {
    if 0 <= m.core.pendingException < 32 { TrapKeepsInv(m, Exception(m.core.pendingException), m.core.pendingTval); }
  }

  lemma InterruptOfRefines(m: Machine)
    requires Inv(m) && (InterruptOf(m).Some? ==> NoTrapHazard(m.core))
    ensures var (d, irq) := TakeInterrupt(m.core);
            && (irq.Some? <==> InterruptOf(m).Some?)
            && (irq.Some? ==> Inv(InterruptOf(m).value) && InterruptOf(m).value.core == d)
  {
    var irq := FirstSet(PendingMask(m.core));
    if irq.Some? { TrapKeepsInv(m, Interrupt(irq.value), 0); }
  }

  // ----- the loop -----

  /** The turn meets no hazard. */
  ghost predicate SafeTurn(body: Body, l: Loop) {
    match Prepare(OpsGuest(body), l)
    case Ready(l1, insn) => SafeExec(body, l1.m, l1.block, l1.codeEnd - l1.codePtr, l1.x, GetPc(l1), insn)
    case Spent => true
    case Interrupted(_) => NoTrapHazard(l.m.core)
    case Faulted(l1) => NoTrapHazard(l1.m.core)
  }

  ghost predicate SafeRun(body: Body, l: Loop)
    requires LoopOk(l) && Overshoot(l)
    decreases Measure(l)
  {
    OpsKeepEven(body);
    InterpTurn(OpsGuest(body), l);
    SafeTurn(body, l) && (Turn(OpsGuest(body), l).On? ==> SafeRun(body, Turn(OpsGuest(body), l).l))
  }

  function View(l: Loop): Walk { Walk(l.m.core, l.x, GetPc(l), l.codePtr >= l.codeEnd, l.cycles) }

  function ViewNext(n: Next): WalkNext {
    match n case On(l) => Going(View(l)) case Off(m, x, cycles) => Stopped(m.core, x, cycles)
  }

  lemma AbortRefines(body: Body, l: Loop)
    requires Inv(l.m) && NoTrapHazard(l.m.core)
    ensures TrapKeeps(OpsGuest(body), l)
    ensures ViewNext(Abort(OpsGuest(body), l)) == WalkAbort(l.m.core, l.x, GetPc(l), l.cycles)
  {
    SetPcKeepsInv(l.m, GetPc(l));
    TrapOfRefines(SetPc(l.m, GetPc(l)));
  }

  lemma PlainView(l: Loop, m: Machine, x: Regs, len: int)
    requires InBlock(l) && len in {2, 4}
    ensures var pc := GetPc(l);
            View(l.(m := m, x := x, codePtr := l.codePtr + len, cycles := l.cycles - 1))
            == Walk(m.core, x, (pc + len) % WORD_LIMIT, pc % PAGE + len >= 4094, l.cycles - 1)
  {
    NextPc(l, m, x, len, l.cycles - 1);
  }

  lemma PlainNext(g: Guest, l: Loop, m: Machine, x: Regs, len: int, w: Walk)
    requires View(l.(m := m, x := x, codePtr := l.codePtr + len, cycles := l.cycles - 1)) == w
    ensures ViewNext(After(g, l, m, x, Plain(len))) == Going(w)
  {
  }

  lemma PlainRefines(g: Guest, l: Loop, m: Machine, x: Regs, len: int)
    requires InBlock(l) && len in {2, 4}
    ensures ViewNext(After(g, l, m, x, Plain(len))) == WalkAfter(GetPc(l), l.cycles, m.core, x, Plain(len))
  {
    PlainView(l, m, x, len);
    PlainNext(g, l, m, x, len, WalkAfter(GetPc(l), l.cycles, m.core, x, Plain(len)).w);
  }

  lemma LeftRefines(g: Guest, l: Loop, m: Machine, x: Regs)
    ensures ViewNext(After(g, l, m, x, Jump)) == WalkAfter(GetPc(l), l.cycles, m.core, x, Jump)
    ensures ViewNext(After(g, l, m, x, Leave)) == WalkAfter(GetPc(l), l.cycles, m.core, x, Leave)
  {
  }

  lemma AfterRefines(body: Body, l: Loop, m: Machine, x: Regs, flow: Flow)
    requires InBlock(l) && Inv(m) && (flow.Plain? ==> flow.len in {2, 4}) && (flow.Except? ==> NoTrapHazard(m.core))
    ensures ViewNext(After(OpsGuest(body), l, m, x, flow)) == WalkAfter(GetPc(l), l.cycles, m.core, x, flow)
  {
    match flow
    case Plain(len) => PlainRefines(OpsGuest(body), l, m, x, len);
    case Jump => LeftRefines(OpsGuest(body), l, m, x);
    case Leave => LeftRefines(OpsGuest(body), l, m, x);
    case Except => RaisedRefines(body, l, m, x);
  }

  lemma RaisedRefines(body: Body, l: Loop, m: Machine, x: Regs)
    requires Inv(m) && NoTrapHazard(m.core)
    ensures ViewNext(After(OpsGuest(body), l, m, x, Except)) == WalkAfter(GetPc(l), l.cycles, m.core, x, Except)
  {
    AbortRefines(body, l.(m := m, x := x, cycles := l.cycles - 1));
  }

  lemma DispatchRefines(body: Body, l: Loop, insn: seq<bool>)
    requires InBlock(l) && Current(l) && SafeExec(body, l.m, l.block, l.codeEnd - l.codePtr, l.x, GetPc(l), insn)
    ensures ViewNext(Dispatch(OpsGuest(body), l, insn)) == WalkExec(body, l.m.core, l.x, GetPc(l), l.cycles, insn)
    ensures var (m, x, flow) := Exec(body, l.m, l.x, GetPc(l), insn);
            && Inv(m) && (flow.Plain? && l.codePtr + flow.len < l.codeEnd ==> GoodTlb(m.core, l.block, Code))
            && (flow.Except? ==> TrapKeeps(OpsGuest(body), l.(m := m)))
  {
    ExecRefines(body, l.m, l.block, l.codeEnd - l.codePtr, l.x, GetPc(l), insn);
    var (m, x, flow) := Exec(body, l.m, l.x, GetPc(l), insn);
    AfterRefines(body, l, m, x, flow);
    if flow.Except? { AbortRefines(body, l.(m := m)); }
  }

  /** Where the instruction of a turn is fetched from, when it gets that far. */
  lemma WalkReaches(body: Body, l: Loop)
    requires l.codePtr >= l.codeEnd ==> l.cycles > 0 && InterruptOf(SetPc(l.m, GetPc(l))).None?
    ensures WalkTurn(body, View(l)) == WalkRun(body, View(l), Start(l))
  {
  }

  lemma ReadyIsWalk(body: Body, l: Loop, l1: Loop, insn: seq<bool>)
    requires InBlock(l1) && Current(l1) && SafeExec(body, l1.m, l1.block, l1.codeEnd - l1.codePtr, l1.x, GetPc(l1), insn)
    requires GetPc(l1) == GetPc(l) && l1.cycles == l.cycles && l1.x == l.x
    requires WalkInsn(Start(l), GetPc(l)) == (l1.m.core, Some(insn))
    ensures ViewNext(Dispatch(OpsGuest(body), l1, insn)) == WalkRun(body, View(l), Start(l))
  {
    DispatchRefines(body, l1, insn);
  }

  lemma FaultedIsWalk(body: Body, l: Loop, l1: Loop)
    requires Inv(l1.m) && NoTrapHazard(l1.m.core)
    requires GetPc(l1) == GetPc(l) && l1.cycles == l.cycles && l1.x == l.x
    requires WalkInsn(Start(l), GetPc(l)) == (l1.m.core, None)
    ensures ViewNext(Abort(OpsGuest(body), l1)) == WalkRun(body, View(l), Start(l)) && TrapKeeps(OpsGuest(body), l1)
  {
    AbortRefines(body, l1);
  }

  lemma InterruptedIsWalk(body: Body, l: Loop)
    requires Inv(l.m) && l.codePtr >= l.codeEnd && l.cycles > 0 && NoTrapHazard(l.m.core)
    requires InterruptOf(SetPc(l.m, GetPc(l))).Some?
    ensures var m := InterruptOf(SetPc(l.m, GetPc(l))).value;
            Inv(m) && ViewNext(Off(m, l.x, l.cycles - 1)) == WalkTurn(body, View(l))
  {
    SetPcKeepsInv(l.m, GetPc(l));
    InterruptOfRefines(SetPc(l.m, GetPc(l)));
  }

  lemma TurnIsCareful(body: Body, l: Loop)
    requires PcOk(l) && Current(l) && SafeTurn(body, l)
    ensures CarefulTurn(OpsGuest(body), l)
  {
    var g := OpsGuest(body);
    PrepareFetches(g, l);
    FetchIsWalk(g, l);
    match Prepare(g, l)
    case Ready(l1, insn) => DispatchRefines(body, l1, insn);
    case Spent =>
    case Interrupted(m) => InterruptedIsWalk(body, l);
    case Faulted(l1) => AbortRefines(body, l1);
  }

  /** One turn: the loop with TLBs and code pointers does what the walking interpreter does. */
  lemma TurnIsWalk(body: Body, l: Loop)
    requires PcOk(l) && Current(l) && SafeTurn(body, l)
    ensures ViewNext(Turn(OpsGuest(body), l)) == WalkTurn(body, View(l))
  {
    var g := OpsGuest(body);
    PrepareFetches(g, l);
    FetchIsWalk(g, l);
    match Prepare(g, l)
    case Ready(l1, insn) =>
      WalkReaches(body, l);
      ReadyIsWalk(body, l, l1, insn);
    case Spent =>
    case Interrupted(m) => InterruptedIsWalk(body, l);
    case Faulted(l1) =>
      WalkReaches(body, l);
      FaultedIsWalk(body, l, l1);
  }

  lemma ViewOk(l: Loop)
    requires LoopOk(l)
    ensures WalkOk(View(l))
  {
  }

  lemma RunWalkTurn(body: Body, w: Walk)
    requires WalkOk(w)
    ensures var n := WalkTurn(body, w);
            && (n.Going? ==> WalkOk(n.w) && RunWalk(body, w) == RunWalk(body, n.w))
            && (n.Stopped? ==> RunWalk(body, w) == (n.c, n.x, n.cycles))
  {
    TurnDecreases(body, w);
  }

  /** The main result: over every run outside the hazards the loop, with its three TLBs and
      its code pointers, ends with the core, the registers and the cycles of the interpreter
      that walks the page tables for every instruction and every access. */
  lemma {:induction false} InterpIsWalk(body: Body, l: Loop)
    requires LoopOk(l) && Overshoot(l) && Current(l) && SafeRun(body, l)
    ensures KeepsEven(OpsGuest(body)) && Careful(OpsGuest(body), l) && WalkOk(View(l))
    ensures var (m, x, cycles) := Interp(OpsGuest(body), l);
            Inv(m) && RunWalk(body, View(l)) == (m.core, x, cycles)
    decreases Measure(l)
  {
    var g := OpsGuest(body);
    OpsKeepEven(body);
    InterpTurn(g, l);
    ViewOk(l);
    TurnIsWalk(body, l);
    TurnIsCareful(body, l);
    TurnStaysCurrent(g, l);
    RunWalkTurn(body, View(l));
    if Turn(g, l).On? { InterpIsWalk(body, Turn(g, l).l); }
  }

  // ----- runs that meet no hazard -----

  /** Every coherent machine with even pc and vectors can start a run. */
  lemma StartsRun(m: Machine, x: Regs, cycles: int)
    requires Inv(m) && EvenPc(m) && EvenVectors(m) && cycles > 0
    ensures var l := Reset(m, x, cycles); LoopOk(l) && Overshoot(l) && Current(l)
  {
    ResetOk(m, x, cycles);
  }

  /** The guest computes on registers and jumps. */
  ghost predicate NoOps(body: Body) {
    forall c, x, pc, insn {:trigger body(c, x, pc, insn)} :: body(c, x, pc, insn).0 == [] && !body(c, x, pc, insn).2.Return?
  }

  lemma FetchKeepsStatus(m: Machine, addr: Addr)
    ensures Fetch(m, addr).0.core.mstatus == m.core.mstatus
  {
  }

  lemma PrepareKeepsStatus(g: Guest, l: Loop)
    ensures var p := Prepare(g, l); p.Ready? || p.Faulted? ==> p.l.m.core.mstatus == l.m.core.mstatus
  {
    if l.codePtr >= l.codeEnd {
      var pc := GetPc(l);
      FetchKeepsStatus(SetPc(l.m, pc), pc);
      var (m1, out) := Fetch(SetPc(l.m, pc), pc);
      if out.Ptr? { FetchKeepsStatus(m1, Mmu.Next(GetPc(Enter(l, m1, pc, out.ptr)), 2)); }
    }
  }

  lemma ExecWithoutOps(body: Body, m: Machine, block: Tlb, room: int, x: Regs, pc: int, insn: seq<bool>)
    requires NoOps(body) && !m.core.mstatus[MPRV]
    ensures SafeExec(body, m, block, room, x, pc, insn) && Exec(body, m, x, pc, insn).0.core.mstatus == m.core.mstatus
  {
    var (ops, y, end) := body(m.core, x, pc, insn);
    assert ops == [] && !end.Return?;
  }

  lemma TurnKeepsStatus(body: Body, l: Loop)
    requires NoOps(body) && !l.m.core.mstatus[MPRV]
    ensures SafeTurn(body, l)
    ensures var n := Turn(OpsGuest(body), l); n.On? ==> n.l.m.core.mstatus == l.m.core.mstatus
  {
    PrepareKeepsStatus(OpsGuest(body), l);
    match Prepare(OpsGuest(body), l)
    case Ready(l1, insn) => ExecWithoutOps(body, l1.m, l1.block, l1.codeEnd - l1.codePtr, l1.x, GetPc(l1), insn);
    case _ =>
  }

  /** Without operations, and with MPRV clear, no run meets a hazard. */
  lemma {:induction false} SafeWithoutOps(body: Body, l: Loop)
    requires NoOps(body) && LoopOk(l) && Overshoot(l) && !l.m.core.mstatus[MPRV]
    ensures SafeRun(body, l)
    decreases Measure(l)
  {
    OpsKeepEven(body);
    InterpTurn(OpsGuest(body), l);
    TurnKeepsStatus(body, l);
    if Turn(OpsGuest(body), l).On? { SafeWithoutOps(body, Turn(OpsGuest(body), l).l); }
  }
}
