// The fetch and dispatch loop of temu/riscv_cpu_template.h: what is fetched, that the loop
// ends, and how far it can overshoot its cycle budget. The instruction bodies are the
// function `exec` of a guest; Guests builds them from the operations of the CPU.

module FetchLoop {
  import opened Options
  import opened Bits
  import opened PhysMem
  import opened Cpu
  import opened Mmu

  /** The registers of the instructions, integer and floating point. */
  type Regs = seq<Word>

  /** How an instruction body ends: C_NEXT_INSN or NEXT_INSN, JUMP_INSN, `goto done_interp`
      (the last two with the new pc stored), or an exception. */
  datatype Flow = Plain(len: int) | Jump | Leave | Except

  /** The instruction bodies (on machine, registers, pc and instruction), raise_interrupt
      (None when nothing is taken) and raise_exception2. */
  datatype Guest = Guest(
    exec: (Machine, Regs, int, seq<bool>) -> (Machine, Regs, Flow),
    interrupt: Machine -> Option<Machine>,
    trap: Machine -> Machine)

  predicate Even(a: int) { 0 <= a < WORD_LIMIT && a % 2 == 0 }

  predicate EvenPc(m: Machine) { Even(m.core.pc) }

  /** Where a trap or a return can go. */
  predicate EvenVectors(m: Machine) {
    Even(m.core.mtvec) && Even(m.core.stvec) && Even(m.core.mepc) && Even(m.core.sepc)
  }

  predicate FlowOk(m: Machine, flow: Flow) {
    EvenVectors(m) && (flow.Plain? ==> flow.len in {2, 4}) && (flow in {Jump, Leave} ==> EvenPc(m))
  }

  /** From even vectors and an even pc the guest stays with them. `Guests.OpsKeepEven` proves
      it of every guest made of the operations of the CPU. */
  ghost predicate KeepsEven(g: Guest) {
    && (forall m, x, pc, insn {:trigger g.exec(m, x, pc, insn)} ::
          EvenVectors(m) && Even(pc) ==> FlowOk(g.exec(m, x, pc, insn).0, g.exec(m, x, pc, insn).2))
    && (forall m :: EvenVectors(m) && EvenPc(m) && g.interrupt(m).Some? ==>
          EvenVectors(g.interrupt(m).value) && EvenPc(g.interrupt(m).value))
    && (forall m :: EvenVectors(m) && EvenPc(m) ==> EvenVectors(g.trap(m)) && EvenPc(g.trap(m)))
  }

  /** The loop variables. `block` is the code TLB when the current block was entered. */
  datatype Loop = Loop(m: Machine, x: Regs, codePtr: int, codeEnd: int, addend: int, cycles: int, block: Tlb)

  datatype Next = On(l: Loop) | Off(m: Machine, x: Regs, cycles: int)

  function SetPc(m: Machine, pc: int): Machine { m.(core := m.core.(pc := pc)) }

  /** GET_PC */
  function GetPc(l: Loop): Addr { (l.codePtr + l.addend) % WORD_LIMIT }

  /** code_ptr and code_end are NULL, the addend is the pc. */
  function Reset(m: Machine, x: Regs, cycles: int): Loop { Loop(m, x, 0, 0, m.core.pc, cycles, m.tlb.code) }

  /** mmu_exception: one exception counts for one cycle. */
  function Abort(g: Guest, l: Loop): Next { Off(g.trap(SetPc(l.m, GetPc(l))), l.x, l.cycles - 1) }

  /** The code pointers of the block entered at pc. */
  function Enter(l: Loop, m: Machine, pc: int, ptr: int): Loop {
    Loop(m, l.x, ptr, ptr + (4094 - pc % PAGE), pc - ptr, l.cycles, m.tlb.code)
  }

  /** get_insn32 */
  function Insn32(m: Machine, ptr: int): seq<bool> { LoadAt(m.core.ram, ptr, 4) }

  /** How the loop goes on after an instruction body. */
  function After(g: Guest, l: Loop, m: Machine, x: Regs, flow: Flow): Next {
    match flow
    case Plain(len) => On(l.(m := m, x := x, codePtr := l.codePtr + len, cycles := l.cycles - 1))
    case Jump => On(Reset(m, x, l.cycles - 1))
    case Leave => Off(m, x, l.cycles - 1)
    case Except => Abort(g, l.(m := m, x := x, cycles := l.cycles - 1))
  }

  /** Runs the instruction at the current pc. */
  function Dispatch(g: Guest, l: Loop, insn: seq<bool>): Next {
    var (m, x, flow) := g.exec(l.m, l.x, GetPc(l), insn);
    After(g, l, m, x, flow)
  }

  /** The instruction is at hand, or the loop is left before it: the budget is used up, an
      interrupt was taken, or the fetch failed. */
  datatype Prepared = Ready(l: Loop, insn: seq<bool>) | Spent | Interrupted(m: Machine) | Faulted(l: Loop)

  /** The instruction in the last two bytes of a page; a 32-bit one takes its other half
      from the next page. */
  function Straddle(l: Loop): Prepared {
    var low := LoadAt(l.m.core.ram, l.codePtr, 2);
    if !(low[0] && low[1]) then Ready(l, low + seq(16, _ => false))
    else
      var (m, out) := Fetch(l.m, Mmu.Next(GetPc(l), 2));
      if !out.Ptr? then Faulted(l.(m := m)) else Ready(l.(m := m), low + LoadAt(m.core.ram, out.ptr, 2))
  }

  /** The first half of a turn. */
  function Prepare(g: Guest, l: Loop): Prepared {
    if l.codePtr < l.codeEnd then Ready(l, Insn32(l.m, l.codePtr))
    else
      var pc := GetPc(l);
      var m := SetPc(l.m, pc);
      if l.cycles <= 0 then Spent
      else if g.interrupt(m).Some? then Interrupted(g.interrupt(m).value)
      else
        var (m1, out) := Fetch(m, pc);
        if !out.Ptr? then Faulted(l.(m := m1))
        else
          var l1 := Enter(l, m1, pc, out.ptr);
          if l1.codePtr >= l1.codeEnd then Straddle(l1) else Ready(l1, Insn32(m1, out.ptr))
  }

  /** One turn of the loop. */
  function Turn(g: Guest, l: Loop): Next {
    match Prepare(g, l)
    case Ready(l1, insn) => Dispatch(g, l1, insn)
    case Spent => Off(SetPc(l.m, GetPc(l)), l.x, l.cycles)
    case Interrupted(m) => Off(m, l.x, l.cycles - 1)
    case Faulted(l1) => Abort(g, l1)
  }

  // ----- the invariant of the loop -----

  /** The host byte the code TLB t has for an address. */
  predicate MapsTo(t: Tlb, addr: Addr, ptr: int) { Hit(t, addr, 0) && t[Index(addr)].addend + addr == ptr }

  /** On the fast path the pc is in the block's page, at least four bytes before its end,
      and code_ptr is what the code TLB had for it. */
  ghost predicate PcOk(l: Loop) {
    && GetPc(l) % 2 == 0
    && (l.codePtr < l.codeEnd ==>
          l.codeEnd - l.codePtr == 4094 - GetPc(l) % PAGE && MapsTo(l.block, GetPc(l), l.codePtr))
  }

  ghost predicate LoopOk(l: Loop) { EvenVectors(l.m) && PcOk(l) }

  /** A fetch leaves the translation it found in the code TLB. */
  lemma FetchMaps(m: Machine, addr: Addr)
    ensures var (m1, out) := Fetch(m, addr); out.Ptr? ==> MapsTo(m1.tlb.code, addr, out.ptr)
  {
  }

  /** Along a page the TLB maps consecutive addresses to consecutive bytes. */
  lemma MapsAlong(t: Tlb, addr: Addr, ptr: int, len: int)
    requires MapsTo(t, addr, ptr) && 0 <= len && addr % PAGE + len < PAGE
    ensures addr + len < WORD_LIMIT && MapsTo(t, addr + len, ptr + len)
  {
    assert (addr + len) / PAGE == addr / PAGE && (addr + len) % PAGE == addr % PAGE + len;
    assert WORD_LIMIT % PAGE == 0;
  }

  lemma EnterPc(l: Loop, m: Machine, pc: Addr, ptr: int)
    ensures GetPc(Enter(l, m, pc, ptr)) == pc
  {
  }

  /** The block was just entered or is being continued. */
  ghost predicate InBlock(l: Loop) {
    GetPc(l) % 2 == 0 && l.codeEnd - l.codePtr == 4094 - GetPc(l) % PAGE && MapsTo(l.block, GetPc(l), l.codePtr)
  }

  lemma NextPc(l: Loop, m: Machine, x: Regs, len: int, cycles: int)
    requires 0 <= len <= 4
    ensures GetPc(l.(m := m, x := x, codePtr := l.codePtr + len, cycles := cycles)) == (GetPc(l) + len) % WORD_LIMIT
  {
    AddMod(l.codePtr + l.addend, len);
  }

  lemma AddMod(x: int, len: int)
    requires 0 <= len <= 4
    ensures (x + len) % WORD_LIMIT == (x % WORD_LIMIT + len) % WORD_LIMIT
  {
  }

  lemma EvenMod(x: int)
    ensures x % 2 == 0 ==> x % WORD_LIMIT % 2 == 0
  {
  }

  /** Inside a page nothing wraps. */
  lemma InsidePage(pc: Addr, len: int)
    requires 0 <= len && pc % PAGE + len < PAGE
    ensures (pc + len) % WORD_LIMIT == pc + len && (pc + len) % PAGE == pc % PAGE + len
  {
    assert WORD_LIMIT % PAGE == 0;
  }

  /** An instruction of len bytes with room for more behind it. */
  lemma AdvanceMaps(t: Tlb, pc: Addr, ptr: int, len: int)
    requires len in {2, 4} && pc % 2 == 0 && MapsTo(t, pc, ptr)
    ensures var next := (pc + len) % WORD_LIMIT;
            && next % 2 == 0
            && (len < 4094 - pc % PAGE ==> next % PAGE == pc % PAGE + len && MapsTo(t, next, ptr + len))
  {
    EvenMod(pc + len);
    if len < 4094 - pc % PAGE {
      InsidePage(pc, len);
      MapsAlong(t, pc, ptr, len);
    }
  }

  /** After a plain instruction the fast path, if taken, is right again. */
  lemma PlainKeeps(l: Loop, m: Machine, x: Regs, len: int, cycles: int)
    requires len in {2, 4} && InBlock(l)
    ensures PcOk(l.(m := m, x := x, codePtr := l.codePtr + len, cycles := cycles))
  {
    NextPc(l, m, x, len, cycles);
    AdvanceMaps(l.block, GetPc(l), l.codePtr, len);
  }

  lemma ResetOk(m: Machine, x: Regs, cycles: int)
    requires EvenPc(m)
    ensures PcOk(Reset(m, x, cycles)) && GetPc(Reset(m, x, cycles)) == m.core.pc
  {
  }

  ghost predicate NextOk(n: Next) { if n.On? then LoopOk(n.l) else EvenPc(n.m) && EvenVectors(n.m) }

  lemma SameBlock(l: Loop, m: Machine)
    ensures GetPc(l.(m := m)) == GetPc(l) && (InBlock(l) ==> InBlock(l.(m := m)))
  {
  }

  /** The halfword the TLB t maps at an address. */
  ghost predicate HalfAt(ram: Ram, t: Tlb, addr: Addr, half: seq<bool>) {
    exists ptr :: MapsTo(t, addr, ptr) && half == LoadAt(ram, ptr, 2)
  }

  predicate LeavesRoom(pc: int, n: int) { pc % PAGE + n <= PAGE }

  /** The instruction at the pc of l: its first half is what the code TLB maps there, and so
      is the second half of a 32-bit instruction at pc + 2, in the same page or the next;
      `last` is the machine after that fetch. */
  ghost predicate InsnAt(l: Loop, last: Machine, insn: seq<bool>) {
    && |insn| == 32 && HalfAt(l.m.core.ram, l.block, GetPc(l), insn[..16])
    && (insn[0] && insn[1] ==>
          if LeavesRoom(GetPc(l), 4) then HalfAt(l.m.core.ram, l.block, Mmu.Next(GetPc(l), 2), insn[16..])
          else HalfAt(last.core.ram, last.tlb.code, Mmu.Next(GetPc(l), 2), insn[16..]))
  }

  lemma LoadParts(ram: Ram, ptr: int)
    ensures LoadAt(ram, ptr, 4) == LoadAt(ram, ptr, 2) + LoadAt(ram, ptr + 2, 2)
  {
    assert LoadAt(ram, ptr, 4) == LoadByte(ram, ptr) + LoadAt(ram, ptr + 1, 3);
    assert LoadAt(ram, ptr, 2) == LoadByte(ram, ptr) + LoadAt(ram, ptr + 1, 1);
    assert LoadAt(ram, ptr + 1, 3) == LoadByte(ram, ptr + 1) + LoadAt(ram, ptr + 2, 2);
    assert LoadAt(ram, ptr + 1, 1) == LoadByte(ram, ptr + 1) + LoadAt(ram, ptr + 2, 0);
  }

  /** Whether four bytes are left in the page is what the code pointers say. */
  lemma RoomLeft(l: Loop)
    requires InBlock(l)
    ensures LeavesRoom(GetPc(l), 4) <==> l.codePtr < l.codeEnd
  {
    EvenOffset(GetPc(l));
  }

  lemma EvenOffset(pc: int)
    requires pc % 2 == 0
    ensures pc % PAGE % 2 == 0
  {
  }

  /** The fast path and the common entry of a block read four bytes of one page. */
  lemma WholeInsn(l: Loop)
    requires InBlock(l) && l.codePtr < l.codeEnd
    ensures InsnAt(l, l.m, Insn32(l.m, l.codePtr))
  {
    var pc := GetPc(l);
    RoomLeft(l);
    InsidePage(pc, 2);
    MapsAlong(l.block, pc, l.codePtr, 2);
    WholeHalves(l.m.core.ram, l.block, pc, Mmu.Next(pc, 2), l.codePtr);
  }

  lemma WholeHalves(ram: Ram, t: Tlb, pc: Addr, next: Addr, ptr: int)
    requires MapsTo(t, pc, ptr) && MapsTo(t, next, ptr + 2)
    ensures var insn := LoadAt(ram, ptr, 4); HalfAt(ram, t, pc, insn[..16]) && HalfAt(ram, t, next, insn[16..])
  {
    LoadParts(ram, ptr);
    JoinedHalves(LoadAt(ram, ptr, 2), LoadAt(ram, ptr + 2, 2));
  }

  lemma JoinedHalves(low: seq<bool>, high: seq<bool>)
    requires |low| == 16
    ensures (low + high)[..16] == low && (low + high)[16..] == high
  {
  }

  lemma ShortInsnAt(l: Loop)
    requires InBlock(l) && var low := LoadAt(l.m.core.ram, l.codePtr, 2); !(low[0] && low[1])
    ensures InsnAt(l, l.m, LoadAt(l.m.core.ram, l.codePtr, 2) + seq(16, _ => false))
  {
    JoinedHalves(LoadAt(l.m.core.ram, l.codePtr, 2), seq(16, _ => false));
  }

  lemma SplitInsnAt(l: Loop, last: Machine, ptr: int)
    requires InBlock(l) && l.codePtr >= l.codeEnd && MapsTo(last.tlb.code, Mmu.Next(GetPc(l), 2), ptr)
    ensures InsnAt(l, last, LoadAt(l.m.core.ram, l.codePtr, 2) + LoadAt(last.core.ram, ptr, 2))
  {
    RoomLeft(l);
    JoinedHalves(LoadAt(l.m.core.ram, l.codePtr, 2), LoadAt(last.core.ram, ptr, 2));
  }

  /** The loop as a preparation leaves it, with the machine the instruction was read from. */
  ghost predicate Fetched(p: Prepared, l: Loop, first: Machine) {
    p.Ready? ==>
      && InBlock(p.l) && GetPc(p.l) == GetPc(l) && p.l.cycles == l.cycles && p.l.x == l.x
      && InsnAt(p.l.(m := first), p.l.m, p.insn)
  }

  /** A failed fetch leaves the cycles and the pc. */
  predicate FaultsAt(p: Prepared, l: Loop) {
    p.Faulted? ==> GetPc(p.l) == GetPc(l) && p.l.cycles == l.cycles && p.l.x == l.x
  }

  lemma StraddleFetches(l: Loop)
    requires InBlock(l) && l.codePtr >= l.codeEnd
    ensures var p := Straddle(l); Fetched(p, l, l.m) && FaultsAt(p, l)
  {
    var low := LoadAt(l.m.core.ram, l.codePtr, 2);
    if low[0] && low[1] {
      FetchMaps(l.m, Mmu.Next(GetPc(l), 2));
      var (m, out) := Fetch(l.m, Mmu.Next(GetPc(l), 2));
      SameBlock(l, m);
      if out.Ptr? {
        SplitInsnAt(l, m, out.ptr);
        assert l.(m := m).(m := l.m) == l;
      }
    } else {
      ShortInsnAt(l);
      assert l.(m := l.m) == l;
    }
  }

  /** The machine a turn reads the first half of its instruction from. */
  function FirstRead(l: Loop): Machine {
    if l.codePtr < l.codeEnd then l.m else Fetch(SetPc(l.m, GetPc(l)), GetPc(l)).0
  }

  /** What a turn executes, if it executes anything: the instruction the code TLB maps at the
      even pc of the loop. Otherwise the budget is used up, an interrupt was taken, or the
      fetch failed at that pc. */
  lemma PrepareFetches(g: Guest, l: Loop)
    requires PcOk(l)
    ensures var p := Prepare(g, l);
            && Fetched(p, l, FirstRead(l)) && FaultsAt(p, l)
            && (p.Spent? ==> l.cycles <= 0)
            && (p.Interrupted? || p.Faulted? ==> l.cycles > 0)
            && (p.Ready? ==> (l.codePtr < l.codeEnd && p.l == l) || l.cycles > 0)
  {
    if l.codePtr < l.codeEnd {
      WholeInsn(l);
      assert l.(m := l.m) == l;
    } else if l.cycles > 0 && g.interrupt(SetPc(l.m, GetPc(l))).None? {
      EnterFetches(g, l);
    }
  }

  lemma EnterInBlock(l: Loop, m: Machine, pc: Addr)
    requires pc % 2 == 0
    ensures var (m1, out) := Fetch(m, pc); out.Ptr? ==> InBlock(Enter(l, m1, pc, out.ptr))
  {
    FetchMaps(m, pc);
    var (m1, out) := Fetch(m, pc);
    if out.Ptr? { EnterPc(l, m1, pc, out.ptr); }
  }

  lemma EnterFetches(g: Guest, l: Loop)
    requires PcOk(l) && l.codePtr >= l.codeEnd && l.cycles > 0 && g.interrupt(SetPc(l.m, GetPc(l))).None?
    ensures var p := Prepare(g, l); Fetched(p, l, FirstRead(l)) && FaultsAt(p, l)
  {
    var pc := GetPc(l);
    EnterInBlock(l, SetPc(l.m, pc), pc);
    var (m1, out) := Fetch(SetPc(l.m, pc), pc);
    if out.Ptr? {
      var l1 := Enter(l, m1, pc, out.ptr);
      EnterPc(l, m1, pc, out.ptr);
      if l1.codePtr >= l1.codeEnd {
        StraddleFetches(l1);
      } else {
        WholeInsn(l1);
        assert l1.(m := l1.m) == l1;
      }
    }
  }

  lemma FetchKeepsEven(m: Machine, addr: Addr)
    requires EvenVectors(m)
    ensures EvenVectors(Fetch(m, addr).0)
  {
  }

  /** Fetching changes no vector. */
  lemma PrepareKeepsEven(g: Guest, l: Loop)
    requires EvenVectors(l.m)
    ensures var p := Prepare(g, l); p.Ready? || p.Faulted? ==> EvenVectors(p.l.m)
  {
    if l.codePtr >= l.codeEnd {
      var pc := GetPc(l);
      FetchKeepsEven(SetPc(l.m, pc), pc);
      var (m1, out) := Fetch(SetPc(l.m, pc), pc);
      if out.Ptr? { FetchKeepsEven(m1, Mmu.Next(GetPc(Enter(l, m1, pc, out.ptr)), 2)); }
    }
  }

  lemma TrapOk(g: Guest, m: Machine, pc: int)
    requires KeepsEven(g) && EvenVectors(m) && Even(pc)
    ensures var r := g.trap(SetPc(m, pc)); EvenVectors(r) && EvenPc(r)
  {
    assert EvenPc(SetPc(m, pc));
  }

  lemma AbortKeeps(g: Guest, l: Loop)
    requires KeepsEven(g) && EvenVectors(l.m) && GetPc(l) % 2 == 0
    ensures NextOk(Abort(g, l))
  {
    TrapOk(g, l.m, GetPc(l));
  }

  lemma RaisedKeeps(g: Guest, l: Loop, m: Machine, x: Regs)
    requires KeepsEven(g) && EvenVectors(m) && GetPc(l) % 2 == 0
    ensures NextOk(After(g, l, m, x, Except))
  {
    AbortKeeps(g, l.(m := m, x := x, cycles := l.cycles - 1));
  }

  lemma AfterKeeps(g: Guest, l: Loop, m: Machine, x: Regs, flow: Flow)
    requires KeepsEven(g) && InBlock(l) && FlowOk(m, flow)
    ensures NextOk(After(g, l, m, x, flow))
  {
    match flow
    case Plain(len) => PlainKeeps(l, m, x, len, l.cycles - 1);
    case Jump => ResetOk(m, x, l.cycles - 1);
    case Leave =>
    case Except => RaisedKeeps(g, l, m, x);
  }

  lemma ExecOk(g: Guest, m: Machine, x: Regs, pc: int, insn: seq<bool>)
    requires KeepsEven(g) && EvenVectors(m) && Even(pc)
    ensures var (m1, x1, flow) := g.exec(m, x, pc, insn); FlowOk(m1, flow)
  {
  }

  lemma DispatchKeeps(g: Guest, l: Loop, insn: seq<bool>)
    requires KeepsEven(g) && EvenVectors(l.m) && InBlock(l)
    ensures NextOk(Dispatch(g, l, insn))
  {
    ExecOk(g, l.m, l.x, GetPc(l), insn);
    var (m, x, flow) := g.exec(l.m, l.x, GetPc(l), insn);
    AfterKeeps(g, l, m, x, flow);
  }

  /** Every turn keeps the loop invariant, and the loop is left with an even pc. */
  lemma TurnKeeps(g: Guest, l: Loop)
    requires KeepsEven(g) && LoopOk(l)
    ensures NextOk(Turn(g, l))
  {
    PrepareFetches(g, l);
    PrepareKeepsEven(g, l);
    match Prepare(g, l)
    case Ready(l1, insn) => DispatchKeeps(g, l1, insn);
    case Spent =>
    case Interrupted(m) => assert EvenPc(SetPc(l.m, GetPc(l)));
    case Faulted(l1) => AbortKeeps(g, l1);
  }

  // ----- the loop ends -----

  /** Halfwords left in the block. */
  function Remaining(l: Loop): nat {
    if l.codePtr < l.codeEnd then (l.codeEnd - l.codePtr + 1) / 2 else 0
  }

  /** Positive cycles left, then bytes to the end of the page. */
  function Measure(l: Loop): nat { (if l.cycles > 0 then l.cycles else 0) * 2048 + Remaining(l) }

  /** Beyond its budget the loop can only finish the page. */
  predicate Overshoot(l: Loop) { l.cycles >= Remaining(l) - 2046 }

  predicate Progress(l: Loop, n: Next) {
    && (n.On? ==> n.l.cycles == l.cycles - 1 && Remaining(n.l) <= 2046 &&
                  (l.codePtr < l.codeEnd ==> Remaining(n.l) < Remaining(l)))
    && (n.Off? ==> l.cycles - 2 <= n.cycles <= l.cycles - 1)
  }

  lemma AfterProgress(g: Guest, l: Loop, m: Machine, x: Regs, flow: Flow)
    requires InBlock(l) && (flow.Plain? ==> flow.len in {2, 4})
    ensures Progress(l, After(g, l, m, x, flow))
  {
  }

  lemma DispatchProgress(g: Guest, l: Loop, insn: seq<bool>)
    requires KeepsEven(g) && EvenVectors(l.m) && InBlock(l)
    ensures Progress(l, Dispatch(g, l, insn))
  {
    ExecOk(g, l.m, l.x, GetPc(l), insn);
    var (m, x, flow) := g.exec(l.m, l.x, GetPc(l), insn);
    AfterProgress(g, l, m, x, flow);
  }

  /** A turn that goes on lowers the measure; one that ends stays within one page of
      instructions plus one exception. */
  lemma TurnProgress(g: Guest, l: Loop)
    requires KeepsEven(g) && LoopOk(l) && Overshoot(l)
    ensures var n := Turn(g, l);
            && (n.On? ==> Measure(n.l) < Measure(l) && Overshoot(n.l) && n.l.cycles < l.cycles)
            && (n.Off? ==> -2047 <= n.cycles <= l.cycles && (n.cycles < l.cycles || l.cycles <= 0))
  {
    PrepareFetches(g, l);
    PrepareKeepsEven(g, l);
    if Prepare(g, l).Ready? { DispatchProgress(g, Prepare(g, l).l, Prepare(g, l).insn); }
  }

  // ----- the loop and its caller -----

  ghost function Interp(g: Guest, l: Loop): (Machine, Regs, int)
    requires KeepsEven(g) && LoopOk(l) && Overshoot(l)
    decreases Measure(l)
  {
    TurnKeeps(g, l);
    TurnProgress(g, l);
    match Turn(g, l)
    case On(l1) => Interp(g, l1)
    case Off(m, x, cycles) => (m, x, cycles)
  }

  lemma InterpTurn(g: Guest, l: Loop)
    requires KeepsEven(g) && LoopOk(l) && Overshoot(l)
    ensures var n := Turn(g, l);
            && (n.On? ==> LoopOk(n.l) && Overshoot(n.l) && Measure(n.l) < Measure(l) && n.l.cycles < l.cycles &&
                          Interp(g, l) == Interp(g, n.l))
            && (n.Off? ==> EvenPc(n.m) && EvenVectors(n.m) && Interp(g, l) == (n.m, n.x, n.cycles) &&
                           -2047 <= n.cycles <= l.cycles && (n.cycles < l.cycles || l.cycles <= 0))
  {
    TurnKeeps(g, l);
    TurnProgress(g, l);
  }

  /** riscv_cpu_interp_x (its first interrupt check is that of the first turn): consumes at least one cycle, at
      most its budget and one page of instructions. */
  method InterpX(g: Guest, m: Machine, x: Regs, nCycles: int) returns (r: Machine, y: Regs, cycles: int)
    requires KeepsEven(g) && EvenPc(m) && EvenVectors(m) && nCycles > 0
    ensures LoopOk(Reset(m, x, nCycles)) && (r, y, cycles) == Interp(g, Reset(m, x, nCycles))
    ensures -2047 <= cycles < nCycles
    ensures EvenPc(r) && EvenVectors(r)
  {
    ResetOk(m, x, nCycles);
    var l := Reset(m, x, nCycles);
    ghost var final := Interp(g, l);
    while true
      invariant LoopOk(l) && Overshoot(l) && l.cycles <= nCycles
      invariant l.cycles < nCycles || l.cycles > 0
      invariant Interp(g, l) == final
      decreases Measure(l)
    {
      InterpTurn(g, l);
      var n := Turn(g, l);
      if n.Off? { return n.m, n.x, n.cycles; }
      l := n.l;
    }
  }

  /** riscv_cpu_interp: calls the loop until the budget is used up or the guest waits for an
      interrupt; ends, and runs over its budget by at most one page of instructions. */
  method RunFor(g: Guest, m: Machine, x: Regs, counter: int, nCycles: int, powerDown: Machine -> bool)
    returns (r: Machine, y: Regs, end: int)
    requires KeepsEven(g) && EvenPc(m) && EvenVectors(m)
    ensures EvenPc(r) && EvenVectors(r) && counter <= end
    ensures powerDown(r) || end - counter >= nCycles
    ensures nCycles >= 0 ==> end - counter <= nCycles + 2047
    ensures nCycles <= 0 || powerDown(m) ==> r == m && y == x && end == counter
  {
    r, y, end := m, x, counter;
    var timeout := counter + nCycles;
    while !powerDown(r) && timeout - end > 0
      invariant EvenPc(r) && EvenVectors(r) && counter <= end
      invariant nCycles >= 0 ==> end - counter <= nCycles + 2047
      invariant nCycles <= 0 || powerDown(m) ==> r == m && y == x && end == counter
      decreases timeout - end
    {
      var left;
      var n := timeout - end;
      r, y, left := InterpX(g, r, y, n);
      end := end + n - left;
    }
  }
}
