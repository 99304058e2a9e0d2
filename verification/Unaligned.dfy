// Accesses of any alignment, byte by byte. target_read_slow and target_write_slow of
// temu/riscv_cpu.c cut an unaligned access in parts; a load is its byte loads put together in
// address order, and it returns what a store to the same place has left there.

module Unaligned {
  import opened Options
  import opened Arith
  import opened Bits
  import opened PhysMem
  import opened PageWalk
  import opened Cpu
  import opened Mmu
  import opened MmuProofs
  import SecondWalker

  // ----- a load is its byte loads -----

  type Loaded = (Core, Option<seq<bool>>)

  /** What is loaded first stands first. */
  function Then(first: Loaded, second: Loaded): Loaded {
    if first.1.None? then first
    else (second.0, if second.1.Some? then Some(first.1.value + second.1.value) else None)
  }

  /** n steps at consecutive addresses, until one gives nothing. */
  function Repeat(step: (Core, Addr) -> Loaded, c: Core, addr: Addr, n: nat): Loaded
    decreases n
  {
    if n == 0 then (c, Some([])) else Then(step(c, addr), Repeat(step, step(c, addr).0, Next(addr, 1), n - 1))
  }

  /** A byte load that reaches RAM. */
  function LoadOne(c: Core, addr: Addr): Loaded {
    var (c1, w) := Resolve(c, addr, Read);
    (c1, if w.Host? then Some(LoadByte(c1.ram, w.ptr)) else None)
  }

  /** n byte loads one after the other; None when one does not reach RAM. */
  function ByteLoads(c: Core, addr: Addr, n: nat): Loaded { Repeat(LoadOne, c, addr, n) }

  lemma NextAdds(addr: Addr, i: nat, j: nat)
    ensures Next(Next(addr, i), j) == Next(addr, i + j)
  {
    var q := (addr + i) / WORD_LIMIT;
    assert addr + i == q * WORD_LIMIT + Next(addr, i);
    DivMod(Next(addr, i) + j, WORD_LIMIT);
    DivModUnique(addr + (i + j), WORD_LIMIT, q + (Next(addr, i) + j) / WORD_LIMIT, Next(Next(addr, i), j));
  }

  lemma ThenRegroups(r1: Loaded, r2: Loaded, r3: Loaded)
    ensures Then(Then(r1, r2), r3) == Then(r1, Then(r2, r3))
  {
    if r1.1.Some? && r2.1.Some? && r3.1.Some? { Regroup(r1.1.value, r2.1.value, r3.1.value); }
  }

  lemma Regroup(a: seq<bool>, b: seq<bool>, d: seq<bool>)
    ensures a + (b + d) == (a + b) + d
  {
  }

  lemma NothingFirst(c: Core, r: Loaded)
    ensures Then((c, Some([])), r) == r
  {
    if r.1.Some? { assert [] + r.1.value == r.1.value; }
  }

  lemma NothingLast(r: Loaded)
    ensures Then(r, (r.0, Some([]))) == r
  {
    if r.1.Some? { assert r.1.value + [] == r.1.value; }
  }

  lemma {:induction false} RepeatAdds(step: (Core, Addr) -> Loaded, c: Core, addr: Addr, x: nat, y: nat)
    ensures var r := Repeat(step, c, addr, x); Repeat(step, c, addr, x + y) == Then(r, Repeat(step, r.0, Next(addr, x), y))
    decreases x
  {
    if x == 0 {
      NothingFirst(c, Repeat(step, c, addr, y));
    } else {
      var one := step(c, addr);
      var rest := Repeat(step, one.0, Next(addr, 1), x - 1);
      RepeatAdds(step, one.0, Next(addr, 1), x - 1, y);
      NextAdds(addr, 1, x - 1);
      ThenRegroups(one, rest, Repeat(step, rest.0, Next(addr, x), y));
    }
  }

  /** Two addresses of one page resolve to the same range, at the same distance. */
  lemma SamePage(c: Core, a: Addr, b: Addr, acc: Access)
    requires WellFormed(c.ram.ranges) && a / PAGE == b / PAGE
    ensures Resolve(c, a, acc).1.Host? ==> Resolve(c, b, acc) == (Resolve(c, a, acc).0, Host(Resolve(c, a, acc).1.ptr + (b - a)))
  {
    var o := Translate(c, a / PAGE, acc);
    if Resolve(c, a, acc).1.Host? { PlacesOfPage(c.ram, o.page, a, b); }
  }

  lemma PlacesOfPage(ram: Ram, page: int, a: int, b: int)
    requires WellFormed(ram.ranges) && a / PAGE == b / PAGE
    requires PlaceOf(ram, page * PAGE + a % PAGE).Host?
    ensures PlaceOf(ram, page * PAGE + b % PAGE) == Host(PlaceOf(ram, page * PAGE + a % PAGE).ptr + (b - a))
  {
    var p, q := page * PAGE + a % PAGE, page * PAGE + b % PAGE;
    assert p / PAGE == page && q / PAGE == page;
    RamPageUniform(ram.ranges, p, q);
  }

  /** After an access the rest of its page resolves without any further change. */
  lemma Again(c: Core, a: Addr, b: Addr, acc: Access)
    requires WellFormed(c.ram.ranges) && a / PAGE == b / PAGE && Resolve(c, a, acc).1.Host?
    ensures var (c1, w) := Resolve(c, a, acc);
            WellFormed(c1.ram.ranges) && Resolve(c1, b, acc) == (c1, Host(w.ptr + (b - a)))
  {
    CommitOnlySetsAD(c, a / PAGE, acc);
    FillIsGood(c, a, acc);
    var (c1, w) := Resolve(c, a, acc);
    HitMeansWalk(c1, TlbEntry(PageBase(a), w.ptr - a), b, acc);
  }

  lemma LoadOneIs(c: Core, a: Addr, c1: Core, p: int)
    requires Resolve(c, a, Read) == (c1, Host(p))
    ensures LoadOne(c, a) == (c1, Some(LoadByte(c1.ram, p)))
  {
  }

  /** One byte, then the rest. */
  lemma OneThen(step: (Core, Addr) -> Loaded, c: Core, a: Addr, n: nat, c1: Core, b: seq<bool>, rest: seq<bool>)
    requires n > 0 && step(c, a) == (c1, Some(b)) && Repeat(step, c1, Next(a, 1), n - 1) == (c1, Some(rest))
    ensures Repeat(step, c, a, n) == (c1, Some(b + rest))
  {
  }

  /** Byte loads of one page, once nothing is left to set. */
  lemma {:induction false} SettledLoads(c: Core, a: Addr, p: int, n: nat)
    requires WellFormed(c.ram.ranges) && Resolve(c, a, Read) == (c, Host(p)) && a % PAGE + n <= PAGE
    ensures ByteLoads(c, a, n) == (c, Some(LoadAt(c.ram, p, n)))
    decreases n
  {
    if n > 0 {
      if n > 1 {
        StepInPage(a);
        SamePage(c, a, Next(a, 1), Read);
        SettledLoads(c, Next(a, 1), p + 1, n - 1);
      }
      LoadOneIs(c, a, c, p);
      OneThen(LoadOne, c, a, n, c, LoadByte(c.ram, p), LoadAt(c.ram, p + 1, n - 1));
    }
  }

  lemma StepInPage(a: Addr)
    requires a % PAGE + 1 < PAGE
    ensures Next(a, 1) == a + 1 && (a + 1) / PAGE == a / PAGE && (a + 1) % PAGE == a % PAGE + 1
  {
    assert WORD_LIMIT % PAGE == 0;
  }

  lemma RestLoads(c: Core, a: Addr, n: nat, c1: Core, p: int)
    requires WellFormed(c.ram.ranges) && 0 < n && a % PAGE + n <= PAGE && Resolve(c, a, Read) == (c1, Host(p))
    ensures ByteLoads(c1, Next(a, 1), n - 1) == (c1, Some(LoadAt(c1.ram, p + 1, n - 1)))
  {
    if n > 1 {
      StepInPage(a);
      Again(c, a, Next(a, 1), Read);
      SettledLoads(c1, Next(a, 1), p + 1, n - 1);
    }
  }

  lemma FirstLoads(c: Core, a: Addr, n: nat, c1: Core, p: int)
    requires WellFormed(c.ram.ranges) && 0 < n && a % PAGE + n <= PAGE && Resolve(c, a, Read) == (c1, Host(p))
    ensures ByteLoads(c, a, n) == (c1, Some(LoadAt(c1.ram, p, n)))
  {
    RestLoads(c, a, n, c1, p);
    LoadOneIs(c, a, c1, p);
    OneThen(LoadOne, c, a, n, c1, LoadByte(c1.ram, p), LoadAt(c1.ram, p + 1, n - 1));
  }

  lemma FirstMisses(c: Core, a: Addr, n: nat)
    requires 0 < n && !Resolve(c, a, Read).1.Host?
    ensures ByteLoads(c, a, n).1 == None
  {
  }

  lemma {:induction false} LoadParts(ram: Ram, p: int, x: nat, y: nat)
    ensures LoadAt(ram, p, x + y) == LoadAt(ram, p, x) + LoadAt(ram, p + x, y)
    decreases x
  {
    if x == 0 {
      assert [] + LoadAt(ram, p, y) == LoadAt(ram, p, y);
    } else {
      LoadParts(ram, p + 1, x - 1, y);
      Regroup(LoadByte(ram, p), LoadAt(ram, p + 1, x - 1), LoadAt(ram, p + x, y));
    }
  }

  /** The bytes al to n of the word at p, and the first al bytes of it. */
  lemma CutWord(ram: Ram, p: int, n: nat, al: nat)
    requires al <= n
    ensures LoadAt(ram, p, n)[8 * al..] == LoadAt(ram, p + al, n - al) && LoadAt(ram, p, n)[..8 * al] == LoadAt(ram, p, al)
  {
    LoadParts(ram, p, al, n - al);
  }

  /** The aligned word that holds the first bytes of an access, and the one after it. */
  lemma WordAround(addr: Addr, n: int)
    requires n in {4, 8} && addr % n != 0
    ensures var a0 := addr - addr % n;
            0 <= a0 && a0 % n == 0 && a0 / PAGE == addr / PAGE && addr % PAGE + (n - addr % n) <= PAGE
  {
    var a0, al := addr - addr % n, addr % n;
    if n == 4 { assert a0 % 4 == 0; } else { assert a0 % 8 == 0; }
    RoomInPage(a0, n);
    assert a0 == a0 / PAGE * PAGE + a0 % PAGE;
    DivModUnique(addr, PAGE, a0 / PAGE, a0 % PAGE + al);
  }

  lemma WordAfter(addr: Addr, n: int)
    requires n in {4, 8} && addr % n != 0
    ensures var a0 := addr - addr % n;
            && 0 <= a0 && Next(a0, n) == Next(addr, n - addr % n) && Next(a0, n) % PAGE + addr % n <= PAGE
  {
    var a0 := addr - addr % n;
    WordAround(addr, n);
    NextStaysAligned(a0, n);
    RoomInPage(Next(a0, n), n);
  }

  lemma NextStaysAligned(a0: Addr, n: int)
    requires n in {4, 8} && a0 % n == 0
    ensures Next(a0, n) % n == 0
  {
    if n == 4 { LastWord4(a0); } else { LastWord8(a0); }
  }

  lemma LastWord4(a0: Addr)
    requires a0 % 4 == 0
    ensures Next(a0, 4) == if a0 == WORD_LIMIT - 4 then 0 else a0 + 4
  {
  }

  lemma LastWord8(a0: Addr)
    requires a0 % 8 == 0
    ensures Next(a0, 8) == if a0 == WORD_LIMIT - 8 then 0 else a0 + 8
  {
  }

  /** al bytes into a word at a0, which the rest of the word shares a page with. */
  predicate Inside(addr: Addr, a0: Addr, n: int, al: nat) {
    0 < al < n && addr == a0 + al && a0 / PAGE == addr / PAGE && addr % PAGE + (n - al) <= PAGE
  }

  lemma FirstWordAt(c: Core, addr: Addr, n: int, al: nat, c1: Core, p: int)
    requires WellFormed(c.ram.ranges) && al < n && addr % PAGE + (n - al) <= PAGE && Resolve(c, addr, Read) == (c1, Host(p + al))
    ensures ByteLoads(c, addr, n - al) == (c1, Some(LoadAt(c1.ram, p, n)[8 * al..]))
  {
    FirstLoads(c, addr, n - al, c1, p + al);
    CutWord(c1.ram, p, n, al);
  }

  /** The bytes of an unaligned load in its first word, at a0. */
  lemma FirstWord(c: Core, addr: Addr, n: int, al: nat, a0: Addr, c1: Core, p: int)
    requires WellFormed(c.ram.ranges) && Inside(addr, a0, n, al) && Resolve(c, a0, Read) == (c1, Host(p))
    ensures ByteLoads(c, addr, n - al) == (c1, Some(LoadAt(c1.ram, p, n)[8 * al..]))
  {
    SamePage(c, a0, addr, Read);
    FirstWordAt(c, addr, n, al, c1, p);
  }

  lemma FirstWordMisses(c: Core, addr: Addr, n: int, al: nat, a0: Addr)
    requires WellFormed(c.ram.ranges) && Inside(addr, a0, n, al) && !Resolve(c, a0, Read).1.Host?
    ensures ByteLoads(c, addr, n - al).1 == None
  {
    SamePage(c, addr, a0, Read);
    FirstMisses(c, addr, n - al);
  }

  /** Those in its second word, which starts at a1. */
  lemma SecondWord(c: Core, a1: Addr, n: int, al: nat, c1: Core, p: int)
    requires WellFormed(c.ram.ranges) && 0 < al < n && a1 % PAGE + al <= PAGE && Resolve(c, a1, Read) == (c1, Host(p))
    ensures ByteLoads(c, a1, al) == (c1, Some(LoadAt(c1.ram, p, n)[..8 * al]))
  {
    FirstLoads(c, a1, al, c1, p);
    CutWord(c1.ram, p, n, al);
  }

  /** How the parts of an unaligned load and its byte loads r correspond. */
  ghost predicate SameLoad(load: (Core, Out), r: Loaded) {
    if r.1.Some? then load == (r.0, Val(r.1.value)) else !load.1.Val?
  }

  lemma AlignedIsBytes(c: Core, addr: Addr, n: int)
    requires WellFormed(c.ram.ranges) && n in {1, 2, 4, 8} && addr % n == 0
    ensures SameLoad(CoreLoad1(c, addr, n), ByteLoads(c, addr, n))
  {
    RoomInPage(addr, n);
    var (c1, w) := Resolve(c, addr, Read);
    if w.Host? { FirstLoads(c, addr, n, c1, w.ptr); } else { FirstMisses(c, addr, n); }
  }

  lemma KeepsRanges(c: Core, addr: Addr)
    ensures Resolve(c, addr, Read).0.ram.ranges == c.ram.ranges
  {
    CommitOnlySetsAD(c, addr / PAGE, Read);
  }

  /** 16 bits: two byte loads. */
  lemma HalfIsBytes(c: Core, addr: Addr)
    requires WellFormed(c.ram.ranges) && addr % 2 != 0
    ensures SameLoad(CoreLoad(c, addr, 1), ByteLoads(c, addr, 2))
  {
    var (c1, r0) := CoreLoad1(c, addr, 1);
    KeepsRanges(c, addr);
    AlignedIsBytes(c, addr, 1);
    AlignedIsBytes(c1, Next(addr, 1), 1);
    RepeatAdds(LoadOne, c, addr, 1, 1);
  }

  lemma LoadOfWords(c: Core, addr: Addr, log2: SizeLog2, a0: Addr, al: nat, first: (Core, Out), second: (Core, Out))
    requires log2 >= 2 && al == addr % Bytes(log2) != 0 && a0 == addr - al
    requires first == CoreLoad1(c, a0, Bytes(log2)) && second == CoreLoad1(first.0, Next(a0, Bytes(log2)), Bytes(log2))
    ensures first.1.Err? || second.1.Err? ==> CoreLoad(c, addr, log2).1 == Err
    ensures !first.1.Err? && !second.1.Err? ==>
              CoreLoad(c, addr, log2) == (second.0, JoinHalves(first.1, second.1, al, Bytes(log2)))
  {
  }

  lemma RepeatOfTwo(step: (Core, Addr) -> Loaded, c: Core, addr: Addr, n: int, al: nat, a1: Addr, first: Loaded, second: Loaded)
    requires 0 < al < n && a1 == Next(addr, n - al)
    requires first == Repeat(step, c, addr, n - al) && second == Repeat(step, first.0, a1, al)
    ensures Repeat(step, c, addr, n) == Then(first, second)
  {
    RepeatAdds(step, c, addr, n - al, al);
  }

  lemma ByteLoadsOfWords(c: Core, addr: Addr, n: int, al: nat, a0: Addr, first: Loaded, second: Loaded)
    requires 0 < al < n && Next(a0, n) == Next(addr, n - al)
    requires first == ByteLoads(c, addr, n - al) && second == ByteLoads(first.0, Next(a0, n), al)
    ensures ByteLoads(c, addr, n) == Then(first, second)
  {
    RepeatOfTwo(LoadOne, c, addr, n, al, Next(a0, n), first, second);
  }

  lemma LoadWord(c: Core, a: Addr, n: nat, c1: Core, w: Place)
    requires (c1, w) == Resolve(c, a, Read)
    ensures CoreLoad1(c, a, n) == (c1, if w.Host? then Val(LoadAt(c1.ram, w.ptr, n)) else OutOf(w))
  {
  }

  lemma JoinIs(lo: seq<bool>, hi: seq<bool>, al: nat, n: int)
    requires 0 < al < n && |lo| == |hi| == 8 * n
    ensures JoinHalves(Val(lo), Val(hi), al, n) == Val(lo[8 * al..] + hi[..8 * al])
  {
  }

  lemma JoinMisses(lo: Out, hi: Out, al: nat, n: int)
    requires 0 < al < n && !(lo.Val? && hi.Val?)
    ensures !JoinHalves(lo, hi, al, n).Val?
  {
  }

  /** The word after the one at a0 takes the rest of the access. */
  predicate Splits(addr: Addr, a0: Addr, n: int, al: nat) {
    Inside(addr, a0, n, al) && Next(a0, n) == Next(addr, n - al) && Next(a0, n) % PAGE + al <= PAGE
  }

  lemma BytesOfWords(c: Core, addr: Addr, n: int, al: nat, a0: Addr, c1: Core, p0: int, c2: Core, p1: int)
    requires WellFormed(c.ram.ranges) && WellFormed(c1.ram.ranges) && Splits(addr, a0, n, al)
    requires Resolve(c, a0, Read) == (c1, Host(p0)) && Resolve(c1, Next(a0, n), Read) == (c2, Host(p1))
    ensures ByteLoads(c, addr, n) == (c2, Some(LoadAt(c1.ram, p0, n)[8 * al..] + LoadAt(c2.ram, p1, n)[..8 * al]))
  {
    FirstWord(c, addr, n, al, a0, c1, p0);
    SecondWord(c1, Next(a0, n), n, al, c2, p1);
    ByteLoadsOfWords(c, addr, n, al, a0, ByteLoads(c, addr, n - al), ByteLoads(c1, Next(a0, n), al));
  }

  lemma FirstMissed(c: Core, addr: Addr, n: int, al: nat, a0: Addr)
    requires WellFormed(c.ram.ranges) && Splits(addr, a0, n, al) && !Resolve(c, a0, Read).1.Host?
    ensures ByteLoads(c, addr, n).1 == None
  {
    FirstWordMisses(c, addr, n, al, a0);
    var first := ByteLoads(c, addr, n - al);
    ByteLoadsOfWords(c, addr, n, al, a0, first, ByteLoads(first.0, Next(a0, n), al));
  }

  lemma SecondMissed(c: Core, addr: Addr, n: int, al: nat, a0: Addr, c1: Core, p0: int)
    requires WellFormed(c.ram.ranges) && Splits(addr, a0, n, al)
    requires Resolve(c, a0, Read) == (c1, Host(p0)) && !Resolve(c1, Next(a0, n), Read).1.Host?
    ensures ByteLoads(c, addr, n).1 == None
  {
    FirstWord(c, addr, n, al, a0, c1, p0);
    FirstMisses(c1, Next(a0, n), al);
    ByteLoadsOfWords(c, addr, n, al, a0, ByteLoads(c, addr, n - al), ByteLoads(c1, Next(a0, n), al));
  }

  lemma ValueOfWords(c: Core, addr: Addr, log2: SizeLog2, al: nat, a0: Addr, c1: Core, p0: int, c2: Core, p1: int)
    requires log2 >= 2 && al == addr % Bytes(log2) != 0 && a0 == addr - al
    requires Resolve(c, a0, Read) == (c1, Host(p0)) && Resolve(c1, Next(a0, Bytes(log2)), Read) == (c2, Host(p1))
    ensures var n := Bytes(log2);
            CoreLoad(c, addr, log2) == (c2, Val(LoadAt(c1.ram, p0, n)[8 * al..] + LoadAt(c2.ram, p1, n)[..8 * al]))
  {
    var n := Bytes(log2);
    LoadWord(c, a0, n, c1, Host(p0));
    LoadWord(c1, Next(a0, n), n, c2, Host(p1));
    LoadOfWords(c, addr, log2, a0, al, CoreLoad1(c, a0, n), CoreLoad1(c1, Next(a0, n), n));
    JoinIs(LoadAt(c1.ram, p0, n), LoadAt(c2.ram, p1, n), al, n);
  }

  lemma NoValue(c: Core, addr: Addr, log2: SizeLog2, al: nat, a0: Addr, c1: Core, w0: Place, c2: Core, w1: Place)
    requires log2 >= 2 && al == addr % Bytes(log2) != 0 && a0 == addr - al
    requires (c1, w0) == Resolve(c, a0, Read) && (c2, w1) == Resolve(c1, Next(a0, Bytes(log2)), Read) && !(w0.Host? && w1.Host?)
    ensures !CoreLoad(c, addr, log2).1.Val?
  {
    var n := Bytes(log2);
    LoadWord(c, a0, n, c1, w0);
    LoadWord(c1, Next(a0, n), n, c2, w1);
    var lo, hi := CoreLoad1(c, a0, n), CoreLoad1(c1, Next(a0, n), n);
    LoadOfWords(c, addr, log2, a0, al, lo, hi);
    JoinMisses(lo.1, hi.1, al, n);
  }

  /** A load of any size at any address is its byte loads put together in address order: the
      same value and the same state when all of them reach RAM, and no value otherwise. */
  lemma LoadIsBytes(c: Core, addr: Addr, log2: SizeLog2)
    requires WellFormed(c.ram.ranges)
    ensures SameLoad(CoreLoad(c, addr, log2), ByteLoads(c, addr, Bytes(log2)))
  {
    var n := Bytes(log2);
    if addr % n == 0 {
      AlignedIsBytes(c, addr, n);
    } else if log2 == 1 {
      HalfIsBytes(c, addr);
    } else {
      var al, a0 := addr % n, addr - addr % n;
      WordAround(addr, n);
      WordAfter(addr, n);
      KeepsRanges(c, a0);
      var (c1, w0) := Resolve(c, a0, Read);
      var (c2, w1) := Resolve(c1, Next(a0, n), Read);
      WordsAreBytes(c, addr, log2, al, a0, c1, w0, c2, w1);
    }
  }

  lemma WordsAreBytes(c: Core, addr: Addr, log2: SizeLog2, al: nat, a0: Addr, c1: Core, w0: Place, c2: Core, w1: Place)
    requires WellFormed(c.ram.ranges) && WellFormed(c1.ram.ranges) && Splits(addr, a0, Bytes(log2), al)
    requires log2 >= 2 && al == addr % Bytes(log2) != 0 && a0 == addr - al
    requires (c1, w0) == Resolve(c, a0, Read) && (c2, w1) == Resolve(c1, Next(a0, Bytes(log2)), Read)
    ensures SameLoad(CoreLoad(c, addr, log2), ByteLoads(c, addr, Bytes(log2)))
  {
    if w0.Host? && w1.Host? {
      ValueOfWords(c, addr, log2, al, a0, c1, w0.ptr, c2, w1.ptr);
      BytesOfWords(c, addr, Bytes(log2), al, a0, c1, w0.ptr, c2, w1.ptr);
    } else {
      NoValue(c, addr, log2, al, a0, c1, w0, c2, w1);
      if w0.Host? { SecondMissed(c, addr, Bytes(log2), al, a0, c1, w0.ptr); } else { FirstMissed(c, addr, Bytes(log2), al, a0); }
    }
  }

  // ----- a load returns what a store has left -----

  /** d is c with the words K changed and accessed or dirty bits set in others. */
  ghost predicate Rel(c: Core, d: Core, K: set<int>) {
    && d == c.(ram := d.ram) && d.ram.ranges == c.ram.ranges
    && forall k {:trigger WordAt(d.ram, k)} :: k !in K ==> GrowsAD(WordAt(c.ram, k), WordAt(d.ram, k))
  }

  lemma RelSelf(c: Core, K: set<int>)
    ensures Rel(c, c, K)
  {
    forall k {:trigger WordAt(c.ram, k)} | k !in K ensures GrowsAD(WordAt(c.ram, k), WordAt(c.ram, k)) {
    }
    assert c == c.(ram := c.ram);
  }

  /** r2 with the words K of r1. */
  function Hybrid(r1: Ram, r2: Ram, K: set<int>): Ram {
    Ram(r1.ranges, map k | k in r2.words.Keys + K :: if k in K then WordAt(r1, k) else WordAt(r2, k))
  }

  lemma HybridWord(r1: Ram, r2: Ram, K: set<int>, k: int)
    ensures WordAt(Hybrid(r1, r2, K), k) == if k in K then WordAt(r1, k) else WordAt(r2, k)
  {
  }

  lemma SameWordsTranslate(c: Core, d: Core, vp: int, acc: Access)
    requires d == c.(ram := d.ram) && d.ram.ranges == c.ram.ranges
    requires forall k :: k in TableReads(c, vp, acc) ==> WordAt(d.ram, k) == WordAt(c.ram, k)
    ensures Translate(d, vp, acc) == Translate(c, vp, acc)
  {
    if UsesTables(c, vp, acc) {
      WalkFrame(c.ram, d.ram, Num(c.satp[..44]), vp, Levels(SatpMode(c.satp)) - 1, RegimeOf(c, acc), acc);
    }
  }

  /** Words outside its tables do not change a translation. */
  lemma RelTranslate(c: Core, d: Core, K: set<int>, vp: int, acc: Access)
    requires Rel(c, d, K) && TableReads(c, vp, acc) !! K
    ensures SameTarget(Translate(c, vp, acc), Translate(d, vp, acc))
  {
    var h := c.(ram := Hybrid(c.ram, d.ram, K));
    forall k {:trigger WordAt(c.ram, k)} {:trigger WordAt(h.ram, k)} | true ensures GrowsAD(WordAt(c.ram, k), WordAt(h.ram, k)) {
      HybridWord(c.ram, d.ram, K, k);
    }
    TranslateIgnoresAD(c, h.ram, vp, acc);
    forall k | k in TableReads(h, vp, acc) ensures WordAt(d.ram, k) == WordAt(h.ram, k) { HybridWord(c.ram, d.ram, K, k); }
    SameWordsTranslate(h, d, vp, acc);
  }

  /** The key of a leaf is among the table words. */
  lemma LeafIsTable(c: Core, vp: int, acc: Access)
    ensures Translate(c, vp, acc).Leaf? ==> Translate(c, vp, acc).key in TableReads(c, vp, acc)
  {
    LeafUsesTables(c, vp, acc);
    if UsesTables(c, vp, acc) {
      WalkLeafIsRead(c.ram, Num(c.satp[..44]), vp, Levels(SatpMode(c.satp)) - 1, RegimeOf(c, acc), acc);
    }
  }

  lemma TouchGrows(e1: Word, e2: Word, acc: Access)
    requires GrowsAD(e1, e2)
    ensures GrowsAD(e1, Touch(e2, acc))
  {
  }

  /** What an access with the outcome o writes, if its key is outside K. */
  lemma CommitOutside(c: Core, d: Core, K: set<int>, o: Outcome, acc: Access)
    requires Rel(c, d, K) && (o.Leaf? ==> o.pte == WordAt(d.ram, o.key) && o.updated == Touch(o.pte, acc) && o.key !in K)
    ensures Rel(c, Commit(d, o), K) && forall k :: k in K ==> WordAt(Commit(d, o).ram, k) == WordAt(d.ram, k)
  {
    var e := Commit(d, o);
    forall k | k !in K ensures GrowsAD(WordAt(c.ram, k), WordAt(e.ram, k)) {
      assert GrowsAD(WordAt(c.ram, k), WordAt(d.ram, k));
      if o.Leaf? && k == o.key { TouchGrows(WordAt(c.ram, k), o.pte, acc); }
    }
  }

  /** An access that reaches RAM from c reaches the same place from d, and keeps the words K. */
  lemma RelResolve(c: Core, d: Core, K: set<int>, addr: Addr, acc: Access)
    requires Rel(c, d, K) && TableReads(c, addr / PAGE, acc) !! K && Resolve(c, addr, acc).1.Host?
    ensures var (e, w) := Resolve(d, addr, acc);
            w == Resolve(c, addr, acc).1 && Rel(c, e, K) && forall k :: k in K ==> WordAt(e.ram, k) == WordAt(d.ram, k)
  {
    var vp := addr / PAGE;
    RelTranslate(c, d, K, vp, acc);
    LeafIsTable(c, vp, acc);
    LeafIsTouched(d, vp, acc);
    CommitOutside(c, d, K, Translate(d, vp, acc), acc);
  }

  /** The i-th byte of an access goes to ps[i]. */
  ghost predicate Reaches(c: Core, addr: Addr, ps: seq<int>, acc: Access) {
    forall k :: 0 <= k < |ps| ==> Resolve(c, Next(addr, k), acc).1 == Host(ps[k])
  }

  /** None of the bytes is in a table the access is translated through. */
  ghost predicate Spares(c: Core, addr: Addr, n: nat, acc: Access, K: set<int>) {
    forall k :: 0 <= k < n ==> TableReads(c, Next(addr, k) / PAGE, acc) !! K
  }

  lemma TailReaches(c: Core, addr: Addr, ps: seq<int>, acc: Access, K: set<int>)
    requires |ps| > 0 && Reaches(c, addr, ps, acc) && Spares(c, addr, |ps|, acc, K)
    ensures Reaches(c, Next(addr, 1), ps[1..], acc) && Spares(c, Next(addr, 1), |ps| - 1, acc, K)
    ensures Resolve(c, addr, acc).1 == Host(ps[0]) && TableReads(c, addr / PAGE, acc) !! K
  {
    assert Next(addr, 0) == addr;
    forall k | 0 <= k < |ps| - 1 ensures Resolve(c, Next(Next(addr, 1), k), acc).1 == Host(ps[1..][k]) {
      NextAdds(addr, 1, k);
    }
    forall k | 0 <= k < |ps| - 1 ensures TableReads(c, Next(Next(addr, 1), k) / PAGE, acc) !! K {
      NextAdds(addr, 1, k);
    }
  }

  function BytesAt(ram: Ram, ps: seq<int>): (r: seq<bool>)
    ensures |r| == 8 * |ps|
  {
    if ps == [] then [] else LoadByte(ram, ps[0]) + BytesAt(ram, ps[1..])
  }

  lemma {:induction false} BytesSame(r1: Ram, r2: Ram, ps: seq<int>)
    requires forall k :: 0 <= k < |ps| ==> LoadByte(r1, ps[k]) == LoadByte(r2, ps[k])
    ensures BytesAt(r1, ps) == BytesAt(r2, ps)
  {
    if ps != [] { BytesSame(r1, r2, ps[1..]); }
  }

  lemma SameWord(r1: Ram, r2: Ram, K: set<int>, p: int)
    requires WordKey(p) in K && forall k :: k in K ==> WordAt(r1, k) == WordAt(r2, k)
    ensures LoadByte(r1, p) == LoadByte(r2, p)
  {
  }

  /** Byte loads of bytes in the words K. */
  lemma {:induction false} LoadsBytes(c: Core, d: Core, addr: Addr, ps: seq<int>, K: set<int>)
    requires Rel(c, d, K) && Reaches(c, addr, ps, Read) && Spares(c, addr, |ps|, Read, K)
    requires forall k :: 0 <= k < |ps| ==> WordKey(ps[k]) in K
    ensures ByteLoads(d, addr, |ps|).1 == Some(BytesAt(d.ram, ps))
    decreases |ps|
  {
    if ps != [] {
      TailReaches(c, addr, ps, Read, K);
      RelResolve(c, d, K, addr, Read);
      var (e, w) := Resolve(d, addr, Read);
      LoadsBytes(c, e, Next(addr, 1), ps[1..], K);
      forall k | 0 <= k < |ps| ensures LoadByte(e.ram, ps[k]) == LoadByte(d.ram, ps[k]) { SameWord(e.ram, d.ram, K, ps[k]); }
      BytesSame(e.ram, d.ram, ps[1..]);
      LoadOneIs(d, addr, e, ps[0]);
    }
  }

  /** One byte store. */
  lemma StoreOneByte(c: Core, d: Core, K: set<int>, addr: Addr, p: int, val: seq<bool>)
    requires Rel(c, d, K) && TableReads(c, addr / PAGE, Write) !! K && Resolve(c, addr, Write).1 == Host(p)
    requires WordKey(p) in K && |val| >= 8
    ensures var (e, out) := CoreStore1(d, addr, val, 1);
            out == Done && Rel(c, e, K) && LoadByte(e.ram, p) == val[..8] && OthersKept(d.ram, e.ram, K, [p])
  {
    RelResolve(c, d, K, addr, Write);
    var (c1, w) := Resolve(d, addr, Write);
    StoredByte(c, d, c1, K, p, val);
  }

  lemma StoreRel(c: Core, c1: Core, K: set<int>, p: int, b: seq<bool>)
    requires Rel(c, c1, K) && WordKey(p) in K && |b| == 8
    ensures Rel(c, c1.(ram := StoreByte(c1.ram, p, b)), K)
  {
    var r := StoreByte(c1.ram, p, b);
    forall k | k !in K ensures GrowsAD(WordAt(c.ram, k), WordAt(r, k)) {
      assert GrowsAD(WordAt(c.ram, k), WordAt(c1.ram, k)) && WordAt(r, k) == WordAt(c1.ram, k);
    }
  }

  lemma StoreAtOne(ram: Ram, p: int, val: seq<bool>)
    requires |val| >= 8
    ensures StoreAt(ram, p, 1, val) == StoreByte(ram, p, val[..8])
  {
  }

  lemma StoredByte(c: Core, d: Core, c1: Core, K: set<int>, p: int, val: seq<bool>)
    requires Rel(c, c1, K) && WordKey(p) in K && |val| >= 8 && forall k :: k in K ==> WordAt(c1.ram, k) == WordAt(d.ram, k)
    ensures var e := c1.(ram := StoreAt(c1.ram, p, 1, val));
            Rel(c, e, K) && LoadByte(e.ram, p) == val[..8] && OthersKept(d.ram, e.ram, K, [p])
  {
    StoreAtOne(c1.ram, p, val);
    StoreRel(c, c1, K, p, val[..8]);
    SameByte(c1.ram, p, val[..8]);
    forall q | WordKey(q) in K && q !in [p] ensures LoadByte(StoreByte(c1.ram, p, val[..8]), q) == LoadByte(d.ram, q) {
      OtherByte(c1.ram, p, val[..8], q);
      SameWord(c1.ram, d.ram, K, q);
    }
  }

  lemma BytesOf(val: seq<bool>, k: nat)
    requires |val| >= 8 * (k + 2)
    ensures val[8..][8 * k..8 * k + 8] == val[8 * (k + 1)..8 * (k + 1) + 8]
  {
  }

  /** The bytes p of the store hold their part of the value. */
  ghost predicate Written(ram: Ram, ps: seq<int>, val: seq<bool>)
    requires |val| >= 8 * |ps|
  {
    forall k :: 0 <= k < |ps| ==> LoadByte(ram, ps[k]) == val[8 * k..8 * k + 8]
  }

  ghost predicate Apart(ps: seq<int>) { forall i, j :: 0 <= i < j < |ps| ==> ps[i] != ps[j] }

  /** Other bytes of the words K keep their values. */
  ghost predicate OthersKept(r1: Ram, r2: Ram, K: set<int>, ps: seq<int>) {
    forall q :: WordKey(q) in K && q !in ps ==> LoadByte(r2, q) == LoadByte(r1, q)
  }

  lemma OthersNext(r0: Ram, r1: Ram, r2: Ram, K: set<int>, ps: seq<int>)
    requires ps != [] && Apart(ps) && WordKey(ps[0]) in K && OthersKept(r0, r1, K, [ps[0]]) && OthersKept(r1, r2, K, ps[1..])
    ensures OthersKept(r0, r2, K, ps) && LoadByte(r2, ps[0]) == LoadByte(r1, ps[0])
  {
    assert ps[0] !in ps[1..];
    forall q | WordKey(q) in K && q !in ps ensures LoadByte(r2, q) == LoadByte(r0, q) {
      assert q !in [ps[0]] && q !in ps[1..];
    }
  }

  /** Byte stores from d through the pointers ps ended in e. */
  ghost predicate StoredAll(c: Core, d: Core, r: (Core, Out), K: set<int>, ps: seq<int>, val: seq<bool>)
    requires |val| >= 8 * |ps|
  {
    r.1 == Done && Rel(c, r.0, K) && Written(r.0.ram, ps, val) && OthersKept(d.ram, r.0.ram, K, ps)
  }

  /** Byte stores into the words K, in address order. */
  lemma {:induction false} StoresBytes(c: Core, d: Core, addr: Addr, ps: seq<int>, K: set<int>, val: seq<bool>)
    requires Rel(c, d, K) && Reaches(c, addr, ps, Write) && Spares(c, addr, |ps|, Write, K) && |val| >= 8 * |ps|
    requires Apart(ps) && forall k :: 0 <= k < |ps| ==> WordKey(ps[k]) in K
    ensures StoredAll(c, d, CoreStoreBytes(d, addr, val, |ps|), K, ps, val)
    decreases |ps|
  {
    if ps != [] {
      TailReaches(c, addr, ps, Write, K);
      StoreOneByte(c, d, K, addr, ps[0], val);
      var d1, tail, rest := CoreStore1(d, addr, val, 1).0, ps[1..], val[8..];
      TailApart(ps, K);
      StoresBytes(c, d1, Next(addr, 1), tail, K, rest);
      StoresOn(d, d1, addr, ps, val);
      JoinStored(c, d, d1, CoreStoreBytes(d1, Next(addr, 1), rest, |tail|), ps, K, val);
    }
  }

  lemma TailApart(ps: seq<int>, K: set<int>)
    requires ps != [] && Apart(ps) && forall k :: 0 <= k < |ps| ==> WordKey(ps[k]) in K
    ensures Apart(ps[1..]) && forall k :: 0 <= k < |ps| - 1 ==> WordKey(ps[1..][k]) in K
  {
  }

  lemma JoinStored(c: Core, d: Core, d1: Core, r: (Core, Out), ps: seq<int>, K: set<int>, val: seq<bool>)
    requires ps != [] && Apart(ps) && WordKey(ps[0]) in K && |val| >= 8 * |ps| && LoadByte(d1.ram, ps[0]) == val[..8]
    requires OthersKept(d.ram, d1.ram, K, [ps[0]]) && StoredAll(c, d1, r, K, ps[1..], val[8..])
    ensures StoredAll(c, d, r, K, ps, val)
  {
    OthersNext(d.ram, d1.ram, r.0.ram, K, ps);
    WrittenNext(d1.ram, r.0.ram, ps, val);
  }

  lemma StoresOn(d: Core, d1: Core, addr: Addr, ps: seq<int>, val: seq<bool>)
    requires ps != [] && |val| >= 8 * |ps| && CoreStore1(d, addr, val, 1) == (d1, Done)
    ensures CoreStoreBytes(d, addr, val, |ps|) == CoreStoreBytes(d1, Next(addr, 1), val[8..], |ps| - 1)
  {
  }

  lemma WrittenNext(r1: Ram, r2: Ram, ps: seq<int>, val: seq<bool>)
    requires ps != [] && |val| >= 8 * |ps| && LoadByte(r1, ps[0]) == val[..8] && Written(r2, ps[1..], val[8..])
    requires LoadByte(r2, ps[0]) == LoadByte(r1, ps[0])
    ensures Written(r2, ps, val)
  {
    forall k | 0 <= k < |ps| ensures LoadByte(r2, ps[k]) == val[8 * k..8 * k + 8] {
      if k > 0 {
        assert ps[k] == ps[1..][k - 1];
        BytesOf(val, k - 1);
      }
    }
  }

  lemma {:induction false} WrittenBytes(ram: Ram, ps: seq<int>, val: seq<bool>)
    requires |val| >= 8 * |ps| && Written(ram, ps, val)
    ensures BytesAt(ram, ps) == val[..8 * |ps|]
  {
    if ps != [] {
      forall k | 0 <= k < |ps| - 1 ensures LoadByte(ram, ps[1..][k]) == val[8..][8 * k..8 * k + 8] { BytesOf(val, k); }
      WrittenBytes(ram, ps[1..], val[8..]);
      TakeParts(val, 8 * (|ps| - 1));
    }
  }

  // ----- the two halves joined -----

  /** The words the bytes are in. */
  function WordsOf(ps: seq<int>): set<int> { set k | 0 <= k < |ps| :: WordKey(ps[k]) }

  lemma InWords(ps: seq<int>)
    ensures forall k :: 0 <= k < |ps| ==> WordKey(ps[k]) in WordsOf(ps)
  {
    forall k | 0 <= k < |ps| ensures WordKey(ps[k]) in WordsOf(ps) {
      var p := ps[k];
      assert exists j :: 0 <= j < |ps| && WordKey(ps[j]) == WordKey(p);
    }
  }

  lemma EightOfPage(x: int, y: int)
    requires x % 4096 == 0
    ensures (x + y) % 8 == y % 8
  {
    assert x == x / 4096 * 4096;
  }

  lemma EightOfWord(x: int, y: int)
    requires x % 8 == 0
    ensures (x + y) % 8 == y % 8
  {
  }

  /** A pointer has the address's place in its word. */
  lemma PtrInWord(c: Core, addr: Addr, acc: Access)
    requires WellFormed(c.ram.ranges) && Resolve(c, addr, acc).1.Host?
    ensures Resolve(c, addr, acc).1.ptr % 8 == addr % 8
  {
    PlaceInWord(c.ram, Translate(c, addr / PAGE, acc).page, addr);
  }

  lemma PlaceInWord(ram: Ram, page: int, addr: Addr)
    requires WellFormed(ram.ranges) && PlaceOf(ram, page * PAGE + addr % PAGE).Host?
    ensures PlaceOf(ram, page * PAGE + addr % PAGE).ptr % 8 == addr % 8
  {
    var off := addr % PAGE;
    var r := ram.ranges[FindRange(ram.ranges, page * PAGE + off)];
    assert (page * PAGE - r.addr) % 4096 == 0;
    EightOfPage(page * PAGE - r.addr, off);
    EightOfWord(r.mem, page * PAGE - r.addr + off);
    EightOfPage(addr / PAGE * PAGE, off);
  }

  lemma ResidueNext(addr: Addr, i: nat, j: nat)
    requires i < j < 8
    ensures Next(addr, i) % 8 != Next(addr, j) % 8
  {
    ModWord(addr + i);
    ModWord(addr + j);
  }

  lemma ModWord(x: int)
    ensures x % WORD_LIMIT % 8 == x % 8
  {
  }

  /** Up to eight consecutive bytes are different host bytes, whatever the two pages are. */
  lemma BytesApart(c: Core, addr: Addr, ps: seq<int>)
    requires WellFormed(c.ram.ranges) && Reaches(c, addr, ps, Write) && |ps| <= 8
    ensures Apart(ps)
  {
    forall i, j | 0 <= i < j < |ps| ensures ps[i] != ps[j] {
      PtrInWord(c, Next(addr, i), Write);
      PtrInWord(c, Next(addr, j), Write);
      ResidueNext(addr, i, j);
    }
  }

  /** Both walks end at the same leaf. */
  lemma SameLeaf(ram: Ram, base: int, vp: int, lvl: nat, r1: Regime, r2: Regime, o1: Outcome, o2: Outcome)
    requires o1 == WalkFrom(ram, base, vp, lvl, r1, Read) && o2 == WalkFrom(ram, base, vp, lvl, r2, Write) && o1.Leaf? && o2.Leaf?
    ensures o1.page == o2.page
  {
    SecondWalker.WalkIsLeafThenCheck(ram, base, vp, lvl, r1, Read);
    SecondWalker.WalkIsLeafThenCheck(ram, base, vp, lvl, r2, Write);
  }

  lemma SamePageNumber(c: Core, vp: int)
    requires !Translate(c, vp, Read).PageFault? && !Translate(c, vp, Write).PageFault?
    ensures Translate(c, vp, Read).page == Translate(c, vp, Write).page
  {
    if UsesTables(c, vp, Read) {
      var base, lvl := Num(c.satp[..44]), Levels(SatpMode(c.satp)) - 1;
      LeafIsTouched(c, vp, Read);
      LeafIsTouched(c, vp, Write);
      SameLeaf(c.ram, base, vp, lvl, RegimeOf(c, Read), RegimeOf(c, Write), Translate(c, vp, Read), Translate(c, vp, Write));
    }
  }

  /** Loads and stores of one address that both reach RAM reach the same byte. */
  lemma SamePlace(c: Core, addr: Addr)
    requires Resolve(c, addr, Read).1.Host? && Resolve(c, addr, Write).1.Host?
    ensures Resolve(c, addr, Read).1 == Resolve(c, addr, Write).1
  {
    SamePageNumber(c, addr / PAGE);
  }

  lemma SameTables(c: Core, vp: int)
    ensures TableReads(c, vp, Read) == TableReads(c, vp, Write)
  {
  }

  /** What a byte-wise store leaves, loads return. */
  lemma StoredThenLoaded(c: Core, e: Core, addr: Addr, ps: seq<int>, val: seq<bool>, log2: SizeLog2)
    requires WellFormed(c.ram.ranges) && Rel(c, e, WordsOf(ps)) && |ps| == Bytes(log2) && |val| >= 8 * |ps|
    requires Reaches(c, addr, ps, Read) && Spares(c, addr, |ps|, Read, WordsOf(ps)) && Written(e.ram, ps, val)
    ensures CoreLoad(e, addr, log2).1 == Val(val[..8 * |ps|])
  {
    InWords(ps);
    LoadsBytes(c, e, addr, ps, WordsOf(ps));
    WrittenBytes(e.ram, ps, val);
    LoadIsBytes(e, addr, log2);
  }

  /** The bytes an access reaches, read or written, and no page table it goes through. */
  ghost predicate Stable(c: Core, addr: Addr, ps: seq<int>) {
    && Reaches(c, addr, ps, Write)
    && (forall k :: 0 <= k < |ps| ==> Resolve(c, Next(addr, k), Read).1.Host?)
    && Spares(c, addr, |ps|, Write, WordsOf(ps))
  }

  lemma StableReads(c: Core, addr: Addr, ps: seq<int>)
    requires Stable(c, addr, ps)
    ensures Reaches(c, addr, ps, Read) && Spares(c, addr, |ps|, Read, WordsOf(ps))
  {
    forall k | 0 <= k < |ps| ensures Resolve(c, Next(addr, k), Read).1 == Host(ps[k]) { SamePlace(c, Next(addr, k)); }
    forall k | 0 <= k < |ps| ensures TableReads(c, Next(addr, k) / PAGE, Read) !! WordsOf(ps) { SameTables(c, Next(addr, k) / PAGE); }
  }

  lemma {:induction false} WrittenWord(ram: Ram, p: int, ps: seq<int>, val: seq<bool>)
    requires |val| >= 8 * |ps| && (forall k :: 0 <= k < |ps| ==> ps[k] == p + k) && LoadAt(ram, p, |ps|) == val[..8 * |ps|]
    ensures Written(ram, ps, val)
    decreases |ps|
  {
    if ps != [] {
      var b, rest := LoadByte(ram, p), LoadAt(ram, p + 1, |ps| - 1);
      TakeParts(val, 8 * (|ps| - 1));
      assert (b + rest)[..8] == b && (b + rest)[8..] == rest;
      assert (val[..8] + val[8..][..8 * (|ps| - 1)])[8..] == val[8..][..8 * (|ps| - 1)];
      WrittenWord(ram, p + 1, ps[1..], val[8..]);
      WrittenNext(ram, ram, ps, val);
    }
  }

  /** The bytes of an aligned store follow each other. */
  lemma AlignedPtrs(c: Core, addr: Addr, ps: seq<int>, k: nat)
    requires WellFormed(c.ram.ranges) && Reaches(c, addr, ps, Write) && k < |ps| && addr % PAGE + |ps| <= PAGE
    ensures ps[k] == ps[0] + k
  {
    assert Next(addr, 0) == addr;
    InOnePage(addr, k);
    SamePage(c, addr, Next(addr, k), Write);
  }

  lemma InOnePage(addr: Addr, k: nat)
    requires addr % PAGE + k < PAGE
    ensures Next(addr, k) == addr + k && (addr + k) / PAGE == addr / PAGE
  {
    assert WORD_LIMIT % PAGE == 0;
  }

  lemma {:induction false} KeysInWords(ptr: int, n: nat, K: set<int>)
    requires forall q :: ptr <= q < ptr + n ==> WordKey(q) in K
    ensures Keys(ptr, n) <= K
    decreases n
  {
    if n > 0 { KeysInWords(ptr + 1, n - 1, K); }
  }

  lemma AlignedStored(c: Core, addr: Addr, ps: seq<int>, val: seq<bool>, n: nat)
    requires WellFormed(c.ram.ranges) && Stable(c, addr, ps) && |ps| == n && n in {1, 2, 4, 8} && addr % n == 0 && |val| >= 8 * n
    ensures var (e, out) := CoreStore1(c, addr, val, n); out == Done && Rel(c, e, WordsOf(ps)) && Written(e.ram, ps, val)
  {
    RoomInPage(addr, n);
    forall k | 0 <= k < n ensures ps[k] == ps[0] + k { AlignedPtrs(c, addr, ps, k); }
    FirstResolved(c, addr, ps);
    WordAtPtr(c, Resolve(c, addr, Write).0, ps, val, n);
  }

  lemma FirstResolved(c: Core, addr: Addr, ps: seq<int>)
    requires Stable(c, addr, ps) && ps != []
    ensures Resolve(c, addr, Write).1 == Host(ps[0]) && Rel(c, Resolve(c, addr, Write).0, WordsOf(ps))
  {
    RelSelf(c, WordsOf(ps));
    TailReaches(c, addr, ps, Write, WordsOf(ps));
    RelResolve(c, c, WordsOf(ps), addr, Write);
  }

  lemma WordAtPtr(c: Core, c1: Core, ps: seq<int>, val: seq<bool>, n: nat)
    requires |ps| == n > 0 && |val| >= 8 * n && Rel(c, c1, WordsOf(ps)) && forall k :: 0 <= k < n ==> ps[k] == ps[0] + k
    ensures var r := StoreAt(c1.ram, ps[0], n, val); Rel(c, c1.(ram := r), WordsOf(ps)) && Written(r, ps, val)
  {
    InWords(ps);
    forall q | ps[0] <= q < ps[0] + n ensures WordKey(q) in WordsOf(ps) { assert ps[q - ps[0]] == q; }
    KeysInWords(ps[0], n, WordsOf(ps));
    WordStored(c, c1, WordsOf(ps), ps[0], val, n);
    LoadAfterStore(c1.ram, ps[0], n, val);
    WrittenWord(StoreAt(c1.ram, ps[0], n, val), ps[0], ps, val);
  }

  lemma WordStored(c: Core, c1: Core, K: set<int>, ptr: int, val: seq<bool>, n: nat)
    requires Rel(c, c1, K) && Keys(ptr, n) <= K && |val| >= 8 * n
    ensures Rel(c, c1.(ram := StoreAt(c1.ram, ptr, n, val)), K)
  {
    StoreFrame(c1.ram, ptr, n, val);
    var r := StoreAt(c1.ram, ptr, n, val);
    forall k | k !in K ensures GrowsAD(WordAt(c.ram, k), WordAt(r, k)) {
      assert WordAt(r, k) == WordAt(c1.ram, k);
    }
  }

  /** After a store of any size at any address, a load of the same place returns the stored
      bits: when its bytes can be read as well, and none is in a table they are reached through.
      The two pages of a store that crosses may be the same page of RAM. */
  lemma LoadReturnsStore(c: Core, addr: Addr, val: Word, log2: SizeLog2, ps: seq<int>)
    requires WellFormed(c.ram.ranges) && |ps| == Bytes(log2) && Stable(c, addr, ps)
    ensures var (e, out) := CoreStore(c, addr, val, log2);
            out == Done && CoreLoad(e, addr, log2).1 == Val(val[..8 * Bytes(log2)])
  {
    var n, K := Bytes(log2), WordsOf(ps);
    StableReads(c, addr, ps);
    if addr % n == 0 {
      AlignedStored(c, addr, ps, val, n);
    } else {
      BytesApart(c, addr, ps);
      InWords(ps);
      RelSelf(c, K);
      StoresBytes(c, c, addr, ps, K, val);
    }
    StoredThenLoaded(c, CoreStore(c, addr, val, log2).0, addr, ps, val, log2);
  }

  // ----- a store that faults part of the way -----

  type Stored = (Core, Out)

  /** n stores at consecutive addresses, until one faults. */
  function Stores(step: (Core, Addr, seq<bool>) -> Stored, c: Core, addr: Addr, val: seq<bool>, n: nat): Stored
    requires |val| >= 8 * n
    decreases n
  {
    if n == 0 then (c, Done)
    else
      var (c1, out) := step(c, addr, val);
      if out.Err? then (c1, Err) else Stores(step, c1, Next(addr, 1), val[8..], n - 1)
  }

  function StoreOne(c: Core, addr: Addr, val: seq<bool>): Stored { if |val| >= 8 then CoreStore1(c, addr, val, 1) else (c, Done) }

  lemma OneStore(c: Core, addr: Addr, val: seq<bool>, n: nat, r: Stored)
    requires n > 0 && |val| >= 8 * n && StoreOne(c, addr, val) == r
    ensures CoreStoreBytes(c, addr, val, n) == if r.1.Err? then (r.0, Err) else CoreStoreBytes(r.0, Next(addr, 1), val[8..], n - 1)
  {
  }

  lemma OneOf(step: (Core, Addr, seq<bool>) -> Stored, c: Core, addr: Addr, val: seq<bool>, n: nat, r: Stored)
    requires n > 0 && |val| >= 8 * n && step(c, addr, val) == r
    ensures Stores(step, c, addr, val, n) == if r.1.Err? then (r.0, Err) else Stores(step, r.0, Next(addr, 1), val[8..], n - 1)
  {
  }

  lemma SameFirst(c: Core, addr: Addr, val: seq<bool>, n: nat, r: Stored)
    requires n > 0 && |val| >= 8 * n && StoreOne(c, addr, val) == r
    requires CoreStoreBytes(r.0, Next(addr, 1), val[8..], n - 1) == Stores(StoreOne, r.0, Next(addr, 1), val[8..], n - 1)
    ensures CoreStoreBytes(c, addr, val, n) == Stores(StoreOne, c, addr, val, n)
  {
    OneStore(c, addr, val, n, r);
    OneOf(StoreOne, c, addr, val, n, r);
  }

  lemma {:induction false} StoresAre(c: Core, addr: Addr, val: seq<bool>, n: nat)
    requires |val| >= 8 * n
    ensures CoreStoreBytes(c, addr, val, n) == Stores(StoreOne, c, addr, val, n)
    decreases n
  {
    if n > 0 {
      StoresAre(StoreOne(c, addr, val).0, Next(addr, 1), val[8..], n - 1);
      SameFirst(c, addr, val, n, StoreOne(c, addr, val));
    }
  }

  /** The first x stores and then the others. */
  lemma {:induction false} StoresInTwo(step: (Core, Addr, seq<bool>) -> Stored, c: Core, addr: Addr, val: seq<bool>, x: nat, y: nat)
    requires |val| >= 8 * (x + y)
    ensures var r := Stores(step, c, addr, val, x);
            r.1 == Done ==> Stores(step, c, addr, val, x + y) == Stores(step, r.0, Next(addr, x), val[8 * x..], y)
    decreases x
  {
    if x == 0 {
      assert Next(addr, 0) == addr && val[0..] == val;
    } else {
      StoresInTwo(step, step(c, addr, val).0, Next(addr, 1), val[8..], x - 1, y);
      NextAdds(addr, 1, x - 1);
      assert val[8..][8 * (x - 1)..] == val[8 * x..];
    }
  }

  lemma FirstByteFaults(d: Core, addr: Addr, val: seq<bool>, n: nat)
    requires n > 0 && |val| >= 8 * n && Resolve(d, addr, Write).1 == Fault
    ensures CoreStoreBytes(d, addr, val, n) == (Pend(d, 15, addr), Err)
  {
  }

  /** An unaligned store whose byte k is the first to fault keeps the bytes before it and
      reports the address of byte k. */
  lemma StoreStops(c: Core, addr: Addr, val: Word, log2: SizeLog2, k: nat, d: Core)
    requires addr % Bytes(log2) != 0 && k < Bytes(log2) && CoreStoreBytes(c, addr, val, k) == (d, Done)
    requires Resolve(d, Next(addr, k), Write).1 == Fault
    ensures CoreStore(c, addr, val, log2) == (Pend(d, 15, Next(addr, k)), Err)
  {
    StoresAre(c, addr, val, k);
    StoresAre(c, addr, val, Bytes(log2));
    StoresAre(d, Next(addr, k), val[8 * k..], Bytes(log2) - k);
    StoresInTwo(StoreOne, c, addr, val, k, Bytes(log2) - k);
    FirstByteFaults(d, Next(addr, k), val[8 * k..], Bytes(log2) - k);
  }
}
