// The ATA drive of temu/ide.c: addresses, and transfers through the data port, as
// functions on values. The block device completes at once. IdeDrive.dfy holds the class.

module Ide {
  import opened Arith

  type Byte = b: int | 0 <= b < 256

  const SECTOR := 512
  const MAX_MULT := 128
  const BUFFER := 65540

  // status bits
  const ERR := 0x01
  const DRQ := 0x08
  const SEEK := 0x10
  const READY := 0x40

  // ----- addresses -----

  /** The address registers. */
  datatype Regs = Regs(sector: int, lcyl: int, hcyl: int, select: int)

  /** The geometries the address registers can hold: 16 heads and 255 sectors at most. */
  datatype Geometry = Geometry(heads: int, sectors: int)

  predicate Fits(g: Geometry) { 1 <= g.heads <= 16 && 1 <= g.sectors <= 255 }

  predicate IsLba(r: Regs) { r.select / 0x40 % 2 == 1 }

  /** ide_get_sector */
  function GetSector(g: Geometry, r: Regs): int {
    if IsLba(r) then r.select % 0x10 * 0x100_0000 + r.hcyl * 0x1_0000 + r.lcyl * 0x100 + r.sector
    else (r.hcyl * 0x100 + r.lcyl) * (g.heads * g.sectors) + r.select % 0x10 * g.sectors + (r.sector - 1)
  }

  lemma Positive(g: Geometry)
    requires Fits(g)
    ensures g.heads * g.sectors > 0
  {
  }

  /** ide_set_sector */
  function SetSector(g: Geometry, r: Regs, n: int): Regs
    requires Fits(g)
  {
    Positive(g);
    if IsLba(r) then
      Regs(n % 0x100, n / 0x100 % 0x100, n / 0x1_0000 % 0x100, r.select / 0x10 * 0x10 + n / 0x100_0000 % 0x10)
    else
      var cyl, rest := n / (g.heads * g.sectors), n % (g.heads * g.sectors);
      Regs((rest % g.sectors + 1) % 0x100, cyl % 0x100, cyl / 0x100 % 0x100, r.select / 0x10 * 0x10 + rest / g.sectors % 0x10)
  }

  predicate Addressable(g: Geometry, r: Regs, n: int) {
    0 <= n < if IsLba(r) then 0x1000_0000 else 0x1_0000 * (g.heads * g.sectors)
  }

  lemma SelectKeepsMode(select: int, low: int)
    requires 0 <= select < 256 && 0 <= low < 16
    ensures var x := select / 0x10 * 0x10 + low; x / 0x40 % 2 == select / 0x40 % 2 && x % 0x10 == low && 0 <= x < 256
  {
  }

  lemma LbaDigits(n: int)
    requires 0 <= n < 0x1000_0000
    ensures n / 0x100_0000 % 0x10 * 0x100_0000 + n / 0x1_0000 % 0x100 * 0x1_0000 + n / 0x100 % 0x100 * 0x100 + n % 0x100 == n
  {
    var a := n / 0x100;
    var b := a / 0x100;
    assert n / 0x1_0000 == b && n / 0x100_0000 == b / 0x100;
  }

  lemma ChsParts(n: int, heads: int, sectors: int)
    requires 1 <= heads <= 16 && 1 <= sectors <= 255 && 0 <= n < 0x1_0000 * (heads * sectors)
    ensures heads * sectors > 0
    ensures var cyl, r := n / (heads * sectors), n % (heads * sectors);
            && 0 <= cyl < 0x1_0000 && 0 <= r / sectors < 16 && 0 <= r % sectors < 255
            && n == cyl * (heads * sectors) + r / sectors * sectors + r % sectors
  {
    var size := heads * sectors;
    Positive(Geometry(heads, sectors));
    DivMod(n, size);
    Quotient(n, size, 0x1_0000);
    DivMod(n % size, sectors);
    Quotient(n % size, sectors, heads);
  }

  lemma CylDigits(cyl: int)
    requires 0 <= cyl < 0x1_0000
    ensures cyl / 0x100 % 0x100 * 0x100 + cyl % 0x100 == cyl
  {
  }

  lemma LbaThenGet(g: Geometry, r: Regs, n: int)
    requires Fits(g) && 0 <= r.select < 256 && IsLba(r) && 0 <= n < 0x1000_0000
    ensures GetSector(g, SetSector(g, r, n)) == n && IsLba(SetSector(g, r, n))
  {
    SelectKeepsMode(r.select, n / 0x100_0000 % 0x10);
    LbaDigits(n);
  }

  /** `row` is heads * sectors; `cyl`, `head` and `sec` are the parts of the address. */
  lemma ChsRegs(g: Geometry, r: Regs, row: int, cyl: int, head: int, sec: int)
    requires 0 <= r.select < 256 && !IsLba(r) && row == g.heads * g.sectors
    requires 0 <= cyl < 0x1_0000 && 0 <= head < 16 && 0 <= sec < 255
    ensures var s := Regs((sec + 1) % 0x100, cyl % 0x100, cyl / 0x100 % 0x100, r.select / 0x10 * 0x10 + head % 0x10);
            GetSector(g, s) == cyl * row + head * g.sectors + sec && !IsLba(s)
  {
    CylDigits(cyl);
    SelectKeepsMode(r.select, head);
  }

  /** ide_get_sector after ide_set_sector is the identity, in LBA and in CHS mode. */
  lemma SetThenGet(g: Geometry, r: Regs, n: int)
    requires Fits(g) && 0 <= r.select < 256 && Addressable(g, r, n)
    ensures GetSector(g, SetSector(g, r, n)) == n && IsLba(SetSector(g, r, n)) == IsLba(r)
  {
    if IsLba(r) {
      LbaThenGet(g, r, n);
    } else {
      ChsParts(n, g.heads, g.sectors);
      var row := g.heads * g.sectors;
      ChsRegs(g, r, row, n / row, n % row / g.sectors, n % row % g.sectors);
    }
  }

  /** In LBA mode the registers are the digits of the address: the sector register the lowest
      byte, then the cylinder registers, and the low half of select. */
  lemma LbaIsBytes(g: Geometry, r: Regs)
    requires IsLba(r) && 0 <= r.sector < 256 && 0 <= r.lcyl < 256 && 0 <= r.hcyl < 256 && 0 <= r.select < 256
    ensures var n := GetSector(g, r);
            n % 0x100 == r.sector && n / 0x100 % 0x100 == r.lcyl && n / 0x1_0000 % 0x100 == r.hcyl && n / 0x100_0000 == r.select % 0x10
  {
    var high := r.select % 0x10;
    DivModUnique(GetSector(g, r), 0x1_0000, high * 0x100 + r.hcyl, r.lcyl * 0x100 + r.sector);
    DivModUnique(GetSector(g, r), 0x100, high * 0x1_0000 + r.hcyl * 0x100 + r.lcyl, r.sector);
    DivModUnique(GetSector(g, r), 0x100_0000, high, r.hcyl * 0x1_0000 + r.lcyl * 0x100 + r.sector);
  }

  /** The registers of a cylinder, head and sector in CHS mode. */
  function Chs(cyl: int, head: int, sec: int): Regs { Regs(sec, cyl % 0x100, cyl / 0x100, 0xA0 + head) }

  /** In CHS mode sector 1 of head 0 of cylinder 0 is the first, and each sector follows the one
      before it on the track, the head before it and the cylinder before it. */
  lemma ChsInOrder(g: Geometry, cyl: int, head: int, sec: int)
    requires Fits(g) && 0 <= cyl < 0xFFFF && 0 <= head < g.heads && 1 <= sec <= g.sectors
    ensures GetSector(g, Chs(0, 0, 1)) == 0
    ensures GetSector(g, Chs(cyl, head, sec)) + 1 ==
              GetSector(g, if sec < g.sectors then Chs(cyl, head, sec + 1) else if head + 1 < g.heads then Chs(cyl, head + 1, 1) else Chs(cyl + 1, 0, 1))
  {
    ChsNumber(g, 0, 0, 1);
    ChsNumber(g, cyl, head, sec);
    if sec < g.sectors {
      ChsNumber(g, cyl, head, sec + 1);
    } else if head + 1 < g.heads {
      ChsNumber(g, cyl, head + 1, 1);
      Distribute(head, 1, g.sectors);
    } else {
      ChsNumber(g, cyl + 1, 0, 1);
      Distribute(cyl, 1, g.heads * g.sectors);
      Distribute(head, 1, g.sectors);
    }
  }

  lemma ChsNumber(g: Geometry, cyl: int, head: int, sec: int)
    requires 0 <= cyl < 0x1_0000 && 0 <= head < 16
    ensures GetSector(g, Chs(cyl, head, sec)) == cyl * (g.heads * g.sectors) + head * g.sectors + (sec - 1)
  {
    assert (0xA0 + head) / 0x40 % 2 == 0 && (0xA0 + head) % 0x10 == head;
    assert cyl / 0x100 * 0x100 + cyl % 0x100 == cyl;
  }

  lemma SelectInByte(g: Geometry, r: Regs, n: int)
    requires Fits(g) && 0 <= r.select < 256
    ensures 0 <= SetSector(g, r, n).select < 256 && IsLba(SetSector(g, r, n)) == IsLba(r)
  {
    Positive(g);
    SelectKeepsMode(r.select, if IsLba(r) then n / 0x100_0000 % 0x10 else n % (g.heads * g.sectors) / g.sectors % 0x10);
  }

  /** ide_get_sector and ide_set_sector, with the sectors they can address. The transfers
      below are proved for every such pair that obeys Lawful. */
  datatype Addressing = Addressing(get: Regs -> int, put: (Regs, int) -> Regs, ok: (Regs, int) -> bool)

  ghost predicate Lawful(io: Addressing) {
    && (forall r: Regs, n: int {:trigger io.put(r, n)} :: 0 <= r.select < 256 ==> 0 <= io.put(r, n).select < 256)
    && (forall r: Regs, n: int {:trigger io.put(r, n)} :: 0 <= r.select < 256 && io.ok(r, n) ==> io.get(io.put(r, n)) == n)
    && (forall r: Regs, n: int, k: int {:trigger io.ok(io.put(r, n), k)} :: 0 <= r.select < 256 ==> io.ok(io.put(r, n), k) == io.ok(r, k))
  }

  function AtaAddressing(g: Geometry): Addressing
    requires Fits(g)
  {
    Addressing(r => GetSector(g, r), (r, n) => SetSector(g, r, n), (r, n) => Addressable(g, r, n))
  }

  /** The addressing of the source is lawful in both modes. */
  lemma AtaIsLawful(g: Geometry)
    requires Fits(g)
    ensures Lawful(AtaAddressing(g))
  {
    var io := AtaAddressing(g);
    forall r: Regs, n: int | 0 <= r.select < 256
      ensures 0 <= io.put(r, n).select < 256 && IsLba(io.put(r, n)) == IsLba(r)
    {
      SelectInByte(g, r, n);
    }
    forall r: Regs, n: int | 0 <= r.select < 256 && io.ok(r, n) ensures io.get(io.put(r, n)) == n {
      SetThenGet(g, r, n);
    }
  }

  // ----- the drive -----

  /** end_transfer_func */
  datatype EndFunc = Stop | ReadNext | ReadEnd | WriteNext | IdentifyEnd

  /** IDEState with the disk behind it */
  datatype Drive = Drive(
    io: Addressing, regs: Regs, mult: int, nsector: int, status: int, error: int,
    ioNb: int, reqNb: int, endFunc: EndFunc, index: int, end: int,
    buffer: seq<Byte>, disk: seq<Byte>)

  function First(s: Drive): int { s.io.get(s.regs) }

  function TransferStart(s: Drive, size: int, f: EndFunc): Drive { s.(endFunc := f, index := 0, end := size) }

  function TransferStop(s: Drive): Drive { s.(endFunc := Stop, index := 0, end := 0) }

  function AbortCommand(s: Drive): Drive { s.(status := READY + ERR, error := 4) }

  /** Sectors of the next block: a count of 0 means 256. */
  function BlockCount(s: Drive): int {
    var n := if s.nsector == 0 then 256 else s.nsector;
    if n > s.reqNb then s.reqNb else n
  }

  /** The device fails on sectors it does not have. */
  predicate OnDisk(disk: seq<Byte>, first: int, n: int) { 0 <= first && 0 <= n && SECTOR * (first + n) <= |disk| }

  function Sectors(disk: seq<Byte>, first: int, n: int): seq<Byte>
    requires OnDisk(disk, first, n)
  {
    disk[SECTOR * first..SECTOR * (first + n)]
  }

  /** The disk with some sectors replaced. */
  function PutSectors(disk: seq<Byte>, first: int, data: seq<Byte>): seq<Byte>
    requires 0 <= first && SECTOR * first + |data| <= |disk|
  {
    disk[..SECTOR * first] + data + disk[SECTOR * first + |data|..]
  }

  /** The address registers after a block of n sectors. */
  function Beyond(s: Drive, n: int): Regs { s.io.put(s.regs, First(s) + n) }

  /** ide_sector_read of n sectors from `first`, and its callback; `next` is where the
      address registers end up. */
  function ReadBlock(s: Drive, first: int, n: int, next: Regs): Drive {
    if !OnDisk(s.disk, first, n) || SECTOR * n > |s.buffer| then AbortCommand(s.(ioNb := n))
    else
      var left := (s.nsector - n) % 0x100;
      TransferStart(
        s.(ioNb := n, buffer := Sectors(s.disk, first, n) + s.buffer[SECTOR * n..], regs := next, nsector := left,
           status := READY + SEEK + DRQ, error := 0),
        SECTOR * n, if left == 0 then ReadEnd else ReadNext)
  }

  /** ide_sector_read */
  function SectorRead(s: Drive): Drive { ReadBlock(s, First(s), BlockCount(s), Beyond(s, BlockCount(s))) }

  /** The start of a write of n sectors: the host has to fill the buffer. */
  function WriteBlock(s: Drive, n: int): Drive {
    TransferStart(s.(ioNb := n), SECTOR * n, WriteNext).(status := READY + SEEK + DRQ)
  }

  /** ide_sector_write */
  function SectorWrite(s: Drive): Drive { WriteBlock(s, BlockCount(s)) }

  /** ide_sector_write_cb2: the address registers move to `next`, and the next block starts. */
  function AfterWrite(s: Drive, next: Regs): Drive {
    var r := s.(regs := next, nsector := (s.nsector - s.ioNb) % 0x100);
    if r.nsector == 0 then r.(status := READY + SEEK)
    else WriteBlock(r, if r.nsector > r.reqNb then r.reqNb else r.nsector)
  }

  /** ide_sector_write_cb1: the buffer goes to the disk. */
  function StoreBlock(s: Drive, first: int, next: Regs): Drive {
    var s1 := TransferStop(s);
    if !OnDisk(s.disk, first, s.ioNb) || SECTOR * s.ioNb > |s.buffer| then AbortCommand(s1)
    else AfterWrite(s1.(disk := PutSectors(s.disk, first, s.buffer[..SECTOR * s.ioNb])), next)
  }

  /** The function a transfer ends with. */
  function EndTransfer(s: Drive): Drive {
    match s.endFunc
    case Stop => TransferStop(s)
    case ReadNext => SectorRead(s)
    case ReadEnd => TransferStop(s.(status := READY + SEEK, error := 0))
    case WriteNext => StoreBlock(s, First(s), Beyond(s, s.ioNb))
    case IdentifyEnd => TransferStop(s).(status := READY)
  }

  /** The check after each word. */
  function Ended(s: Drive): Drive { if s.index >= s.end then EndTransfer(s) else s }

  /** data_index moves on by a word. */
  function Advanced(s: Drive): Drive { s.(index := s.index + 2) }

  /** ide_data_readw, as two bytes */
  function ReadData(s: Drive): (Drive, seq<Byte>)
    requires Valid(s)
  {
    (Ended(Advanced(s)), s.buffer[s.index..s.index + 2])
  }

  /** ide_data_writew */
  function WriteData(s: Drive, word: seq<Byte>): Drive
    requires Valid(s) && |word| == 2
  {
    Ended(s.(buffer := s.buffer[..s.index] + word + s.buffer[s.index + 2..], index := s.index + 2))
  }

  datatype Command = Identify | Recalibrate | SetMult | Read | Write | MultRead | MultWrite | ReadNativeMax | Unknown

  /** ide_exec_cmd; `identity` is the block ide_identify fills in. */
  function Exec(s: Drive, c: Command, identity: seq<Byte>): Drive
    requires |identity| == 1024 && |s.buffer| == BUFFER && |s.disk| >= SECTOR
  {
    match c
    case Identify =>
      TransferStart(s.(buffer := identity + s.buffer[1024..], status := READY + SEEK + DRQ), SECTOR, IdentifyEnd)
    case Recalibrate => s.(error := 0, status := READY + SEEK)
    case SetMult =>
      if s.nsector in {0, 1, 2, 4, 8, 16, 32, 64, 128} then s.(mult := s.nsector, status := READY) else AbortCommand(s)
    case Read => SectorRead(s.(reqNb := 1))
    case Write => SectorWrite(s.(reqNb := 1))
    case MultRead => if s.mult == 0 then AbortCommand(s) else SectorRead(s.(reqNb := s.mult))
    case MultWrite => if s.mult == 0 then AbortCommand(s) else SectorWrite(s.(reqNb := s.mult))
    case ReadNativeMax => s.(regs := s.io.put(s.regs, |s.disk| / SECTOR - 1), status := READY)
    case Unknown => AbortCommand(s)
  }

  // ----- the buffer is never left -----

  /** Registers, counts and buffer. */
  predicate Sane(s: Drive) {
    && 0 <= s.regs.select < 256
    && |s.buffer| == BUFFER && 0 <= s.nsector < 256 && 0 <= s.mult <= MAX_MULT
    && 0 <= s.reqNb <= MAX_MULT && 0 <= s.ioNb <= MAX_MULT
  }

  /** The data index stays inside the running transfer, which fits the buffer. */
  predicate Running(s: Drive) {
    && s.index % 2 == 0 && s.end % 2 == 0 && 0 <= s.end <= SECTOR * MAX_MULT
    && 0 <= s.index && (s.index < s.end || (s.index == 0 && s.end == 0))
  }

  predicate Valid(s: Drive) { Sane(s) && Running(s) }

  /** A block that is on the disk starts a transfer; a failing one leaves index and end. */
  lemma ReadBlockSane(s: Drive, first: int, n: int, next: Regs)
    requires Sane(s) && 0 <= n <= MAX_MULT && 0 <= next.select < 256
    ensures Sane(ReadBlock(s, first, n, next))
    ensures OnDisk(s.disk, first, n) ==> Running(ReadBlock(s, first, n, next))
    ensures !OnDisk(s.disk, first, n) ==> ReadBlock(s, first, n, next).index == s.index && ReadBlock(s, first, n, next).end == s.end
  {
  }

  lemma StoreBlockValid(s: Drive, first: int, next: Regs)
    requires Sane(s) && 0 <= next.select < 256
    ensures Valid(StoreBlock(s, first, next))
  {
  }

  lemma SectorReadSane(s: Drive)
    requires Lawful(s.io) && Sane(s)
    ensures Sane(SectorRead(s))
    ensures OnDisk(s.disk, First(s), BlockCount(s)) ==> Running(SectorRead(s))
    ensures !OnDisk(s.disk, First(s), BlockCount(s)) ==> SectorRead(s).index == s.index && SectorRead(s).end == s.end
  {
    ReadBlockSane(s, First(s), BlockCount(s), Beyond(s, BlockCount(s)));
  }

  /** The next block of a multi-sector read is on the disk, or there is none. */
  predicate NextBlockReadable(s: Drive) { s.endFunc == ReadNext ==> OnDisk(s.disk, First(s), BlockCount(s)) }

  /** A transfer that has reached its end. */
  lemma EndTransferExact(s: Drive)
    requires Lawful(s.io) && Sane(s) && s.index >= s.end > 0
    ensures Sane(EndTransfer(s)) && (Valid(EndTransfer(s)) <==> NextBlockReadable(s))
  {
    match s.endFunc
    case ReadNext => SectorReadSane(s);
    case WriteNext =>
      StoreBlockValid(s, First(s), Beyond(s, s.ioNb));
    case _ =>
  }

  /** After a word the index is inside the buffer unless the transfer is over and the next
      block cannot be read. */
  lemma EndedExact(s: Drive, t: Drive)
    requires Lawful(s.io) && Valid(s) && s.end > 0
    requires t == s.(index := s.index + 2, buffer := t.buffer) && |t.buffer| == BUFFER
    ensures Sane(Ended(t)) && (Valid(Ended(t)) <==> t.index < t.end || NextBlockReadable(t))
  {
    if t.index >= t.end { EndTransferExact(t); }
  }

  /** The data port keeps the index inside the buffer exactly when the word is not the last
      one before a block that cannot be read: after a failed read the index is left at the
      end and the next accesses move it on. */
  lemma ReadDataExact(s: Drive)
    requires Lawful(s.io) && Valid(s) && s.end > 0
    ensures Sane(ReadData(s).0)
    ensures Valid(ReadData(s).0) <==> s.index + 2 < s.end || NextBlockReadable(Advanced(s))
  {
    EndedExact(s, Advanced(s));
  }

  lemma WriteDataExact(s: Drive, word: seq<Byte>)
    requires Lawful(s.io) && Valid(s) && s.end > 0 && |word| == 2
    ensures Sane(WriteData(s, word))
    ensures var t := s.(buffer := s.buffer[..s.index] + word + s.buffer[s.index + 2..], index := s.index + 2);
            Valid(WriteData(s, word)) <==> t.index < t.end || NextBlockReadable(t)
  {
    EndedExact(s, s.(buffer := s.buffer[..s.index] + word + s.buffer[s.index + 2..], index := s.index + 2));
  }

  /** Every command keeps the index inside the buffer. */
  lemma ExecValid(s: Drive, c: Command, identity: seq<Byte>)
    requires Lawful(s.io) && Valid(s) && |identity| == 1024 && |s.disk| >= SECTOR
    ensures Valid(Exec(s, c, identity))
  {
    match c
    case Read => SectorReadSane(s.(reqNb := 1));
    case MultRead => SectorReadSane(s.(reqNb := s.mult));
    case _ =>
  }

  // ----- streams of words -----

  /** k steps of a port, with the bytes they deliver. */
  function Iterate<S>(step: S -> (S, seq<Byte>), s: S, k: nat): (S, seq<Byte>)
    decreases k
  {
    if k == 0 then (s, [])
    else
      var (s1, head) := step(s);
      var (s2, tail) := Iterate(step, s1, k - 1);
      (s2, head + tail)
  }

  lemma {:induction false} IterateSplit<S>(step: S -> (S, seq<Byte>), s: S, k: nat, m: nat, s1: S, head: seq<Byte>)
    requires Iterate(step, s, k) == (s1, head)
    ensures Iterate(step, s, k + m) == (Iterate(step, s1, m).0, head + Iterate(step, s1, m).1)
    decreases k
  {
    if k == 0 {
      assert [] + Iterate(step, s, m).1 == Iterate(step, s, m).1;
    } else {
      var (t, word) := step(s);
      var rest := Iterate(step, t, k - 1).1;
      IterateSplit(step, t, k - 1, m, s1, rest);
      assert word + (rest + Iterate(step, s1, m).1) == word + rest + Iterate(step, s1, m).1;
    }
  }

  lemma IterateOne<S>(step: S -> (S, seq<Byte>), s: S)
    ensures Iterate(step, s, 1) == step(s)
  {
    assert Iterate(step, step(s).0, 0) == (step(s).0, []);
    assert step(s).1 + [] == step(s).1;
  }

  /** Words written one after the other. */
  function Feed<S>(step: (S, seq<Byte>) -> S, s: S, data: seq<Byte>): S
    decreases |data|
  {
    if |data| < 2 then s else Feed(step, step(s, data[..2]), data[2..])
  }

  lemma {:induction false} FeedSplit<S>(step: (S, seq<Byte>) -> S, s: S, a: seq<Byte>, b: seq<Byte>)
    requires |a| % 2 == 0
    ensures Feed(step, s, a + b) == Feed(step, Feed(step, s, a), b)
    decreases |a|
  {
    if a == [] {
      assert a + b == b;
    } else {
      assert (a + b)[..2] == a[..2] && (a + b)[2..] == a[2..] + b;
      FeedSplit(step, step(s, a[..2]), a[2..], b);
    }
  }

  // ----- whole transfers -----

  /** The data port, which is not used once the drive has left its buffer. */
  function ReadPort(s: Drive): (Drive, seq<Byte>) { if Valid(s) then ReadData(s) else (s, []) }

  function WritePort(s: Drive, word: seq<Byte>): Drive { if Valid(s) && |word| == 2 then WriteData(s, word) else s }

  /** Inside a block a read only moves the index. */
  ghost predicate Reads(step: Drive -> (Drive, seq<Byte>)) {
    && (forall s {:trigger step(s)} :: Valid(s) && s.index + 2 < s.end ==>
          step(s) == (s.(index := s.index + 2), s.buffer[s.index..s.index + 2]))
    && (forall s {:trigger step(s)} :: Valid(s) && s.index + 2 == s.end ==>
          step(s) == (EndTransfer(s.(index := s.end)), s.buffer[s.index..s.end]))
  }

  lemma ReadPortReads()
    ensures Reads(ReadPort)
  {
  }

  lemma Halves(b: seq<Byte>, i: nat, j: nat, k: nat)
    requires i <= j <= k <= |b|
    ensures b[i..j] + b[j..k] == b[i..k]
  {
  }

  /** Inside a block the words come from the buffer in order. */
  lemma {:induction false} ReadWithin(step: Drive -> (Drive, seq<Byte>), s: Drive, words: nat)
    requires Reads(step) && Valid(s) && s.index + 2 * words < s.end
    ensures Iterate(step, s, words) == (s.(index := s.index + 2 * words), s.buffer[s.index..s.index + 2 * words])
    decreases words
  {
    if words > 0 {
      var s1 := s.(index := s.index + 2);
      assert step(s) == (s1, s.buffer[s.index..s.index + 2]);
      ReadWithin(step, s1, words - 1);
      Halves(s.buffer, s.index, s.index + 2, s.index + 2 * words);
    } else {
      assert s.buffer[s.index..s.index] == [];
    }
  }

  /** A whole block; its last word ends the transfer. */
  lemma BlockRead(step: Drive -> (Drive, seq<Byte>), b: Drive, n: nat)
    requires Reads(step) && Valid(b) && b.index == 0 && n > 0 && b.end == SECTOR * n
    ensures Iterate(step, b, 256 * n) == (EndTransfer(b.(index := b.end)), b.buffer[..b.end])
  {
    var last := b.(index := b.end - 2);
    ReadWithin(step, b, 256 * n - 1);
    IterateSplit(step, b, 256 * n - 1, 1, last, b.buffer[0..b.end - 2]);
    IterateOne(step, last);
    assert step(last) == (EndTransfer(last.(index := last.end)), last.buffer[last.index..last.end]);
    Halves(b.buffer, 0, b.end - 2, b.end);
    assert b.buffer[0..b.end] == b.buffer[..b.end];
  }

  /** A count of 0 means 256. */
  function Count(s: Drive): int { if s.nsector == 0 then 256 else s.nsector }

  /** n sectors from the current one can be addressed and are on the disk. */
  ghost predicate InRange(s: Drive, n: int) {
    && OnDisk(s.disk, First(s), n)
    && (forall k {:trigger s.io.ok(s.regs, k)} :: First(s) <= k < First(s) + n ==> s.io.ok(s.regs, k))
  }

  /** The drive after a block of n sectors. */
  lemma RangeMoves(s: Drive, b: Drive, n: int, m: int)
    requires Lawful(s.io) && Sane(s) && 0 <= n < m && InRange(s, m)
    requires b.io == s.io && b.disk == s.disk && b.regs == Beyond(s, n)
    ensures First(b) == First(s) + n && InRange(b, m - n)
  {
    assert s.io.ok(s.regs, First(s) + n);
    forall k | First(b) <= k < First(b) + (m - n) ensures s.io.ok(b.regs, k) {
      assert s.io.ok(s.regs, k);
      assert s.io.ok(s.io.put(s.regs, First(s) + n), k);
    }
  }

  /** What a drive that finished a transfer looks like. */
  ghost predicate Finished(s: Drive, was: Drive) {
    s.endFunc == Stop && s.index == 0 && s.end == 0 && s.nsector == 0 && s.status == READY + SEEK && s.io == was.io
  }

  lemma NextCount(count: int, nsector: int, n: int)
    requires 0 <= nsector < 256 && count == (if nsector == 0 then 256 else nsector) && 1 <= n <= count && n <= MAX_MULT
    ensures (nsector - n) % 0x100 == if n == count then 0 else count - n
  {
  }

  lemma BlockIs(s: Drive, first: int, n: int, next: Regs, m: int)
    requires Sane(s) && m == Count(s) && 1 <= n <= m && n <= MAX_MULT && OnDisk(s.disk, first, n) && 0 <= next.select < 256
    ensures var b := ReadBlock(s, first, n, next);
            && Valid(b) && b.index == 0 && b.end == SECTOR * n && b.buffer[..b.end] == Sectors(s.disk, first, n)
            && b.disk == s.disk && b.io == s.io && b.reqNb == s.reqNb && b.regs == next
            && b.endFunc == (if n == m then ReadEnd else ReadNext) && b.nsector == m - n
  {
    NextCount(m, s.nsector, n);
    ReadBlockSane(s, first, n, next);
  }

  ghost predicate Delivered(s: Drive, first: int, m: int, got: (Drive, seq<Byte>))
    requires OnDisk(s.disk, first, m)
  {
    got.1 == Sectors(s.disk, first, m) && Finished(got.0, s) && got.0.disk == s.disk
  }

  lemma LastBlock(step: Drive -> (Drive, seq<Byte>), s: Drive, b: Drive, n: nat)
    requires Reads(step) && Valid(b) && b.index == 0 && n > 0 && b.end == SECTOR * n && OnDisk(s.disk, First(s), n)
    requires b.buffer[..b.end] == Sectors(s.disk, First(s), n) && b.disk == s.disk && b.io == s.io
    requires b.endFunc == ReadEnd && b.nsector == 0
    ensures Delivered(s, First(s), n, Iterate(step, b, 256 * n))
  {
    BlockRead(step, b, n);
  }

  lemma MoreBlocks(step: Drive -> (Drive, seq<Byte>), s: Drive, done: Drive, b: Drive, n: nat, next: Drive, m: nat)
    requires 0 < n < m && OnDisk(s.disk, First(s), m) && MoreToRead(s, done, n, m)
    requires Iterate(step, b, 256 * n) == (next, Sectors(s.disk, First(s), n))
    requires Delivered(done, First(done), m - n, Iterate(step, next, 256 * (m - n)))
    ensures Delivered(s, First(s), m, Iterate(step, b, 256 * m))
  {
    IterateSplit(step, b, 256 * n, 256 * (m - n), next, Sectors(s.disk, First(s), n));
    SectorsJoin(s.disk, First(s), n, m - n);
  }

  /** The drive after the first block of a read, when more follow. */
  ghost predicate MoreToRead(s: Drive, done: Drive, n: int, m: int) {
    && Sane(done) && Count(done) == m - n && InRange(done, m - n) && First(done) == First(s) + n
    && done.io == s.io && done.disk == s.disk && done.reqNb == s.reqNb
  }

  lemma FirstBlockRead(step: Drive -> (Drive, seq<Byte>), s: Drive, m: int) returns (done: Drive)
    requires Reads(step) && Lawful(s.io) && Sane(s) && m == Count(s) && 1 <= s.reqNb && InRange(s, m) && BlockCount(s) < m
    ensures Iterate(step, SectorRead(s), 256 * BlockCount(s)) == (SectorRead(done), Sectors(s.disk, First(s), BlockCount(s)))
    ensures MoreToRead(s, done, BlockCount(s), m)
  {
    var b, n := SectorRead(s), BlockCount(s);
    BlockIs(s, First(s), n, Beyond(s, n), m);
    RangeMoves(s, b, n, m);
    done := b.(index := b.end);
    NextReadIs(b, done, m - n);
    BlockRead(step, b, n);
  }

  lemma OneBlockRead(step: Drive -> (Drive, seq<Byte>), s: Drive, m: int)
    requires Reads(step) && Lawful(s.io) && Sane(s) && m == Count(s) && 1 <= s.reqNb && InRange(s, m) && BlockCount(s) == m
    ensures Delivered(s, First(s), m, Iterate(step, SectorRead(s), 256 * m))
  {
    BlockIs(s, First(s), m, Beyond(s, m), m);
    LastBlock(step, s, SectorRead(s), m);
  }

  /** A whole read command: the data port delivers the sectors in order, then it stops. */
  lemma {:induction false} ReadsInOrder(step: Drive -> (Drive, seq<Byte>), s: Drive, m: int)
    requires Reads(step) && Lawful(s.io) && Sane(s) && m == Count(s) && 1 <= s.reqNb && InRange(s, m)
    ensures Delivered(s, First(s), m, Iterate(step, SectorRead(s), 256 * m))
    decreases m
  {
    var n := BlockCount(s);
    if n == m {
      OneBlockRead(step, s, m);
    } else {
      var done := FirstBlockRead(step, s, m);
      ReadsInOrder(step, done, m - n);
      MoreBlocks(step, s, done, SectorRead(s), n, SectorRead(done), m);
    }
  }

  lemma SectorsJoin(disk: seq<Byte>, first: int, n: int, m: int)
    requires 0 <= n && 0 <= m && OnDisk(disk, first, n + m)
    ensures Sectors(disk, first, n + m) == Sectors(disk, first, n) + Sectors(disk, first + n, m)
  {
  }

  lemma NextReadIs(b: Drive, done: Drive, m: int)
    requires Valid(b) && done == b.(index := b.end) && b.nsector == m && m > 0 && InRange(b, m) && b.endFunc == ReadNext
    ensures Sane(done) && Count(done) == m && InRange(done, m) && First(done) == First(b) && EndTransfer(done) == SectorRead(done)
  {
  }

  // ----- writes -----

  function Patch(b: seq<Byte>, i: nat, data: seq<Byte>): seq<Byte>
    requires i + |data| <= |b|
  {
    b[..i] + data + b[i + |data|..]
  }

  lemma PatchTwice(b: seq<Byte>, i: nat, d1: seq<Byte>, d2: seq<Byte>)
    requires i + |d1| + |d2| <= |b|
    ensures Patch(Patch(b, i, d1), i + |d1|, d2) == Patch(b, i, d1 + d2)
  {
  }

  /** Inside a block a write fills the buffer and moves the index. */
  ghost predicate Writes(step: (Drive, seq<Byte>) -> Drive) {
    && (forall s, word {:trigger step(s, word)} :: Valid(s) && |word| == 2 && s.index + 2 < s.end ==>
          step(s, word) == s.(buffer := Patch(s.buffer, s.index, word), index := s.index + 2))
    && (forall s, word {:trigger step(s, word)} :: Valid(s) && |word| == 2 && s.index + 2 == s.end ==>
          step(s, word) == EndTransfer(s.(buffer := Patch(s.buffer, s.index, word), index := s.end)))
  }

  lemma WritePortWrites()
    ensures Writes(WritePort)
  {
  }

  lemma {:induction false} WriteWithin(step: (Drive, seq<Byte>) -> Drive, s: Drive, data: seq<Byte>)
    requires Writes(step) && Valid(s) && |data| % 2 == 0 && s.index + |data| < s.end
    ensures Feed(step, s, data) == s.(buffer := Patch(s.buffer, s.index, data), index := s.index + |data|)
    decreases |data|
  {
    if data == [] {
      assert Patch(s.buffer, s.index, []) == s.buffer;
    } else {
      var s1 := s.(buffer := Patch(s.buffer, s.index, data[..2]), index := s.index + 2);
      assert step(s, data[..2]) == s1;
      WriteWithin(step, s1, data[2..]);
      PatchTwice(s.buffer, s.index, data[..2], data[2..]);
      assert data[..2] + data[2..] == data;
    }
  }

  /** A whole block; its last word ends the transfer. */
  lemma BlockWritten(step: (Drive, seq<Byte>) -> Drive, b: Drive, data: seq<Byte>)
    requires Writes(step) && Valid(b) && b.index == 0 && b.end == |data| > 0
    ensures Feed(step, b, data) == EndTransfer(b.(buffer := Patch(b.buffer, 0, data), index := b.end))
  {
    var k := |data| - 2;
    var head, word := data[..k], data[k..];
    var last := b.(buffer := Patch(b.buffer, 0, head), index := k);
    assert head + word == data;
    WriteWithin(step, b, head);
    FeedSplit(step, b, head, word);
    assert word[..2] == word && word[2..] == [];
    PatchTwice(b.buffer, 0, head, word);
    assert step(last, word) == EndTransfer(last.(buffer := Patch(last.buffer, last.index, word), index := last.end));
  }

  /** The drive waits for a block of a write of m more sectors. */
  ghost predicate Writing(s: Drive, m: int) {
    && Valid(s) && s.index == 0 && s.endFunc == WriteNext && 1 <= s.reqNb && m == Count(s)
    && s.ioNb == BlockCount(s) && s.end == SECTOR * s.ioNb && 1 <= s.ioNb && InRange(s, m)
  }

  ghost predicate Stored(s: Drive, r: Drive, data: seq<Byte>)
    requires 0 <= First(s) && SECTOR * First(s) + |data| <= |s.disk|
  {
    Finished(r, s) && r.disk == PutSectors(s.disk, First(s), data)
  }

  /** The block goes to the disk, and the next one is awaited if there is one. */
  lemma StoreIs(s: Drive, first: int, next: Regs, m: int, data: seq<Byte>)
    requires Sane(s) && 1 <= s.reqNb && m == Count(s) && s.ioNb == BlockCount(s) && |data| == SECTOR * s.ioNb
    requires OnDisk(s.disk, first, s.ioNb) && s.buffer[..|data|] == data && 0 <= next.select < 256
    ensures var r := StoreBlock(s, first, next);
            && r.disk == PutSectors(s.disk, first, data) && r.regs == next && r.io == s.io
            && (s.ioNb == m ==> Finished(r, s))
            && (s.ioNb < m ==> Valid(r) && r.index == 0 && r.endFunc == WriteNext && r.reqNb == s.reqNb && Count(r) == m - s.ioNb &&
                               r.ioNb == BlockCount(r) && r.end == SECTOR * r.ioNb && 1 <= r.ioNb)
  {
    NextCount(m, s.nsector, s.ioNb);
  }

  lemma PutTwice(disk: seq<Byte>, first: int, n: int, a: seq<Byte>, b: seq<Byte>)
    requires 0 <= first && |a| == SECTOR * n && SECTOR * first + |a| + |b| <= |disk|
    ensures |PutSectors(disk, first, a)| == |disk|
    ensures PutSectors(PutSectors(disk, first, a), first + n, b) == PutSectors(disk, first, a + b)
  {
    PatchTwice(disk, SECTOR * first, a, b);
  }

  /** n sectors are written and the rest is still in range. */
  lemma RangeMovesOn(s: Drive, r: Drive, n: int, m: int)
    requires Lawful(s.io) && Sane(s) && 0 <= n < m && InRange(s, m)
    requires r.io == s.io && |r.disk| == |s.disk| && r.regs == Beyond(s, n)
    ensures First(r) == First(s) + n && InRange(r, m - n)
  {
    RangeMoves(s, r.(disk := s.disk), n, m);
  }

  lemma PatchPrefix(b: seq<Byte>, data: seq<Byte>)
    requires |data| <= |b|
    ensures Patch(b, 0, data)[..|data|] == data
  {
  }

  lemma EndIsStore(s: Drive, full: Drive)
    requires s.endFunc == WriteNext && full == s.(buffer := full.buffer, index := full.index)
    ensures EndTransfer(full) == StoreBlock(full, First(s), Beyond(s, s.ioNb))
  {
  }

  /** r is s after the first block of a write of m sectors. */
  ghost predicate BlockStored(s: Drive, r: Drive, m: int, head: seq<Byte>)
    requires 0 <= First(s) && SECTOR * First(s) + |head| <= |s.disk|
  {
    && r.disk == PutSectors(s.disk, First(s), head) && r.io == s.io
    && (s.ioNb == m ==> Finished(r, s))
    && (s.ioNb < m ==> Writing(r, m - s.ioNb) && First(r) == First(s) + s.ioNb)
  }

  lemma StoredBlockIs(s: Drive, full: Drive, r: Drive, m: int, head: seq<Byte>)
    requires Lawful(s.io) && Writing(s, m) && |head| == SECTOR * s.ioNb
    requires full == s.(buffer := Patch(s.buffer, 0, head), index := s.end)
    requires r == StoreBlock(full, First(s), Beyond(s, s.ioNb))
    ensures BlockStored(s, r, m, head)
  {
    PatchPrefix(s.buffer, head);
    NextSelect(s, s.ioNb);
    StoreIs(full, First(s), Beyond(s, s.ioNb), m, head);
    if s.ioNb < m { RangeMovesOn(s, r, s.ioNb, m); }
  }

  /** The first block of a write and what follows it. */
  lemma OneBlockStored(step: (Drive, seq<Byte>) -> Drive, s: Drive, m: int, head: seq<Byte>)
    requires Writes(step) && Lawful(s.io) && Writing(s, m) && |head| == SECTOR * s.ioNb
    ensures BlockStored(s, Feed(step, s, head), m, head)
  {
    var full := s.(buffer := Patch(s.buffer, 0, head), index := s.end);
    BlockWritten(step, s, head);
    EndIsStore(s, full);
    StoredBlockIs(s, full, StoreBlock(full, First(s), Beyond(s, s.ioNb)), m, head);
  }

  lemma MoreStored(s: Drive, r: Drive, f: Drive, n: int, head: seq<Byte>, tail: seq<Byte>)
    requires 0 <= First(s) && |head| == SECTOR * n && SECTOR * First(s) + |head| + |tail| <= |s.disk|
    requires r.disk == PutSectors(s.disk, First(s), head) && r.io == s.io && First(r) == First(s) + n
    requires SECTOR * First(r) + |tail| <= |r.disk| && Stored(r, f, tail)
    ensures |head + tail| == |head| + |tail| && Stored(s, f, head + tail)
  {
    PutTwice(s.disk, First(s), n, head, tail);
  }

  /** A whole write command: the words put into the data port become the sectors in order,
      no other byte of the disk changes, then it stops. */
  lemma {:induction false} WritesInOrder(step: (Drive, seq<Byte>) -> Drive, s: Drive, m: int, data: seq<Byte>)
    requires Writes(step) && Lawful(s.io) && Writing(s, m) && |data| == SECTOR * m
    ensures Stored(s, Feed(step, s, data), data)
    decreases m
  {
    var n := s.ioNb;
    OneBlockStored(step, s, m, data[..SECTOR * n]);
    if n < m {
      var head, tail := data[..SECTOR * n], data[SECTOR * n..];
      var r := Feed(step, s, head);
      WritesInOrder(step, r, m - n, tail);
      MoreStored(s, r, Feed(step, r, tail), n, head, tail);
      FeedSplit(step, s, head, tail);
      assert head + tail == data;
    } else {
      assert data[..SECTOR * n] == data;
    }
  }

  lemma NextSelect(s: Drive, n: int)
    requires Lawful(s.io) && Sane(s)
    ensures 0 <= Beyond(s, n).select < 256
  {
  }

  // ----- commands -----

  predicate CanTransfer(s: Drive, c: Command) { c in {Read, Write} || (c in {MultRead, MultWrite} && s.mult > 0) }

  /** READ and READ MULTIPLE with count N deliver sectors L to L + N - 1 in order, whatever
      the multiple setting, and then the drive is idle. */
  lemma ReadCommand(s: Drive, c: Command, identity: seq<Byte>)
    requires Lawful(s.io) && Valid(s) && CanTransfer(s, c) && c in {Read, MultRead}
    requires |identity| == 1024 && |s.disk| >= SECTOR && InRange(s, Count(s))
    ensures Delivered(s, First(s), Count(s), Iterate(ReadPort, Exec(s, c, identity), 256 * Count(s)))
  {
    var s1 := s.(reqNb := if c == Read then 1 else s.mult);
    assert First(s1) == First(s) && Count(s1) == Count(s) && InRange(s1, Count(s));
    ReadPortReads();
    ReadsInOrder(ReadPort, s1, Count(s));
  }

  lemma WriteCommand(s: Drive, c: Command, identity: seq<Byte>, data: seq<Byte>)
    requires Lawful(s.io) && Valid(s) && CanTransfer(s, c) && c in {Write, MultWrite}
    requires |identity| == 1024 && |s.disk| >= SECTOR && InRange(s, Count(s)) && |data| == SECTOR * Count(s)
    ensures Stored(s, Feed(WritePort, Exec(s, c, identity), data), data)
  {
    var s1 := Exec(s, c, identity);
    assert First(s1) == First(s) && Count(s1) == Count(s) && InRange(s1, Count(s));
    WritePortWrites();
    WritesInOrder(WritePort, s1, Count(s), data);
  }
}
