// IDEState of temu/ide.c as a mutable object, proved against Ide step by step.

module IdeDrive {
  import opened Ide

  class IDEState {
    const heads: int
    const sectors: int
    var multSectors: int
    var nsector: int
    var sector: int
    var lcyl: int
    var hcyl: int
    var select: int
    var status: int
    var error: int
    var ioNbSectors: int
    var reqNbSectors: int
    var endTransferFunc: EndFunc
    var dataIndex: int
    var dataEnd: int
    const ioBuffer: array<Byte>
    /** The block device behind the drive. */
    var disk: seq<Byte>

    ghost function State(): Drive
      reads this, ioBuffer
      requires Fits(Geometry(heads, sectors))
    {
      Drive(AtaAddressing(Geometry(heads, sectors)), Regs(sector, lcyl, hcyl, select), multSectors, nsector, status, error,
            ioNbSectors, reqNbSectors, endTransferFunc, dataIndex, dataEnd, ioBuffer[..], disk)
    }

    ghost predicate Good()
      reads this, ioBuffer
    {
      Fits(Geometry(heads, sectors)) && ioBuffer.Length == BUFFER && Sane(State())
    }

    /** ide_drive_init: 16 heads and 63 sectors, address registers clear. */
    constructor (image: seq<Byte>)
      ensures Good() && Ide.Valid(State()) && Lawful(State().io) && fresh(ioBuffer) && disk == image
      ensures heads == 16 && sectors == 63 && multSectors == MAX_MULT && status == READY + SEEK && select == 0xa0
    {
      heads, sectors, multSectors := 16, 63, MAX_MULT;
      nsector, sector, lcyl, hcyl, select := 0, 0, 0, 0, 0xa0;
      status, error, ioNbSectors, reqNbSectors := READY + SEEK, 0, 0, 0;
      endTransferFunc, dataIndex, dataEnd := Stop, 0, 0;
      ioBuffer := new Byte[BUFFER](_ => 0);
      disk := image;
      new;
      AtaIsLawful(Geometry(16, 63));
    }

    method TransferStart(size: int, f: EndFunc)
      requires Good()
      modifies this`endTransferFunc, this`dataIndex, this`dataEnd
      ensures Good() && State() == Ide.TransferStart(old(State()), size, f)
    {
      endTransferFunc, dataIndex, dataEnd := f, 0, size;
    }

    method TransferStop()
      requires Good()
      modifies this`endTransferFunc, this`dataIndex, this`dataEnd
      ensures Good() && State() == Ide.TransferStop(old(State()))
    {
      endTransferFunc, dataIndex, dataEnd := Stop, 0, 0;
    }

    method AbortCommand()
      requires Good()
      modifies this`status, this`error
      ensures Good() && State() == Ide.AbortCommand(old(State()))
    {
      status, error := READY + ERR, 4;
    }

    method GetSector() returns (sectorNum: int)
      requires Good()
      ensures sectorNum == First(State())
    {
      if select / 0x40 % 2 == 1 {
        sectorNum := select % 0x10 * 0x100_0000 + hcyl * 0x1_0000 + lcyl * 0x100 + sector;
      } else {
        sectorNum := (hcyl * 0x100 + lcyl) * (heads * sectors) + select % 0x10 * sectors + (sector - 1);
      }
    }

    method SetSector(sectorNum: int)
      requires Good()
      modifies this`sector, this`lcyl, this`hcyl, this`select
      ensures Good() && State() == old(State()).(regs := State().regs)
      ensures State().regs == old(State()).io.put(old(State()).regs, sectorNum)
    {
      ghost var regs := Regs(sector, lcyl, hcyl, select);
      SelectInByte(Geometry(heads, sectors), regs, sectorNum);
      Positive(Geometry(heads, sectors));
      var high := select / 0x10 * 0x10;
      if select / 0x40 % 2 == 1 {
        select := high + sectorNum / 0x100_0000 % 0x10;
        hcyl := sectorNum / 0x1_0000 % 0x100;
        lcyl := sectorNum / 0x100 % 0x100;
        sector := sectorNum % 0x100;
      } else {
        var cyl, r := sectorNum / (heads * sectors), sectorNum % (heads * sectors);
        hcyl := cyl / 0x100 % 0x100;
        lcyl := cyl % 0x100;
        select := high + r / sectors % 0x10;
        sector := (r % sectors + 1) % 0x100;
      }
      assert Regs(sector, lcyl, hcyl, select) == Ide.SetSector(Geometry(heads, sectors), regs, sectorNum);
    }

    /** The device copies sectors into the buffer. */
    method Receive(b: seq<Byte>)
      requires |b| <= ioBuffer.Length
      modifies ioBuffer
      ensures ioBuffer[..] == b + old(ioBuffer[|b|..])
    {
      for i := 0 to |b|
        invariant ioBuffer[..i] == b[..i] && ioBuffer[i..] == old(ioBuffer[i..])
      {
        ghost var tail := ioBuffer[i..];
        ioBuffer[i] := b[i];
        assert ioBuffer[i + 1..] == tail[1..];
        assert b[..i + 1] == b[..i] + [b[i]];
      }
      assert b[..|b|] == b;
    }

    /** ide_sector_read_cb, once the sectors are in the buffer */
    method SectorReadCb()
      requires Good() && 0 <= ioNbSectors <= MAX_MULT
      modifies this
      ensures Good()
      ensures var s := old(State());
              var left := (s.nsector - s.ioNb) % 0x100;
              State() == Ide.TransferStart(
                s.(regs := Beyond(s, s.ioNb), nsector := left, status := READY + SEEK + DRQ, error := 0),
                SECTOR * s.ioNb, if left == 0 then ReadEnd else ReadNext)
    {
      var n := ioNbSectors;
      var at := GetSector();
      SetSector(at + n);
      nsector := (nsector - n) % 0x100;
      TransferStart(SECTOR * n, if nsector == 0 then ReadEnd else ReadNext);
      status, error := READY + SEEK + DRQ, 0;
    }

    method SectorRead()
      requires Good()
      modifies this, ioBuffer
      ensures Good() && State() == Ide.SectorRead(old(State()))
    {
      var sectorNum := GetSector();
      var n := nsector;
      if n == 0 { n := 256; }
      if n > reqNbSectors { n := reqNbSectors; }
      ioNbSectors := n;
      if !OnDisk(disk, sectorNum, n) {
        AbortCommand();
      } else {
        Receive(Sectors(disk, sectorNum, n));
        SectorReadCb();
      }
    }

    method SectorReadCbEnd()
      requires Good()
      modifies this
      ensures Good() && State() == Ide.TransferStop(old(State()).(status := READY + SEEK, error := 0))
    {
      status, error := READY + SEEK, 0;
      TransferStop();
    }

    method StartWrite(n: int)
      requires Good() && 0 <= n <= MAX_MULT
      modifies this
      ensures Good() && State() == WriteBlock(old(State()), n)
    {
      ioNbSectors := n;
      TransferStart(SECTOR * n, WriteNext);
      status := READY + SEEK + DRQ;
    }

    method SectorWrite()
      requires Good()
      modifies this
      ensures Good() && State() == Ide.SectorWrite(old(State()))
    {
      var n := nsector;
      if n == 0 { n := 256; }
      if n > reqNbSectors { n := reqNbSectors; }
      StartWrite(n);
    }

    /** ide_sector_write_cb2 */
    method SectorWriteCb2()
      requires Good()
      modifies this
      ensures Good() && State() == AfterWrite(old(State()), Beyond(old(State()), old(State()).ioNb))
    {
      var n := ioNbSectors;
      var sectorNum := GetSector();
      SetSector(sectorNum + n);
      nsector := (nsector - n) % 0x100;
      if nsector == 0 {
        status := READY + SEEK;
      } else {
        StartWrite(if nsector > reqNbSectors then reqNbSectors else nsector);
      }
    }

    /** ide_sector_write_cb1; the device finishes at once */
    method SectorWriteCb1()
      requires Good() && endTransferFunc == WriteNext
      modifies this
      ensures Good() && State() == EndTransfer(old(State()))
    {
      TransferStop();
      var sectorNum := GetSector();
      var n := ioNbSectors;
      if !OnDisk(disk, sectorNum, n) {
        AbortCommand();
      } else {
        disk := PutSectors(disk, sectorNum, ioBuffer[..SECTOR * n]);
        SectorWriteCb2();
      }
    }

    /** s->end_transfer_func(s) */
    method EndOfTransfer()
      requires Good()
      modifies this, ioBuffer
      ensures Good() && State() == EndTransfer(old(State()))
    {
      match endTransferFunc {
        case Stop => TransferStop();
        case ReadNext => SectorRead();
        case ReadEnd => SectorReadCbEnd();
        case WriteNext => SectorWriteCb1();
        case IdentifyEnd =>
          TransferStop();
          status := READY;
      }
    }

    method DataReadw() returns (word: seq<Byte>)
      requires Good() && Ide.Valid(State())
      modifies this, ioBuffer
      ensures Good() && (State(), word) == ReadData(old(State()))
    {
      var p := dataIndex;
      word := ioBuffer[p..p + 2];
      dataIndex := p + 2;
      if dataIndex >= dataEnd { EndOfTransfer(); }
    }

    method DataWritew(lo: Byte, hi: Byte)
      requires Good() && Ide.Valid(State())
      modifies this, ioBuffer
      ensures Good() && State() == WriteData(old(State()), [lo, hi])
    {
      var p := dataIndex;
      ioBuffer[p] := lo;
      ioBuffer[p + 1] := hi;
      dataIndex := p + 2;
      assert ioBuffer[..] == old(ioBuffer[..p]) + [lo, hi] + old(ioBuffer[p + 2..]);
      if dataIndex >= dataEnd { EndOfTransfer(); }
    }

    /** ide_exec_cmd; `identity` is the block ide_identify fills in. */
    method ExecCmd(c: Command, identity: seq<Byte>)
      requires Good() && |identity| == 1024 && |disk| >= SECTOR
      modifies this, ioBuffer
      ensures Good() && State() == Exec(old(State()), c, identity)
    {
      match c {
        case Identify =>
          Receive(identity);
          status := READY + SEEK + DRQ;
          TransferStart(SECTOR, IdentifyEnd);
        case Recalibrate => error, status := 0, READY + SEEK;
        case SetMult =>
          if nsector in {0, 1, 2, 4, 8, 16, 32, 64, 128} {
            multSectors, status := nsector, READY;
          } else {
            AbortCommand();
          }
        case Read =>
          reqNbSectors := 1;
          SectorRead();
        case Write =>
          reqNbSectors := 1;
          SectorWrite();
        case MultRead =>
          if multSectors == 0 {
            AbortCommand();
          } else {
            reqNbSectors := multSectors;
            SectorRead();
          }
        case MultWrite =>
          if multSectors == 0 {
            AbortCommand();
          } else {
            reqNbSectors := multSectors;
            SectorWrite();
          }
        case ReadNativeMax =>
          SetSector(|disk| / SECTOR - 1);
          status := READY;
        case Unknown => AbortCommand();
      }
    }
  }
}
