// A RAM range of temu/iomem.c as the mutable object it is: two bitmaps of dirty pages, one
// in use, and the CPU's write TLB (`tlb`, reached by a callback) that has to follow. Each
// method is proved against Dirty.

module MemoryRange {
  import opened Bits
  import opened PhysMem
  import opened Cpu
  import opened Mmu
  import opened Dirty

  /** PhysMemoryRange of RAM with dirty bits */
  class TrackedRange {
    var addr: int
    const orgSize: int
    var size: int
    const mem: int
    const tab0: array<Word32>
    const tab1: array<Word32>
    var dirtyBitsIndex: int

    ghost predicate Valid()
      reads this, tab0, tab1
    {
      tab0 != tab1 && Shaped(Value())
    }

    ghost function Value(): Bank
      reads this, tab0, tab1
    {
      Bank(addr, orgSize, size, true, mem, true, [tab0[..], tab1[..]], dirtyBitsIndex)
    }

    /** default_register_ram with DEVRAM_FLAG_DIRTY_BITS; `base` is the allocated memory. */
    constructor (address: int, bytes: int, base: int, disabled: bool)
      requires bytes > 0 && bytes % PAGE == 0 && address % PAGE == 0
      ensures Valid() && fresh(tab0) && fresh(tab1)
      ensures var clean := Clean(MapWords(bytes));
              Value() == Bank(address, bytes, if disabled then 0 else bytes, true, base, true, [clean, clean], 0)
    {
      addr, orgSize, mem, dirtyBitsIndex := address, bytes, base, 0;
      size := if disabled then 0 else bytes;
      var n := (bytes / PAGE + 31) / 32;
      tab0 := new Word32[n](_ => Zero32());
      tab1 := new Word32[n](_ => Zero32());
      new;
      assert tab0[..] == Clean(MapWords(bytes)) && tab1[..] == Clean(MapWords(bytes));
    }

    /** dirty_bits */
    function DirtyBits(): (a: array<Word32>)
      reads this
    {
      if dirtyBitsIndex == 0 then tab0 else tab1
    }

    /** phys_mem_set_dirty_bit */
    method SetDirtyBit(offset: int)
      requires Valid() && 0 <= offset < orgSize
      modifies tab0, tab1
      ensures Valid() && Value() == SetDirty(old(Value()), offset)
    {
      var pageIndex := offset / PAGE;
      PageInMap(orgSize, offset);
      var bits := DirtyBits();
      bits[pageIndex / 32] := bits[pageIndex / 32][pageIndex % 32 := true];
      assert Current(Value()) == PutBit(old(Current(Value())), pageIndex, true);
      assert Value().tab == SetDirty(old(Value()), offset).tab;
    }

    /** phys_mem_is_dirty_bit */
    method IsDirtyBit(offset: int) returns (dirty: bool)
      requires Valid() && 0 <= offset < orgSize
      ensures dirty == IsDirty(Value(), offset / PAGE)
    {
      PageInMap(orgSize, offset);
      dirty := DirtyBits()[offset / PAGE / 32][offset / PAGE % 32];
    }

    /** default_get_dirty_bits: the reported bitmap is the returned array until the next
        call takes it back into use. */
    method GetDirtyBits(tlb: array<TlbEntry>) returns (report: array<Word32>)
      requires Valid() && tlb.Length == 256
      modifies this`dirtyBitsIndex, tab0, tab1, tlb
      ensures Valid() && report == old(DirtyBits()) && report[..] == old(Current(Value()))
      ensures forall banks: seq<Bank>, i :: 0 <= i < |banks| && AllShaped(Mem(banks, old(tlb[..]))) && banks[i] == old(Value()) ==>
                GetDirty(Mem(banks, old(tlb[..])), i) == (Mem(banks[i := Value()], tlb[..]), report[..])
    {
      report := DirtyBits();
      var hasDirtyBits := false;
      var i := 0;
      while i < report.Length
        invariant 0 <= i <= report.Length && !hasDirtyBits
        invariant forall k :: 0 <= k < i ==> report[k] == Zero32()
      {
        if report[i] != Zero32() {
          hasDirtyBits := true;
          break;
        }
        i := i + 1;
      }
      assert hasDirtyBits <==> AnyBit(report[..]);
      if hasDirtyBits && size != 0 { DropRange(tlb, mem, orgSize); }
      dirtyBitsIndex := 1 - dirtyBitsIndex;
      ClearDirtyBits();
    }

    /** memset of dirty_bits */
    method ClearDirtyBits()
      requires Valid()
      modifies tab0, tab1
      ensures Valid() && Value() == SetCurrent(old(Value()), Clean(|old(Current(Value()))|))
    {
      var bits := DirtyBits();
      for i := 0 to bits.Length
        invariant forall k :: 0 <= k < i ==> bits[k] == Zero32()
        invariant bits == tab0 ==> tab1[..] == old(tab1[..])
        invariant bits == tab1 ==> tab0[..] == old(tab0[..])
      {
        bits[i] := Zero32();
      }
      assert Current(Value()) == Clean(bits.Length);
    }

    /** phys_mem_reset_dirty_bit */
    method ResetDirtyBit(offset: int, tlb: array<TlbEntry>)
      requires Valid() && tlb.Length == 256 && 0 <= offset < orgSize
      modifies tab0, tab1, tlb
      ensures Valid()
      ensures var b := old(Value());
              if !IsDirty(b, offset / PAGE) then Value() == b && tlb[..] == old(tlb[..])
              else Value() == SetCurrent(b, PutBit(Current(b), offset / PAGE, false)) &&
                   tlb[..] == DropWrites(old(tlb[..]), mem + offset / PAGE * PAGE, PAGE)
    {
      var pageIndex := offset / PAGE;
      PageInMap(orgSize, offset);
      var bits := DirtyBits();
      if bits[pageIndex / 32][pageIndex % 32] {
        bits[pageIndex / 32] := bits[pageIndex / 32][pageIndex % 32 := false];
        assert Current(Value()) == PutBit(old(Current(Value())), pageIndex, false);
        assert Value().tab == SetCurrent(old(Value()), PutBit(old(Current(Value())), pageIndex, false)).tab;
        DropRange(tlb, mem + offset / PAGE * PAGE, PAGE);
      }
    }

    /** default_set_addr */
    method SetAddr(address: int, enabled: bool, tlb: array<TlbEntry>)
      requires Valid() && tlb.Length == 256 && address % PAGE == 0
      modifies this`addr, this`size, tlb
      ensures Valid()
      ensures forall banks: seq<Bank>, i :: 0 <= i < |banks| && banks[i] == old(Value()) ==>
                Dirty.SetAddr(Mem(banks, old(tlb[..])), i, address, enabled) == Mem(banks[i := Value()], tlb[..])
    {
      if enabled {
        if size == 0 || addr != address {
          DropRange(tlb, mem, orgSize);
          addr, size := address, orgSize;
        }
      } else if size != 0 {
        DropRange(tlb, mem, orgSize);
        addr, size := 0, 0;
      }
    }
  }
}
