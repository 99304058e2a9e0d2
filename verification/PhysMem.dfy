// Physical memory of the emulated machine: the range list of temu/iomem.c and the
// 64-bit words behind the RAM ranges.
//
// A host pointer is an integer; RAM is a map from the host pointer of an aligned
// 8-byte word to that word (fresh RAM is zero).

module PhysMem {
  import opened Bits

  const PAGE: int := 4096

  /** PhysMemoryRange: `mem` is the host pointer `phys_mem`. */
  datatype Range = Range(addr: int, size: int, isRam: bool, mem: int)

  datatype Ram = Ram(ranges: seq<Range>, words: map<int, Word>)

  predicate InRange(r: Range, paddr: int) {
    r.addr <= paddr < r.addr + r.size
  }

  /** get_phys_mem_range: the index of the first range holding `paddr`, or -1. */
  function FindRange(ranges: seq<Range>, paddr: int): (i: int)
    ensures -1 <= i < |ranges|
    decreases |ranges|
  {
    if |ranges| == 0 then -1
    else if InRange(ranges[0], paddr) then 0
    else var i := FindRange(ranges[1..], paddr); if i == -1 then -1 else i + 1
  }

  lemma {:induction false} FindRangeIsFirst(ranges: seq<Range>, paddr: int)
    ensures var i := FindRange(ranges, paddr);
            && (i >= 0 ==> InRange(ranges[i], paddr))
            && (forall j :: 0 <= j < (if i == -1 then |ranges| else i) ==> !InRange(ranges[j], paddr))
    decreases |ranges|
  {
    if |ranges| > 0 && !InRange(ranges[0], paddr) {
      FindRangeIsFirst(ranges[1..], paddr);
      assert forall j :: 1 <= j < |ranges| ==> ranges[j] == ranges[1..][j - 1];
    }
  }

  /** What the machine set-up guarantees: RAM ranges are page aligned, host regions are
      word aligned, and no two ranges overlap. */
  ghost predicate WellFormed(ranges: seq<Range>) {
    && (forall i :: 0 <= i < |ranges| && ranges[i].isRam ==>
          ranges[i].addr % PAGE == 0 && ranges[i].size % PAGE == 0 && ranges[i].mem % 8 == 0)
    && (forall i, j, p ::
          0 <= i < |ranges| && 0 <= j < |ranges| && InRange(ranges[i], p) && InRange(ranges[j], p) ==> i == j)
  }

  predicate IsRamAt(ram: Ram, paddr: int) {
    var i := FindRange(ram.ranges, paddr);
    i >= 0 && ram.ranges[i].isRam
  }

  /** `pr->phys_mem + (paddr - pr->addr)` */
  function HostPtr(ram: Ram, paddr: int): int
    requires IsRamAt(ram, paddr)
  {
    var r := ram.ranges[FindRange(ram.ranges, paddr)];
    r.mem + (paddr - r.addr)
  }

  function WordAt(ram: Ram, key: int): Word {
    if key in ram.words then ram.words[key] else Zero()
  }

  function SetWord(ram: Ram, key: int, w: Word): Ram {
    ram.(words := ram.words[key := w])
  }

  /** phys_read_u64: reads outside RAM give 0. */
  function PhysRead64(ram: Ram, paddr: int): Word {
    if IsRamAt(ram, paddr) then WordAt(ram, HostPtr(ram, paddr)) else Zero()
  }

  /** phys_write_u64: writes outside RAM are dropped. */
  function PhysWrite64(ram: Ram, paddr: int, w: Word): Ram {
    if IsRamAt(ram, paddr) then SetWord(ram, HostPtr(ram, paddr), w) else ram
  }

  type SizeLog2 = n: nat | n <= 3

  /** Bytes of an access. */
  function Bytes(log2: SizeLog2): int {
    match log2 case 0 => 1 case 1 => 2 case 2 => 4 case _ => 8
  }

  /** The aligned word holding the byte at host pointer `ptr`. */
  function WordKey(ptr: int): int { ptr - ptr % 8 }

  function LoadByte(ram: Ram, ptr: int): (v: seq<bool>)
    ensures |v| == 8
  {
    var b := 8 * (ptr % 8);
    WordAt(ram, WordKey(ptr))[b..b + 8]
  }

  function StoreByte(ram: Ram, ptr: int, val: seq<bool>): Ram
    requires |val| == 8
  {
    var b, w := 8 * (ptr % 8), WordAt(ram, WordKey(ptr));
    SetWord(ram, WordKey(ptr), w[..b] + val + w[b + 8..])
  }

  /** `*(uintN_t *)ptr`, little endian, N = 8n. */
  function LoadAt(ram: Ram, ptr: int, n: nat): (v: seq<bool>)
    ensures |v| == 8 * n
    decreases n
  {
    if n == 0 then [] else LoadByte(ram, ptr) + LoadAt(ram, ptr + 1, n - 1)
  }

  /** `*(uintN_t *)ptr = val` */
  function StoreAt(ram: Ram, ptr: int, n: nat, val: seq<bool>): Ram
    requires |val| >= 8 * n
    decreases n
  {
    if n == 0 then ram else StoreAt(StoreByte(ram, ptr, val[..8]), ptr + 1, n - 1, val[8..])
  }

  /** The words an n-byte access at ptr touches. */
  function Keys(ptr: int, n: nat): set<int>
    decreases n
  {
    if n == 0 then {} else {WordKey(ptr)} + Keys(ptr + 1, n - 1)
  }

  /** Every address of a RAM page lies in the same range. */
  lemma RamPageUniform(ranges: seq<Range>, p: int, q: int)
    requires WellFormed(ranges)
    requires p / PAGE == q / PAGE
    requires FindRange(ranges, p) >= 0 && ranges[FindRange(ranges, p)].isRam
    ensures FindRange(ranges, q) == FindRange(ranges, p)
  {
    FindRangeIsFirst(ranges, p);
    FindRangeIsFirst(ranges, q);
    var r := ranges[FindRange(ranges, p)];
    var k, n := r.addr / PAGE, r.size / PAGE;
    assert r.addr == k * PAGE && r.addr + r.size == (k + n) * PAGE;
    assert k <= p / PAGE < k + n;
    assert InRange(r, q);
  }

  /** A store changes only the words it touches, and no byte outside [ptr, ptr + n). */
  lemma {:induction false} StoreFrame(ram: Ram, ptr: int, n: nat, val: seq<bool>)
    requires |val| >= 8 * n
    ensures var r := StoreAt(ram, ptr, n, val);
            && r.ranges == ram.ranges
            && (forall k :: k !in Keys(ptr, n) ==> WordAt(r, k) == WordAt(ram, k))
            && (forall q :: q < ptr || ptr + n <= q ==> LoadByte(r, q) == LoadByte(ram, q))
    decreases n
  {
    if n > 0 {
      var r1 := StoreByte(ram, ptr, val[..8]);
      forall q | q != ptr ensures LoadByte(r1, q) == LoadByte(ram, q) {
        OtherByte(ram, ptr, val[..8], q);
      }
      StoreFrame(r1, ptr + 1, n - 1, val[8..]);
    }
  }

  lemma OtherByte(ram: Ram, ptr: int, val: seq<bool>, q: int)
    requires |val| == 8 && q != ptr
    ensures LoadByte(StoreByte(ram, ptr, val), q) == LoadByte(ram, q)
  {
    if WordKey(ptr) == WordKey(q) {
      var b, b', w := 8 * (ptr % 8), 8 * (q % 8), WordAt(ram, WordKey(ptr));
      assert b' + 8 <= b || b + 8 <= b';
      assert (w[..b] + val + w[b + 8..])[b'..b' + 8] == w[b'..b' + 8];
    }
  }

  lemma SameByte(ram: Ram, ptr: int, val: seq<bool>)
    requires |val| == 8
    ensures LoadByte(StoreByte(ram, ptr, val), ptr) == val
  {
  }

  /** A store leaves the byte before it. */
  lemma ByteBefore(ram: Ram, ptr: int, n: nat, val: seq<bool>)
    requires |val| >= 8 * n
    ensures LoadByte(StoreAt(ram, ptr + 1, n, val), ptr) == LoadByte(ram, ptr)
  {
    StoreFrame(ram, ptr + 1, n, val);
  }

  lemma TakeParts(val: seq<bool>, k: nat)
    requires |val| >= 8 + k
    ensures val[..8 + k] == val[..8] + val[8..][..k]
  {
  }

  /** A store is read back. */
  lemma {:induction false} LoadAfterStore(ram: Ram, ptr: int, n: nat, val: seq<bool>)
    requires |val| >= 8 * n
    ensures LoadAt(StoreAt(ram, ptr, n, val), ptr, n) == val[..8 * n]
    decreases n
  {
    if n > 0 {
      var r1, tail := StoreByte(ram, ptr, val[..8]), val[8..];
      SameByte(ram, ptr, val[..8]);
      ByteBefore(r1, ptr, n - 1, tail);
      LoadAfterStore(r1, ptr + 1, n - 1, tail);
      TakeParts(val, 8 * (n - 1));
    }
  }
}
