// The HTTP block device of temu/block_net.c: an LRU cache of downloaded blocks,
// copy-on-write clusters and one asynchronous request, as functions on values.
// BlockDevice.dfy holds the mutable class.

module BlockNet {
  import opened Arith

  type Sector = seq<int>

  /** CachedBlock; `data` is meaningful once loaded. */
  datatype Block = Block(num: int, loaded: bool, data: seq<Sector>)

  /** BlockDeviceHTTP. `clusters` holds the written clusters, `downloads` the blocks whose
      download has been started and has not completed, `waiting` whether the client has been
      told to expect a callback. */
  datatype Dev = Dev(
    blockSize: int, nbSectors: int, maxBlocks: int,
    blocks: seq<Block>, clusters: map<int, seq<Sector>>,
    isWrite: bool, sectorNum: int, cur: int, index: int, count: int, buf: seq<Sector>,
    downloads: multiset<int>, waiting: bool)

  /** The state bf_init_onload leaves: nothing cached, written or under way. */
  predicate Fresh(d: Dev) {
    && d.blocks == [] && d.clusters == map[] && d.downloads == multiset{} && !d.waiting
    && d.cur == -1 && !d.isWrite && d.sectorNum == 0 && d.index == 0 && d.count == 0 && d.buf == []
  }

  function Min(a: int, b: int): int { if a < b then a else b }

  /** `t` written over `s` at position i */
  function Splice<T>(s: seq<T>, i: int, t: seq<T>): (r: seq<T>)
    requires 0 <= i && i + |t| <= |s|
    ensures |r| == |s|
  {
    s[..i] + t + s[i + |t|..]
  }

  // ----- the cached block list -----

  function IndexOf(bs: seq<Block>, num: int): (i: int)
    ensures -1 <= i < |bs|
    ensures i >= 0 ==> bs[i].num == num
    ensures i == -1 ==> forall j :: 0 <= j < |bs| ==> bs[j].num != num
  {
    if |bs| == 0 then -1
    else if bs[0].num == num then 0
    else
      var i := IndexOf(bs[1..], num);
      assert forall j :: 1 <= j < |bs| ==> bs[j] == bs[1..][j - 1];
      if i == -1 then -1 else i + 1
  }

  function RemoveAt(bs: seq<Block>, i: int): seq<Block>
    requires 0 <= i < |bs|
  {
    bs[..i] + bs[i + 1..]
  }

  function MoveToFront(bs: seq<Block>, i: int): (r: seq<Block>)
    requires 0 <= i < |bs|
    ensures |r| == |bs|
  {
    [bs[i]] + RemoveAt(bs, i)
  }

  /** The eviction loop of bf_add_block, from position i towards the front. */
  function EvictFrom(bs: seq<Block>, i: int, max: int): seq<Block>
    requires i < |bs|
    decreases i + 1
  {
    if i < 0 || |bs| < max then bs
    else if bs[i].loaded then EvictFrom(RemoveAt(bs, i), i - 1, max)
    else EvictFrom(bs, i - 1, max)
  }

  /** bf_add_block */
  function AddBlock(bs: seq<Block>, num: int, max: int): seq<Block> {
    [Block(num, false, [])] + EvictFrom(bs, |bs| - 1, max)
  }

  // ----- requests -----

  /** A cluster has 8 sectors (bf_init_onload) and a block is a whole number of clusters; the request lies on the disk. */
  predicate Geometry(d: Dev) {
    && d.blockSize > 0 && d.blockSize % 8 == 0
    && 0 <= d.index <= d.count <= |d.buf|
    && 0 <= d.sectorNum && d.sectorNum + (d.count - d.index) <= d.nbSectors
  }

  /** Every buffer has the length it is accessed with. */
  predicate Sized(d: Dev) {
    && Geometry(d)
    && (forall k :: k in d.clusters ==> |d.clusters[k]| == 8)
    && (forall i :: 0 <= i < |d.blocks| && d.blocks[i].loaded ==> |d.blocks[i].data| == d.blockSize)
  }

  function Cluster(d: Dev): int { d.sectorNum / 8 }

  /** One transfer inside an allocated cluster. */
  function ClusterStep(d: Dev): (r: Dev)
    requires Sized(d) && d.index < d.count && Cluster(d) in d.clusters
    ensures Sized(r) && d.index < r.index && r.count == d.count
  {
    var off := d.sectorNum % 8;
    var n := Min(d.count - d.index, 8 - off);
    var data := d.clusters[Cluster(d)];
    var d1 :=
      if d.isWrite then d.(clusters := d.clusters[Cluster(d) := Splice(data, off, d.buf[d.index..d.index + n])])
      else d.(buf := Splice(d.buf, d.index, data[off..off + n]));
    d1.(index := d.index + n, sectorNum := d.sectorNum + n)
  }

  /** A read served by a loaded block, up to the end of the block. */
  function BlockReadStep(d: Dev, data: seq<Sector>): (r: Dev)
    requires Sized(d) && d.index < d.count && |data| == d.blockSize
    ensures Sized(r) && d.index < r.index && r.count == d.count
  {
    var off := d.sectorNum % d.blockSize;
    var n := Min(d.count - d.index, d.blockSize - off);
    d.(buf := Splice(d.buf, d.index, data[off..off + n]),
       index := d.index + n, sectorNum := d.sectorNum + n, cur := -1)
  }

  lemma ClusterInBlock(d: Dev)
    requires d.blockSize > 0 && d.blockSize % 8 == 0
    ensures var co := Cluster(d) * 8 % d.blockSize;
            0 <= co && co + 8 <= d.blockSize && d.sectorNum % d.blockSize == co + d.sectorNum % 8
  {
    CellInRow(d.sectorNum, d.blockSize);
  }

  /** The cluster of every sector lies inside one block exactly when blocks are whole clusters;
      otherwise copy on write reads past the block's data. */
  lemma ClusterFitsExact(blockSize: int)
    requires blockSize > 0
    ensures (forall s: nat :: CopyFits(blockSize, s)) <==> blockSize % 8 == 0
  {
    if blockSize % 8 == 0 {
      forall s: nat ensures CopyFits(blockSize, s) { CellInRow(s, blockSize); }
    } else {
      assert !CopyFits(blockSize, blockSize / 8 * 8);
    }
  }

  predicate CopyFits(blockSize: int, sector: int)
    requires blockSize > 0
  {
    sector / 8 * 8 % blockSize + 8 <= blockSize
  }

  /** A write allocates its cluster with the block's data. */
  function AllocateStep(d: Dev, data: seq<Sector>): (r: Dev)
    requires Sized(d) && |data| == d.blockSize
    ensures Sized(r) && r.index == d.index && r.count == d.count && Cluster(r) in r.clusters
  {
    ClusterInBlock(d);
    var co := Cluster(d) * 8 % d.blockSize;
    d.(clusters := d.clusters[Cluster(d) := data[co..co + 8]])
  }

  /** bf_find_block on a hit */
  function Touch(d: Dev, num: int, i: int): (r: Dev)
    requires Sized(d) && 0 <= i < |d.blocks|
    ensures Sized(r)
  {
    d.(cur := num, blocks := MoveToFront(d.blocks, i))
  }

  /** bf_start_load_block */
  function StartLoad(d: Dev, num: int): Dev {
    d.(cur := num, blocks := AddBlock(d.blocks, num, d.maxBlocks), downloads := d.downloads + multiset{num})
  }

  /** bf_find_block on a loaded block, then the transfer or the allocation. */
  function ServeBlock(d: Dev, i: int): (r: Dev)
    requires Sized(d) && d.index < d.count && Cluster(d) !in d.clusters && 0 <= i < |d.blocks| && d.blocks[i].loaded
    ensures Sized(r) && r.count == d.count && d.index <= r.index && (d.index == r.index ==> Cluster(r) in r.clusters)
  {
    var d1 := Touch(d, d.blocks[i].num, i);
    if d.isWrite then AllocateStep(d1, d.blocks[i].data) else BlockReadStep(d1, d.blocks[i].data)
  }

  /** The loop of bf_rw_async1; the flag says whether the request has ended. */
  function Rw(d: Dev): (Dev, bool)
    requires Sized(d)
    decreases d.count - d.index, if Cluster(d) in d.clusters then 0 else 1
  {
    if d.index == d.count then (d, true)
    else if Cluster(d) in d.clusters then Rw(ClusterStep(d))
    else
      var num := d.sectorNum / d.blockSize;
      var i := IndexOf(d.blocks, num);
      if i < 0 then (StartLoad(d, num), false)
      else if !d.blocks[i].loaded then (Touch(d, num, i), false)
      else Rw(ServeBlock(d, i))
  }

  // ----- events -----

  /** A client request, the end of the download of a block, or a prefetch of a group. */
  datatype Event =
    | Submit(isWrite: bool, sectorNum: int, buf: seq<Sector>, n: int)
    | Arrive(num: int)
    | Prefetch(nums: seq<int>)

  /** Ret0: completed at once. Ret1: a callback will follow. */
  datatype Reply = Ret0 | Ret1 | Callback | Quiet

  /** bf_read_async and bf_write_async */
  function SubmitStep(d: Dev, e: Event): (Dev, Reply)
    requires e.Submit? && Sized(Prepare(d, e))
  {
    var (d1, ended) := Rw(Prepare(d, e));
    (d1.(waiting := !ended), if ended then Ret0 else Ret1)
  }

  function Prepare(d: Dev, e: Event): Dev
    requires e.Submit?
  {
    d.(isWrite := e.isWrite, sectorNum := e.sectorNum, buf := e.buf, count := e.n, index := 0)
  }

  /** The state change of bf_update_block. */
  function Loaded(d: Dev, num: int, data: seq<Sector>): Dev
    requires IndexOf(d.blocks, num) >= 0
  {
    var i := IndexOf(d.blocks, num);
    d.(blocks := d.blocks[i := Block(num, true, data)], downloads := d.downloads - multiset{num})
  }

  /** bf_update_block: the request is resumed when the block is the current one. */
  function ArriveStep(d: Dev, num: int, data: seq<Sector>): (Dev, Reply)
    requires IndexOf(d.blocks, num) >= 0 && |data| == d.blockSize && Sized(d)
  {
    var d1 := Loaded(d, num, data);
    if num == d.cur then
      var (d2, ended) := Rw(d1);
      (d2.(waiting := d.waiting && !ended), if ended then Callback else Quiet)
    else (d1, Quiet)
  }

  /** One block of bf_start_load_prefetch_group: a cached block is only touched. */
  function PrefetchOne(d: Dev, num: int): (r: Dev)
    requires Sized(d)
    ensures Sized(r)
  {
    var i := IndexOf(d.blocks, num);
    PrefetchSized(d, num);
    if i >= 0 then Touch(d, d.cur, i) else StartLoad(d, num).(cur := d.cur)
  }

  /** bf_start_load_prefetch_group */
  function PrefetchStep(d: Dev, nums: seq<int>): Dev
    requires Sized(d)
    decreases |nums|
  {
    if nums == [] then d else PrefetchStep(PrefetchOne(d, nums[0]), nums[1..])
  }

  lemma PrefetchSized(d: Dev, num: int)
    requires Sized(d)
    ensures Sized(StartLoad(d, num).(cur := d.cur))
  {
    EvictedAreOld(d.blocks, |d.blocks| - 1, d.maxBlocks);
    var bs := EvictFrom(d.blocks, |d.blocks| - 1, d.maxBlocks);
    assert forall i :: 1 <= i < |bs| + 1 ==> AddBlock(d.blocks, num, d.maxBlocks)[i] == bs[i - 1] && bs[i - 1] in bs;
  }

  lemma {:induction false} EvictedAreOld(bs: seq<Block>, i: int, max: int)
    requires -1 <= i < |bs|
    ensures forall b :: b in EvictFrom(bs, i, max) ==> b in bs
    decreases i + 1
  {
    if i >= 0 && |bs| >= max {
      EvictedAreOld(if bs[i].loaded then RemoveAt(bs, i) else bs, i - 1, max);
    }
  }
}
