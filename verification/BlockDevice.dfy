// BlockDeviceHTTP of temu/block_net.c as a mutable object. Every method is proved equal to
// its function in BlockNet.

module BlockDevice {
  import opened BlockNet

  class BlockDeviceHttp {
    const blockSize: int
    const nbSectors: int
    const nCachedBlocksMax: int
    var cachedBlocks: seq<Block>
    var nCachedBlocks: int
    var clusters: map<int, seq<Sector>>
    var nAllocatedClusters: int
    var isWrite: bool
    var sectorNum: int
    var curBlockNum: int
    var sectorIndex: int
    var sectorCount: int
    var ioBuf: array<Sector>
    ghost var downloads: multiset<int>
    ghost var waiting: bool

    ghost function State(): Dev
      reads this, ioBuf
    {
      Dev(blockSize, nbSectors, nCachedBlocksMax, cachedBlocks, clusters,
          isWrite, sectorNum, curBlockNum, sectorIndex, sectorCount, ioBuf[..], downloads, waiting)
    }

    ghost predicate Valid()
      reads this, ioBuf
    {
      Sized(State()) && nCachedBlocks == |cachedBlocks| && nAllocatedClusters == |clusters|
    }

    /** The state bf_init_onload sets up from the configuration. */
    constructor (blockSize: int, nbBlocks: int, cacheBlocks: int)
      requires blockSize > 0 && nbBlocks > 0 && blockSize % 8 == 0
      ensures Valid() && fresh(ioBuf)
      ensures this.blockSize == blockSize && nbSectors == blockSize * nbBlocks && nCachedBlocksMax >= 1
      ensures Fresh(State())
    {
      this.blockSize := blockSize;
      this.nbSectors := blockSize * nbBlocks;
      this.nCachedBlocksMax := if cacheBlocks < 1 then 1 else cacheBlocks;
      cachedBlocks, nCachedBlocks, clusters, nAllocatedClusters := [], 0, map[], 0;
      isWrite, sectorNum, curBlockNum, sectorIndex, sectorCount := false, 0, -1, 0, 0;
      ioBuf := new Sector[0];
      downloads, waiting := multiset{}, false;
    }

    /** bf_find_block: a hit moves to the front. */
    method FindBlock(num: int) returns (found: bool)
      modifies this`cachedBlocks
      ensures var i := IndexOf(old(cachedBlocks), num);
              && found == (i >= 0)
              && cachedBlocks == if found then MoveToFront(old(cachedBlocks), i) else old(cachedBlocks)
    {
      var i := 0;
      while i < |cachedBlocks|
        invariant 0 <= i <= |cachedBlocks| && cachedBlocks == old(cachedBlocks)
        invariant forall j :: 0 <= j < i ==> cachedBlocks[j].num != num
      {
        if cachedBlocks[i].num == num {
          IndexOfFirst(cachedBlocks, num, i);
          if i != 0 {
            var b := cachedBlocks[i];
            cachedBlocks := cachedBlocks[..i] + cachedBlocks[i + 1..];
            cachedBlocks := [b] + cachedBlocks;
          } else {
            assert MoveToFront(cachedBlocks, 0) == cachedBlocks;
          }
          return true;
        }
        i := i + 1;
      }
      return false;
    }

    /** bf_add_block: evicts loaded blocks from the back of the list. */
    method AddBlock(num: int)
      requires nCachedBlocks == |cachedBlocks|
      modifies this`cachedBlocks, this`nCachedBlocks
      ensures cachedBlocks == BlockNet.AddBlock(old(cachedBlocks), num, nCachedBlocksMax)
      ensures nCachedBlocks == |cachedBlocks|
    {
      if nCachedBlocks >= nCachedBlocksMax {
        var i := |cachedBlocks| - 1;
        while i >= 0
          invariant -1 <= i < |cachedBlocks| && nCachedBlocks == |cachedBlocks|
          invariant EvictFrom(cachedBlocks, i, nCachedBlocksMax) == EvictFrom(old(cachedBlocks), |old(cachedBlocks)| - 1, nCachedBlocksMax)
          invariant nCachedBlocks >= nCachedBlocksMax
        {
          if cachedBlocks[i].loaded {
            nCachedBlocks := nCachedBlocks - 1;
            cachedBlocks := cachedBlocks[..i] + cachedBlocks[i + 1..];
            if nCachedBlocks < nCachedBlocksMax {
              break;
            }
          }
          i := i - 1;
        }
      }
      cachedBlocks := [Block(num, false, [])] + cachedBlocks;
      nCachedBlocks := nCachedBlocks + 1;
    }

    /** bf_start_load_block */
    method StartLoadBlock(num: int)
      requires Valid()
      modifies this`cachedBlocks, this`nCachedBlocks, this`downloads
      ensures State() == StartLoad(old(State()), num).(cur := curBlockNum)
      ensures Valid()
    {
      PrefetchSized(State(), num);
      AddBlock(num);
      downloads := downloads + multiset{num};
    }

    /** Copies `data` into the client's buffer at sectorIndex and moves on. */
    method CopyOut(data: seq<Sector>)
      requires sectorIndex >= 0 && sectorIndex + |data| <= ioBuf.Length
      modifies this`sectorIndex, this`sectorNum, ioBuf
      ensures State() == old(State()).(buf := BlockNet.Splice(old(ioBuf[..]), old(sectorIndex), data),
                                        index := old(sectorIndex) + |data|, sectorNum := old(sectorNum) + |data|)
    {
      var n := |data|;
      forall k | 0 <= k < n {
        ioBuf[sectorIndex + k] := data[k];
      }
      assert ioBuf[..] == BlockNet.Splice(old(ioBuf[..]), sectorIndex, data);
      sectorIndex, sectorNum := sectorIndex + n, sectorNum + n;
    }

    /** bf_rw_async1, a write inside an allocated cluster. */
    method ClusterWrite(n: int)
      requires Valid() && sectorIndex < sectorCount && sectorNum / 8 in clusters && isWrite
      requires n == Min(sectorCount - sectorIndex, 8 - sectorNum % 8)
      modifies this`clusters, this`sectorNum, this`sectorIndex
      ensures State() == ClusterStep(old(State()))
      ensures Valid()
    {
      var part := ioBuf[sectorIndex..sectorIndex + n];
      clusters := clusters[sectorNum / 8 := BlockNet.Splice(clusters[sectorNum / 8], sectorNum % 8, part)];
      sectorIndex, sectorNum := sectorIndex + n, sectorNum + n;
    }

    /** bf_rw_async1, a read inside an allocated cluster. */
    method ClusterRead(n: int)
      requires Valid() && sectorIndex < sectorCount && sectorNum / 8 in clusters && !isWrite
      requires n == Min(sectorCount - sectorIndex, 8 - sectorNum % 8)
      modifies this`sectorNum, this`sectorIndex, ioBuf
      ensures State() == ClusterStep(old(State()))
      ensures Valid()
    {
      CopyOut(clusters[sectorNum / 8][sectorNum % 8..sectorNum % 8 + n]);
    }

    /** bf_rw_async1, a read from a loaded block. */
    method BlockTransfer(data: seq<Sector>)
      requires Valid() && sectorIndex < sectorCount && |data| == blockSize
      modifies this`sectorNum, this`sectorIndex, this`curBlockNum, ioBuf
      ensures State() == BlockReadStep(old(State()), data)
      ensures Valid()
    {
      var off := sectorNum % blockSize;
      var n := Min(sectorCount - sectorIndex, blockSize - off);
      TransferFits(blockSize, off, n, sectorCount - sectorIndex);
      curBlockNum := -1;
      CopyOut(data[off..off + n]);
    }

    /** bf_rw_async1, copy on write. */
    method AllocateCluster(data: seq<Sector>)
      requires Valid() && |data| == blockSize && sectorNum / 8 !in clusters
      modifies this`clusters, this`nAllocatedClusters
      ensures State() == AllocateStep(old(State()), data)
      ensures Valid()
    {
      ClusterInBlock(State());
      var clusterNum := sectorNum / 8;
      var clusterOffset := clusterNum * 8 % blockSize;
      clusters := clusters[clusterNum := data[clusterOffset..clusterOffset + 8]];
      nAllocatedClusters := nAllocatedClusters + 1;
    }

    /** bf_find_block for the current request, recording its block number. */
    method FindCurrent(num: int) returns (found: bool)
      requires Valid()
      modifies this`cachedBlocks, this`curBlockNum
      ensures var i := IndexOf(old(cachedBlocks), num);
              && Valid() && found == (i >= 0)
              && State() == (if found then Touch(old(State()), num, i) else old(State()).(cur := num))
              && (found ==> cachedBlocks[0] == old(cachedBlocks)[i])
    {
      curBlockNum := num;
      found := FindBlock(num);
    }

    /** bf_rw_async1: true at the end of the request, false when it has to wait. */
    method RwAsync1() returns (ended: bool)
      requires Valid()
      modifies this`cachedBlocks, this`nCachedBlocks, this`clusters, this`nAllocatedClusters, this`sectorNum,
               this`curBlockNum, this`sectorIndex, this`downloads, ioBuf
      ensures (State(), ended) == Rw(old(State()))
      ensures Valid()
    {
      ghost var result := Rw(State());
      while sectorIndex < sectorCount
        invariant Valid() && Rw(State()) == result
        decreases sectorCount - sectorIndex, if sectorNum / 8 in clusters then 0 else 1
      {
        if sectorNum / 8 in clusters {
          var n := Min(sectorCount - sectorIndex, 8 - sectorNum % 8);
          if isWrite { ClusterWrite(n); } else { ClusterRead(n); }
        } else {
          var blockNum := sectorNum / blockSize;
          var found := FindCurrent(blockNum);
          if !found {
            StartLoadBlock(blockNum);
            return false;
          }
          var b := cachedBlocks[0];
          if !b.loaded {
            return false;
          }
          if isWrite { AllocateCluster(b.data); } else { BlockTransfer(b.data); }
        }
      }
      return true;
    }

    /** bf_read_async and bf_write_async before bf_rw_async1 */
    method Begin(isWrite: bool, sectorNum: int, buf: array<Sector>, n: int)
      modifies this`isWrite, this`sectorNum, this`ioBuf, this`sectorCount, this`sectorIndex
      ensures State() == Prepare(old(State()), Submit(isWrite, sectorNum, buf[..], n)) && ioBuf == buf
    {
      this.isWrite, this.sectorNum, ioBuf, sectorCount, sectorIndex := isWrite, sectorNum, buf, n, 0;
    }

    /** bf_read_async and bf_write_async */
    method RequestAsync(isWrite: bool, sectorNum: int, buf: array<Sector>, n: int) returns (reply: Reply)
      requires Valid() && Sized(Prepare(State(), Submit(isWrite, sectorNum, buf[..], n)))
      modifies this, buf
      ensures (State(), reply) == SubmitStep(old(State()), Submit(isWrite, sectorNum, old(buf[..]), n))
      ensures Valid() && ioBuf == buf
    {
      Begin(isWrite, sectorNum, buf, n);
      var ended := RwAsync1();
      waiting := !ended;
      reply := if ended then Ret0 else Ret1;
    }

    method MarkLoaded(num: int, data: seq<Sector>)
      requires Valid() && IndexOf(cachedBlocks, num) >= 0 && |data| == blockSize
      modifies this`cachedBlocks, this`downloads
      ensures State() == Loaded(old(State()), num, data)
      ensures Valid()
    {
      var i := IndexOf(cachedBlocks, num);
      cachedBlocks := cachedBlocks[i := Block(num, true, data)];
      downloads := downloads - multiset{num};
    }

    /** bf_update_block, called when the download of a block completes. */
    method UpdateBlock(num: int, data: seq<Sector>) returns (reply: Reply)
      requires Valid() && IndexOf(cachedBlocks, num) >= 0 && |data| == blockSize
      modifies this, ioBuf
      ensures Valid() && ioBuf == old(ioBuf) && (State(), reply) == ArriveStep(old(State()), num, data)
    {
      MarkLoaded(num, data);
      if num == curBlockNum {
        var ended := RwAsync1();
        waiting := waiting && !ended;
        reply := if ended then Callback else Quiet;
      } else {
        reply := Quiet;
      }
    }

    /** One block of bf_start_load_prefetch_group */
    method PrefetchBlock(num: int)
      requires Valid()
      modifies this`cachedBlocks, this`nCachedBlocks, this`downloads
      ensures State() == PrefetchOne(old(State()), num)
      ensures Valid()
    {
      var found := FindBlock(num);
      if !found {
        StartLoadBlock(num);
      }
    }

    /** bf_start_load_prefetch_group */
    method StartLoadPrefetchGroup(nums: seq<int>)
      requires Valid()
      modifies this`cachedBlocks, this`nCachedBlocks, this`downloads
      ensures State() == PrefetchStep(old(State()), nums)
      ensures Valid()
    {
      var i := 0;
      ghost var result := PrefetchStep(State(), nums);
      while i < |nums|
        invariant 0 <= i <= |nums| && Valid() && PrefetchStep(State(), nums[i..]) == result
      {
        PrefetchBlock(nums[i]);
        assert nums[i..][1..] == nums[i + 1..];
        i := i + 1;
      }
    }
  }

  lemma TransferFits(blockSize: int, off: int, n: int, left: int)
    requires 0 <= off < blockSize && left > 0 && n == Min(left, blockSize - off)
    ensures 0 < n <= left && off + n <= blockSize
  {
  }

  lemma IndexOfFirst(bs: seq<Block>, num: int, i: int)
    requires 0 <= i < |bs| && bs[i].num == num && forall j :: 0 <= j < i ==> bs[j].num != num
    ensures IndexOf(bs, num) == i
  {
    if i > 0 { IndexOfFirst(bs[1..], num, i - 1); }
  }
}
