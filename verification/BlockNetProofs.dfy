// The block device of temu/block_net.c refines a flat array of sectors, with every
// request answered exactly once.

module BlockNetProofs {
  import opened Arith
  import opened BlockNet

  // ----- the cached block list -----

  ghost predicate Unique(bs: seq<Block>) {
    forall i, j :: 0 <= i < j < |bs| ==> bs[i].num != bs[j].num
  }

  predicate Has(bs: seq<Block>, num: int, loaded: bool) {
    exists i :: 0 <= i < |bs| && bs[i].num == num && bs[i].loaded == loaded
  }

  /** `cs` is a part of `bs` that keeps every loading block. */
  ghost predicate Shrinks(bs: seq<Block>, cs: seq<Block>) {
    && |cs| <= |bs|
    && (forall b :: b in cs ==> b in bs)
    && (forall b :: b in bs && !b.loaded ==> b in cs)
  }

  lemma RemoveLoaded(bs: seq<Block>, i: int)
    requires 0 <= i < |bs| && bs[i].loaded && Unique(bs)
    ensures Unique(RemoveAt(bs, i)) && Shrinks(bs, RemoveAt(bs, i))
  {
    var cs := RemoveAt(bs, i);
    forall b | b in bs && !b.loaded ensures b in cs {
      var j :| 0 <= j < |bs| && bs[j] == b;
      assert j < i ==> cs[j] == b;
      assert j > i ==> cs[j - 1] == b;
    }
  }

  /** Eviction drops loaded blocks only, and stops early only when there is room. */
  lemma {:induction false} EvictionSpares(bs: seq<Block>, i: int, max: int)
    requires -1 <= i < |bs| && Unique(bs)
    requires forall j :: i < j < |bs| ==> !bs[j].loaded
    ensures var cs := EvictFrom(bs, i, max);
            Unique(cs) && Shrinks(bs, cs) && (|cs| < max || forall b :: b in cs ==> !b.loaded)
    decreases i + 1
  {
    if i >= 0 && |bs| >= max {
      if bs[i].loaded {
        RemoveLoaded(bs, i);
        EvictionSpares(RemoveAt(bs, i), i - 1, max);
      } else {
        EvictionSpares(bs, i - 1, max);
      }
    }
  }

  lemma {:induction false} EvictionOnly(bs: seq<Block>, i: int, max: int)
    requires -1 <= i < |bs|
    ensures var cs := EvictFrom(bs, i, max);
            && (|bs| < max ==> cs == bs) && (forall b :: b in cs ==> b in bs)
            && (cs != bs ==> |cs| >= max - 1)
    decreases i + 1
  {
    if i >= 0 && |bs| >= max {
      if bs[i].loaded { EvictionOnly(RemoveAt(bs, i), i - 1, max); } else { EvictionOnly(bs, i - 1, max); }
    }
  }

  /** The blocks at the end of the list, the least recently touched, go first: when a block goes,
      so does every loaded block behind it. No more go than make room for one. */
  lemma {:induction false} EvictsTail(bs: seq<Block>, i: int, max: int, a: int, b: int)
    requires Unique(bs) && 0 <= a < b <= i < |bs| && bs[b].loaded && bs[a] !in EvictFrom(bs, i, max)
    ensures bs[b] !in EvictFrom(bs, i, max)
    ensures |EvictFrom(bs, i, max)| >= max - 1
    decreases i
  {
    assert bs[a] in bs;
    EvictionOnly(bs, i, max);
    if |bs| >= max {
      if bs[i].loaded {
        var cs := RemoveAt(bs, i);
        RemoveLoaded(bs, i);
        assert cs[a] == bs[a];
        if b == i {
          EvictionOnly(cs, i - 1, max);
          assert forall c :: c in cs ==> c.num != bs[i].num;
        } else {
          assert cs[b] == bs[b];
          EvictsTail(cs, i - 1, max, a, b);
        }
      } else {
        EvictsTail(bs, i - 1, max, a, b);
      }
    }
  }

  /** bf_add_block: loading blocks survive, numbers stay unique, and the cache ends within
      its limit or holds nothing but loading blocks. */
  lemma AddBlockKeeps(bs: seq<Block>, num: int, max: int)
    requires Unique(bs) && forall b :: b in bs ==> b.num != num
    ensures var cs := AddBlock(bs, num, max);
            && Unique(cs) && cs[0] == Block(num, false, []) && Shrinks(bs, cs[1..])
            && (|cs| <= max || forall b :: b in cs ==> !b.loaded)
  {
    EvictionSpares(bs, |bs| - 1, max);
    var es := EvictFrom(bs, |bs| - 1, max);
    var cs := AddBlock(bs, num, max);
    assert cs[1..] == es;
    assert forall j :: 1 <= j < |cs| ==> cs[j] == es[j - 1] && cs[j] in es;
  }

  lemma FrontKeeps(bs: seq<Block>, i: int)
    requires 0 <= i < |bs| && Unique(bs)
    ensures Unique(MoveToFront(bs, i)) && MoveToFront(bs, i)[0] == bs[i]
    ensures forall b :: b in MoveToFront(bs, i) <==> b in bs
  {
    var cs := MoveToFront(bs, i);
    forall b | b in bs ensures b in cs {
      var j :| 0 <= j < |bs| && bs[j] == b;
      assert j < i ==> cs[j + 1] == b;
      assert j > i ==> cs[j] == b;
    }
  }

  // ----- the cache holds the origin image -----

  /** The image on the server, one sequence of sectors per block file. */
  type Image = seq<seq<Sector>>

  ghost predicate ImageOf(origin: Image, d: Dev) {
    && d.nbSectors == d.blockSize * |origin|
    && forall n :: 0 <= n < |origin| ==> |origin[n]| == d.blockSize
  }

  ghost predicate CacheInv(d: Dev, origin: Image) {
    && Geometry(d) && ImageOf(origin, d)
    && (forall k :: k in d.clusters ==> |d.clusters[k]| == 8)
    && Unique(d.blocks)
    && (forall b :: b in d.blocks ==> 0 <= b.num < |origin| && (b.loaded ==> b.data == origin[b.num]))
    && (forall n :: d.downloads[n] == if Has(d.blocks, n, false) then 1 else 0)
  }

  /** A loading block under cur_block_num always has a request behind it. */
  ghost predicate WaitInv(d: Dev, waiting: bool) {
    && Geometry(d)
    && (waiting <==> Has(d.blocks, d.cur, false))
    && (waiting ==> d.index < d.count && d.cur == d.sectorNum / d.blockSize && Cluster(d) !in d.clusters)
  }

  lemma CacheIsSized(d: Dev, origin: Image)
    requires CacheInv(d, origin)
    ensures Sized(d)
  {
  }

  lemma HasIffIn(bs: seq<Block>, num: int, l: bool)
    ensures Has(bs, num, l) <==> exists b :: b in bs && b.num == num && b.loaded == l
  {
    if b :| b in bs && b.num == num && b.loaded == l {
      var i :| 0 <= i < |bs| && bs[i] == b;
    }
  }

  lemma SameLoading(bs: seq<Block>, cs: seq<Block>)
    requires forall b: Block :: !b.loaded ==> (b in bs <==> b in cs)
    ensures forall n :: Has(bs, n, false) <==> Has(cs, n, false)
  {
    forall n ensures Has(bs, n, false) <==> Has(cs, n, false) {
      HasIffIn(bs, n, false);
      HasIffIn(cs, n, false);
    }
  }

  lemma TouchKeeps(d: Dev, origin: Image, num: int, i: int)
    requires CacheInv(d, origin) && 0 <= i < |d.blocks|
    ensures CacheInv(Touch(d, num, i), origin)
  {
    FrontKeeps(d.blocks, i);
    SameLoading(d.blocks, MoveToFront(d.blocks, i));
  }

  lemma StartLoadKeeps(d: Dev, origin: Image, num: int)
    requires CacheInv(d, origin) && 0 <= num < |origin| && IndexOf(d.blocks, num) < 0
    ensures CacheInv(StartLoad(d, num), origin) && Has(StartLoad(d, num).blocks, num, false)
    ensures forall n :: n != num ==> (Has(StartLoad(d, num).blocks, n, false) <==> Has(d.blocks, n, false))
  {
    var cs := AddBlock(d.blocks, num, d.maxBlocks);
    AddBlockKeeps(d.blocks, num, d.maxBlocks);
    assert forall b :: b in cs <==> b == cs[0] || b in cs[1..];
    forall n ensures Has(cs, n, false) <==> n == num || Has(d.blocks, n, false) {
      HasIffIn(cs, n, false);
      HasIffIn(d.blocks, n, false);
    }
  }

  // ----- what the disk holds -----

  /** The sector a client should see: the written cluster, else the image. */
  ghost function FlatAt(d: Dev, origin: Image, x: int): Sector
    requires Geometry(d) && ImageOf(origin, d) && 0 <= x < d.nbSectors
    requires forall k :: k in d.clusters ==> |d.clusters[k]| == 8
  {
    BlockInRange(d, origin, x);
    if x / 8 in d.clusters then d.clusters[x / 8][x % 8] else origin[x / d.blockSize][x % d.blockSize]
  }

  lemma BlockInRange(d: Dev, origin: Image, x: int)
    requires d.blockSize > 0 && ImageOf(origin, d) && 0 <= x < d.nbSectors
    ensures 0 <= x / d.blockSize < |origin|
  {
    var q := x / d.blockSize - |origin|;
    OneMore(q, d.blockSize);
    assert q * d.blockSize == x / d.blockSize * d.blockSize - d.nbSectors;
  }

  ghost function Flat(d: Dev, origin: Image): (f: seq<Sector>)
    requires CacheInv(d, origin) && d.nbSectors >= 0
    ensures |f| == d.nbSectors
  {
    seq(d.nbSectors, x requires 0 <= x < d.nbSectors => FlatAt(d, origin, x))
  }

  /** Sector x of a read that started at s is served from a block although its cluster has
      been written: an earlier sector of the read lies in an unwritten cluster of the same
      block, and the copy out of that block ran past the end of its cluster. */
  ghost predicate Stale(d: Dev, s: int, x: int)
    requires d.blockSize > 0
  {
    x / 8 in d.clusters &&
    exists y :: s <= y < x && y / d.blockSize == x / d.blockSize && y / 8 !in d.clusters
  }

  /** What a read that started at s delivers for sector x. */
  ghost function Served(d: Dev, origin: Image, s: int, x: int): Sector
    requires Geometry(d) && ImageOf(origin, d) && 0 <= x < d.nbSectors
    requires forall k :: k in d.clusters ==> |d.clusters[k]| == 8
  {
    BlockInRange(d, origin, x);
    if Stale(d, s, x) then origin[x / d.blockSize][x % d.blockSize] else FlatAt(d, origin, x)
  }

  // ----- one request, started at sector s on a disk with contents `disk` -----

  /** A write has stored exactly its first sectors. */
  ghost predicate WriteProgress(d: Dev, origin: Image, s: int, disk: seq<Sector>)
    requires CacheInv(d, origin)
  {
    && 0 <= s && s + d.index == d.sectorNum && |disk| == d.nbSectors
    && forall x :: 0 <= x < d.nbSectors ==>
         FlatAt(d, origin, x) == if s <= x < d.sectorNum then d.buf[x - s] else disk[x]
  }

  /** A read has delivered its first sectors and stands at the start of a new copy. */
  ghost predicate ReadProgress(d: Dev, origin: Image, s: int)
    requires CacheInv(d, origin)
  {
    && 0 <= s && s + d.index == d.sectorNum
    && (forall x :: s <= x < d.sectorNum ==> d.buf[x - s] == Served(d, origin, s, x))
    && (d.index < d.count ==>
          forall y :: s <= y < d.sectorNum && y / d.blockSize == d.sectorNum / d.blockSize ==> y / 8 in d.clusters)
  }

  /** Cells of one row: x shares the cell (or row) of p exactly inside its bounds. */
  lemma SameCell(p: int, x: int, n: int)
    requires n > 0
    ensures x / n == p / n <==> p - p % n <= x < p - p % n + n
    ensures x / n == p / n ==> x % n - p % n == x - p
  {
    var q := p / n;
    var r := x - q * n;
    assert p == q * n + p % n;
    assert x == x / n * n + x % n;
    if 0 <= r < n {
      DivModUnique(x, n, q, r);
    }
  }

  /** Sectors of one cluster are sectors of one block. */
  lemma SameClusterSameBlock(d: Dev, x: int, y: int)
    requires Geometry(d) && x / 8 == y / 8
    ensures x / d.blockSize == y / d.blockSize
  {
    CellInRow(x, d.blockSize);
    CellInRow(y, d.blockSize);
  }

  lemma SpliceAt<T>(s: seq<T>, i: int, t: seq<T>, k: int)
    requires 0 <= i && i + |t| <= |s| && 0 <= k < |s|
    ensures Splice(s, i, t)[k] == if i <= k < i + |t| then t[k - i] else s[k]
  {
  }

  lemma ClusterStepKeepsCache(d: Dev, origin: Image)
    requires CacheInv(d, origin) && d.index < d.count && Cluster(d) in d.clusters
    ensures CacheInv(ClusterStep(d), origin)
  {
  }

  /** One sector of the disk after a copy into an allocated cluster. */
  lemma ClusterWriteAt(d: Dev, origin: Image, x: int)
    requires CacheInv(d, origin) && d.isWrite && d.index < d.count && Cluster(d) in d.clusters && 0 <= x < d.nbSectors
    requires CacheInv(ClusterStep(d), origin) && ClusterStep(d).nbSectors == d.nbSectors
    ensures var r := ClusterStep(d);
            FlatAt(r, origin, x) ==
              if d.sectorNum <= x < r.sectorNum then d.buf[d.index + (x - d.sectorNum)] else FlatAt(d, origin, x)
  {
    var off := d.sectorNum % 8;
    var n := Min(d.count - d.index, 8 - off);
    SameCell(d.sectorNum, x, 8);
    if x / 8 == Cluster(d) {
      var data, part := d.clusters[Cluster(d)], d.buf[d.index..d.index + n];
      SpliceAt(data, off, part, x % 8);
      assert ClusterStep(d).clusters[Cluster(d)] == Splice(data, off, part);
    }
  }

  lemma ClusterWriteProgress(d: Dev, origin: Image, s: int, disk: seq<Sector>)
    requires CacheInv(d, origin) && WriteProgress(d, origin, s, disk) && d.isWrite
    requires d.index < d.count && Cluster(d) in d.clusters
    ensures CacheInv(ClusterStep(d), origin) && WriteProgress(ClusterStep(d), origin, s, disk)
  {
    ClusterStepKeepsCache(d, origin);
    var r := ClusterStep(d);
    forall x | 0 <= x < d.nbSectors
      ensures FlatAt(r, origin, x) == if s <= x < r.sectorNum then r.buf[x - s] else disk[x]
    {
      ClusterWriteAt(d, origin, x);
    }
  }

  lemma AllocateKeeps(d: Dev, origin: Image, i: int)
    requires CacheInv(d, origin) && 0 <= i < |d.blocks| && d.blocks[i].loaded
    requires d.index < d.count && d.blocks[i].num == d.sectorNum / d.blockSize && Cluster(d) !in d.clusters
    ensures var r := AllocateStep(d, d.blocks[i].data);
            CacheInv(r, origin) && forall x :: 0 <= x < d.nbSectors ==> FlatAt(r, origin, x) == FlatAt(d, origin, x)
  {
    var r := AllocateStep(d, d.blocks[i].data);
    assert d.blocks[i] in d.blocks;
    ClusterInBlock(d);
    var co := Cluster(d) * 8 % d.blockSize;
    forall x | 0 <= x < d.nbSectors ensures FlatAt(r, origin, x) == FlatAt(d, origin, x) {
      if x / 8 == Cluster(d) {
        SameCell(d.sectorNum, x, 8);
        SameClusterSameBlock(d, x, d.sectorNum);
        SameCell(d.sectorNum, x, d.blockSize);
        assert x % d.blockSize == co + x % 8;
        assert 0 <= x % 8 < 8;
        assert r.clusters[Cluster(d)][x % 8] == d.blocks[i].data[co + x % 8];
        assert d.blocks[i].data == origin[x / d.blockSize];
        assert FlatAt(d, origin, x) == origin[x / d.blockSize][x % d.blockSize];
        assert FlatAt(r, origin, x) == r.clusters[Cluster(d)][x % 8];
      }
    }
  }

  lemma AllocateWriteProgress(d: Dev, origin: Image, s: int, disk: seq<Sector>, i: int)
    requires CacheInv(d, origin) && WriteProgress(d, origin, s, disk) && d.isWrite
    requires 0 <= i < |d.blocks| && d.blocks[i].loaded
    requires d.index < d.count && d.blocks[i].num == d.sectorNum / d.blockSize && Cluster(d) !in d.clusters
    ensures var r := AllocateStep(d, d.blocks[i].data);
            CacheInv(r, origin) && WriteProgress(r, origin, s, disk)
  {
    AllocateKeeps(d, origin, i);
  }

  /** A copy inside an allocated cluster delivers what a read sees there. */
  lemma ClusterReadData(d: Dev, origin: Image, s: int, x: int)
    requires CacheInv(d, origin) && ReadProgress(d, origin, s)
    requires d.index < d.count && Cluster(d) in d.clusters
    requires d.sectorNum <= x < d.nbSectors && x - d.sectorNum < 8 - d.sectorNum % 8
    ensures x / 8 == Cluster(d) && x % 8 == d.sectorNum % 8 + (x - d.sectorNum)
    ensures Served(d, origin, s, x) == d.clusters[Cluster(d)][x % 8]
  {
    SameCell(d.sectorNum, x, 8);
    SameClusterSameBlock(d, x, d.sectorNum);
    forall y | s <= y < x && y / d.blockSize == x / d.blockSize ensures y / 8 in d.clusters {
      if y >= d.sectorNum { SameCell(d.sectorNum, y, 8); }
    }
  }

  lemma ClusterReadBoundary(d: Dev, origin: Image, s: int, p: int, y: int)
    requires CacheInv(d, origin) && ReadProgress(d, origin, s)
    requires d.index < d.count && Cluster(d) in d.clusters
    requires d.sectorNum <= p && p - d.sectorNum <= 8 - d.sectorNum % 8
    requires s <= y < p && y / d.blockSize == p / d.blockSize
    ensures y / 8 in d.clusters
  {
    if y >= d.sectorNum {
      SameCell(d.sectorNum, y, 8);
    } else {
      DivMono(y, d.sectorNum, d.blockSize);
      DivMono(d.sectorNum, p, d.blockSize);
    }
  }

  lemma ClusterReadProgress(d: Dev, origin: Image, s: int)
    requires CacheInv(d, origin) && ReadProgress(d, origin, s) && !d.isWrite
    requires d.index < d.count && Cluster(d) in d.clusters
    ensures CacheInv(ClusterStep(d), origin) && ReadProgress(ClusterStep(d), origin, s)
  {
    ClusterStepKeepsCache(d, origin);
    var r := ClusterStep(d);
    var off := d.sectorNum % 8;
    var n := Min(d.count - d.index, 8 - off);
    forall x | s <= x < r.sectorNum ensures r.buf[x - s] == Served(r, origin, s, x) {
      SpliceAt(d.buf, d.index, d.clusters[Cluster(d)][off..off + n], x - s);
      if x >= d.sectorNum { ClusterReadData(d, origin, s, x); }
      ServedSame(d, r, origin, s, x);
    }
    forall y | s <= y < r.sectorNum && y / d.blockSize == r.sectorNum / d.blockSize ensures y / 8 in d.clusters {
      ClusterReadBoundary(d, origin, s, r.sectorNum, y);
    }
  }

  /** What a read sees depends on the clusters only. */
  lemma ServedSame(d: Dev, r: Dev, origin: Image, s: int, x: int)
    requires CacheInv(d, origin) && CacheInv(r, origin) && 0 <= x < d.nbSectors
    requires r.clusters == d.clusters && r.blockSize == d.blockSize && r.nbSectors == d.nbSectors
    ensures Served(d, origin, s, x) == Served(r, origin, s, x)
  {
  }

  /** A copy out of a block delivers the image, which is what a read sees there. */
  lemma BlockReadData(d: Dev, origin: Image, s: int, x: int)
    requires CacheInv(d, origin) && 0 <= s <= d.sectorNum
    requires d.index < d.count && Cluster(d) !in d.clusters
    requires d.sectorNum <= x < d.nbSectors && x - d.sectorNum < d.blockSize - d.sectorNum % d.blockSize
    ensures 0 <= d.sectorNum / d.blockSize < |origin| && 0 <= d.sectorNum % d.blockSize + (x - d.sectorNum) < d.blockSize
    ensures Served(d, origin, s, x) == origin[d.sectorNum / d.blockSize][d.sectorNum % d.blockSize + (x - d.sectorNum)]
  {
    SameCell(d.sectorNum, x, d.blockSize);
    BlockInRange(d, origin, x);
    if x > d.sectorNum && x / 8 in d.clusters {
      assert Stale(d, s, x);
    }
  }

  lemma BlockReadProgress(d: Dev, origin: Image, s: int, i: int)
    requires CacheInv(d, origin) && ReadProgress(d, origin, s) && !d.isWrite
    requires 0 <= i < |d.blocks| && d.blocks[i].loaded
    requires d.index < d.count && d.blocks[i].num == d.sectorNum / d.blockSize && Cluster(d) !in d.clusters
    ensures var r := BlockReadStep(d, d.blocks[i].data);
            CacheInv(r, origin) && ReadProgress(r, origin, s)
  {
    assert d.blocks[i] in d.blocks;
    var data := d.blocks[i].data;
    var r := BlockReadStep(d, data);
    var off := d.sectorNum % d.blockSize;
    var n := Min(d.count - d.index, d.blockSize - off);
    forall x | s <= x < r.sectorNum ensures r.buf[x - s] == Served(r, origin, s, x) {
      SpliceAt(d.buf, d.index, data[off..off + n], x - s);
      if x >= d.sectorNum { BlockReadData(d, origin, s, x); }
      ServedSame(d, r, origin, s, x);
    }
    if r.index < r.count {
      forall y | s <= y < r.sectorNum ensures y / d.blockSize != r.sectorNum / d.blockSize {
        BlockEnd(d.sectorNum, d.blockSize, y);
      }
    }
  }

  /** Nothing before the end of p's row lies in the next row. */
  lemma BlockEnd(p: int, n: int, y: int)
    requires n > 0 && y < p - p % n + n
    ensures y / n != (p - p % n + n) / n
  {
    var e := p - p % n + n;
    assert p == p / n * n + p % n;
    DivModUnique(e, n, p / n + 1, 0);
    SameCell(e, y, n);
  }

  // ----- a whole activation of the request loop -----

  ghost predicate Progress(d: Dev, origin: Image, s: int, disk: seq<Sector>)
    requires CacheInv(d, origin)
  {
    if d.isWrite then WriteProgress(d, origin, s, disk)
    else ReadProgress(d, origin, s) && |disk| == d.nbSectors && forall x :: 0 <= x < d.nbSectors ==> FlatAt(d, origin, x) == disk[x]
  }

  /** What the request loop leaves as it was. */
  predicate SameRequest(d: Dev, r: Dev) {
    && r.blockSize == d.blockSize && r.nbSectors == d.nbSectors && r.maxBlocks == d.maxBlocks
    && r.isWrite == d.isWrite && r.count == d.count && |r.buf| == |d.buf| && d.index <= r.index
    && (d.isWrite ==> r.buf == d.buf)
    && (forall k :: 0 <= d.count <= k < |d.buf| ==> r.buf[k] == d.buf[k])
  }

  /** `r` is what one activation of the loop may leave: the cache correct, the request on
      course, and either all sectors moved or a download under way that will resume it. */
  ghost predicate Activated(d: Dev, r: Dev, ended: bool, origin: Image, s: int, disk: seq<Sector>) {
    && CacheInv(r, origin) && Progress(r, origin, s, disk) && SameRequest(d, r)
    && WaitInv(r, !ended) && (ended ==> r.index == r.count)
  }

  lemma ActivatedVia(d: Dev, d1: Dev, r: Dev, ended: bool, origin: Image, s: int, disk: seq<Sector>)
    requires SameRequest(d, d1) && Activated(d1, r, ended, origin, s, disk)
    ensures Activated(d, r, ended, origin, s, disk)
  {
  }

  lemma ClusterCorrect(d: Dev, origin: Image, s: int, disk: seq<Sector>)
    requires CacheInv(d, origin) && Sized(d) && Progress(d, origin, s, disk)
    requires d.index < d.count && Cluster(d) in d.clusters
    ensures var r := ClusterStep(d);
            CacheInv(r, origin) && Progress(r, origin, s, disk) && SameRequest(d, r) && r.blocks == d.blocks && r.cur == d.cur
  {
    if d.isWrite {
      ClusterWriteProgress(d, origin, s, disk);
    } else {
      ClusterReadProgress(d, origin, s);
      forall x | 0 <= x < d.nbSectors ensures FlatAt(ClusterStep(d), origin, x) == FlatAt(d, origin, x) {}
    }
  }

  lemma {:induction false} RwCorrect(d: Dev, origin: Image, s: int, disk: seq<Sector>)
    requires CacheInv(d, origin) && Sized(d) && Progress(d, origin, s, disk)
    requires !Has(d.blocks, d.cur, false)
    ensures var (r, ended) := Rw(d); Activated(d, r, ended, origin, s, disk)
    decreases d.count - d.index, if Cluster(d) in d.clusters then 0 else 1
  {
    if d.index == d.count {
      assert Activated(d, d, true, origin, s, disk);
    } else if Cluster(d) in d.clusters {
      var d1 := ClusterStep(d);
      ClusterCorrect(d, origin, s, disk);
      RwCorrect(d1, origin, s, disk);
      ActivatedVia(d, d1, Rw(d1).0, Rw(d1).1, origin, s, disk);
    } else {
      RwBlockCorrect(d, origin, s, disk);
    }
  }

  /** The list, cur_block_num and the downloads do not matter to the progress of a request. */
  lemma ProgressSame(d: Dev, r: Dev, origin: Image, s: int, disk: seq<Sector>)
    requires CacheInv(d, origin) && CacheInv(r, origin) && Progress(d, origin, s, disk)
    requires r == d.(blocks := r.blocks, cur := r.cur, downloads := r.downloads, waiting := r.waiting)
    ensures Progress(r, origin, s, disk)
  {
    forall x | 0 <= x < d.nbSectors ensures FlatAt(d, origin, x) == FlatAt(r, origin, x) {}
    if !d.isWrite {
      forall x | s <= x < d.sectorNum ensures Served(d, origin, s, x) == Served(r, origin, s, x) {
        ServedSame(d, r, origin, s, x);
      }
    }
  }

  lemma HeadDecides(bs: seq<Block>)
    requires |bs| > 0 && Unique(bs)
    ensures Has(bs, bs[0].num, false) <==> !bs[0].loaded
  {
  }

  /** A block the request finds becomes the current one, at the front. */
  lemma TouchCorrect(d: Dev, origin: Image, s: int, disk: seq<Sector>, i: int)
    requires CacheInv(d, origin) && Progress(d, origin, s, disk) && 0 <= i < |d.blocks|
    ensures var r := Touch(d, d.blocks[i].num, i);
            && CacheInv(r, origin) && Progress(r, origin, s, disk)
            && r.blocks[0] == d.blocks[i]
            && (Has(r.blocks, r.cur, false) <==> !d.blocks[i].loaded)
  {
    TouchKeeps(d, origin, d.blocks[i].num, i);
    var r := Touch(d, d.blocks[i].num, i);
    ProgressSame(d, r, origin, s, disk);
    HeadDecides(r.blocks);
  }

  lemma NoLoadingAtMinusOne(d: Dev, origin: Image)
    requires CacheInv(d, origin)
    ensures !Has(d.blocks, -1, false)
  {
    assert forall b :: b in d.blocks ==> b.num != -1;
    assert forall j :: 0 <= j < |d.blocks| ==> d.blocks[j] in d.blocks;
  }

  /** A loaded block lets the request go on. */
  lemma LoadedStep(d: Dev, origin: Image, s: int, disk: seq<Sector>)
    requires CacheInv(d, origin) && Progress(d, origin, s, disk) && |d.blocks| > 0 && d.blocks[0].loaded
    requires d.index < d.count && Cluster(d) !in d.clusters && d.blocks[0].num == d.sectorNum / d.blockSize == d.cur
    ensures Sized(d) && |d.blocks[0].data| == d.blockSize
    ensures var r := if d.isWrite then AllocateStep(d, d.blocks[0].data) else BlockReadStep(d, d.blocks[0].data);
            CacheInv(r, origin) && Progress(r, origin, s, disk) && SameRequest(d, r) && !Has(r.blocks, r.cur, false)
  {
    CacheIsSized(d, origin);
    assert d.blocks[0] in d.blocks;
    if d.isWrite {
      AllocateWriteProgress(d, origin, s, disk, 0);
      HeadDecides(d.blocks);
    } else {
      BlockReadProgress(d, origin, s, 0);
      var r := BlockReadStep(d, d.blocks[0].data);
      NoLoadingAtMinusOne(r, origin);
      forall x | 0 <= x < d.nbSectors ensures FlatAt(d, origin, x) == FlatAt(r, origin, x) {}
    }
  }

  lemma MissCorrect(d: Dev, origin: Image, s: int, disk: seq<Sector>)
    requires CacheInv(d, origin) && Progress(d, origin, s, disk) && d.index < d.count && Cluster(d) !in d.clusters
    requires IndexOf(d.blocks, d.sectorNum / d.blockSize) < 0
    ensures Activated(d, StartLoad(d, d.sectorNum / d.blockSize), false, origin, s, disk)
  {
    var num := d.sectorNum / d.blockSize;
    BlockInRange(d, origin, d.sectorNum);
    StartLoadKeeps(d, origin, num);
    ProgressSame(d, StartLoad(d, num), origin, s, disk);
  }

  lemma LoadingCorrect(d: Dev, origin: Image, s: int, disk: seq<Sector>, i: int)
    requires CacheInv(d, origin) && Progress(d, origin, s, disk) && d.index < d.count && Cluster(d) !in d.clusters
    requires 0 <= i < |d.blocks| && !d.blocks[i].loaded && d.blocks[i].num == d.sectorNum / d.blockSize
    ensures Sized(d) && Activated(d, Touch(d, d.blocks[i].num, i), false, origin, s, disk)
  {
    CacheIsSized(d, origin);
    TouchCorrect(d, origin, s, disk, i);
  }

  lemma ServedCorrect(d: Dev, origin: Image, s: int, disk: seq<Sector>, i: int)
    requires CacheInv(d, origin) && Progress(d, origin, s, disk) && d.index < d.count && Cluster(d) !in d.clusters
    requires 0 <= i < |d.blocks| && d.blocks[i].loaded && d.blocks[i].num == d.sectorNum / d.blockSize
    ensures Sized(d)
    ensures var r := ServeBlock(d, i);
            CacheInv(r, origin) && Progress(r, origin, s, disk) && SameRequest(d, r) && !Has(r.blocks, r.cur, false)
  {
    CacheIsSized(d, origin);
    TouchCorrect(d, origin, s, disk, i);
    LoadedStep(Touch(d, d.blocks[i].num, i), origin, s, disk);
  }

  lemma {:induction false} RwBlockCorrect(d: Dev, origin: Image, s: int, disk: seq<Sector>)
    requires CacheInv(d, origin) && Sized(d) && Progress(d, origin, s, disk)
    requires d.index < d.count && Cluster(d) !in d.clusters
    ensures var (r, ended) := Rw(d); Activated(d, r, ended, origin, s, disk)
    decreases d.count - d.index, 1, 0
  {
    var i := IndexOf(d.blocks, d.sectorNum / d.blockSize);
    if i < 0 {
      MissCorrect(d, origin, s, disk);
    } else if !d.blocks[i].loaded {
      LoadingCorrect(d, origin, s, disk, i);
    } else {
      var d2 := ServeBlock(d, i);
      ServedCorrect(d, origin, s, disk, i);
      RwCorrect(d2, origin, s, disk);
      ActivatedVia(d, d2, Rw(d2).0, Rw(d2).1, origin, s, disk);
    }
  }

  // ----- events -----

  /** The client's view: no request, or one that has been told to wait. */
  datatype Pending = Idle | Busy(isWrite: bool, s: int, buf: seq<Sector>, n: int)

  ghost predicate Legal(d: Dev, origin: Image, e: Event) {
    match e
    case Submit(_, s, buf, n) => !d.waiting && 0 <= s && 0 <= n <= |buf| && s + n <= d.nbSectors
    case Arrive(num) => d.downloads[num] > 0
    // only bf_init_onload prefetches, before any request has set cur_block_num
    case Prefetch(nums) => d.cur == -1 && !d.waiting && forall k :: 0 <= k < |nums| ==> 0 <= nums[k] < |origin|
  }

  /** The disk after a request. */
  function Apply(disk: seq<Sector>, p: Pending): seq<Sector> {
    if p.Busy? && p.isWrite && 0 <= p.s && 0 <= p.n <= |p.buf| && p.s + p.n <= |disk|
    then BlockNet.Splice(disk, p.s, p.buf[..p.n]) else disk
  }

  /** The device stands for the flat array `disk`, with `p` under way. */
  ghost predicate Matches(d: Dev, origin: Image, disk: seq<Sector>, p: Pending) {
    && CacheInv(d, origin) && WaitInv(d, d.waiting) && |disk| == d.nbSectors
    && match p
       case Idle => !d.waiting && forall x :: 0 <= x < d.nbSectors ==> FlatAt(d, origin, x) == disk[x]
       case Busy(w, s, buf, n) =>
         && d.waiting && d.isWrite == w && d.count == n && |d.buf| == |buf| && 0 <= n <= |buf|
         && 0 <= s && s + n <= d.nbSectors && s + d.index == d.sectorNum
         && (w ==> d.buf == buf) && Progress(d, origin, s, disk)
  }

  /** What a completed read has put into the client's buffer. */
  ghost predicate Delivered(d: Dev, origin: Image, s: int, n: int) {
    && CacheInv(d, origin) && 0 <= s && s + n <= d.nbSectors && n <= |d.buf|
    && forall x :: s <= x < s + n ==> d.buf[x - s] == Served(d, origin, s, x)
  }

  ghost predicate ValidPending(p: Pending, size: int) {
    p.Busy? ==> 0 <= p.s && 0 <= p.n <= |p.buf| && p.s + p.n <= size
  }

  /** The device after the end of request p. */
  ghost predicate Finished(r: Dev, origin: Image, disk: seq<Sector>, p: Pending) {
    && p.Busy? && ValidPending(p, |disk|)
    && Matches(r, origin, Apply(disk, p), Idle)
    && (!p.isWrite ==> Delivered(r, origin, p.s, p.n))
  }

  /** The end of a request. */
  lemma Completed(d: Dev, r: Dev, origin: Image, disk: seq<Sector>, p: Pending)
    requires p.Busy? && 0 <= p.s && 0 <= p.n <= |p.buf| && p.s + p.n <= |disk| == r.nbSectors
    requires Activated(d, r, true, origin, p.s, disk)
    requires d.isWrite == p.isWrite && d.count == p.n && |d.buf| == |p.buf| && (p.isWrite ==> d.buf == p.buf)
    ensures Finished(r.(waiting := false), origin, disk, p)
  {
    var r' := r.(waiting := false);
    forall x | 0 <= x < r.nbSectors ensures FlatAt(r', origin, x) == Apply(disk, p)[x] {
      assert FlatAt(r', origin, x) == FlatAt(r, origin, x);
      if p.isWrite { SpliceAt(disk, p.s, p.buf[..p.n], x); }
    }
    if !p.isWrite {
      forall x | p.s <= x < p.s + p.n ensures r'.buf[x - p.s] == Served(r', origin, p.s, x) {
        ServedSame(r, r', origin, p.s, x);
      }
    }
  }

  /** A request that has to wait, or is resumed and has to wait again. */
  lemma StillWaiting(d: Dev, r: Dev, origin: Image, disk: seq<Sector>, p: Pending)
    requires p.Busy? && 0 <= p.s && 0 <= p.n <= |p.buf| && p.s + p.n <= |disk| == r.nbSectors
    requires Activated(d, r, false, origin, p.s, disk)
    requires d.isWrite == p.isWrite && d.count == p.n && |d.buf| == |p.buf| && (p.isWrite ==> d.buf == p.buf)
    ensures Matches(r.(waiting := true), origin, disk, p)
  {
    ProgressSame(r, r.(waiting := true), origin, p.s, disk);
  }

  function RequestOf(e: Event): Pending
    requires e.Submit?
  {
    Busy(e.isWrite, e.sectorNum, e.buf, e.n)
  }

  /** A request completes at once (0) or announces a callback (1). */
  lemma SubmitCorrect(d: Dev, origin: Image, disk: seq<Sector>, e: Event)
    requires e.Submit? && Matches(d, origin, disk, Idle) && Legal(d, origin, e)
    ensures Sized(Prepare(d, e))
    ensures var (r, reply) := SubmitStep(d, e);
            if reply == Ret0 then Finished(r, origin, disk, RequestOf(e))
            else reply == Ret1 && Matches(r, origin, disk, RequestOf(e))
  {
    var d0 := Prepare(d, e);
    CacheIsSized(d0, origin);
    forall x | 0 <= x < d.nbSectors ensures FlatAt(d0, origin, x) == FlatAt(d, origin, x) {}
    RwCorrect(d0, origin, e.sectorNum, disk);
    var (r, ended) := Rw(d0);
    if ended { Completed(d0, r, origin, disk, RequestOf(e)); } else { StillWaiting(d0, r, origin, disk, RequestOf(e)); }
  }

  lemma LoadedKeeps(d: Dev, origin: Image, num: int)
    requires CacheInv(d, origin) && d.downloads[num] > 0
    ensures IndexOf(d.blocks, num) >= 0 && 0 <= num < |origin|
    ensures var r := Loaded(d, num, origin[num]);
            CacheInv(r, origin) && forall n :: Has(r.blocks, n, false) <==> n != num && Has(d.blocks, n, false)
  {
    var i := IndexOf(d.blocks, num);
    assert Has(d.blocks, num, false);
    assert d.blocks[i] in d.blocks && !d.blocks[i].loaded;
    var r := Loaded(d, num, origin[num]);
    forall n ensures Has(r.blocks, n, false) <==> n != num && Has(d.blocks, n, false) {
      if n != num && Has(d.blocks, n, false) {
        var j :| 0 <= j < |d.blocks| && d.blocks[j].num == n && !d.blocks[j].loaded;
        assert r.blocks[j] == d.blocks[j];
      }
    }
    forall b | b in r.blocks ensures 0 <= b.num < |origin| && (b.loaded ==> b.data == origin[b.num]) {
      var j :| 0 <= j < |r.blocks| && r.blocks[j] == b;
      assert d.blocks[j] in d.blocks;
    }
  }

  /** A download calls back exactly when it ends the waiting request; other downloads, and
      downloads after which the request has to wait again, are silent. */
  lemma ArriveCorrect(d: Dev, origin: Image, disk: seq<Sector>, p: Pending, num: int)
    requires Matches(d, origin, disk, p) && Legal(d, origin, Arrive(num))
    ensures IndexOf(d.blocks, num) >= 0 && 0 <= num < |origin| && Sized(d) && |origin[num]| == d.blockSize
    ensures var (r, reply) := ArriveStep(d, num, origin[num]);
            if reply == Callback then Finished(r, origin, disk, p)
            else reply == Quiet && Matches(r, origin, disk, p)
  {
    CacheIsSized(d, origin);
    LoadedKeeps(d, origin, num);
    assert Has(d.blocks, num, false);
    var d1 := Loaded(d, num, origin[num]);
    if num == d.cur {
      ProgressSame(d, d1, origin, p.s, disk);
      CacheIsSized(d1, origin);
      RwCorrect(d1, origin, p.s, disk);
      var (r, ended) := Rw(d1);
      if ended { Completed(d1, r, origin, disk, p); } else { StillWaiting(d1, r, origin, disk, p); }
    } else if p.Busy? {
      ProgressSame(d, d1, origin, p.s, disk);
    } else {
      forall x | 0 <= x < d.nbSectors ensures FlatAt(d1, origin, x) == FlatAt(d, origin, x) {}
    }
  }
}
