// Space accounting of temu/fs_net.c: fs_blocks, directory sizes and the content cache.

module FsSpace {
  import opened Options
  import opened Sums
  import opened FsNet

  /** Blocks an inode is charged for. */
  function Cost(x: Inode): int { if x.kind == Reg || x.kind == Dir then ToBlocks(x.size) else 0 }

  function CostIn(inodes: map<int, Inode>): int -> int { (n: int) => if n in inodes then Cost(inodes[n]) else 0 }

  function SizeIn(inodes: map<int, Inode>): int -> int { (n: int) => if n in inodes then inodes[n].size else 0 }

  function InDir(d: int): Entry -> int { (e: Entry) => if e.dir == d then DirentSize(e.name) else 0 }

  predicate Cached(inodes: map<int, Inode>, n: int) {
    n in inodes && inodes[n].kind == Reg && inodes[n].state == Loaded
  }

  /** list holds the live inodes; a directory's size is that of its entries; fs_blocks is
      the sum over live files and directories. */
  ghost predicate BlocksOk(fs: Fs) {
    && Distinct(fs.list) && (forall n :: n in fs.list <==> n in fs.inodes)
    && (forall n :: n in fs.inodes ==> fs.inodes[n].size >= 0)
    && (forall d :: d in fs.inodes && fs.inodes[d].kind == Dir ==> fs.inodes[d].size == Sum(fs.entries, InDir(d)))
    && fs.blocks == Sum(fs.list, CostIn(fs.inodes))
  }

  /** inode_cache_list holds exactly the loaded inodes, inode_cache_size their sizes. */
  ghost predicate CacheOk(fs: Fs) {
    && Distinct(fs.cache) && (forall n :: n in fs.cache <==> Cached(fs.inodes, n))
    && fs.cacheSize == Sum(fs.cache, SizeIn(fs.inodes))
  }

  ghost predicate Space(fs: Fs) { BlocksOk(fs) && CacheOk(fs) }

  /** to_blocks is the least number of blocks of 4096 bytes that hold the size. */
  lemma BlocksCover(size: int)
    requires 0 <= size <= 0x1_0000_0000_0000_0000 - 4096
    ensures (ToBlocks(size) - 1) * 4096 < size <= ToBlocks(size) * 4096
  {
  }

  /** The assertions of the source: the totals are never negative. */
  lemma TotalsNonNegative(fs: Fs)
    requires Space(fs)
    ensures fs.blocks >= 0 && fs.cacheSize >= 0
  {
    forall n | n in fs.list ensures CostIn(fs.inodes)(n) >= 0 { assert fs.inodes[n].size >= 0; }
    forall n | n in fs.cache ensures SizeIn(fs.inodes)(n) >= 0 { assert fs.inodes[n].size >= 0; }
    SumBound(fs.list, CostIn(fs.inodes));
    SumBound(fs.cache, SizeIn(fs.inodes));
  }

  // ----- changes of one inode -----

  lemma BlocksAfterSet(fs: Fs, n: int, x: Inode)
    requires BlocksOk(fs) && n in fs.inodes
    ensures Sum(fs.list, CostIn(fs.inodes[n := x])) == fs.blocks - Cost(fs.inodes[n]) + Cost(x)
  {
    SumDiffer(fs.list, CostIn(fs.inodes), CostIn(fs.inodes[n := x]), n);
  }

  /** Counts, buffers and waiters do not matter. */
  lemma SetCountsKeepsSpace(fs: Fs, n: int, x: Inode)
    requires Space(fs) && n in fs.inodes
    requires var y := fs.inodes[n]; x.kind == y.kind && x.size == y.size && x.state == y.state
    ensures Space(Set(fs, n, x))
  {
    BlocksAfterSet(fs, n, x);
    SumAgree(fs.cache, SizeIn(fs.inodes), SizeIn(fs.inodes[n := x]));
  }

  lemma WithoutIs(s: seq<int>, n: int)
    requires Distinct(s)
    ensures Distinct(Without(s, n)) && forall x :: x in Without(s, n) <==> x in s && x != n
  {
    var i := Position(s, n);
    if i >= 0 { DistinctRemove(s, i); }
  }

  lemma SumWithout(s: seq<int>, n: int, w1: int -> int, w2: int -> int)
    requires Distinct(s) && n in s && forall y :: y in s && y != n ==> w1(y) == w2(y)
    ensures Sum(Without(s, n), w2) == Sum(s, w1) - w1(n)
  {
    WithoutIs(s, n);
    SumRemove(s, Position(s, n), w1);
    SumAgree(Without(s, n), w1, w2);
  }

  lemma {:induction false} EmptySum(es: seq<Entry>, d: int)
    requires forall e :: e in es ==> e.dir != d
    ensures Sum(es, InDir(d)) == 0
  {
    if |es| > 0 { EmptySum(es[1..], d); }
  }

  lemma FreeKeepsBlocks(fs: Fs, n: int)
    requires Space(fs) && n in fs.inodes && forall e :: e in fs.entries ==> e.dir != n
    ensures BlocksOk(FreeInode(fs, n))
  {
    var r := FreeInode(fs, n);
    WithoutIs(fs.list, n);
    SumWithout(fs.list, n, CostIn(fs.inodes), CostIn(r.inodes));
    EmptySum(fs.entries, n);
  }

  lemma FreeKeepsCache(fs: Fs, n: int)
    requires Space(fs) && n in fs.inodes
    ensures CacheOk(FreeInode(fs, n))
  {
    var r := FreeInode(fs, n);
    if Cached(fs.inodes, n) {
      WithoutIs(fs.cache, n);
      SumWithout(fs.cache, n, SizeIn(fs.inodes), SizeIn(r.inodes));
    } else {
      SumAgree(fs.cache, SizeIn(fs.inodes), SizeIn(r.inodes));
    }
  }

  lemma NewKeepsSpace(fs: Fs, kind: Kind)
    requires Space(fs) && fs.nextId !in fs.inodes && forall e :: e in fs.entries ==> e.dir != fs.nextId
    ensures Space(NewInode(fs, kind))
  {
    var id, r := fs.nextId, NewInode(fs, kind);
    assert forall n :: n in r.list <==> n == id || n in fs.list;
    SumPush(fs.list, id, CostIn(r.inodes));
    SumAgree(fs.list, CostIn(fs.inodes), CostIn(r.inodes));
    SumAgree(fs.cache, SizeIn(fs.inodes), SizeIn(r.inodes));
    EmptySum(fs.entries, id);
  }

  lemma DirAddKeepsSpace(fs: Fs, dir: int, name: string, target: int)
    requires Space(fs) && IsDir(fs, dir)
    ensures Space(DirAdd(fs, dir, name, target))
  {
    var r, e := DirAdd(fs, dir, name, target), Entry(dir, name, target);
    BlocksAfterSet(fs, dir, r.inodes[dir]);
    forall d ensures Sum(r.entries, InDir(d)) == Sum(fs.entries, InDir(d)) + InDir(d)(e) {
      SumPush(fs.entries, e, InDir(d));
    }
    SumAgree(fs.cache, SizeIn(fs.inodes), SizeIn(r.inodes));
  }

  lemma EntryDeleteKeepsSpace(fs: Fs, i: int)
    requires Space(fs) && 0 <= i < |fs.entries| && IsDir(fs, fs.entries[i].dir)
    ensures Space(EntryDelete(fs, i))
  {
    var r, e := EntryDelete(fs, i), fs.entries[i];
    BlocksAfterSet(fs, e.dir, r.inodes[e.dir]);
    forall d ensures Sum(r.entries, InDir(d)) == Sum(fs.entries, InDir(d)) - InDir(d)(e) {
      SumRemove(fs.entries, i, InDir(d));
    }
    SumBound(r.entries, InDir(e.dir));
    SumAgree(fs.cache, SizeIn(fs.inodes), SizeIn(r.inodes));
  }

  /** One count of n was given up; without entries left in it n goes. */
  lemma ReleaseKeepsSpace(fs: Fs, n: int, x: Inode, r: Fs)
    requires Space(fs) && n in fs.inodes
    requires x == fs.inodes[n].(refcount := x.refcount, openCount := x.openCount)
    requires r == if x.refcount <= 0 && x.openCount <= 0 then FreeInode(fs, n) else Set(fs, n, x)
    requires n !in r.inodes ==> forall e :: e in fs.entries ==> e.dir != n
    ensures Space(r)
  {
    if x.refcount <= 0 && x.openCount <= 0 {
      FreeKeepsBlocks(fs, n);
      FreeKeepsCache(fs, n);
    } else {
      SetCountsKeepsSpace(fs, n, x);
    }
  }

  lemma FilesTakeNoSpace(fs: Fs, files: seq<Option<FsFile>>)
    requires Space(fs)
    ensures Space(fs.(files := files))
  {
    SumAgree(fs.list, CostIn(fs.inodes), CostIn(fs.inodes));
  }

  lemma IncrefKeepsSpace(fs: Fs, n: int)
    requires Space(fs) && n in fs.inodes
    ensures Space(Incref(fs, n))
  {
    SetCountsKeepsSpace(fs, n, At(fs, n).(refcount := At(fs, n).refcount + 1));
  }

  lemma IncOpenKeepsSpace(fs: Fs, n: int)
    requires Space(fs) && n in fs.inodes
    ensures Space(IncOpen(fs, n))
  {
    SetCountsKeepsSpace(fs, n, At(fs, n).(openCount := At(fs, n).openCount + 1));
  }
}
