// Opening, loading, caching and resizing files keeps the invariants of temu/fs_net.c: an
// opened regular file has its content in its buffer, and space and cache stay accounted.

module FsLoads {
  import opened Options
  import opened Sums
  import opened FsNet
  import opened FsData
  import opened FsSpace
  import opened FsNames
  import opened FsContent

  // ----- the invariant -----

  /** The buffer of a regular file in each state. */
  predicate BufferOk(x: Inode) {
    && 0 <= x.size < WORD
    && match x.state
       case Unloaded => x.data == []
       case Loading => |x.data| == x.size < HALF
       case _ => InBuffer(x)
  }

  ghost predicate Buffers(fs: Fs) { forall n :: n in fs.inodes && fs.inodes[n].kind == Reg ==> BufferOk(fs.inodes[n]) }

  predicate OpenedOn(f: Option<FsFile>, n: int) { f.Some? && f.value.isOpened && f.value.inode == n }

  /** An opened regular file is Local or Loaded. */
  ghost predicate OpenedReady(fs: Fs) {
    forall f :: f in fs.files && f.Some? && f.value.isOpened && At(fs, f.value.inode).kind == Reg
      ==> Ready(At(fs, f.value.inode))
  }

  predicate Awaits(fs: Fs, n: int, h: int) {
    n in fs.inodes && fs.inodes[n].kind == Reg && fs.inodes[n].state == Loading && fs.inodes[n].waiter == Some(h)
  }

  /** Who waits for a download is a live file on that inode. */
  ghost predicate WaitersLive(fs: Fs) { forall n, h :: Awaits(fs, n, h) ==> Live(fs, h) && InodeOf(fs, h) == n }

  ghost predicate Named(fs: Fs) { NameInv(fs, multiset{}, multiset{}) }

  ghost predicate Healthy(fs: Fs) { Named(fs) && Buffers(fs) && OpenedReady(fs) && WaitersLive(fs) }

  ghost predicate Sound(fs: Fs) { Healthy(fs) && Space(fs) }

  // ----- what these operations leave alone -----

  predicate SameFile(a: Option<FsFile>, b: Option<FsFile>) {
    a.Some? == b.Some? && (a.Some? ==> a.value.inode == b.value.inode)
  }

  predicate SameRole(x: Inode, y: Inode) { x.refcount == y.refcount && x.openCount == y.openCount && x.kind == y.kind }

  ghost predicate SameNames(fs: Fs, r: Fs) {
    && r.entries == fs.entries && r.root == fs.root && r.nextId == fs.nextId
    && r.inodes.Keys == fs.inodes.Keys
    && (forall n :: n in fs.inodes ==> SameRole(fs.inodes[n], r.inodes[n]))
    && |r.files| == |fs.files| && (forall i :: 0 <= i < |fs.files| ==> SameFile(fs.files[i], r.files[i]))
  }

  lemma {:induction false} OpensAgree(a: seq<Option<FsFile>>, b: seq<Option<FsFile>>, n: int)
    requires |a| == |b| && forall i :: 0 <= i < |a| ==> SameFile(a[i], b[i])
    ensures Sum(a, OpensOn(n)) == Sum(b, OpensOn(n))
  {
    if |a| > 0 {
      assert SameFile(a[0], b[0]);
      OpensAgree(a[1..], b[1..], n);
    }
  }

  lemma SameNamesKeeps(fs: Fs, r: Fs)
    requires Named(fs) && SameNames(fs, r)
    ensures Named(r)
  {
    forall n ensures Opens(r, n) == Opens(fs, n) { OpensAgree(fs.files, r.files, n); }
    forall n | n in r.inodes
      ensures r.inodes[n].refcount == References(r, n) && r.inodes[n].openCount == Opens(r, n)
      ensures r.inodes[n].refcount > 0 || r.inodes[n].openCount > 0
    {
      assert SameRole(fs.inodes[n], r.inodes[n]);
    }
    assert Counted(r, multiset{}, multiset{});
    SameNamesClosed(fs, r);
  }

  lemma SameNamesTrans(a: Fs, b: Fs, c: Fs)
    requires SameNames(a, b) && SameNames(b, c)
    ensures SameNames(a, c)
  {
    forall n | n in a.inodes ensures SameRole(a.inodes[n], c.inodes[n]) {
      assert SameRole(a.inodes[n], b.inodes[n]) && SameRole(b.inodes[n], c.inodes[n]);
    }
    forall i | 0 <= i < |a.files| ensures SameFile(a.files[i], c.files[i]) {
      assert SameFile(a.files[i], b.files[i]) && SameFile(b.files[i], c.files[i]);
    }
  }

  lemma SameNamesClosed(fs: Fs, r: Fs)
    requires Closed(fs) && SameNames(fs, r)
    ensures Closed(r)
  {
    forall e | e in r.entries ensures IsDir(r, e.dir) && e.target in r.inodes {
      assert SameRole(fs.inodes[e.dir], r.inodes[e.dir]);
    }
    forall f | f in r.files && f.Some? ensures f.value.inode in r.inodes {
      var i :| 0 <= i < |r.files| && r.files[i] == f;
      assert SameFile(fs.files[i], f) && fs.files[i] in fs.files;
    }
    assert SameRole(fs.inodes[fs.root], r.inodes[fs.root]);
  }

  /** r differs from fs in one inode and in the totals. */
  ghost predicate OneInode(fs: Fs, r: Fs, n: int, x: Inode) {
    && n in fs.inodes && SameRole(fs.inodes[n], x)
    && r == fs.(inodes := fs.inodes[n := x], blocks := r.blocks, cache := r.cache, cacheSize := r.cacheSize)
  }

  lemma OneInodeHealthy(fs: Fs, r: Fs, n: int, x: Inode)
    requires Healthy(fs) && OneInode(fs, r, n, x)
    requires x.kind == Reg ==> BufferOk(x)
    requires Ready(x) || forall f :: f in fs.files ==> !OpenedOn(f, n)
    requires forall h :: x.state == Loading && x.waiter == Some(h) ==> Live(fs, h) && InodeOf(fs, h) == n
    ensures Healthy(r)
  {
    SameNamesKeeps(fs, r);
    assert Buffers(r);
    assert OpenedReady(r) by {
      forall f | f in r.files && f.Some? && f.value.isOpened && At(r, f.value.inode).kind == Reg
        ensures Ready(At(r, f.value.inode))
      {
        if f.value.inode == n { assert OpenedOn(f, n); }
      }
    }
    assert WaitersLive(r) by {
      forall m, h | Awaits(r, m, h) ensures Live(r, h) && InodeOf(r, h) == m {
        if m != n { assert Awaits(fs, m, h); }
      }
    }
  }

  /** A file on an inode that is not Ready is not opened. */
  lemma NotReadyNotOpened(fs: Fs, n: int)
    requires OpenedReady(fs) && n in fs.inodes && fs.inodes[n].kind == Reg && !Ready(fs.inodes[n])
    ensures forall f :: f in fs.files ==> !OpenedOn(f, n)
  {
  }

  lemma ClosedNotOpened(fs: Fs, n: int)
    requires Named(fs) && n in fs.inodes && fs.inodes[n].openCount == 0
    ensures forall f :: f in fs.files ==> !OpenedOn(f, n)
  {
    ReferencesAreNonNegative(fs, n);
  }

  // ----- space -----

  /** A file outside the cache changes its size and is charged for it. */
  lemma ResizeKeepsSpace(fs: Fs, n: int, x: Inode)
    requires Space(fs) && n in fs.inodes && fs.inodes[n].kind == Reg == x.kind
    requires fs.inodes[n].state != Loaded && x.state != Loaded && x.size >= 0
    ensures Space(Resize(fs, n, x))
  {
    BlocksAfterSet(fs, n, x);
    SumAgree(fs.cache, SizeIn(fs.inodes), SizeIn(Resize(fs, n, x).inodes));
  }

  lemma CostAgrees(s: seq<int>, i1: map<int, Inode>, i2: map<int, Inode>)
    requires forall n :: n in s && n in i1 ==> n in i2 && i1[n].kind == i2[n].kind && i1[n].size == i2[n].size
    requires forall n :: n in s && n !in i1 ==> n !in i2
    ensures Sum(s, CostIn(i1)) == Sum(s, CostIn(i2))
  {
    forall n | n in s ensures CostIn(i1)(n) == CostIn(i2)(n) {
      if n in i1 { assert Cost(i1[n]) == Cost(i2[n]); }
    }
    SumAgree(s, CostIn(i1), CostIn(i2));
  }

  /** A cached file leaves the cache with a new state. */
  lemma UncacheKeepsSpace(fs: Fs, n: int, x: Inode, r: Fs)
    requires Space(fs) && Cached(fs.inodes, n) && x.kind == Reg && x.state != Loaded && x.size == fs.inodes[n].size
    requires r == Set(fs, n, x).(cache := Without(fs.cache, n), cacheSize := fs.cacheSize - fs.inodes[n].size)
    ensures Space(r)
  {
    CostAgrees(fs.list, fs.inodes, r.inodes);
    WithoutIs(fs.cache, n);
    SumWithout(fs.cache, n, SizeIn(fs.inodes), SizeIn(r.inodes));
  }

  /** A file enters the cache. */
  lemma CacheKeepsSpace(fs: Fs, n: int, x: Inode, r: Fs)
    requires Space(fs) && n in fs.inodes && fs.inodes[n].kind == Reg && !Cached(fs.inodes, n)
    requires x.kind == Reg && x.state == Loaded && x.size == fs.inodes[n].size
    requires r == Set(fs, n, x).(cache := [n] + fs.cache, cacheSize := fs.cacheSize + x.size)
    ensures Space(r)
  {
    CostAgrees(fs.list, fs.inodes, r.inodes);
    assert forall m :: m in r.cache <==> m == n || m in fs.cache;
    SumPush(fs.cache, n, SizeIn(r.inodes));
    SumAgree(fs.cache, SizeIn(fs.inodes), SizeIn(r.inodes));
  }

  /** Moving to the front of the cache. */
  lemma ToFrontKeepsSpace(fs: Fs, n: int, r: Fs)
    requires Space(fs) && Cached(fs.inodes, n)
    requires r == fs.(files := r.files, cache := [n] + Without(fs.cache, n))
    ensures Space(r)
  {
    WithoutIs(fs.cache, n);
    assert forall m :: m in r.cache <==> m == n || m in Without(fs.cache, n);
    SumWithout(fs.cache, n, SizeIn(fs.inodes), SizeIn(fs.inodes));
    SumPush(Without(fs.cache, n), n, SizeIn(fs.inodes));
    CostAgrees(fs.list, fs.inodes, r.inodes);
  }

  // ----- fs_trim_cache -----

  lemma PositionIn(s: seq<int>, i: int)
    requires Distinct(s) && 0 <= i < |s|
    ensures Position(s, s[i]) == i
  {
  }

  lemma EvictSound(fs: Fs, i: int)
    requires Sound(fs) && 0 <= i < |fs.cache| && At(fs, fs.cache[i]).openCount == 0
    ensures Sound(Evict(fs, i))
  {
    var n := fs.cache[i];
    assert n in fs.cache;
    var x := fs.inodes[n].(data := [], state := Unloaded);
    PositionIn(fs.cache, i);
    UncacheKeepsSpace(fs, n, x, Evict(fs, i));
    ClosedNotOpened(fs, n);
    assert BufferOk(x) by { assert BufferOk(fs.inodes[n]); }
    OneInodeHealthy(fs, Evict(fs, i), n, x);
  }

  /** Trimming keeps what each eviction of a closed file keeps. */
  lemma {:induction false} TrimKeeps(fs: Fs, k: nat, added: int, p: Fs -> bool)
    requires k <= |fs.cache| && p(fs)
    requires forall f: Fs, i: int {:trigger Evict(f, i)} ::
               p(f) && 0 <= i < |f.cache| && At(f, f.cache[i]).openCount == 0 ==> p(Evict(f, i))
    ensures p(TrimFrom(fs, k, added))
    decreases k
  {
    if k != 0 && !Fits(fs, added) {
      if At(fs, fs.cache[k - 1]).openCount != 0 {
        TrimKeeps(fs, k - 1, added, p);
      } else {
        TrimKeeps(Evict(fs, k - 1), k - 1, added, p);
      }
    }
  }

  lemma TrimKeepsSound(fs: Fs, k: nat, added: int)
    requires Sound(fs) && k <= |fs.cache|
    ensures Sound(TrimFrom(fs, k, added))
  {
    forall f: Fs, i: int | Sound(f) && 0 <= i < |f.cache| && At(f, f.cache[i]).openCount == 0 ensures Sound(Evict(f, i)) {
      EvictSound(f, i);
    }
    TrimKeeps(fs, k, added, f => Sound(f));
  }

  lemma EvictNames(fs: Fs, i: int)
    requires CacheOk(fs) && 0 <= i < |fs.cache|
    ensures SameNames(fs, Evict(fs, i))
  {
    assert fs.cache[i] in fs.cache;
  }

  lemma SameNamesSelf(fs: Fs)
    ensures SameNames(fs, fs)
  {
  }

  lemma {:induction false} TrimNames(fs: Fs, k: nat, added: int)
    requires CacheOk(fs) && k <= |fs.cache|
    ensures SameNames(fs, TrimFrom(fs, k, added))
    decreases k
  {
    if k == 0 || Fits(fs, added) {
      SameNamesSelf(fs);
    } else if At(fs, fs.cache[k - 1]).openCount != 0 {
      TrimNames(fs, k - 1, added);
    } else {
      EvictCacheOk(fs, k - 1);
      EvictNames(fs, k - 1);
      TrimNames(Evict(fs, k - 1), k - 1, added);
      SameNamesTrans(fs, Evict(fs, k - 1), TrimFrom(fs, k, added));
    }
  }

  lemma TrimSound(fs: Fs, k: nat, added: int)
    requires Sound(fs) && k <= |fs.cache|
    ensures Sound(TrimFrom(fs, k, added)) && SameNames(fs, TrimFrom(fs, k, added))
  {
    TrimKeepsSound(fs, k, added);
    TrimNames(fs, k, added);
  }

  /** Only cached files that are not open lose their content. */
  lemma {:induction false} TrimFrame(fs: Fs, k: nat, added: int, m: int)
    requires CacheOk(fs) && k <= |fs.cache|
    ensures var r := TrimFrom(fs, k, added);
            && r.files == fs.files && r.blocks == fs.blocks && r.cacheLimit == fs.cacheLimit && r.maxBlocks == fs.maxBlocks
            && (At(r, m) == At(fs, m) ||
                (m in fs.cache && At(fs, m).openCount == 0 && At(r, m) == At(fs, m).(data := [], state := Unloaded)))
    decreases k
  {
    if k != 0 && !Fits(fs, added) {
      var n := fs.cache[k - 1];
      if At(fs, n).openCount != 0 {
        TrimFrame(fs, k - 1, added, m);
      } else {
        assert n in fs.cache;
        PositionIn(fs.cache, k - 1);
        EvictCacheOk(fs, k - 1);
        TrimFrame(Evict(fs, k - 1), k - 1, added, m);
        assert m in Evict(fs, k - 1).cache ==> m in fs.cache;
      }
    }
  }

  lemma EvictCacheOk(fs: Fs, i: int)
    requires CacheOk(fs) && 0 <= i < |fs.cache|
    ensures CacheOk(Evict(fs, i)) && forall m :: m in Evict(fs, i).cache <==> m in fs.cache && m != fs.cache[i]
  {
    var n, r := fs.cache[i], Evict(fs, i);
    assert n in fs.cache;
    PositionIn(fs.cache, i);
    WithoutIs(fs.cache, n);
    SumWithout(fs.cache, n, SizeIn(fs.inodes), SizeIn(r.inodes));
  }

  /** After fs_trim_cache the added size fits or every cached file is open. */
  lemma {:induction false} TrimMakesRoom(fs: Fs, k: nat, added: int)
    requires CacheOk(fs) && k <= |fs.cache|
    requires forall i :: k <= i < |fs.cache| ==> At(fs, fs.cache[i]).openCount != 0
    ensures var r := TrimFrom(fs, k, added);
            r.cacheSize + added <= fs.cacheLimit || forall n :: n in r.cache ==> At(r, n).openCount != 0
    decreases k
  {
    if k != 0 && !Fits(fs, added) {
      if At(fs, fs.cache[k - 1]).openCount != 0 {
        TrimMakesRoom(fs, k - 1, added);
      } else {
        EvictCacheOk(fs, k - 1);
        assert fs.cache[k - 1] in fs.cache;
        var e := Evict(fs, k - 1);
        forall i | k - 1 <= i < |e.cache| ensures At(e, e.cache[i]).openCount != 0 {
          assert e.cache[i] == fs.cache[i + 1] && e.cache[i] in e.cache;
        }
        TrimMakesRoom(e, k - 1, added);
      }
    }
  }

  /** Nothing is evicted that need not be: when the size fits nothing goes, and otherwise what is
      left would not fit with m, the last file that went. */
  lemma {:induction false} TrimStops(fs: Fs, k: nat, added: int) returns (m: int)
    requires CacheOk(fs) && k <= |fs.cache|
    ensures var r := TrimFrom(fs, k, added);
            && (fs.cacheSize + added <= fs.cacheLimit ==> r == fs)
            && (r != fs ==> m in fs.cache && m !in r.cache && r.cacheSize + At(fs, m).size + added > fs.cacheLimit)
    decreases k
  {
    m := 0;
    if k != 0 && !Fits(fs, added) {
      if At(fs, fs.cache[k - 1]).openCount != 0 {
        m := TrimStops(fs, k - 1, added);
      } else {
        EvictCacheOk(fs, k - 1);
        var e := Evict(fs, k - 1);
        var later := TrimStops(e, k - 1, added);
        m := if TrimFrom(e, k - 1, added) == e then fs.cache[k - 1] else later;
        EvictedIsGone(fs, k);
        assert later in e.cache ==> later in fs.cache && At(e, later).size == At(fs, later).size;
      }
    }
  }

  lemma EvictedIsGone(fs: Fs, k: nat)
    requires CacheOk(fs) && 0 < k <= |fs.cache|
    ensures fs.cache[k - 1] in fs.cache && fs.cache[k - 1] !in Evict(fs, k - 1).cache
    ensures forall n :: n in Evict(fs, k - 1).cache ==> n in fs.cache && n != fs.cache[k - 1]
  {
    DistinctRemove(fs.cache, k - 1);
  }

  lemma EvictAllows(fs: Fs, k: nat, i: int, j: int)
    requires CacheOk(fs) && 0 <= i < j < k <= |fs.cache| && At(fs, fs.cache[j]).openCount == 0
    ensures var e := Evict(fs, k - 1);
            && CacheOk(e) && (forall m :: m in e.cache <==> m in fs.cache && m != fs.cache[k - 1])
            && e.cache[i] == fs.cache[i] && (j < k - 1 ==> e.cache[j] == fs.cache[j] && At(e, e.cache[j]).openCount == 0)
  {
    EvictCacheOk(fs, k - 1);
  }

  /** The least recent go first: when a file is evicted, so is every closed file behind it. */
  lemma {:induction false} TrimIsLru(fs: Fs, k: nat, added: int, i: int, j: int)
    requires CacheOk(fs) && k <= |fs.cache| && 0 <= i < j < k
    requires At(fs, fs.cache[j]).openCount == 0 && fs.cache[i] !in TrimFrom(fs, k, added).cache
    ensures fs.cache[j] !in TrimFrom(fs, k, added).cache
    decreases k
  {
    assert fs.cache[i] in fs.cache;
    if k != 0 && !Fits(fs, added) {
      if At(fs, fs.cache[k - 1]).openCount != 0 {
        TrimIsLru(fs, k - 1, added, i, j);
      } else {
        EvictAllows(fs, k, i, j);
        if j == k - 1 {
          TrimShrinks(Evict(fs, k - 1), k - 1, added);
        } else {
          TrimIsLru(Evict(fs, k - 1), k - 1, added, i, j);
        }
      }
    }
  }

  lemma {:induction false} TrimShrinks(fs: Fs, k: nat, added: int)
    requires CacheOk(fs) && k <= |fs.cache|
    ensures forall m :: m in TrimFrom(fs, k, added).cache ==> m in fs.cache
    decreases k
  {
    if k != 0 && !Fits(fs, added) {
      if At(fs, fs.cache[k - 1]).openCount != 0 {
        TrimShrinks(fs, k - 1, added);
      } else {
        EvictCacheOk(fs, k - 1);
        TrimShrinks(Evict(fs, k - 1), k - 1, added);
      }
    }
  }
}
