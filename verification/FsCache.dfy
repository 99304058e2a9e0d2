// The content cache of temu/fs_net.c is kept in the order of last use, over every history: with
// FsLoads.TrimIsLru the files evicted are the least recently used.

module FsCache {
  import opened Options
  import opened Sums
  import opened FsNet
  import opened FsData
  import opened FsSpace
  import opened FsNames
  import opened FsOps
  import opened FsContent
  import opened FsLoads
  import opened FsRuns
  import opened FsSystem

  /** From the front of the cache on, ranks go down. */
  ghost predicate Ordered(cache: seq<int>, rank: int -> int) {
    forall a, b :: 0 <= a < b < |cache| ==> rank(cache[a]) > rank(cache[b])
  }

  lemma RemoveOrdered(cache: seq<int>, i: int, rank: int -> int)
    requires 0 <= i < |cache| && Ordered(cache, rank)
    ensures Ordered(RemoveAt(cache, i), rank) && forall n :: n in RemoveAt(cache, i) ==> n in cache && n != cache[i]
  {
    var r := RemoveAt(cache, i);
    forall a, b | 0 <= a < b < |r| ensures rank(r[a]) > rank(r[b]) {
      assert r[a] == cache[if a < i then a else a + 1] && r[b] == cache[if b < i then b else b + 1];
    }
    forall a | 0 <= a < |r| ensures r[a] in cache && r[a] != cache[i] {
      assert r[a] == cache[if a < i then a else a + 1];
    }
  }

  lemma WithoutOrdered(cache: seq<int>, n: int, rank: int -> int)
    requires Ordered(cache, rank)
    ensures Ordered(Without(cache, n), rank) && n !in Without(cache, n) && forall m :: m in Without(cache, n) ==> m in cache
  {
    var i := Position(cache, n);
    if i >= 0 { RemoveOrdered(cache, i, rank); }
  }

  /** The order of the cache stays, whatever leaves it. */
  ghost predicate OnlyLoses(fs: Fs, r: Fs, rank: int -> int) {
    Ordered(fs.cache, rank) ==> Ordered(r.cache, rank) && forall n :: n in r.cache ==> n in fs.cache
  }

  // ----- operations on names -----

  lemma FreeLoses(fs: Fs, n: int, rank: int -> int)
    ensures OnlyLoses(fs, FreeInode(fs, n), rank)
  {
    if Ordered(fs.cache, rank) { WithoutOrdered(fs.cache, n, rank); }
  }

  lemma DecrefLoses(fs: Fs, n: int, rank: int -> int)
    ensures OnlyLoses(fs, Decref(fs, n), rank)
  {
    FreeLoses(fs, n, rank);
  }

  lemma DecOpenLoses(fs: Fs, n: int, rank: int -> int)
    ensures OnlyLoses(fs, DecOpen(fs, n), rank)
  {
    FreeLoses(fs, n, rank);
  }

  lemma DropLoses(fs: Fs, i: int, rank: int -> int)
    requires 0 <= i < |fs.entries|
    ensures OnlyLoses(fs, EntryDrop(fs, i), rank)
  {
    DecrefLoses(EntryDelete(fs, i), fs.entries[i].target, rank);
  }

  lemma {:induction false} FlushLoses(fs: Fs, n: int, rank: int -> int)
    ensures OnlyLoses(fs, FlushDir(fs, n), rank)
    decreases |fs.entries|
  {
    var i := FirstOf(fs.entries, n);
    if i >= 0 {
      DropLoses(fs, i, rank);
      FlushLoses(EntryDrop(fs, i), n, rank);
    }
  }

  lemma UnlinkLoses(fs: Fs, h: int, name: string, rank: int -> int)
    requires Live(fs, h)
    ensures OnlyLoses(fs, Unlink(fs, h, name).0, rank)
  {
    var n := InodeOf(fs, h);
    var i := Search(fs, n, name);
    if name !in {".", ".."} && i >= 0 {
      var t := fs.entries[i].target;
      if !IsDir(fs, t) {
        DropLoses(fs, i, rank);
      } else if EmptyDir(fs, t) {
        FlushLoses(fs, t, rank);
        var k := SearchFrom(FlushDir(fs, t).entries, n, name);
        if k >= 0 { DropLoses(FlushDir(fs, t), k, rank); }
      }
    }
  }

  lemma MoveLoses(fs: Fs, i: int, n: int, newName: string, rank: int -> int)
    requires 0 <= i < |fs.entries|
    ensures OnlyLoses(fs, MoveEntry(fs, i, n, newName), rank)
  {
    var t := fs.entries[i].target;
    DropLoses(DirAdd(Incref(fs, t), n, newName, t), i, rank);
  }

  lemma ReplaceLoses(fs: Fs, i: int, j: int, n: int, newName: string, rank: int -> int)
    requires 0 <= i < |fs.entries| && 0 <= j < |fs.entries| && i != j
    ensures OnlyLoses(fs, ReplaceEntry(fs, i, j, n, newName), rank)
  {
    var t, victim := fs.entries[i].target, fs.entries[j].target;
    var f1, k := DirAdd(Incref(EntryDelete(fs, j), t), n, newName, t), if j < i then i - 1 else i;
    DropLoses(f1, k, rank);
    DecrefLoses(EntryDrop(f1, k), victim, rank);
  }

  lemma RenameLoses(fs: Fs, h: int, name: string, nh: int, newName: string, rank: int -> int)
    requires Live(fs, h) && Live(fs, nh)
    ensures OnlyLoses(fs, Rename(fs, h, name, nh, newName).0, rank)
  {
    var n := InodeOf(fs, nh);
    var i, j := Search(fs, InodeOf(fs, h), name), Search(fs, n, newName);
    if i >= 0 && j < 0 {
      MoveLoses(fs, i, n, newName, rank);
    } else if i >= 0 && i != j && !IsDir(fs, fs.entries[j].target) {
      ReplaceLoses(fs, i, j, n, newName, rank);
    }
  }

  lemma DeleteLoses(fs: Fs, h: int, rank: int -> int)
    requires Live(fs, h)
    ensures OnlyLoses(fs, Delete(fs, h).0, rank)
  {
    DecOpenLoses(fs, InodeOf(fs, h), rank);
  }

  lemma CreateLoses(fs: Fs, h: int, name: string, flags: int, rank: int -> int)
    requires Live(fs, h)
    ensures OnlyLoses(fs, Create(fs, h, name, flags).0, rank)
  {
    DeleteLoses(DirAdd(NewInode(fs, Reg), InodeOf(fs, h), name, fs.nextId), h, rank);
  }

  lemma StepLoses(fs: Fs, op: Op, rank: int -> int)
    requires Uses(fs, op)
    ensures OnlyLoses(fs, Step(fs, op).0, rank)
  {
    match op
    case ODelete(h) => DeleteLoses(fs, h, rank);
    case OCreate(h, name, flags) => CreateLoses(fs, h, name, flags, rank);
    case ORename(h, name, nh, newName) => RenameLoses(fs, h, name, nh, newName, rank);
    case OUnlink(h, name) => UnlinkLoses(fs, h, name, rank);
    case _ =>
  }

  // ----- operations on contents -----

  lemma {:induction false} TrimLoses(fs: Fs, k: nat, added: int, rank: int -> int)
    requires k <= |fs.cache|
    ensures OnlyLoses(fs, TrimFrom(fs, k, added), rank)
    decreases k
  {
    if k != 0 && !Fits(fs, added) {
      if At(fs, fs.cache[k - 1]).openCount != 0 {
        TrimLoses(fs, k - 1, added, rank);
      } else {
        if Ordered(fs.cache, rank) { RemoveOrdered(fs.cache, k - 1, rank); }
        TrimLoses(Evict(fs, k - 1), k - 1, added, rank);
      }
    }
  }

  lemma OpenWgetLoses(fs: Fs, n: int, heap: Heap, rank: int -> int)
    ensures OnlyLoses(fs, OpenWget(fs, n, heap).0, rank)
  {
    TrimLoses(fs, |fs.cache|, Signed(At(fs, n).size), rank);
  }

  lemma {:induction false} PreloadLoses(fs: Fs, names: seq<int>, heap: Heap, rank: int -> int)
    ensures OnlyLoses(fs, Preload(fs, names, heap), rank)
    decreases |names|
  {
    if names != [] {
      OpenWgetLoses(fs, names[0], heap, rank);
      var x := At(fs, names[0]);
      PreloadLoses(if x.kind == Reg && x.state == Unloaded then OpenWget(fs, names[0], heap).0 else fs, names[1..], heap, rank);
    }
  }

  lemma MakeLocalLoses(fs: Fs, n: int, rank: int -> int)
    ensures OnlyLoses(fs, MakeLocal(fs, n), rank)
  {
    if Ordered(fs.cache, rank) { WithoutOrdered(fs.cache, n, rank); }
  }

  lemma TruncateCache(fs: Fs, n: int, size: nat, heap: Heap)
    requires size < WORD
    ensures Truncate(fs, n, size, heap).0.cache in {fs.cache, MakeLocal(fs, n).cache}
  {
  }

  lemma TruncateLoses(fs: Fs, n: int, size: nat, heap: Heap, rank: int -> int)
    requires size < WORD
    ensures OnlyLoses(fs, Truncate(fs, n, size, heap).0, rank)
  {
    TruncateCache(fs, n, size, heap);
    MakeLocalLoses(fs, n, rank);
  }

  lemma StoreLoses(fs: Fs, n: int, offset: nat, bytes: seq<int>, rank: int -> int)
    ensures OnlyLoses(fs, Store(fs, n, offset, bytes).0, rank)
  {
    MakeLocalLoses(fs, n, rank);
  }

  lemma WriteLoses(fs: Fs, h: int, offset: nat, bytes: seq<int>, heap: Heap, rank: int -> int)
    requires Live(fs, h)
    ensures OnlyLoses(fs, Write(fs, h, offset, bytes, heap).0, rank)
  {
    var n, end := InodeOf(fs, h), (offset + |bytes|) % WORD;
    StoreLoses(fs, n, offset, bytes, rank);
    TruncateLoses(fs, n, end, heap, rank);
    StoreLoses(Truncate(fs, n, end, heap).0, n, offset, bytes, rank);
  }

  // ----- uses -----

  /** n comes to the front: it is opened from the cache, or its download ends. */
  ghost predicate Used(fs: Fs, q: Request, n: int)
    requires Asks(fs, q)
  {
    var (r, reply) := Serve(fs, q);
    && n in r.cache
    && match q
       case OpenFor(h, _, _, _) => InodeOf(fs, h) == n && reply == Ok(0)
       case Downloaded(m, _) => m == n
       case _ => false
  }

  /** The front of the cache is n, and behind it the order stays. */
  ghost predicate ToFront(fs: Fs, r: Fs, n: int, rank: int -> int) {
    Ordered(fs.cache, rank) ==> r.cache != [] && r.cache[0] == n && n !in r.cache[1..] && Ordered(r.cache[1..], rank)
                                && forall m :: m in r.cache[1..] ==> m in fs.cache
  }

  /** What the use of n, if it is one, does to the order of the cache. */
  ghost predicate Moves(fs: Fs, r: Fs, n: int, used: bool, rank: int -> int) {
    if used then ToFront(fs, r, n, rank) else OnlyLoses(fs, r, rank)
  }

  lemma LoadedUses(fs: Fs, h: int, names: seq<int>, heap: Heap, rank: int -> int)
    requires Live(fs, h) && At(fs, InodeOf(fs, h)).state == Loaded
    ensures var (r, reply) := OpenFile(fs, h, names, heap); reply == Ok(0) && ToFront(fs, r, InodeOf(fs, h), rank)
  {
    var n := InodeOf(fs, h);
    if Ordered(fs.cache, rank) {
      WithoutOrdered(fs.cache, n, rank);
      assert ([n] + Without(fs.cache, n))[1..] == Without(fs.cache, n);
    }
  }

  lemma FetchLoses(fs: Fs, n: int, h: int, heap: Heap, rank: int -> int)
    ensures var (r, reply) := Fetch(fs, n, h, heap); reply != Ok(0) && OnlyLoses(fs, r, rank)
  {
    OpenWgetLoses(fs, n, heap, rank);
  }

  lemma UnloadedUses(fs: Fs, h: int, names: seq<int>, heap: Heap, rank: int -> int)
    requires Live(fs, h) && At(fs, InodeOf(fs, h)).state == Unloaded
    ensures var (r, reply) := OpenFile(fs, h, names, heap); reply != Ok(0) && OnlyLoses(fs, r, rank)
  {
    FetchIsOpen(fs, h, names, heap);
    PreloadLoses(fs, names, heap, rank);
    FetchLoses(Preload(fs, names, heap), InodeOf(fs, h), h, heap, rank);
  }

  lemma OpenFileUses(fs: Fs, h: int, names: seq<int>, heap: Heap, rank: int -> int)
    requires CacheOk(fs) && Live(fs, h) && At(fs, InodeOf(fs, h)).kind == Reg
    ensures var (n, (r, reply)) := (InodeOf(fs, h), OpenFile(fs, h, names, heap));
            Moves(fs, r, n, reply == Ok(0) && n in r.cache, rank)
  {
    var n := InodeOf(fs, h);
    assert n in fs.cache <==> Cached(fs.inodes, n);
    match At(fs, n).state
    case Loaded => LoadedUses(fs, h, names, heap, rank);
    case Unloaded => UnloadedUses(fs, h, names, heap, rank);
    case _ =>
  }

  lemma MovesAfter(fs: Fs, f1: Fs, r: Fs, n: int, used: bool, rank: int -> int)
    requires OnlyLoses(fs, f1, rank) && Moves(f1, r, n, used, rank)
    ensures Moves(fs, r, n, used, rank)
  {
  }

  lemma OpenUses(fs: Fs, h: int, flags: nat, names: seq<int>, heap: Heap, rank: int -> int)
    requires Sound(fs) && Live(fs, h) && heap.room < HALF
    ensures var (n, (r, reply)) := (InodeOf(fs, h), Open(fs, h, flags, names, heap));
            Moves(fs, r, n, reply == Ok(0) && n in r.cache, rank)
  {
    var n := InodeOf(fs, h);
    LiveInode(fs, h);
    SetFileSound(fs, h, FileOf(fs, h).(isOpened := false, flags := flags));
    var f2 := SetFile(fs, h, FileOf(fs, h).(isOpened := false, flags := flags));
    var (r, reply) := Open(fs, h, flags, names, heap);
    assert n in fs.cache <==> Cached(fs.inodes, n);
    if fs.inodes[n].kind == Reg && !DirectoryFlag(flags) {
      if TruncFlag(flags) && Access(flags) != 0 {
        OpenTruncSound(f2, n, h, heap);
        TruncateLoses(f2, n, 0, heap, rank);
        var f3 := Truncate(f2, n, 0, heap).0;
        OpenFileUses(f3, h, names, heap, rank);
        MovesAfter(f2, f3, r, n, reply == Ok(0) && n in r.cache, rank);
      } else {
        OpenFileUses(f2, h, names, heap, rank);
      }
    }
  }

  lemma DownloadUses(fs: Fs, n: int, download: Option<seq<int>>, rank: int -> int)
    requires CacheOk(fs) && n in fs.inodes && fs.inodes[n].kind == Reg && fs.inodes[n].state == Loading
    ensures var r := DownloadEnds(fs, n, download); Moves(fs, r, n, n in r.cache, rank)
  {
    assert n in fs.cache <==> Cached(fs.inodes, n);
    assert ([n] + fs.cache)[1..] == fs.cache;
  }

  /** The file a request is about. */
  ghost function Subject(fs: Fs, q: Request): int
    requires Asks(fs, q)
  {
    match q case OpenFor(h, _, _, _) => InodeOf(fs, h) case Downloaded(n, _) => n case _ => 0
  }

  lemma ServeUses(fs: Fs, q: Request, rank: int -> int)
    requires Sound(fs) && Legal(fs, q)
    ensures Moves(fs, Serve(fs, q).0, Subject(fs, q), Used(fs, q, Subject(fs, q)), rank)
    ensures forall n :: Used(fs, q, n) ==> n == Subject(fs, q)
  {
    match q
    case Name(op) => StepLoses(fs, op, rank);
    case OpenFor(h, flags, names, heap) => OpenUses(fs, h, flags, names, heap, rank);
    case TruncateTo(h, size, heap) => TruncateLoses(fs, InodeOf(fs, h), size, heap, rank);
    case WriteAt(h, offset, bytes, heap) => WriteLoses(fs, h, offset, bytes, heap, rank);
    case Downloaded(n, download) => DownloadUses(fs, n, download, rank);
    case UrlSet(_, _) =>
  }

  /** The number of the last request of the first i that used n, or 0. */
  ghost function LastUse(fss: seq<Fs>, qs: seq<Request>, i: nat, n: int): (k: int)
    requires IsHistory(fss, qs) && i < |fss|
    ensures 0 <= k <= i
  {
    if i == 0 then 0 else if Used(fss[i - 1], qs[i - 1], n) then i else LastUse(fss, qs, i - 1, n)
  }

  lemma FrontOrdered(cache: seq<int>, n: int, rank: int -> int, later: int -> int, i: int)
    requires cache != [] && cache[0] == n && n !in cache[1..] && Ordered(cache[1..], rank)
    requires later(n) == i && forall m :: m != n ==> later(m) == rank(m) < i
    ensures Ordered(cache, later)
  {
    forall a, b | 0 <= a < b < |cache| ensures later(cache[a]) > later(cache[b]) {
      assert cache[b] == cache[1..][b - 1] && cache[b] in cache[1..];
      if a > 0 { assert cache[a] == cache[1..][a - 1] && cache[a] in cache[1..]; }
    }
  }

  lemma SameOrdered(cache: seq<int>, rank: int -> int, later: int -> int)
    requires Ordered(cache, rank) && forall m :: later(m) == rank(m)
    ensures Ordered(cache, later)
  {
    forall a, b | 0 <= a < b < |cache| ensures later(cache[a]) > later(cache[b]) {
      var x: int, y: int := cache[a], cache[b];
      assert later(x) == rank(x) && later(y) == rank(y);
    }
  }

  lemma Reordered(fs: Fs, q: Request, r: Fs, rank: int -> int, later: int -> int, i: int)
    requires Sound(fs) && Legal(fs, q) && r == Serve(fs, q).0 && Ordered(fs.cache, rank)
    requires forall n :: rank(n) < i && later(n) == if Used(fs, q, n) then i else rank(n)
    ensures Ordered(r.cache, later)
  {
    var n := Subject(fs, q);
    ServeUses(fs, q, rank);
    forall m ensures rank(m) < i && later(m) == if Used(fs, q, m) then i else rank(m) {}
    if Used(fs, q, n) { FrontOrdered(r.cache, n, rank, later, i); } else { SameOrdered(r.cache, rank, later); }
  }

  lemma LastUseStep(fss: seq<Fs>, qs: seq<Request>, i: nat)
    requires IsHistory(fss, qs) && 0 < i < |fss| && Sound(fss[i - 1]) && Ordered(fss[i - 1].cache, n => LastUse(fss, qs, i - 1, n))
    ensures Ordered(fss[i].cache, n => LastUse(fss, qs, i, n))
  {
    Reordered(fss[i - 1], qs[i - 1], fss[i], n => LastUse(fss, qs, i - 1, n), n => LastUse(fss, qs, i, n), i);
  }

  lemma {:induction false} LruFrom(fss: seq<Fs>, qs: seq<Request>, i: nat)
    requires IsHistory(fss, qs) && Sound(fss[0]) && fss[0].cache == [] && i < |fss|
    ensures Ordered(fss[i].cache, n => LastUse(fss, qs, i, n))
    decreases i
  {
    if i > 0 {
      LruFrom(fss, qs, i - 1);
      HistoryKeepsSound(fss, qs, i - 1);
      LastUseStep(fss, qs, i);
    }
  }

  /** Over every history the cache is in the order of last use, the latest first. */
  lemma CacheIsLru(fss: seq<Fs>, qs: seq<Request>, cacheLimit: int, maxBlocks: int, i: nat)
    requires IsHistory(fss, qs) && fss[0] == Empty(cacheLimit, maxBlocks) && i < |fss|
    ensures Ordered(fss[i].cache, n => LastUse(fss, qs, i, n))
  {
    StartIsSound(fss[0], cacheLimit, maxBlocks);
    LruFrom(fss, qs, i);
  }
}
