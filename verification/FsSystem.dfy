// Every run of the file system of temu/fs_net.c, names and contents together.

module FsSystem {
  import opened Options
  import Bits
  import opened FsNet
  import opened FsData
  import opened FsNames
  import opened FsOps
  import opened FsContent
  import opened FsLoads
  import opened FsRuns
  import opened FsFrames
  import FsTree

  // ----- name operations keep the files sound -----

  /** Only the file h changes, and then it goes or moves to a new inode. */
  ghost predicate FilesQuiet(fs: Fs, r: Fs, h: int) {
    && |r.files| >= |fs.files|
    && (forall i :: 0 <= i < |fs.files| && i != h ==> r.files[i] == fs.files[i])
    && (forall i :: |fs.files| <= i < |r.files| && r.files[i].Some? ==> !r.files[i].value.isOpened)
    && (0 <= h < |fs.files| ==> r.files[h] == fs.files[h] || (r.files[h].Some? ==> r.files[h].value.inode >= fs.nextId))
  }

  function Moved(op: Op): int {
    match op
    case ODelete(h) => h
    case OCreate(h, _, _) => h
    case _ => -1
  }

  lemma {:induction false} FlushFiles(fs: Fs, n: int)
    ensures FlushDir(fs, n).files == fs.files
    decreases |fs.entries|
  {
    var i := FirstOf(fs.entries, n);
    if i >= 0 { FlushFiles(EntryDrop(fs, i), n); }
  }

  lemma EntryDropFiles(fs: Fs, i: int)
    requires 0 <= i < |fs.entries|
    ensures EntryDrop(fs, i).files == fs.files
  {
  }

  lemma UnlinkFiles(fs: Fs, h: int, name: string)
    requires Live(fs, h)
    ensures Unlink(fs, h, name).0.files == fs.files
  {
    var n := InodeOf(fs, h);
    var i := Search(fs, n, name);
    if name !in {".", ".."} && i >= 0 {
      var t := fs.entries[i].target;
      if !IsDir(fs, t) {
        EntryDropFiles(fs, i);
      } else if EmptyDir(fs, t) {
        FlushFiles(fs, t);
        var k := SearchFrom(FlushDir(fs, t).entries, n, name);
        if k >= 0 { EntryDropFiles(FlushDir(fs, t), k); }
      }
    }
  }

  lemma MoveEntryFiles(fs: Fs, i: int, n: int, newName: string)
    requires 0 <= i < |fs.entries|
    ensures MoveEntry(fs, i, n, newName).files == fs.files
  {
  }

  lemma ReplaceEntryFiles(fs: Fs, i: int, j: int, n: int, newName: string)
    requires 0 <= i < |fs.entries| && 0 <= j < |fs.entries| && i != j
    ensures ReplaceEntry(fs, i, j, n, newName).files == fs.files
  {
    var t := fs.entries[i].target;
    EntryDropFiles(DirAdd(Incref(EntryDelete(fs, j), t), n, newName, t), if j < i then i - 1 else i);
  }

  lemma RenameFiles(fs: Fs, h: int, name: string, nh: int, newName: string)
    requires Live(fs, h) && Live(fs, nh)
    ensures Rename(fs, h, name, nh, newName).0.files == fs.files
  {
    var n := InodeOf(fs, nh);
    var i, j := Search(fs, InodeOf(fs, h), name), Search(fs, n, newName);
    if i >= 0 && j < 0 {
      MoveEntryFiles(fs, i, n, newName);
    } else if i >= 0 && i != j && !IsDir(fs, fs.entries[j].target) {
      ReplaceEntryFiles(fs, i, j, n, newName);
    }
  }

  lemma CreateFiles(fs: Fs, h: int, name: string, flags: int)
    requires Live(fs, h)
    ensures FilesQuiet(fs, Create(fs, h, name, flags).0, h)
  {
  }

  lemma StepFiles(fs: Fs, op: Op)
    requires Uses(fs, op)
    ensures FilesQuiet(fs, Step(fs, op).0, Moved(op))
  {
    match op
    case OUnlink(h, name) => UnlinkFiles(fs, h, name);
    case ORename(h, name, nh, newName) => RenameFiles(fs, h, name, nh, newName);
    case OCreate(h, name, flags) => CreateFiles(fs, h, name, flags);
    case _ =>
  }

  lemma QuietHealthy(fs: Fs, r: Fs, h: int)
    requires Healthy(fs) && Named(r) && Quiet(fs, r) && FilesQuiet(fs, r, h)
    requires forall n :: Awaits(fs, n, h) ==> n !in r.inodes
    ensures Healthy(r)
  {
    forall n | n in r.inodes && r.inodes[n].kind == Reg ensures BufferOk(r.inodes[n]) {
      if n < fs.nextId { assert BufferOk(fs.inodes[n]); }
    }
    forall f | f in r.files && f.Some? && f.value.isOpened && At(r, f.value.inode).kind == Reg
      ensures Ready(At(r, f.value.inode))
    {
      var i :| 0 <= i < |r.files| && r.files[i] == f;
      if i < |fs.files| && r.files[i] == fs.files[i] {
        assert f in fs.files && f.value.inode in fs.inodes;
      }
    }
    forall n, k | Awaits(r, n, k) ensures Live(r, k) && InodeOf(r, k) == n {
      assert Awaits(fs, n, k);
    }
  }

  // ----- all requests -----

  datatype Request =
    | Name(op: Op)
    | OpenFor(h: int, flags: nat, names: seq<int>, heap: Heap)
    | TruncateTo(h: int, size: nat, heap: Heap)
    | WriteAt(h: int, offset: nat, bytes: seq<int>, heap: Heap)
    | Downloaded(n: int, download: Option<seq<int>>)
    | UrlSet(n: int, size: nat)

  /** What comes from outside: live files, downloads under way, 64-bit sizes. */
  ghost predicate Asks(fs: Fs, q: Request) {
    match q
    case Name(op) => Uses(fs, op)
    case OpenFor(h, _, _, heap) => Live(fs, h) && heap.room < HALF
    case TruncateTo(h, size, heap) => Live(fs, h) && heap.room < HALF && size < WORD
    case WriteAt(h, offset, bytes, heap) => Live(fs, h) && heap.room < HALF && offset < WORD && |bytes| < HALF
    case Downloaded(n, _) => n in fs.inodes && fs.inodes[n].kind == Reg && fs.inodes[n].state == Loading
    case UrlSet(n, size) => n in fs.inodes && size < WORD
  }

  /** A file that waits for a download is given up while its inode stays: the download will
      report to a file that is gone. */
  predicate LosesWaiter(fs: Fs, h: int)
    requires Live(fs, h)
  {
    Awaits(fs, InodeOf(fs, h), h) && !LastFile(fs, h)
  }

  /** A write that ends 2^63 or more above the size and is granted its wrapped end. */
  predicate WritesOutside(fs: Fs, h: int, offset: nat, bytes: seq<int>, heap: Heap)
    requires Live(fs, h)
  {
    var n, end := InodeOf(fs, h), (offset + |bytes|) % WORD;
    && Writable(fs, h) && At(fs, n).kind == Reg && bytes != []
    && offset + |bytes| - At(fs, n).size >= HALF && (end <= At(fs, n).size || RoomFor(fs, n, end, heap))
  }

  /** The requests that break the file system, each by a test on the state before. */
  ghost predicate Breaks(fs: Fs, q: Request)
    requires Asks(fs, q)
  {
    match q
    case Name(op) => Aborts(fs, op) || (op.ODelete? && LosesWaiter(fs, op.h))
    case TruncateTo(h, size, _) => Ready(At(fs, InodeOf(fs, h))) && size - At(fs, InodeOf(fs, h)).size >= HALF
    case WriteAt(h, offset, bytes, heap) => WritesOutside(fs, h, offset, bytes, heap)
    case UrlSet(n, size) =>
      var x := fs.inodes[n];
      x.kind == Reg && x.state == Local && |x.data| == 0 && size != 0 && exists f :: f in fs.files && OpenedOn(f, n)
    case _ => false
  }

  ghost predicate Legal(fs: Fs, q: Request) { Asks(fs, q) && !Breaks(fs, q) }

  ghost function Serve(fs: Fs, q: Request): (Fs, Reply)
    requires Asks(fs, q)
  {
    match q
    case Name(op) => Step(fs, op)
    case OpenFor(h, flags, names, heap) => Open(fs, h, flags, names, heap)
    case TruncateTo(h, size, heap) => Truncate(fs, InodeOf(fs, h), size, heap)
    case WriteAt(h, offset, bytes, heap) => Write(fs, h, offset, bytes, heap)
    case Downloaded(n, download) => (DownloadEnds(fs, n, download), Ok(0))
    case UrlSet(n, size) => SetUrl(fs, n, size)
  }

  /** Only the file on an inode waits for it, so a file on a directory never waits. */
  lemma WaitsForOwn(fs: Fs, op: Op, n: int)
    requires Sound(fs) && Uses(fs, op) && Awaits(fs, n, Moved(op))
    ensures InodeOf(fs, Moved(op)) == n && !IsDir(fs, n) && (op.ODelete? || op.OCreate?)
  {
  }

  lemma DeleteLoses(fs: Fs, h: int)
    requires Sound(fs) && Live(fs, h) && LosesWaiter(fs, h)
    ensures !Sound(Delete(fs, h).0)
  {
    var n, r := InodeOf(fs, h), Delete(fs, h).0;
    LiveHasOpenCount(fs, h);
    ReferencesAreNonNegative(fs, n);
    assert Awaits(r, n, h) && !Live(r, h);
    assert !WaitersLive(r);
  }

  lemma DeleteSettles(fs: Fs, h: int)
    requires Sound(fs) && Live(fs, h) && Good(Delete(fs, h).0) && !LosesWaiter(fs, h)
    ensures Sound(Delete(fs, h).0)
  {
    FidDeleteQuiet(fs, h);
    forall m | Awaits(fs, m, h) ensures m !in Delete(fs, h).0.inodes { WaitsForOwn(fs, ODelete(h), m); }
    QuietHealthy(fs, Delete(fs, h).0, h);
  }

  /** fs_delete keeps everything sound unless it frees a directory with entries or a waiting
      file whose inode stays. */
  lemma DeleteSoundExact(fs: Fs, h: int)
    requires Sound(fs) && Live(fs, h)
    ensures Sound(Delete(fs, h).0) <==>
              (!LastFile(fs, h) || NoEntries(fs, InodeOf(fs, h))) && !LosesWaiter(fs, h)
  {
    DeleteExact(fs, h);
    if LosesWaiter(fs, h) {
      DeleteLoses(fs, h);
    } else if Good(Delete(fs, h).0) {
      DeleteSettles(fs, h);
    }
  }

  lemma NameSoundExact(fs: Fs, op: Op)
    requires Sound(fs) && Uses(fs, op)
    ensures Sound(Step(fs, op).0) && Step(fs, op).1 != Fault <==> !Breaks(fs, Name(op))
  {
    StepExact(fs, op);
    if op.ODelete? {
      DeleteSoundExact(fs, op.h);
    } else if !Aborts(fs, op) {
      var r := Step(fs, op).0;
      StepQuiet(fs, op);
      StepFiles(fs, op);
      if r != fs {
        forall m ensures !Awaits(fs, m, Moved(op)) {
          if Awaits(fs, m, Moved(op)) { WaitsForOwn(fs, op, m); }
        }
        QuietHealthy(fs, r, Moved(op));
      }
    }
  }

  lemma TruncateSoundExact(fs: Fs, n: int, size: nat, heap: Heap)
    requires Sound(fs) && n in fs.inodes && heap.room < HALF && size < WORD
    ensures Sound(Truncate(fs, n, size, heap).0) && Truncate(fs, n, size, heap).1 != Fault <==> InReach(fs, n, size)
  {
    var x := fs.inodes[n];
    if x.kind == Reg { assert BufferOk(x); }
    if InReach(fs, n, size) { TruncateSound(fs, n, size, heap); }
    if Ready(x) {
      TruncateExact(fs, n, size, heap);
      TruncateSize(fs, n, size, heap);
      TruncateShape(fs, n, size, heap);
    }
  }

  lemma WriteFailKeeps(fs: Fs, h: int, offset: nat, bytes: seq<int>, heap: Heap)
    requires Live(fs, h)
    ensures Write(fs, h, offset, bytes, heap).1.Fail? || bytes == [] ==> Write(fs, h, offset, bytes, heap).0 == fs
  {
  }

  lemma WriteSoundExact(fs: Fs, h: int, offset: nat, bytes: seq<int>, heap: Heap)
    requires Sound(fs) && Live(fs, h) && heap.room < HALF && offset < WORD && |bytes| < HALF
    ensures Sound(Write(fs, h, offset, bytes, heap).0) && Write(fs, h, offset, bytes, heap).1 != Fault
            <==> !WritesOutside(fs, h, offset, bytes, heap)
  {
    var n := InodeOf(fs, h);
    WriteFailKeeps(fs, h, offset, bytes, heap);
    if Writable(fs, h) && At(fs, n).kind == Reg {
      OpenedIsReady(fs, h);
      WriteExact(fs, h, offset, bytes, heap);
      if offset + |bytes| - At(fs, n).size < HALF { WriteSound(fs, h, offset, bytes, heap); }
    }
  }

  lemma OpenNoFault(fs: Fs, h: int, flags: nat, names: seq<int>, heap: Heap)
    requires Live(fs, h)
    ensures Open(fs, h, flags, names, heap).1 != Fault
  {
  }

  /** Every request keeps names, space, cache, buffers, opened files and waiting opens sound,
      and runs to its end, except exactly in the cases of Breaks. */
  lemma ServeExact(fs: Fs, q: Request)
    requires Sound(fs) && Asks(fs, q)
    ensures Sound(Serve(fs, q).0) && Serve(fs, q).1 != Fault <==> !Breaks(fs, q)
  {
    match q
    case Name(op) => NameSoundExact(fs, op);
    case OpenFor(h, flags, names, heap) =>
      OpenSound(fs, h, flags, names, heap);
      OpenNoFault(fs, h, flags, names, heap);
    case TruncateTo(h, size, heap) =>
      LiveInode(fs, h);
      TruncateSoundExact(fs, InodeOf(fs, h), size, heap);
    case WriteAt(h, offset, bytes, heap) => WriteSoundExact(fs, h, offset, bytes, heap);
    case Downloaded(n, download) => DownloadEndsSound(fs, n, download);
    case UrlSet(n, size) => SetUrlExact(fs, n, size);
  }

  ghost predicate IsHistory(fss: seq<Fs>, qs: seq<Request>) {
    && |fss| == |qs| + 1
    && forall i :: 0 <= i < |qs| ==> Legal(fss[i], qs[i]) && Serve(fss[i], qs[i]).0 == fss[i + 1]
  }

  lemma EmptyIsSound(cacheLimit: int, maxBlocks: int)
    ensures Sound(Empty(cacheLimit, maxBlocks))
  {
    EmptyIsGood(cacheLimit, maxBlocks);
  }

  lemma StartIsSound(fs: Fs, cacheLimit: int, maxBlocks: int)
    requires fs == Empty(cacheLimit, maxBlocks)
    ensures Sound(fs)
  {
    EmptyIsSound(cacheLimit, maxBlocks);
  }

  lemma ServedIsSound(fs: Fs, q: Request, r: Fs)
    requires Sound(fs) && Legal(fs, q) && r == Serve(fs, q).0
    ensures Sound(r)
  {
    ServeExact(fs, q);
  }

  lemma HistoryStep(fss: seq<Fs>, qs: seq<Request>, i: nat)
    requires IsHistory(fss, qs) && 0 < i < |fss| && Sound(fss[i - 1])
    ensures Sound(fss[i])
  {
    ServedIsSound(fss[i - 1], qs[i - 1], fss[i]);
  }

  lemma {:induction false} HistoryKeepsSound(fss: seq<Fs>, qs: seq<Request>, i: nat)
    requires IsHistory(fss, qs) && i < |fss| && Sound(fss[0])
    ensures Sound(fss[i])
    decreases i
  {
    if i > 0 {
      HistoryKeepsSound(fss, qs, i - 1);
      HistoryStep(fss, qs, i);
    }
  }

  /** Over every run from the empty file system: counts are exact, nothing dangles, blocks
      and cache are accounted, buffers hold their files, and an opened regular file is Local
      or Loaded. */
  lemma HistoryIsSound(fss: seq<Fs>, qs: seq<Request>, cacheLimit: int, maxBlocks: int, i: nat)
    requires IsHistory(fss, qs) && fss[0] == Empty(cacheLimit, maxBlocks) && i < |fss|
    ensures Sound(fss[i])
  {
    StartIsSound(fss[0], cacheLimit, maxBlocks);
    HistoryKeepsSound(fss, qs, i);
  }

  // ----- contents over runs -----

  ghost predicate IsOpen(fs: Fs, n: int) {
    n in fs.inodes && fs.inodes[n].kind == Reg && exists f :: f in fs.files && OpenedOn(f, n)
  }

  /** A file that someone has open, or whose content is kept for the next to open it. */
  ghost predicate Present(fs: Fs, n: int) { IsOpen(fs, n) || (n in fs.inodes && Ready(fs.inodes[n])) }

  lemma PresentIsReady(fs: Fs, n: int)
    requires Sound(fs) && Present(fs, n)
    ensures Ready(fs.inodes[n]) && InBuffer(fs.inodes[n])
  {
    assert BufferOk(fs.inodes[n]);
  }

  /** Whether realloc grants the shrink of an O_TRUNC. */
  predicate ShrinkGranted(x: Inode, heap: Heap) { |x.data| * 4 % WORD / 5 <= heap.room }

  /** What a request does to the bytes c of the file n. */
  ghost function Effect(fs: Fs, q: Request, n: int, c: seq<int>): seq<int>
    requires Asks(fs, q)
  {
    match q
    case TruncateTo(h, size, _) => if InodeOf(fs, h) == n && Serve(fs, q).1.Ok? then Trunc(c, size) else c
    case WriteAt(h, offset, bytes, _) => if InodeOf(fs, h) == n && Serve(fs, q).1.Ok? then Splice(c, offset, bytes) else c
    case OpenFor(h, flags, _, heap) =>
      if InodeOf(fs, h) == n && !DirectoryFlag(flags) && TruncFlag(flags) && Access(flags) != 0 && ShrinkGranted(At(fs, n), heap)
      then [] else c
    case _ => c
  }

  ghost predicate Holds(fs: Fs, n: int, c: seq<int>) {
    n in fs.inodes && Ready(fs.inodes[n]) && InBuffer(fs.inodes[n]) && Content(fs.inodes[n]) == c
  }

  lemma TruncateEffect(fs: Fs, m: int, size: nat, heap: Heap, n: int)
    requires Sound(fs) && Present(fs, n) && heap.room < HALF && size < WORD && InReach(fs, m, size)
    ensures var (r, reply) := Truncate(fs, m, size, heap);
            Holds(r, n, if m == n && reply.Ok? then Trunc(Content(fs.inodes[n]), size) else Content(fs.inodes[n]))
  {
    PresentIsReady(fs, n);
    if m == n { TruncateRefines(fs, n, size, heap); } else { TruncateFrame(fs, m, size, heap, n); }
  }

  lemma StoreFrame(fs: Fs, n: int, offset: nat, bytes: seq<int>, m: int)
    requires m != n
    ensures At(Store(fs, n, offset, bytes).0, m) == At(fs, m)
  {
  }

  lemma WriteFrame(fs: Fs, h: int, offset: nat, bytes: seq<int>, heap: Heap, m: int)
    requires Live(fs, h) && m != InodeOf(fs, h)
    ensures At(Write(fs, h, offset, bytes, heap).0, m) == At(fs, m)
  {
    var n, end := InodeOf(fs, h), (offset + |bytes|) % WORD;
    TruncateFrame(fs, n, end, heap, m);
    StoreFrame(fs, n, offset, bytes, m);
    StoreFrame(Truncate(fs, n, end, heap).0, n, offset, bytes, m);
  }

  lemma AtHolds(fs: Fs, r: Fs, n: int)
    requires n in fs.inodes && fs.inodes[n].kind == Reg && Ready(fs.inodes[n]) && InBuffer(fs.inodes[n]) && At(r, n) == At(fs, n)
    ensures Holds(r, n, Content(fs.inodes[n]))
  {
  }

  lemma WriteEffect(fs: Fs, h: int, offset: nat, bytes: seq<int>, heap: Heap, n: int)
    requires Sound(fs) && Legal(fs, WriteAt(h, offset, bytes, heap)) && Present(fs, n)
    ensures var (r, reply) := Write(fs, h, offset, bytes, heap);
            Holds(r, n, if InodeOf(fs, h) == n && reply.Ok? then Splice(Content(fs.inodes[n]), offset, bytes) else Content(fs.inodes[n]))
  {
    PresentIsReady(fs, n);
    if InodeOf(fs, h) != n {
      WriteFrame(fs, h, offset, bytes, heap, n);
      AtHolds(fs, Write(fs, h, offset, bytes, heap).0, n);
    } else if Writable(fs, h) {
      WriteExact(fs, h, offset, bytes, heap);
      WriteFailKeeps(fs, h, offset, bytes, heap);
      if offset + |bytes| - fs.inodes[n].size < HALF { WriteRefines(fs, h, offset, bytes, heap); }
    }
  }

  /** n is as it was, or has lost its content. */
  ghost predicate SameOrLost(fs: Fs, r: Fs, n: int) { At(r, n) == At(fs, n) || !Ready(At(r, n)) }

  lemma FetchedKeeps(fs: Fs, r: Fs, n: int)
    requires Fetched(fs, r, n)
    ensures SameOrLost(fs, r, n)
  {
  }

  lemma AwaitFrame(fs: Fs, m: int, h: int, n: int)
    requires n != m
    ensures At(Await(fs, m, h).0, n) == At(fs, n)
  {
  }

  /** The end of fs_open for a file that has to be downloaded. */
  ghost function Fetch(f1: Fs, m: int, h: int, heap: Heap): (Fs, Reply) {
    if At(f1, m).state == Loading then Await(f1, m, h)
    else
      var (f2, reply) := OpenWget(f1, m, heap);
      if reply.Fail? then (f2, reply) else Await(f2, m, h)
  }

  lemma FetchIsOpen(fs: Fs, h: int, names: seq<int>, heap: Heap)
    requires Live(fs, h) && At(fs, InodeOf(fs, h)).state == Unloaded
    ensures OpenFile(fs, h, names, heap) == Fetch(Preload(fs, names, heap), InodeOf(fs, h), h, heap)
  {
  }

  lemma AwaitEntries(fs: Fs, m: int, h: int)
    ensures Await(fs, m, h).0.entries == fs.entries
  {
  }

  lemma OpenWgetFrame(fs: Fs, m: int, h: int, heap: Heap, n: int)
    requires Sound(fs) && m in fs.inodes && fs.inodes[m].kind == Reg && fs.inodes[m].state == Unloaded && heap.room < HALF
    ensures var f2 := OpenWget(fs, m, heap).0;
            && f2.entries == fs.entries && Await(f2, m, h).0.entries == fs.entries
            && SameOrLost(fs, f2, n) && (n != m ==> SameOrLost(fs, Await(f2, m, h).0, n))
  {
    OpenWgetSound(fs, m, heap, n);
    var f2 := OpenWget(fs, m, heap).0;
    FetchedKeeps(fs, f2, n);
    AwaitEntries(f2, m, h);
    if n != m { AwaitFrame(f2, m, h, n); }
  }

  lemma FetchFrame(fs: Fs, m: int, h: int, heap: Heap, n: int)
    requires Sound(fs) && m in fs.inodes && fs.inodes[m].kind == Reg && fs.inodes[m].state in {Unloaded, Loading} && heap.room < HALF
    ensures Fetch(fs, m, h, heap).0.entries == fs.entries
    ensures n != m ==> SameOrLost(fs, Fetch(fs, m, h, heap).0, n)
  {
    if At(fs, m).state == Unloaded {
      OpenWgetFrame(fs, m, h, heap, n);
    } else {
      AwaitEntries(fs, m, h);
      if n != m { AwaitFrame(fs, m, h, n); }
    }
  }

  lemma PreloadFrame(fs: Fs, names: seq<int>, heap: Heap, m: int, n: int)
    requires Sound(fs) && m in fs.inodes && fs.inodes[m].kind == Reg && fs.inodes[m].state == Unloaded && heap.room < HALF
    ensures var f1 := Preload(fs, names, heap);
            && Sound(f1) && f1.entries == fs.entries && SameOrLost(fs, f1, n)
            && m in f1.inodes && f1.inodes[m].kind == Reg && f1.inodes[m].state in {Unloaded, Loading}
  {
    PreloadSound(fs, names, heap, n);
    PreloadSound(fs, names, heap, m);
    SameCounts(fs, Preload(fs, names, heap), m);
  }

  lemma LostStaysLost(fs: Fs, f1: Fs, r: Fs, n: int)
    requires SameOrLost(fs, f1, n) && SameOrLost(f1, r, n)
    ensures SameOrLost(fs, r, n)
  {
  }

  /** Opening a file does not touch the bytes of another, except that it may evict them, and no
      names. */
  lemma OpenFileFrame(fs: Fs, h: int, names: seq<int>, heap: Heap, n: int)
    requires Sound(fs) && Live(fs, h) && At(fs, InodeOf(fs, h)).kind == Reg && heap.room < HALF
    ensures OpenFile(fs, h, names, heap).0.entries == fs.entries
    ensures Ready(At(fs, n)) ==> SameOrLost(fs, OpenFile(fs, h, names, heap).0, n)
  {
    var m := InodeOf(fs, h);
    if At(fs, m).state == Unloaded {
      FetchIsOpen(fs, h, names, heap);
      PreloadFrame(fs, names, heap, m, n);
      var f1 := Preload(fs, names, heap);
      FetchFrame(f1, m, h, heap, n);
      if Ready(At(fs, n)) { LostStaysLost(fs, f1, Fetch(f1, m, h, heap).0, n); }
    } else if At(fs, m).state == Loading && n != m {
      AwaitFrame(fs, m, h, n);
    }
  }

  lemma LiveHasOpenCount(fs: Fs, h: int)
    requires Sound(fs) && Live(fs, h)
    ensures InodeOf(fs, h) in fs.inodes && fs.inodes[InodeOf(fs, h)].openCount > 0
  {
    LiveInode(fs, h);
    ReferencesAreNonNegative(fs, InodeOf(fs, h));
    assert fs.files[h] in fs.files;
  }

  lemma OpenEffect(fs: Fs, h: int, flags: nat, names: seq<int>, heap: Heap, n: int)
    requires Sound(fs) && Live(fs, h) && heap.room < HALF && Present(fs, n)
    requires Ready(At(Open(fs, h, flags, names, heap).0, n))
    ensures Holds(Open(fs, h, flags, names, heap).0, n, Effect(fs, OpenFor(h, flags, names, heap), n, Content(fs.inodes[n])))
  {
    var m := InodeOf(fs, h);
    PresentIsReady(fs, n);
    LiveInode(fs, h);
    var f2 := SetFile(fs, h, FileOf(fs, h).(isOpened := false, flags := flags));
    SetFileSound(fs, h, FileOf(fs, h).(isOpened := false, flags := flags));
    if fs.inodes[m].kind == Reg && !DirectoryFlag(flags) {
      if TruncFlag(flags) && Access(flags) != 0 {
        OpenTruncEffect(f2, m, h, heap, n);
        OpenFileFrame(Truncate(f2, m, 0, heap).0, h, names, heap, n);
      } else {
        OpenFileFrame(f2, h, names, heap, n);
      }
    }
  }

  lemma TruncateToZero(fs: Fs, n: int, heap: Heap)
    requires n in fs.inodes && Ready(fs.inodes[n]) && InBuffer(fs.inodes[n])
    ensures fs.inodes[n].size > 0 ==> (Truncate(fs, n, 0, heap).1 == Ok(0) <==> ShrinkGranted(fs.inodes[n], heap))
  {
    SignOfDifference(0, fs.inodes[n].size);
  }

  lemma OpenTruncEffect(fs: Fs, m: int, h: int, heap: Heap, n: int)
    requires Sound(fs) && m in fs.inodes && fs.inodes[m].kind == Reg && heap.room < HALF
    requires Live(fs, h) && InodeOf(fs, h) == m
    requires n in fs.inodes && Ready(fs.inodes[n]) && InBuffer(fs.inodes[n])
    ensures var r := Truncate(fs, m, 0, heap).0;
            && Sound(r) && r.files == fs.files && At(r, m).kind == Reg
            && Holds(r, n, if m == n && ShrinkGranted(At(fs, n), heap) then [] else Content(fs.inodes[n]))
  {
    OpenTruncSound(fs, m, h, heap);
    if m == n {
      TruncateToZero(fs, n, heap);
      TruncateRefines(fs, n, 0, heap);
      TruncateShape(fs, n, 0, heap);
      MakeLocalKeeps(fs, n);
    } else {
      TruncateFrame(fs, m, 0, heap, n);
    }
  }

  lemma NameEffect(fs: Fs, op: Op, n: int)
    requires Sound(fs) && Legal(fs, Name(op)) && Present(fs, n) && n in Step(fs, op).0.inodes
    ensures Holds(Step(fs, op).0, n, Content(fs.inodes[n]))
  {
    PresentIsReady(fs, n);
    StepQuiet(fs, op);
    var r := Step(fs, op).0;
    assert Kept(fs.inodes[n], r.inodes[n]);
  }

  lemma DownloadEffect(fs: Fs, m: int, download: Option<seq<int>>, n: int)
    requires n != m
    ensures At(DownloadEnds(fs, m, download), n) == At(fs, n)
  {
  }

  /** A request changes the bytes of a present file as the sequence model says. */
  lemma ServeEffect(fs: Fs, q: Request, n: int)
    requires Sound(fs) && Legal(fs, q) && Present(fs, n) && n in Serve(fs, q).0.inodes && Ready(Serve(fs, q).0.inodes[n])
    ensures InBuffer(fs.inodes[n]) && Holds(Serve(fs, q).0, n, Effect(fs, q, n, Content(fs.inodes[n])))
  {
    PresentIsReady(fs, n);
    match q
    case Name(op) => NameEffect(fs, op, n);
    case OpenFor(h, flags, names, heap) => OpenEffect(fs, h, flags, names, heap, n);
    case TruncateTo(h, size, heap) => TruncateEffect(fs, InodeOf(fs, h), size, heap, n);
    case WriteAt(h, offset, bytes, heap) => WriteEffect(fs, h, offset, bytes, heap, n);
    case Downloaded(m, download) =>
      DownloadEffect(fs, m, download, n);
      AtHolds(fs, DownloadEnds(fs, m, download), n);
    case UrlSet(m, size) =>
      if n == m { assert SetUrl(fs, m, size).0 == fs; }
      AtHolds(fs, SetUrl(fs, m, size).0, n);
  }

  /** The bytes after the first i requests of a history. */
  ghost function Replay(fss: seq<Fs>, qs: seq<Request>, n: int, c: seq<int>, i: nat): seq<int>
    requires IsHistory(fss, qs) && i < |fss|
  {
    if i == 0 then c else Effect(fss[i - 1], qs[i - 1], n, Replay(fss, qs, n, c, i - 1))
  }

  lemma ServedContent(fs: Fs, q: Request, r: Fs, n: int, c: seq<int>)
    requires Sound(fs) && Legal(fs, q) && r == Serve(fs, q).0 && Present(fs, n) && Present(r, n) && Holds(fs, n, c)
    ensures Sound(r) && Holds(r, n, Effect(fs, q, n, c))
  {
    ServeExact(fs, q);
    PresentIsReady(r, n);
    ServeEffect(fs, q, n);
  }

  /** As long as someone has a file open, or its content is kept, any interleaving of requests
      of all clients leaves the bytes of the sequence model in it; with ReadRefines every read
      returns them. */
  lemma {:induction false} HistoryContent(fss: seq<Fs>, qs: seq<Request>, n: int, c: seq<int>, i: nat)
    requires IsHistory(fss, qs) && i < |fss| && Sound(fss[0]) && Holds(fss[0], n, c)
    requires forall j :: 0 <= j <= i ==> Present(fss[j], n)
    ensures Sound(fss[i]) && Holds(fss[i], n, Replay(fss, qs, n, c, i))
    decreases i
  {
    if i > 0 {
      HistoryContent(fss, qs, n, c, i - 1);
      ServedContent(fss[i - 1], qs[i - 1], fss[i], n, Replay(fss, qs, n, c, i - 1));
    }
  }

  // ----- from the download on -----

  /** What a download leaves in the buffer is the first bytes received, as many as the file has;
      whatever came after them is ignored. */
  lemma DownloadContent(fs: Fs, n: int, bytes: seq<int>)
    requires Sound(fs) && Asks(fs, Downloaded(n, Some(bytes))) && fs.inodes[n].size <= |bytes|
    ensures 0 <= fs.inodes[n].size && Holds(DownloadEnds(fs, n, Some(bytes)), n, bytes[..fs.inodes[n].size])
  {
    assert BufferOk(fs.inodes[n]);
    var c := bytes[..fs.inodes[n].size];
    assert c[..|c|] == c;
  }

  /** The file that waited is opened, and its reads return the downloaded bytes. */
  lemma WaiterReads(fs: Fs, n: int, bytes: seq<int>, h: int, offset: nat, count: nat)
    requires Sound(fs) && Asks(fs, Downloaded(n, Some(bytes))) && fs.inodes[n].size <= |bytes| && fs.inodes[n].waiter == Some(h)
    requires Live(fs, h) && FileOf(fs, h).flags % 4 != WRONLY
    ensures var r := DownloadEnds(fs, n, Some(bytes));
            && 0 <= fs.inodes[n].size && Live(r, h) && r.files[h] == Some(FileOf(fs, h).(isOpened := true)) && InodeOf(r, h) == n
            && var s := Slice(bytes[..fs.inodes[n].size], offset, count); Read(r, h, offset, count) == (Ok(|s|), s)
  {
    DownloadContent(fs, n, bytes);
    assert Awaits(fs, n, h);
    var r := DownloadEnds(fs, n, Some(bytes));
    assert r.files[h] == Some(FileOf(fs, h).(isOpened := true));
    ReadRefines(r, h, offset, count);
  }

  /** A failed or short download gives the file no content and opens nothing; it can be opened
      again. */
  lemma DownloadFails(fs: Fs, n: int, download: Option<seq<int>>)
    requires Sound(fs) && Asks(fs, Downloaded(n, download)) && (download.Some? ==> |download.value| < fs.inodes[n].size)
    ensures var r := DownloadEnds(fs, n, download);
            r.files == fs.files && r.cache == fs.cache && r.inodes == fs.inodes[n := fs.inodes[n].(state := Unloaded, data := [], waiter := None)]
  {
  }

  lemma DownloadedHolds(fs: Fs, n: int, bytes: seq<int>, r: Fs, c: seq<int>)
    requires Sound(fs) && Asks(fs, Downloaded(n, Some(bytes))) && r == DownloadEnds(fs, n, Some(bytes))
    requires c <= bytes && |c| == fs.inodes[n].size
    ensures Sound(r) && Holds(r, n, c)
  {
    DownloadContent(fs, n, bytes);
    DownloadEndsSound(fs, n, Some(bytes));
  }

  /** In a history that starts where a download of n has just ended, the content of n is the
      part c of the download that the file has room for, changed by the requests since: as long
      as n stays open or its content is kept. */
  lemma DownloadHistory(fs: Fs, n: int, bytes: seq<int>, c: seq<int>, fss: seq<Fs>, qs: seq<Request>, i: nat)
    requires Sound(fs) && Asks(fs, Downloaded(n, Some(bytes))) && c <= bytes && |c| == fs.inodes[n].size
    requires IsHistory(fss, qs) && i < |fss| && fss[0] == DownloadEnds(fs, n, Some(bytes))
    requires forall j :: 0 <= j <= i ==> Present(fss[j], n)
    ensures Holds(fss[i], n, Replay(fss, qs, n, c, i))
  {
    DownloadedHolds(fs, n, bytes, fss[0], c);
    HistoryContent(fss, qs, n, c, i);
  }

  // ----- how an open ends -----

  /** h is open on n, waits for the download of n, or is not open. */
  ghost predicate Opened(r: Fs, reply: Reply, h: int, n: int, flags: int) {
    && Live(r, h)
    && match reply
       case Ok(_) => FileOf(r, h) == FsFile(n, true, flags)
       case Async => FileOf(r, h) == FsFile(n, false, flags) && Awaits(r, n, h)
       case _ => InodeOf(r, h) == n && !FileOf(r, h).isOpened
  }

  lemma AwaitOpens(fs: Fs, n: int, h: int)
    requires n in fs.inodes && fs.inodes[n].kind == Reg && fs.inodes[n].state == Loading && Live(fs, h) && FileOf(fs, h).inode == n
    requires !FileOf(fs, h).isOpened
    ensures var (r, reply) := Await(fs, n, h); Opened(r, reply, h, n, FileOf(fs, h).flags)
  {
  }

  lemma FetchOpens(fs: Fs, n: int, h: int, heap: Heap)
    requires Sound(fs) && n in fs.inodes && fs.inodes[n].kind == Reg && fs.inodes[n].state in {Unloaded, Loading} && heap.room < HALF
    requires Live(fs, h) && FileOf(fs, h).inode == n && !FileOf(fs, h).isOpened
    ensures var (r, reply) := Fetch(fs, n, h, heap); Opened(r, reply, h, n, FileOf(fs, h).flags)
  {
    if fs.inodes[n].state == Loading {
      AwaitOpens(fs, n, h);
    } else {
      OpenWgetSound(fs, n, heap, n);
      var (f2, reply) := OpenWget(fs, n, heap);
      if !reply.Fail? { AwaitOpens(f2, n, h); }
    }
  }

  lemma OpenFileOpens(fs: Fs, h: int, names: seq<int>, heap: Heap)
    requires Sound(fs) && Live(fs, h) && At(fs, InodeOf(fs, h)).kind == Reg && heap.room < HALF && !FileOf(fs, h).isOpened
    ensures var (r, reply) := OpenFile(fs, h, names, heap); Opened(r, reply, h, InodeOf(fs, h), FileOf(fs, h).flags)
  {
    var n := InodeOf(fs, h);
    if At(fs, n).state == Unloaded {
      PreloadSound(fs, names, heap, n);
      PreloadFrame(fs, names, heap, n, n);
      FetchOpens(Preload(fs, names, heap), n, h, heap);
      FetchIsOpen(fs, h, names, heap);
    } else if At(fs, n).state == Loading {
      AwaitOpens(fs, n, h);
    }
  }

  /** fs_open opens the file with its flags, promises to when the download ends, or leaves it
      closed. */
  lemma OpenEnds(fs: Fs, h: int, flags: nat, names: seq<int>, heap: Heap)
    requires Sound(fs) && Live(fs, h) && heap.room < HALF
    ensures var (r, reply) := Open(fs, h, flags, names, heap); Opened(r, reply, h, InodeOf(fs, h), flags)
  {
    var n := InodeOf(fs, h);
    LiveInode(fs, h);
    SetFileSound(fs, h, FileOf(fs, h).(isOpened := false, flags := flags));
    var f2 := SetFile(fs, h, FileOf(fs, h).(isOpened := false, flags := flags));
    if fs.inodes[n].kind == Reg {
      if TruncFlag(flags) && Access(flags) != 0 {
        OpenTruncSound(f2, n, h, heap);
        OpenFileOpens(Truncate(f2, n, 0, heap).0, h, names, heap);
      } else {
        OpenFileOpens(f2, h, names, heap);
      }
    }
  }

  /** The bits of the open flags: 9 truncates, 16 asks for a directory, 0 and 1 are the
      access mode. */
  lemma FlagBits(b: seq<bool>)
    requires |b| > 16
    ensures TruncFlag(Bits.Num(b)) <==> b[9]
    ensures DirectoryFlag(Bits.Num(b)) <==> b[16]
    ensures Access(Bits.Num(b)) == (if b[0] then 1 else 0) + (if b[1] then 2 else 0)
  {
    var low9, high9 := Bits.NumBit(b, 9);
    var low16, high16 := Bits.NumBit(b, 16);
    FlagPowers();
    assert Bits.Num(b) == (if b[0] then 1 else 0) + 2 * Bits.Num(b[1..]);
    assert Bits.Num(b[1..]) == (if b[1] then 1 else 0) + 2 * Bits.Num(b[1..][1..]);
  }

  lemma FlagPowers()
    ensures Bits.Pow2(9) == 0x200 && Bits.Pow2(16) == 0x10000
  {
    assert Bits.Pow2(4) == 16;
    assert Bits.Pow2(8) == 0x100;
    assert Bits.Pow2(12) == 0x1000;
  }

  lemma OpenFileReply(fs: Fs, h: int, names: seq<int>, heap: Heap)
    requires Live(fs, h)
    ensures OpenFile(fs, h, names, heap).1 in {Ok(0), Async, Fail(EIO)}
  {
  }

  /** What fs_open refuses: something that is no directory where one is asked for, and anything
      else but files and directories. */
  lemma OpenRefuses(fs: Fs, h: int, flags: seq<bool>, names: seq<int>, heap: Heap)
    requires Live(fs, h) && |flags| > 16
    ensures var reply, kind := Open(fs, h, Bits.Num(flags), names, heap).1, At(fs, InodeOf(fs, h)).kind;
            && (reply == Fail(ENOTDIR) <==> flags[16] && kind != Dir)
            && (reply == Fail(EINVAL) <==> !flags[16] && kind !in {Dir, Reg})
  {
    FlagBits(flags);
    var n, f := InodeOf(fs, h), Bits.Num(flags);
    var f2 := SetFile(fs, h, FileOf(fs, h).(isOpened := false, flags := f));
    OpenFileReply(f2, h, names, heap);
    OpenFileReply(Truncate(f2, n, 0, heap).0, h, names, heap);
  }

  // ----- names over histories -----

  lemma TruncateEntries(fs: Fs, n: int, size: nat, heap: Heap)
    requires size < WORD
    ensures Truncate(fs, n, size, heap).0.entries == fs.entries
  {
  }

  lemma OpenEntries(fs: Fs, h: int, flags: nat, names: seq<int>, heap: Heap)
    requires Sound(fs) && Live(fs, h) && heap.room < HALF
    ensures Open(fs, h, flags, names, heap).0.entries == fs.entries
  {
    var n := InodeOf(fs, h);
    LiveInode(fs, h);
    SetFileSound(fs, h, FileOf(fs, h).(isOpened := false, flags := flags));
    var f2 := SetFile(fs, h, FileOf(fs, h).(isOpened := false, flags := flags));
    if fs.inodes[n].kind == Reg {
      if TruncFlag(flags) && Access(flags) != 0 {
        OpenTruncSound(f2, n, h, heap);
        TruncateEntries(f2, n, 0, heap);
        OpenFileFrame(Truncate(f2, n, 0, heap).0, h, names, heap, n);
      } else {
        OpenFileFrame(f2, h, names, heap, n);
      }
    }
  }

  lemma WriteEntries(fs: Fs, h: int, offset: nat, bytes: seq<int>, heap: Heap)
    requires Live(fs, h)
    ensures Write(fs, h, offset, bytes, heap).0.entries == fs.entries
  {
    TruncateEntries(fs, InodeOf(fs, h), (offset + |bytes|) % WORD, heap);
  }

  lemma DataKeepsEntries(fs: Fs, q: Request)
    requires Sound(fs) && Legal(fs, q) && !q.Name?
    ensures Serve(fs, q).0.entries == fs.entries
  {
    match q
    case OpenFor(h, flags, names, heap) => OpenEntries(fs, h, flags, names, heap);
    case TruncateTo(h, size, heap) => TruncateEntries(fs, InodeOf(fs, h), size, heap);
    case WriteAt(h, offset, bytes, heap) => WriteEntries(fs, h, offset, bytes, heap);
    case _ =>
  }

  lemma ServedTree(fs: Fs, q: Request, r: Fs)
    requires Sound(fs) && FsTree.Unique(fs.entries) && Legal(fs, q) && r == Serve(fs, q).0
    ensures FsTree.Unique(r.entries)
    ensures FsTree.TreeOf(r) == if q.Name? then FsTree.TreeAfter(fs, FsTree.TreeOf(fs), q.op) else FsTree.TreeOf(fs)
  {
    if q.Name? { FsTree.StepTree(fs, q.op); } else { DataKeepsEntries(fs, q); }
  }

  /** Over every history names are unique, and change by the requests on names only, each as
      TreeAfter says. */
  lemma {:induction false} HistoryTree(fss: seq<Fs>, qs: seq<Request>, cacheLimit: int, maxBlocks: int, i: nat)
    requires IsHistory(fss, qs) && fss[0] == Empty(cacheLimit, maxBlocks) && i < |fss|
    ensures Sound(fss[i]) && FsTree.Unique(fss[i].entries)
    ensures i > 0 ==> FsTree.TreeOf(fss[i]) ==
                        if qs[i - 1].Name? then FsTree.TreeAfter(fss[i - 1], FsTree.TreeOf(fss[i - 1]), qs[i - 1].op)
                        else FsTree.TreeOf(fss[i - 1])
    decreases i
  {
    HistoryIsSound(fss, qs, cacheLimit, maxBlocks, i);
    if i == 0 {
      FsTree.EmptyIsUnique(cacheLimit, maxBlocks);
    } else {
      HistoryTree(fss, qs, cacheLimit, maxBlocks, i - 1);
      ServedTree(fss[i - 1], qs[i - 1], fss[i]);
    }
  }
}
