// All operations of temu/fs_net.c together: every run keeps counts, space, cache and
// buffers sound, and an open file's content follows the sequence model.

module FsRuns {
  import opened Options
  import opened FsNet
  import opened FsData
  import opened FsSpace
  import opened FsOps
  import opened FsContent
  import opened FsLoads

  // ----- resizing and writing -----

  lemma MakeLocalSound(fs: Fs, n: int)
    requires Sound(fs) && n in fs.inodes && fs.inodes[n].kind == Reg
    ensures Sound(MakeLocal(fs, n))
  {
    var x := fs.inodes[n];
    if x.state == Loaded {
      var y := x.(state := Local);
      UncacheKeepsSpace(fs, n, y, MakeLocal(fs, n));
      assert BufferOk(y) by { assert BufferOk(x); }
      OneInodeHealthy(fs, MakeLocal(fs, n), n, y);
    }
  }

  /** Changing the buffer of a file that is not in the cache. */
  lemma ResizeSound(fs: Fs, n: int, x: Inode)
    requires Sound(fs) && n in fs.inodes && fs.inodes[n].kind == Reg && SameRole(fs.inodes[n], x)
    requires fs.inodes[n].state != Loaded && x.state != Loaded && BufferOk(x)
    requires Ready(fs.inodes[n]) ==> Ready(x)
    requires forall h :: x.state == Loading && x.waiter == Some(h) ==> Live(fs, h) && InodeOf(fs, h) == n
    ensures Sound(Resize(fs, n, x))
  {
    ResizeKeepsSpace(fs, n, x);
    if !Ready(x) { NotReadyNotOpened(fs, n); }
    OneInodeHealthy(fs, Resize(fs, n, x), n, x);
  }

  /** The same without a change of size. */
  lemma RestateSound(fs: Fs, n: int, x: Inode)
    requires Sound(fs) && n in fs.inodes && fs.inodes[n].kind == Reg && SameRole(fs.inodes[n], x)
    requires fs.inodes[n].state != Loaded && x.state != Loaded && BufferOk(x) && x.size == fs.inodes[n].size
    requires Ready(fs.inodes[n]) ==> Ready(x)
    requires forall h :: x.state == Loading && x.waiter == Some(h) ==> Live(fs, h) && InodeOf(fs, h) == n
    ensures Sound(Set(fs, n, x))
  {
    ResizeSound(fs, n, x);
    assert Resize(fs, n, x).blocks == fs.blocks;
  }

  /** The sizes the source handles: fs_truncate of a file with content below old size + 2^63. */
  ghost predicate InReach(fs: Fs, n: int, size: int) { Ready(At(fs, n)) ==> size - At(fs, n).size < HALF }

  /** fs_truncate changes nothing, or makes the file local and resizes it. */
  lemma TruncateShape(fs: Fs, n: int, size: nat, heap: Heap)
    requires size < WORD && n in fs.inodes && fs.inodes[n].kind == Reg
    ensures var x, r := fs.inodes[n], Truncate(fs, n, size, heap).0;
            || r == fs
            || (x.state == Unloaded && r == Resize(fs, n, x.(size := size, state := if size == 0 then Local else Unloaded)))
            || (Ready(x) && n in r.inodes && r == Resize(MakeLocal(fs, n), n, r.inodes[n]) &&
                r.inodes[n] == x.(state := Local, size := size, data := r.inodes[n].data))
  {
    MakeLocalKeeps(fs, n);
  }

  lemma TruncateSound(fs: Fs, n: int, size: nat, heap: Heap)
    requires Sound(fs) && n in fs.inodes && size < WORD && InReach(fs, n, size) && heap.room < HALF
    ensures Sound(Truncate(fs, n, size, heap).0)
  {
    var x, r := fs.inodes[n], Truncate(fs, n, size, heap).0;
    if x.kind == Reg && r != fs {
      assert BufferOk(x);
      TruncateShape(fs, n, size, heap);
      if Ready(x) {
        TruncateRefines(fs, n, size, heap);
        MakeLocalSound(fs, n);
        MakeLocalKeeps(fs, n);
        ResizeSound(MakeLocal(fs, n), n, r.inodes[n]);
      } else {
        ResizeSound(fs, n, r.inodes[n]);
      }
    }
  }

  lemma StoreSound(fs: Fs, n: int, offset: nat, bytes: seq<int>)
    requires Sound(fs) && n in fs.inodes && fs.inodes[n].kind == Reg && Ready(fs.inodes[n])
    ensures Sound(Store(fs, n, offset, bytes).0)
  {
    MakeLocalSound(fs, n);
    MakeLocalKeeps(fs, n);
    var f1, r := MakeLocal(fs, n), Store(fs, n, offset, bytes).0;
    if r != f1 {
      assert BufferOk(f1.inodes[n]);
      RestateSound(f1, n, r.inodes[n]);
    }
  }

  lemma OpenedIsReady(fs: Fs, h: int)
    requires Sound(fs) && Live(fs, h) && FileOf(fs, h).isOpened && At(fs, InodeOf(fs, h)).kind == Reg
    ensures InodeOf(fs, h) in fs.inodes && Ready(fs.inodes[InodeOf(fs, h)]) && InBuffer(fs.inodes[InodeOf(fs, h)])
  {
    assert fs.files[h] in fs.files;
    assert BufferOk(fs.inodes[InodeOf(fs, h)]);
  }

  lemma WriteDataSound(fs: Fs, n: int, offset: nat, bytes: seq<int>, heap: Heap)
    requires Sound(fs) && n in fs.inodes && fs.inodes[n].kind == Reg && Ready(fs.inodes[n]) && heap.room < HALF
    requires bytes != [] && InBuffer(fs.inodes[n]) && offset + |bytes| - fs.inodes[n].size < HALF
    ensures Sound(WriteData(fs, n, offset, bytes, heap).0)
  {
    var end := offset + |bytes|;
    assert end % WORD == end;
    assert WriteData(fs, n, offset, bytes, heap) ==
      if end <= fs.inodes[n].size then Store(fs, n, offset, bytes)
      else StoreExtended(fs, n, Truncate(fs, n, end, heap), offset, bytes);
    if end <= fs.inodes[n].size {
      StoreSound(fs, n, offset, bytes);
    } else {
      WriteBeyondSound(fs, n, end, Truncate(fs, n, end, heap), offset, bytes, heap);
    }
  }

  lemma TruncateReady(fs: Fs, n: int, size: nat, heap: Heap)
    requires Sound(fs) && n in fs.inodes && Ready(fs.inodes[n]) && InBuffer(fs.inodes[n])
    requires heap.room < HALF && size < WORD && size - fs.inodes[n].size < HALF
    ensures var (r, reply) := Truncate(fs, n, size, heap);
            Sound(r) && (reply == Ok(0) ==> n in r.inodes && Ready(r.inodes[n]))
  {
    TruncateSound(fs, n, size, heap);
    TruncateRefines(fs, n, size, heap);
  }

  lemma WriteBeyondSound(fs: Fs, n: int, end: nat, extended: (Fs, Reply), offset: nat, bytes: seq<int>, heap: Heap)
    requires Sound(fs) && n in fs.inodes && fs.inodes[n].kind == Reg && Ready(fs.inodes[n]) && heap.room < HALF
    requires InBuffer(fs.inodes[n]) && end < WORD && end - fs.inodes[n].size < HALF
    requires extended == Truncate(fs, n, end, heap)
    ensures Sound(StoreExtended(fs, n, extended, offset, bytes).0)
  {
    TruncateReady(fs, n, end, heap);
    if extended.1 == Ok(0) { StoreSound(extended.0, n, offset, bytes); }
  }

  lemma WriteSound(fs: Fs, h: int, offset: nat, bytes: seq<int>, heap: Heap)
    requires Sound(fs) && Live(fs, h) && heap.room < HALF && InReach(fs, InodeOf(fs, h), offset + |bytes|)
    ensures Sound(Write(fs, h, offset, bytes, heap).0)
  {
    var n := InodeOf(fs, h);
    if FileOf(fs, h).isOpened && At(fs, n).kind == Reg && bytes != [] {
      OpenedIsReady(fs, h);
      if FileOf(fs, h).flags % 4 != 0 { WriteDataSound(fs, n, offset, bytes, heap); }
    }
  }

  // ----- opening -----

  /** What fs_open_wget and fs_preload_files do to the inode m. */
  ghost predicate Fetched(fs: Fs, r: Fs, m: int) {
    || At(r, m) == At(fs, m)
    || (At(fs, m).state == Loaded && At(fs, m).openCount == 0 && At(r, m).kind == At(fs, m).kind && At(r, m).state in {Unloaded, Loading})
    || (At(fs, m).state == Unloaded && At(r, m).kind == At(fs, m).kind && At(r, m).state == Loading)
  }

  lemma TrimmedFor(fs: Fs, n: int, m: int)
    requires Sound(fs) && n in fs.inodes && fs.inodes[n].kind == Reg && fs.inodes[n].state == Unloaded
    ensures var f1 := TrimCache(fs, At(fs, n).size);
            && Sound(f1) && SameNames(fs, f1) && f1.files == fs.files && Fetched(fs, f1, m)
            && At(f1, n) == At(fs, n) && n in f1.inodes
  {
    var added := Signed(At(fs, n).size);
    TrimSound(fs, |fs.cache|, added);
    TrimFrame(fs, |fs.cache|, added, n);
    TrimFrame(fs, |fs.cache|, added, m);
    assert m in fs.cache ==> Cached(fs.inodes, m);
  }

  lemma OpenWgetSound(fs: Fs, n: int, heap: Heap, m: int)
    requires Sound(fs) && n in fs.inodes && fs.inodes[n].kind == Reg && fs.inodes[n].state == Unloaded && heap.room < HALF
    ensures var (r, reply) := OpenWget(fs, n, heap);
            && Sound(r) && SameNames(fs, r) && r.files == fs.files && Fetched(fs, r, m)
            && (reply == Fail(EIO) || (reply == Ok(0) && n in r.inodes && r.inodes[n].kind == Reg && r.inodes[n].state == Loading))
  {
    var f1 := TrimCache(fs, At(fs, n).size);
    TrimmedFor(fs, n, m);
    var (r, reply) := OpenWget(fs, n, heap);
    if reply == Ok(0) {
      RestateSound(f1, n, r.inodes[n]);
    }
  }

  lemma {:induction false} PreloadSound(fs: Fs, names: seq<int>, heap: Heap, m: int)
    requires Sound(fs) && heap.room < HALF
    ensures var r := Preload(fs, names, heap);
            Sound(r) && SameNames(fs, r) && r.files == fs.files && Fetched(fs, r, m)
    decreases |names|
  {
    if names != [] {
      var x := At(fs, names[0]);
      if x.kind == Reg && x.state == Unloaded {
        OpenWgetSound(fs, names[0], heap, m);
        var f1 := OpenWget(fs, names[0], heap).0;
        SameCounts(fs, f1, m);
        PreloadSound(f1, names[1..], heap, m);
        SameNamesTrans(fs, f1, Preload(f1, names[1..], heap));
      } else {
        PreloadSound(fs, names[1..], heap, m);
      }
    }
  }

  lemma SameCounts(fs: Fs, r: Fs, m: int)
    requires SameNames(fs, r)
    ensures At(fs, m).openCount == At(r, m).openCount && At(fs, m).kind == At(r, m).kind && (m in r.inodes <==> m in fs.inodes)
  {
    if m in fs.inodes { assert SameRole(fs.inodes[m], r.inodes[m]); }
  }

  lemma AwaitSound(fs: Fs, n: int, h: int)
    requires Sound(fs) && n in fs.inodes && fs.inodes[n].kind == Reg && fs.inodes[n].state == Loading
    requires Live(fs, h) && InodeOf(fs, h) == n
    ensures Sound(Await(fs, n, h).0)
  {
    var x := fs.inodes[n];
    assert BufferOk(x);
    RestateSound(fs, n, x.(waiter := Some(h)));
  }

  /** A file record changes, but not its inode. */
  lemma SetFileSound(fs: Fs, h: int, f: FsFile)
    requires Sound(fs) && Live(fs, h) && f.inode == InodeOf(fs, h)
    requires f.isOpened && At(fs, f.inode).kind == Reg ==> Ready(At(fs, f.inode))
    ensures Sound(SetFile(fs, h, f))
  {
    var r := SetFile(fs, h, f);
    SameNamesKeeps(fs, r);
    FilesTakeNoSpace(fs, r.files);
    forall g | g in r.files && g.Some? && g.value.isOpened && At(r, g.value.inode).kind == Reg
      ensures Ready(At(r, g.value.inode))
    {
      assert g == Some(f) || g in fs.files;
    }
    forall m, k | Awaits(r, m, k) ensures Live(r, k) && InodeOf(r, k) == m { assert Awaits(fs, m, k); }
  }

  lemma OpenFileSound(fs: Fs, h: int, names: seq<int>, heap: Heap)
    requires Sound(fs) && Live(fs, h) && At(fs, InodeOf(fs, h)).kind == Reg && heap.room < HALF
    ensures Sound(OpenFile(fs, h, names, heap).0)
  {
    var n := InodeOf(fs, h);
    match fs.inodes[n].state
    case Local => SetFileSound(fs, h, FileOf(fs, h).(isOpened := true));
    case Loaded =>
      SetFileSound(fs, h, FileOf(fs, h).(isOpened := true));
      ToFrontSound(SetFile(fs, h, FileOf(fs, h).(isOpened := true)), n);
    case Loading => AwaitSound(fs, n, h);
    case Unloaded =>
      PreloadSound(fs, names, heap, n);
      var f1 := Preload(fs, names, heap);
      SameCounts(fs, f1, n);
      if f1.inodes[n].state == Loading {
        AwaitSound(f1, n, h);
      } else {
        OpenWgetSound(f1, n, heap, n);
        var (f2, reply) := OpenWget(f1, n, heap);
        if !reply.Fail? { AwaitSound(f2, n, h); }
      }
  }

  lemma ToFrontSound(fs: Fs, n: int)
    requires Sound(fs) && n in fs.inodes && fs.inodes[n].kind == Reg && fs.inodes[n].state == Loaded
    ensures Sound(fs.(cache := [n] + Without(fs.cache, n)))
  {
    var r := fs.(cache := [n] + Without(fs.cache, n));
    ToFrontKeepsSpace(fs, n, r);
    OneInodeHealthy(fs, r, n, fs.inodes[n]);
  }

  /** The file was truncated on request, or not. */
  lemma OpenTruncSound(fs: Fs, n: int, h: int, heap: Heap)
    requires Sound(fs) && n in fs.inodes && fs.inodes[n].kind == Reg && heap.room < HALF && Live(fs, h) && InodeOf(fs, h) == n
    ensures var r := Truncate(fs, n, 0, heap).0; Sound(r) && r.files == fs.files && At(r, n).kind == Reg
  {
    assert BufferOk(fs.inodes[n]);
    TruncateSound(fs, n, 0, heap);
    TruncateShape(fs, n, 0, heap);
    MakeLocalKeeps(fs, n);
  }

  lemma OpenSound(fs: Fs, h: int, flags: nat, names: seq<int>, heap: Heap)
    requires Sound(fs) && Live(fs, h) && heap.room < HALF
    ensures Sound(Open(fs, h, flags, names, heap).0)
  {
    var n := InodeOf(fs, h);
    LiveInode(fs, h);
    SetFileSound(fs, h, FileOf(fs, h).(isOpened := false));
    SetFileSound(fs, h, FileOf(fs, h).(isOpened := false, flags := flags));
    var f2 := SetFile(fs, h, FileOf(fs, h).(isOpened := false, flags := flags));
    if fs.inodes[n].kind != Reg {
      SetFileSound(f2, h, FileOf(f2, h).(isOpened := true));
    } else if TruncFlag(flags) && Access(flags) != 0 {
      OpenTruncSound(f2, n, h, heap);
      OpenFileSound(Truncate(f2, n, 0, heap).0, h, names, heap);
    } else {
      OpenFileSound(f2, h, names, heap);
    }
  }

  // ----- the end of a download, and fs_net_set_url -----

  lemma IntoCacheSound(fs: Fs, n: int, bytes: seq<int>)
    requires Sound(fs) && n in fs.inodes && fs.inodes[n].kind == Reg && fs.inodes[n].state == Loading
    requires |bytes| == fs.inodes[n].size
    ensures Sound(IntoCache(fs, n, bytes))
  {
    var f1 := IntoCache(fs, n, bytes);
    assert BufferOk(fs.inodes[n]);
    CacheKeepsSpace(fs, n, f1.inodes[n], f1);
    OneInodeHealthy(fs, f1, n, f1.inodes[n]);
  }

  lemma SetLoadedSound(fs: Fs, n: int, bytes: seq<int>)
    requires Sound(fs) && n in fs.inodes && fs.inodes[n].kind == Reg && fs.inodes[n].state == Loading
    requires |bytes| == fs.inodes[n].size
    ensures Sound(SetLoaded(fs, n, bytes))
  {
    IntoCacheSound(fs, n, bytes);
    var f1, w := IntoCache(fs, n, bytes), fs.inodes[n].waiter;
    if w.Some? {
      assert Awaits(fs, n, w.value);
      SetFileSound(f1, w.value, FileOf(f1, w.value).(isOpened := true));
    }
  }

  lemma SetErrorSound(fs: Fs, n: int)
    requires Sound(fs) && n in fs.inodes && fs.inodes[n].kind == Reg && fs.inodes[n].state == Loading
    ensures Sound(SetError(fs, n))
  {
    var y := fs.inodes[n].(state := Unloaded, data := [], waiter := None);
    assert BufferOk(fs.inodes[n]);
    RestateSound(fs, n, y);
  }

  lemma DownloadEndsSound(fs: Fs, n: int, download: Option<seq<int>>)
    requires Sound(fs) && n in fs.inodes && fs.inodes[n].kind == Reg && fs.inodes[n].state == Loading
    ensures Sound(DownloadEnds(fs, n, download))
  {
    var size := fs.inodes[n].size;
    assert BufferOk(fs.inodes[n]);
    if download.Some? && size <= |download.value| {
      SetLoadedSound(fs, n, download.value[..size]);
    } else {
      SetErrorSound(fs, n);
    }
  }

  /** fs_net_set_url keeps the invariant exactly when it refuses the file, the new size is 0,
      or nobody has the file open. */
  lemma SetUrlExact(fs: Fs, n: int, size: nat)
    requires Sound(fs) && n in fs.inodes && size < WORD
    ensures var x := fs.inodes[n];
            Sound(SetUrl(fs, n, size).0) <==>
              || x.kind != Reg || x.state != Local || |x.data| != 0 || size == 0
              || forall f :: f in fs.files ==> !OpenedOn(f, n)
  {
    var x, r := fs.inodes[n], SetUrl(fs, n, size).0;
    if r != fs {
      assert BufferOk(x);
      var y := x.(state := Unloaded, size := size);
      if f :| f in fs.files && OpenedOn(f, n) {
        assert f in r.files && !Ready(At(r, n));
        assert !OpenedReady(r);
      } else {
        ResizeKeepsSpace(fs, n, y);
        assert ToBlocks(0) == 0;
        assert r == Resize(fs, n, y);
        OneInodeHealthy(fs, r, n, y);
      }
    }
  }
}
