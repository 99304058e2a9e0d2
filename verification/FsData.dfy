// File contents, loading and the content cache of temu/fs_net.c.

module FsData {
  import opened Options
  import opened Sums
  import opened FsNet

  /** What realloc grants: sizes up to `room`, new bytes arbitrary. An object is never larger
      than PTRDIFF_MAX. */
  datatype Heap = Heap(room: int, junk: int -> int)

  const HALF := 0x8000_0000_0000_0000

  /** A 64-bit difference read as intptr_t. */
  function Signed(x: int): int {
    var u := x % WORD;
    if u < HALF then u else u - WORD
  }

  function Min(a: int, b: int): int { if a < b then a else b }

  /** file_buffer_resize, when it succeeds */
  function Resized(data: seq<int>, size: nat, heap: Heap): (r: seq<int>)
    ensures |r| == size
    ensures forall i :: 0 <= i < |data| && i < size ==> r[i] == data[i]
  {
    seq(size, (i: int) requires 0 <= i => if i < |data| then data[i] else heap.junk(i))
  }

  /** file_buffer_write and file_buffer_set */
  function Overwritten(data: seq<int>, offset: nat, bytes: seq<int>): (r: seq<int>)
    requires offset + |bytes| <= |data|
    ensures |r| == |data|
  {
    data[..offset] + bytes + data[offset + |bytes|..]
  }

  function Zeros(n: nat): seq<int> { seq(n, i => 0) }

  // ----- the content cache -----

  predicate Fits(fs: Fs, added: int) { fs.cacheSize + added <= fs.cacheLimit }

  /** One removal in fs_trim_cache. */
  function Evict(fs: Fs, i: int): Fs
    requires 0 <= i < |fs.cache|
  {
    var x := At(fs, fs.cache[i]);
    Set(fs, fs.cache[i], x.(data := [], state := Unloaded)).(
      cache := RemoveAt(fs.cache, i), cacheSize := fs.cacheSize - x.size)
  }

  /** The loop of fs_trim_cache, with the k least recently inserted places done. */
  function TrimFrom(fs: Fs, k: nat, added: int): Fs
    requires k <= |fs.cache|
    decreases k
  {
    if k == 0 || Fits(fs, added) then fs
    else if At(fs, fs.cache[k - 1]).openCount != 0 then TrimFrom(fs, k - 1, added)
    else TrimFrom(Evict(fs, k - 1), k - 1, added)
  }

  /** fs_trim_cache; the size arrives as an int64_t. */
  function TrimCache(fs: Fs, size: int): Fs { TrimFrom(fs, |fs.cache|, Signed(size)) }

  /** A modified file leaves the cache and becomes local. */
  function MakeLocal(fs: Fs, n: int): Fs {
    var x := At(fs, n);
    if x.state == Loaded then
      Set(fs, n, x.(state := Local)).(cache := Without(fs.cache, n), cacheSize := fs.cacheSize - x.size)
    else fs
  }

  // ----- sizes and contents -----

  /** A file changes and is charged for its new size. */
  function Resize(fs: Fs, n: int, x: Inode): Fs {
    Set(fs, n, x).(blocks := fs.blocks + (ToBlocks(x.size) - ToBlocks(At(fs, n).size)))
  }

  /** The buffer after fs_truncate of a file that has its content, or None when no memory.
      `grow` is the sign the source computes. */
  function Rebuffered(x: Inode, size: nat, grow: bool, heap: Heap): Option<seq<int>> {
    var alloc := |x.data|;
    if grow then
      var wanted := if size > alloc * 5 % WORD / 4 then size else alloc * 5 % WORD / 4;
      if size > alloc && wanted > heap.room then None
      else
        var data := if size > alloc then Resized(x.data, wanted, heap) else x.data;
        if 0 <= x.size <= size then Some(Overwritten(data, x.size, Zeros(size - x.size))) else Some(data)
    else
      var smaller := alloc * 4 % WORD / 5;
      if size > smaller then Some(x.data)
      else if smaller > heap.room then None
      else Some(Resized(x.data, smaller, heap))
  }

  /** fs_truncate */
  function Truncate(fs: Fs, n: int, size: nat, heap: Heap): (Fs, Reply)
    requires size < WORD
  {
    var x := At(fs, n);
    var diff := Signed(size - x.size);
    var diffBlocks := ToBlocks(size) - ToBlocks(x.size);
    if x.kind != Reg then (fs, Fail(EINVAL))
    else if diff == 0 then (fs, Ok(0))
    else
      match x.state
      case Loading => (fs, Fail(EIO))
      case Unloaded =>
        (Resize(fs, n, x.(size := size, state := if size == 0 then Local else Unloaded)), Ok(0))
      case _ =>
        var data := Rebuffered(x, size, diff > 0, heap);
        if diff > 0 && fs.blocks + diffBlocks > fs.maxBlocks then (fs, Fail(ENOSPC))
        else if data == None then (fs, Fail(ENOSPC))
        else if diff > 0 && x.size > size then (fs, Fault)
        else
          var f1 := MakeLocal(fs, n);
          (Resize(f1, n, At(f1, n).(data := data.value, size := size)), Ok(0))
  }

  // ----- open, read, write -----

  const WRONLY := 1

  /** P9_O_NOACCESS, P9_O_TRUNC and P9_O_DIRECTORY of the open flags */
  function Access(flags: nat): int { flags % 4 }

  predicate TruncFlag(flags: nat) { flags / 0x200 % 2 == 1 }

  predicate DirectoryFlag(flags: nat) { flags / 0x10000 % 2 == 1 }

  function FileOf(fs: Fs, h: int): FsFile
    requires Live(fs, h)
  {
    fs.files[h].value
  }

  function SetFile(fs: Fs, h: int, f: FsFile): Fs
    requires Live(fs, h)
  {
    fs.(files := fs.files[h := Some(f)])
  }

  /** fs_read */
  function Read(fs: Fs, h: int, offset: nat, count: nat): (Reply, seq<int>)
    requires Live(fs, h)
  {
    var x := At(fs, InodeOf(fs, h));
    if !FileOf(fs, h).isOpened then (Fail(EPROTO), [])
    else if x.kind != Reg then (Fail(EIO), [])
    else if FileOf(fs, h).flags % 4 == WRONLY then (Fail(EIO), [])
    else if offset >= x.size then (Ok(0), [])
    else
      var n := Min(x.size - offset, count);
      if offset + n <= |x.data| then (Ok(n), x.data[offset..offset + n]) else (Fault, [])
  }

  /** The end of fs_write: a modified file is local; the bytes go into the buffer. */
  function Store(fs: Fs, n: int, offset: nat, bytes: seq<int>): (Fs, Reply) {
    var f1 := MakeLocal(fs, n);
    if offset + |bytes| > |At(f1, n).data| then (f1, Fault)
    else (Set(f1, n, At(f1, n).(data := Overwritten(At(f1, n).data, offset, bytes))), Ok(|bytes|))
  }

  /** fs_write once the file has been extended, or failed to be */
  function StoreExtended(fs: Fs, n: int, extended: (Fs, Reply), offset: nat, bytes: seq<int>): (Fs, Reply) {
    if extended.1 != Ok(0) then (fs, extended.1) else Store(extended.0, n, offset, bytes)
  }

  /** fs_write after its checks */
  function WriteData(fs: Fs, n: int, offset: nat, bytes: seq<int>, heap: Heap): (Fs, Reply) {
    var end := (offset + |bytes|) % WORD;
    if end <= At(fs, n).size then Store(fs, n, offset, bytes)
    else StoreExtended(fs, n, Truncate(fs, n, end, heap), offset, bytes)
  }

  /** fs_write */
  function Write(fs: Fs, h: int, offset: nat, bytes: seq<int>, heap: Heap): (Fs, Reply)
    requires Live(fs, h)
  {
    if !FileOf(fs, h).isOpened then (fs, Fail(EPROTO))
    else if At(fs, InodeOf(fs, h)).kind != Reg then (fs, Fail(EIO))
    else if FileOf(fs, h).flags % 4 == 0 then (fs, Fail(EIO))
    else if bytes == [] then (fs, Ok(0))
    else WriteData(fs, InodeOf(fs, h), offset, bytes, heap)
  }

  /** fs_open_wget: the download of an unloaded file starts. */
  function OpenWget(fs: Fs, n: int, heap: Heap): (Fs, Reply) {
    var f1 := TrimCache(fs, At(fs, n).size);
    var x := At(f1, n);
    if x.size < 0 || x.size > heap.room then (f1, Fail(EIO))
    else (Set(f1, n, x.(data := Resized(x.data, x.size, heap), state := Loading, waiter := None)), Ok(0))
  }

  /** fs_preload_files: `names` are the inodes the preload list leads to. */
  function Preload(fs: Fs, names: seq<int>, heap: Heap): Fs
    decreases |names|
  {
    if names == [] then fs
    else
      var x := At(fs, names[0]);
      var f1 := if x.kind == Reg && x.state == Unloaded then OpenWget(fs, names[0], heap).0 else fs;
      Preload(f1, names[1..], heap)
  }

  /** The callback of h is promised when the download of n ends. */
  function Await(fs: Fs, n: int, h: int): (Fs, Reply) {
    if At(fs, n).waiter.Some? then (fs, Fail(EIO)) else (Set(fs, n, At(fs, n).(waiter := Some(h))), Async)
  }

  /** The state machine of fs_open for a regular file. */
  function OpenFile(fs: Fs, h: int, names: seq<int>, heap: Heap): (Fs, Reply)
    requires Live(fs, h)
  {
    var n := InodeOf(fs, h);
    var opened' := fs.files[h := Some(FileOf(fs, h).(isOpened := true))];
    match At(fs, n).state
    case Local => (fs.(files := opened'), Ok(0))
    case Loaded => (fs.(files := opened', cache := [n] + Without(fs.cache, n)), Ok(0))
    case Loading => Await(fs, n, h)
    case Unloaded =>
      var f1 := Preload(fs, names, heap);
      if At(f1, n).state == Loading then Await(f1, n, h)
      else
        var (f2, reply) := OpenWget(f1, n, heap);
        if reply.Fail? then (f2, reply) else Await(f2, n, h)
  }

  /** fs_open */
  function Open(fs: Fs, h: int, flags: nat, names: seq<int>, heap: Heap): (Fs, Reply)
    requires Live(fs, h)
  {
    var n := InodeOf(fs, h);
    var f1 := SetFile(fs, h, FileOf(fs, h).(isOpened := false));
    if DirectoryFlag(flags) && At(fs, n).kind != Dir then (f1, Fail(ENOTDIR))
    else if !DirectoryFlag(flags) && At(fs, n).kind != Reg && At(fs, n).kind != Dir then (f1, Fail(EINVAL))
    else
      var f2 := SetFile(fs, h, FileOf(fs, h).(isOpened := false, flags := flags));
      if At(fs, n).kind != Reg then (SetFile(f2, h, FileOf(f2, h).(isOpened := true)), Ok(0))
      else OpenFile(if TruncFlag(flags) && Access(flags) != 0 then Truncate(f2, n, 0, heap).0 else f2, h, names, heap)
  }

  // ----- the end of a download -----

  /** The received bytes are in the buffer; the file enters the cache. */
  function IntoCache(fs: Fs, n: int, bytes: seq<int>): Fs {
    var x := At(fs, n);
    Set(fs, n, x.(state := Loaded, data := bytes, waiter := None)).(
      cache := [n] + fs.cache, cacheSize := fs.cacheSize + x.size)
  }

  /** fs_wget_set_loaded: the file that waits, if any, is opened. */
  function SetLoaded(fs: Fs, n: int, bytes: seq<int>): Fs {
    var f1 := IntoCache(fs, n, bytes);
    var w := At(fs, n).waiter;
    if w.Some? && Live(f1, w.value) then SetFile(f1, w.value, FileOf(f1, w.value).(isOpened := true)) else f1
  }

  /** fs_wget_set_error */
  function SetError(fs: Fs, n: int): Fs {
    Set(fs, n, At(fs, n).(state := Unloaded, data := [], waiter := None))
  }

  /** fs_open_cb for a download that ended with `bytes`, or failed: extraneous data is
      ignored, missing data is an error. */
  function DownloadEnds(fs: Fs, n: int, download: Option<seq<int>>): Fs {
    var size := At(fs, n).size;
    if download.Some? && 0 <= size <= |download.value| then SetLoaded(fs, n, download.value[..size]) else SetError(fs, n)
  }

  /** fs_net_set_url */
  function SetUrl(fs: Fs, n: int, size: nat): (Fs, Reply) {
    var x := At(fs, n);
    if x.kind != Reg || x.state != Local || |x.data| != 0 then (fs, Fail(EIO))
    else if size == 0 then (fs, Ok(0))
    else (Set(fs, n, x.(state := Unloaded, size := size)).(blocks := fs.blocks + ToBlocks(size)), Ok(0))
  }
}
