// The in-memory file system of temu/fs_net.c as functions on values: inodes, directory
// entries, open files, block accounting, the content cache and file buffers.
// FsDevice.dfy holds the mutable class.
//
// Inodes and files are named by numbers. The entry lists of all directories are kept in
// one sequence; the list of a directory is its subsequence, in order.

module FsNet {
  import opened Options
  import opened Sums

  datatype Kind = Dir | Reg | Lnk | Other

  datatype RegState = Local | Unloaded | Loading | Loaded

  /** FSINode. `size` is u.dir.size or u.reg.size; `data` is the file buffer, of
      allocated_size bytes; `waiter` is the file an open callback is promised to. */
  datatype Inode = Inode(refcount: int, openCount: int, kind: Kind, size: int, state: RegState, data: seq<int>, waiter: Option<int>)

  /** FSFile */
  datatype FsFile = FsFile(inode: int, isOpened: bool, flags: int)

  /** FSDirEntry, in directory `dir` */
  datatype Entry = Entry(dir: int, name: string, target: int)

  /** FSDeviceMem */
  datatype Fs = Fs(
    inodes: map<int, Inode>, list: seq<int>, entries: seq<Entry>, files: seq<Option<FsFile>>,
    root: int, nextId: int, blocks: int, maxBlocks: int,
    cache: seq<int>, cacheSize: int, cacheLimit: int)

  datatype Errno = EPERM | ENOENT | EIO | EEXIST | ENOTDIR | EINVAL | ENOSPC | ENOTEMPTY | EPROTO

  /** Async: a completion callback follows. Fault: the source fails an assertion, or accesses
      memory outside the file buffer or already freed. */
  datatype Reply = Ok(value: int) | Fail(error: Errno) | Async | Fault

  const BLOCK := 4096

  /** 2^64, the range of size_t and uint64_t */
  const WORD := 0x1_0000_0000_0000_0000

  /** to_blocks: the sum wraps. */
  function ToBlocks(size: int): int {
    if size + BLOCK - 1 < WORD then (size + BLOCK - 1) / BLOCK else (size + BLOCK - 1 - WORD) / BLOCK
  }

  /** sizeof(FSDirEntry) + strlen(name) + 1, on a 64-bit host */
  function DirentSize(name: string): int { 32 + |name| + 1 }

  /** The inode numbered n; a file system in use never asks for an absent one. */
  function At(fs: Fs, n: int): Inode {
    if n in fs.inodes then fs.inodes[n] else Inode(0, 0, Other, 0, Local, [], None)
  }

  predicate IsDir(fs: Fs, n: int) { n in fs.inodes && fs.inodes[n].kind == Dir }

  predicate Live(fs: Fs, h: int) { 0 <= h < |fs.files| && fs.files[h].Some? }

  function InodeOf(fs: Fs, h: int): int
    requires Live(fs, h)
  {
    fs.files[h].value.inode
  }

  // ----- counts and sizes -----

  function Set(fs: Fs, n: int, x: Inode): Fs { fs.(inodes := fs.inodes[n := x]) }

  /** inode_incref and inode_inc_open */
  function Incref(fs: Fs, n: int): Fs {
    Set(fs, n, At(fs, n).(refcount := At(fs, n).refcount + 1))
  }

  function IncOpen(fs: Fs, n: int): Fs {
    Set(fs, n, At(fs, n).(openCount := At(fs, n).openCount + 1))
  }

  function Without(s: seq<int>, n: int): seq<int> {
    var i := Position(s, n);
    if i < 0 then s else RemoveAt(s, i)
  }

  /** inode_free: a regular file gives its blocks back, a loaded one leaves the cache. */
  function FreeInode(fs: Fs, n: int): Fs {
    var x := At(fs, n);
    fs.(inodes := fs.inodes - {n},
        list := Without(fs.list, n),
        blocks := if x.kind == Reg then fs.blocks - ToBlocks(x.size) else fs.blocks,
        cache := if x.kind == Reg && x.state == Loaded then Without(fs.cache, n) else fs.cache,
        cacheSize := if x.kind == Reg && x.state == Loaded then fs.cacheSize - x.size else fs.cacheSize)
  }

  function Decref(fs: Fs, n: int): Fs {
    var x := At(fs, n).(refcount := At(fs, n).refcount - 1);
    if x.refcount <= 0 && x.openCount <= 0 then FreeInode(fs, n) else Set(fs, n, x)
  }

  function DecOpen(fs: Fs, n: int): Fs {
    var x := At(fs, n).(openCount := At(fs, n).openCount - 1);
    if x.openCount <= 0 && x.refcount <= 0 then FreeInode(fs, n) else Set(fs, n, x)
  }

  /** inode_new: the new inode is `fs.nextId` and holds one reference. */
  function NewInode(fs: Fs, kind: Kind): Fs {
    fs.(inodes := fs.inodes[fs.nextId := Inode(1, 0, kind, 0, Local, [], None)],
        list := [fs.nextId] + fs.list, nextId := fs.nextId + 1)
  }

  // ----- directories -----

  /** inode_dir_add: the reference of `target` is not taken here. */
  function DirAdd(fs: Fs, dir: int, name: string, target: int): Fs {
    var x := At(fs, dir);
    var size := x.size + DirentSize(name);
    Set(fs, dir, x.(size := size)).(
      entries := fs.entries + [Entry(dir, name, target)],
      blocks := fs.blocks + ToBlocks(size) - ToBlocks(x.size))
  }

  /** inode_dirent_delete_no_decref */
  function EntryDelete(fs: Fs, i: int): Fs
    requires 0 <= i < |fs.entries|
  {
    var e := fs.entries[i];
    var x := At(fs, e.dir);
    var size := x.size - DirentSize(e.name);
    Set(fs, e.dir, x.(size := size)).(
      entries := RemoveAt(fs.entries, i),
      blocks := fs.blocks + ToBlocks(size) - ToBlocks(x.size))
  }

  /** First entry of a directory with a name, or -1. */
  function SearchFrom(es: seq<Entry>, dir: int, name: string): (i: int)
    ensures -1 <= i < |es|
    ensures i >= 0 ==> es[i].dir == dir && es[i].name == name
  {
    if |es| == 0 then -1
    else if es[0].dir == dir && es[0].name == name then 0
    else var i := SearchFrom(es[1..], dir, name); if i == -1 then -1 else i + 1
  }

  /** inode_search */
  function Search(fs: Fs, n: int, name: string): (i: int)
    ensures -1 <= i < |fs.entries|
    ensures i >= 0 ==> fs.entries[i].dir == n && fs.entries[i].name == name
  {
    if IsDir(fs, n) then SearchFrom(fs.entries, n, name) else -1
  }

  /** First entry of a directory, or -1. */
  function FirstOf(es: seq<Entry>, dir: int): (i: int)
    ensures -1 <= i < |es|
    ensures i >= 0 ==> es[i].dir == dir
    ensures i == -1 ==> forall j :: 0 <= j < |es| ==> es[j].dir != dir
  {
    if |es| == 0 then -1
    else if es[0].dir == dir then 0
    else
      var i := FirstOf(es[1..], dir);
      assert forall j :: 1 <= j < |es| ==> es[j] == es[1..][j - 1];
      if i == -1 then -1 else i + 1
  }

  /** is_empty_dir */
  predicate EmptyDir(fs: Fs, n: int) {
    forall i :: 0 <= i < |fs.entries| && fs.entries[i].dir == n ==> fs.entries[i].name in {".", ".."}
  }

  // ----- operations -----

  /** inode_dirent_delete */
  function EntryDrop(fs: Fs, i: int): Fs
    requires 0 <= i < |fs.entries|
  {
    Decref(EntryDelete(fs, i), fs.entries[i].target)
  }

  /** flush_dir */
  function FlushDir(fs: Fs, n: int): (r: Fs)
    ensures FirstOf(r.entries, n) < 0
    decreases |fs.entries|
  {
    var i := FirstOf(fs.entries, n);
    if i < 0 then fs else FlushDir(EntryDrop(fs, i), n)
  }

  /** fid_create: the new file is the last one. */
  function FidCreate(fs: Fs, n: int): Fs {
    IncOpen(fs, n).(files := fs.files + [Some(FsFile(n, false, 0))])
  }

  /** fs_attach */
  function Attach(fs: Fs): (Fs, Reply) { (FidCreate(fs, fs.root), Ok(|fs.files|)) }

  /** The names of a walk that exist, and the inode they lead to. */
  function WalkNames(fs: Fs, n: int, names: seq<string>): (int, int)
    decreases |names|
  {
    if names == [] then (n, 0)
    else
      var i := Search(fs, n, names[0]);
      if i < 0 then (n, 0)
      else var (n1, count) := WalkNames(fs, fs.entries[i].target, names[1..]); (n1, count + 1)
  }

  /** fs_walk */
  function Walk(fs: Fs, h: int, names: seq<string>): (Fs, Reply)
    requires Live(fs, h)
  {
    var (n, count) := WalkNames(fs, InodeOf(fs, h), names);
    (FidCreate(fs, n), Ok(count))
  }

  /** fs_delete */
  function Delete(fs: Fs, h: int): (Fs, Reply)
    requires Live(fs, h)
  {
    (DecOpen(fs, InodeOf(fs, h)).(files := fs.files[h := None]), Ok(0))
  }

  /** inode_dec_open on the old inode of a file and inode_inc_open on its new one. */
  function Retarget(fs: Fs, h: int, f: FsFile): Fs
    requires Live(fs, h)
  {
    var f1 := Delete(fs, h).0;
    IncOpen(f1, f.inode).(files := f1.files[h := Some(f)])
  }

  /** fs_mkdir */
  function Mkdir(fs: Fs, h: int, name: string): (Fs, Reply)
    requires Live(fs, h)
  {
    var n, id := InodeOf(fs, h), fs.nextId;
    if !IsDir(fs, n) then (fs, Fail(ENOTDIR))
    else if Search(fs, n, name) >= 0 then (fs, Fail(EEXIST))
    else
      var f1 := NewInode(fs, Dir);
      var f2 := DirAdd(Incref(f1, id), id, ".", id);
      var f3 := DirAdd(Incref(f2, n), id, "..", n);
      (DirAdd(f3, n, name, id), Ok(0))
  }

  /** fs_create: the file moves from the directory to the new inode. */
  function Create(fs: Fs, h: int, name: string, flags: int): (Fs, Reply)
    requires Live(fs, h)
  {
    var n, id := InodeOf(fs, h), fs.nextId;
    if !IsDir(fs, n) then (fs, Fail(ENOTDIR))
    else if Search(fs, n, name) >= 0 then (fs, Fail(EEXIST))
    else
      var f1 := DirAdd(NewInode(fs, Reg), n, name, id);
      (Retarget(f1, h, FsFile(id, true, flags)), Ok(0))
  }

  /** A new inode under a new name; inode_dir_add asserts that the parent is a directory. */
  function MakeNode(fs: Fs, h: int, name: string, kind: Kind): (Fs, Reply)
    requires Live(fs, h) && kind != Dir
  {
    var n := InodeOf(fs, h);
    if Search(fs, n, name) >= 0 then (fs, Fail(EEXIST))
    else if !IsDir(fs, n) then (fs, Fault)
    else (DirAdd(NewInode(fs, kind), n, name, fs.nextId), Ok(0))
  }

  /** fs_symlink */
  function Symlink(fs: Fs, h: int, name: string): (Fs, Reply)
    requires Live(fs, h)
  {
    MakeNode(fs, h, name, Lnk)
  }

  /** fs_mknod makes neither directories nor symbolic links. */
  function Mknod(fs: Fs, h: int, name: string, kind: Kind): (Fs, Reply)
    requires Live(fs, h)
  {
    if kind == Dir || kind == Lnk then (fs, Fail(EINVAL)) else MakeNode(fs, h, name, kind)
  }

  /** fs_link, with the assertion of inode_dir_add */
  function Link(fs: Fs, dh: int, h: int, name: string): (Fs, Reply)
    requires Live(fs, dh) && Live(fs, h)
  {
    var n, t := InodeOf(fs, dh), InodeOf(fs, h);
    if IsDir(fs, t) then (fs, Fail(EPERM))
    else if Search(fs, n, name) >= 0 then (fs, Fail(EEXIST))
    else if !IsDir(fs, n) then (fs, Fault)
    else (DirAdd(Incref(fs, t), n, name, t), Ok(0))
  }

  /** The new name is made before the old one is dropped. */
  function MoveEntry(fs: Fs, i: int, n: int, newName: string): Fs
    requires 0 <= i < |fs.entries|
  {
    var t := fs.entries[i].target;
    EntryDrop(DirAdd(Incref(fs, t), n, newName, t), i)
  }

  /** Entry i takes the place of entry j, whose inode is released last. */
  function ReplaceEntry(fs: Fs, i: int, j: int, n: int, newName: string): Fs
    requires 0 <= i < |fs.entries| && 0 <= j < |fs.entries| && i != j
  {
    var t, victim := fs.entries[i].target, fs.entries[j].target;
    var f1 := DirAdd(Incref(EntryDelete(fs, j), t), n, newName, t);
    Decref(EntryDrop(f1, if j < i then i - 1 else i), victim)
  }

  /** fs_renameat; a non-directory under the new name is replaced. Replacing the entry being
      renamed frees it before it is read; a new parent must be a directory. */
  function Rename(fs: Fs, h: int, name: string, nh: int, newName: string): (Fs, Reply)
    requires Live(fs, h) && Live(fs, nh)
  {
    var n := InodeOf(fs, nh);
    var i := Search(fs, InodeOf(fs, h), name);
    var j := Search(fs, n, newName);
    if i < 0 then (fs, Fail(ENOENT))
    else if j < 0 then if IsDir(fs, n) then (MoveEntry(fs, i, n, newName), Ok(0)) else (fs, Fault)
    else if IsDir(fs, fs.entries[j].target) then (fs, Fail(EEXIST))
    else if i == j then (fs, Fault)
    else (ReplaceEntry(fs, i, j, n, newName), Ok(0))
  }

  /** fs_unlinkat */
  function Unlink(fs: Fs, h: int, name: string): (Fs, Reply)
    requires Live(fs, h)
  {
    var n := InodeOf(fs, h);
    var i := Search(fs, n, name);
    if name in {".", ".."} || i < 0 then (fs, Fail(ENOENT))
    else
      var t := fs.entries[i].target;
      if !IsDir(fs, t) then (EntryDrop(fs, i), Ok(0))
      else if !EmptyDir(fs, t) then (fs, Fail(ENOTEMPTY))
      else
        // the entry found above is still the first one with its name (FlushKeepsSearch)
        var f1 := FlushDir(fs, t);
        var k := SearchFrom(f1.entries, n, name);
        (if k < 0 then f1 else EntryDrop(f1, k), Ok(0))
  }

  /** fs_mem_init */
  function Empty(cacheLimit: int, maxBlocks: int): Fs {
    var f0 := Fs(map[], [], [], [], 1, 1, 0, maxBlocks, [], 0, cacheLimit);
    var f1 := NewInode(f0, Dir);
    DirAdd(Incref(DirAdd(Incref(f1, 1), 1, ".", 1), 1), 1, "..", 1)
  }
}
