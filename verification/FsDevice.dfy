// The mutable file system of temu/fs_net.c, proved against the functions of FsNet and
// FsData step by step.

module FsDevice {
  import opened Options
  import opened Sums
  import opened FsNet
  import opened FsData
  import opened FsNames
  import opened FsSpace
  import opened FsOps
  import opened FsLoads
  import opened FsRuns

  class FSDeviceMem {
    var inodes: map<int, Inode>
    var inodeList: seq<int>
    var entries: seq<Entry>
    var files: seq<Option<FsFile>>
    var root: int
    var inodeNumAlloc: int
    var fsBlocks: int
    var fsMaxBlocks: int
    var inodeCacheList: seq<int>
    var inodeCacheSize: int
    var inodeCacheSizeLimit: int

    function State(): Fs
      reads this
    {
      Fs(inodes, inodeList, entries, files, root, inodeNumAlloc, fsBlocks, fsMaxBlocks,
         inodeCacheList, inodeCacheSize, inodeCacheSizeLimit)
    }

    /** fs_mem_init */
    constructor (cacheLimit: int, maxBlocks: int)
      ensures State() == Empty(cacheLimit, maxBlocks)
    {
      inodes, inodeList, entries, files := map[], [], [], [];
      root, inodeNumAlloc, fsBlocks, fsMaxBlocks := 1, 1, 0, maxBlocks;
      inodeCacheList, inodeCacheSize, inodeCacheSizeLimit := [], 0, cacheLimit;
      new;
      var n := InodeNew(Dir);
      InodeIncref(n);
      InodeDirAdd(n, ".", n);
      InodeIncref(n);
      InodeDirAdd(n, "..", n);
    }

    // ----- counts -----

    method InodeIncref(n: int)
      requires n in inodes
      modifies this
      ensures State() == Incref(old(State()), n)
    {
      inodes := inodes[n := inodes[n].(refcount := inodes[n].refcount + 1)];
    }

    method InodeIncOpen(n: int)
      requires n in inodes
      modifies this
      ensures State() == IncOpen(old(State()), n)
    {
      inodes := inodes[n := inodes[n].(openCount := inodes[n].openCount + 1)];
    }

    /** list_del of an element */
    method Unlinked(s: seq<int>, n: int) returns (r: seq<int>)
      ensures r == Without(s, n)
    {
      var i := 0;
      while i < |s| && s[i] != n
        invariant 0 <= i <= |s| && n !in s[..i]
      {
        i := i + 1;
      }
      if i < |s| { FirstPosition(s, n, i); }
      r := if i < |s| then s[..i] + s[i + 1..] else s;
    }

    method InodeFree(n: int)
      requires n in inodes
      modifies this
      ensures State() == FreeInode(old(State()), n)
    {
      var x := inodes[n];
      if x.kind == Reg {
        fsBlocks := fsBlocks - ToBlocks(x.size);
        if x.state == Loaded { LeaveCache(n); }
      }
      inodeList := Unlinked(inodeList, n);
      inodes := inodes - {n};
    }

    method LeaveCache(n: int)
      requires n in inodes
      modifies this`inodeCacheList, this`inodeCacheSize
      ensures inodeCacheList == Without(old(inodeCacheList), n)
      ensures inodeCacheSize == old(inodeCacheSize) - inodes[n].size
    {
      inodeCacheList := Unlinked(inodeCacheList, n);
      inodeCacheSize := inodeCacheSize - inodes[n].size;
    }

    method InodeDecref(n: int)
      requires n in inodes
      modifies this
      ensures State() == Decref(old(State()), n)
    {
      var x := inodes[n].(refcount := inodes[n].refcount - 1);
      if x.refcount <= 0 && x.openCount <= 0 { InodeFree(n); } else { inodes := inodes[n := x]; }
    }

    method InodeDecOpen(n: int)
      requires n in inodes
      modifies this
      ensures State() == DecOpen(old(State()), n)
    {
      var x := inodes[n].(openCount := inodes[n].openCount - 1);
      if x.openCount <= 0 && x.refcount <= 0 { InodeFree(n); } else { inodes := inodes[n := x]; }
    }

    method InodeNew(kind: Kind) returns (n: int)
      modifies this
      ensures n == old(inodeNumAlloc) && n in inodes && State() == NewInode(old(State()), kind)
    {
      n := inodeNumAlloc;
      inodeNumAlloc := inodeNumAlloc + 1;
      inodes := inodes[n := Inode(1, 0, kind, 0, Local, [], None)];
      inodeList := [n] + inodeList;
    }

    // ----- directories -----

    method InodeDirAdd(n: int, name: string, target: int)
      requires n in inodes
      modifies this
      ensures State() == DirAdd(old(State()), n, name, target)
    {
      var newSize := inodes[n].size + DirentSize(name);
      fsBlocks := fsBlocks + ToBlocks(newSize) - ToBlocks(inodes[n].size);
      inodes := inodes[n := inodes[n].(size := newSize)];
      entries := entries + [Entry(n, name, target)];
    }

    method InodeDirentDeleteNoDecref(i: int)
      requires 0 <= i < |entries| && entries[i].dir in inodes
      modifies this
      ensures State() == EntryDelete(old(State()), i)
    {
      var e := entries[i];
      var newSize := inodes[e.dir].size - DirentSize(e.name);
      fsBlocks := fsBlocks + ToBlocks(newSize) - ToBlocks(inodes[e.dir].size);
      inodes := inodes[e.dir := inodes[e.dir].(size := newSize)];
      entries := RemoveAt(entries, i);
    }

    method InodeDirentDelete(i: int)
      requires 0 <= i < |entries| && entries[i].dir in inodes && entries[i].target in inodes
      modifies this
      ensures State() == EntryDrop(old(State()), i)
    {
      var target := entries[i].target;
      InodeDirentDeleteNoDecref(i);
      InodeDecref(target);
    }

    method InodeSearch(n: int, name: string) returns (i: int)
      requires n in inodes
      ensures i == Search(State(), n, name)
    {
      if inodes[n].kind != Dir { return -1; }
      i := 0;
      while i < |entries| && !(entries[i].dir == n && entries[i].name == name)
        invariant 0 <= i <= |entries|
        invariant forall j :: 0 <= j < i ==> entries[j].dir != n || entries[j].name != name
      {
        i := i + 1;
      }
      FirstSearch(entries, n, name, i);
      if i == |entries| { i := -1; }
    }

    method IsEmptyDir(n: int) returns (b: bool)
      ensures b <==> EmptyDir(State(), n)
    {
      var i := 0;
      while i < |entries|
        invariant 0 <= i <= |entries|
        invariant forall j :: 0 <= j < i && entries[j].dir == n ==> entries[j].name in {".", ".."}
      {
        if entries[i].dir == n && entries[i].name !in {".", ".."} { return false; }
        i := i + 1;
      }
      return true;
    }

    method FirstEntry(n: int) returns (i: int)
      ensures i == FirstOf(entries, n)
    {
      i := 0;
      while i < |entries| && entries[i].dir != n
        invariant 0 <= i <= |entries| && forall j :: 0 <= j < i ==> entries[j].dir != n
      {
        i := i + 1;
      }
      FirstInDir(entries, n, i);
      if i == |entries| { i := -1; }
    }

    /** Every step is an inode_dirent_delete that meets the assertions of inode_free. */
    method FlushDir(n: int)
      requires Good(State()) && NamedOutside(State(), n) && !FlushStrands(State(), n)
      modifies this
      ensures State() == FsNet.FlushDir(old(State()), n)
    {
      var i := FirstEntry(n);
      while i >= 0
        invariant i == FirstOf(entries, n)
        invariant Good(State()) && NamedOutside(State(), n) && !FlushStrands(State(), n)
        invariant FsNet.FlushDir(State(), n) == FsNet.FlushDir(old(State()), n)
        decreases |entries|
      {
        FlushStep(State(), n, i);
        EntryEnds(State(), i);
        InodeDirentDelete(i);
        i := FirstEntry(n);
      }
    }

    // ----- files -----

    method FidCreate(n: int) returns (h: int)
      requires n in inodes
      modifies this
      ensures h == old(|files|) && State() == FsNet.FidCreate(old(State()), n)
    {
      InodeIncOpen(n);
      h := |files|;
      files := files + [Some(FsFile(n, false, 0))];
    }

    method FsAttach() returns (h: int)
      requires Good(State())
      modifies this
      ensures (State(), Ok(h)) == Attach(old(State()))
    {
      h := FidCreate(root);
    }

    method FsWalk(h: int, names: seq<string>) returns (i: int)
      requires Good(State()) && Live(State(), h)
      modifies this
      ensures (State(), Ok(i)) == Walk(old(State()), h, names)
    {
      LiveInode(State(), h);
      var n := files[h].value.inode;
      i := 0;
      while i < |names|
        invariant State() == old(State()) && 0 <= i <= |names| && n in inodes
        invariant WalkNames(State(), files[h].value.inode, names)
               == (WalkNames(State(), n, names[i..]).0, i + WalkNames(State(), n, names[i..]).1)
      {
        var k := InodeSearch(n, names[i]);
        if k < 0 { break; }
        EntryEnds(State(), k);
        n := entries[k].target;
        i := i + 1;
      }
      var _ := FidCreate(n);
    }

    method FsDelete(h: int)
      requires Good(State()) && Live(State(), h)
      modifies this
      ensures State() == Delete(old(State()), h).0
    {
      LiveInode(State(), h);
      InodeDecOpen(files[h].value.inode);
      files := files[h := None];
    }

    // ----- operations on names -----

    method FsMkdir(h: int, name: string) returns (reply: Reply)
      requires Good(State()) && Live(State(), h)
      modifies this
      ensures (State(), reply) == Mkdir(old(State()), h, name)
    {
      LiveInode(State(), h);
      var n := files[h].value.inode;
      if inodes[n].kind != Dir { return Fail(ENOTDIR); }
      var i := InodeSearch(n, name);
      if i >= 0 { return Fail(EEXIST); }
      var n1 := InodeNew(Dir);
      InodeIncref(n1);
      InodeDirAdd(n1, ".", n1);
      InodeIncref(n);
      InodeDirAdd(n1, "..", n);
      InodeDirAdd(n, name, n1);
      return Ok(0);
    }

    method FsCreate(h: int, name: string, flags: int) returns (reply: Reply)
      requires Good(State()) && Live(State(), h)
      modifies this
      ensures (State(), reply) == Create(old(State()), h, name, flags)
    {
      LiveInode(State(), h);
      var n := files[h].value.inode;
      if inodes[n].kind != Dir { return Fail(ENOTDIR); }
      var i := InodeSearch(n, name);
      if i >= 0 { return Fail(EEXIST); }
      var n1 := InodeNew(Reg);
      InodeDirAdd(n, name, n1);
      MoveFile(h, FsFile(n1, true, flags));
      return Ok(0);
    }

    method MoveFile(h: int, f: FsFile)
      requires Live(State(), h) && InodeOf(State(), h) in inodes && f.inode in inodes && f.inode != InodeOf(State(), h)
      modifies this
      ensures State() == Retarget(old(State()), h, f)
    {
      InodeDecOpen(files[h].value.inode);
      InodeIncOpen(f.inode);
      files := files[h := Some(f)];
    }

    /** The common part of fs_symlink and fs_mknod */
    method MakeNode(h: int, name: string, kind: Kind) returns (reply: Reply)
      requires Good(State()) && Live(State(), h) && kind != Dir
      modifies this
      ensures (State(), reply) == FsNet.MakeNode(old(State()), h, name, kind)
    {
      LiveInode(State(), h);
      var n := files[h].value.inode;
      var i := InodeSearch(n, name);
      if i >= 0 { return Fail(EEXIST); }
      if inodes[n].kind != Dir { return Fault; }
      var n1 := InodeNew(kind);
      InodeDirAdd(n, name, n1);
      return Ok(0);
    }

    method FsSymlink(h: int, name: string) returns (reply: Reply)
      requires Good(State()) && Live(State(), h)
      modifies this
      ensures (State(), reply) == Symlink(old(State()), h, name)
    {
      reply := MakeNode(h, name, Lnk);
    }

    method FsMknod(h: int, name: string, kind: Kind) returns (reply: Reply)
      requires Good(State()) && Live(State(), h)
      modifies this
      ensures (State(), reply) == Mknod(old(State()), h, name, kind)
    {
      if kind != Reg && kind != Other { return Fail(EINVAL); }
      reply := MakeNode(h, name, kind);
    }

    method FsLink(dh: int, h: int, name: string) returns (reply: Reply)
      requires Good(State()) && Live(State(), dh) && Live(State(), h)
      modifies this
      ensures (State(), reply) == Link(old(State()), dh, h, name)
    {
      LiveInode(State(), h);
      LiveInode(State(), dh);
      var n, n1 := files[dh].value.inode, files[h].value.inode;
      if inodes[n1].kind == Dir { return Fail(EPERM); }
      var i := InodeSearch(n, name);
      if i >= 0 { return Fail(EEXIST); }
      if inodes[n].kind != Dir { return Fault; }
      InodeIncref(n1);
      InodeDirAdd(n, name, n1);
      return Ok(0);
    }

    method FsUnlinkat(h: int, name: string) returns (reply: Reply)
      requires Good(State()) && Live(State(), h) && !UnlinkStrands(State(), h, name)
      modifies this
      ensures (State(), reply) == Unlink(old(State()), h, name)
    {
      LiveInode(State(), h);
      var n := files[h].value.inode;
      if name == "." || name == ".." { return Fail(ENOENT); }
      var i := InodeSearch(n, name);
      if i < 0 { return Fail(ENOENT); }
      EntryEnds(State(), i);
      var t := entries[i].target;
      if inodes[t].kind == Dir {
        var empty := IsEmptyDir(t);
        if !empty { return Fail(ENOTEMPTY); }
        assert entries[i] in entries && t != n;
        FlushKeeps(State(), t);
        FlushKeepsSearch(State(), t, n, name);
        FlushDir(t);
        i := InodeFind(n, name);
        EntryEnds(State(), i);
      }
      InodeDirentDelete(i);
      return Ok(0);
    }

    /** The entry found before is the first one still (list pointers in the source). */
    method InodeFind(n: int, name: string) returns (i: int)
      ensures i == SearchFrom(entries, n, name)
    {
      i := 0;
      while i < |entries| && !(entries[i].dir == n && entries[i].name == name)
        invariant 0 <= i <= |entries|
        invariant forall j :: 0 <= j < i ==> entries[j].dir != n || entries[j].name != name
      {
        i := i + 1;
      }
      FirstSearch(entries, n, name, i);
      if i == |entries| { i := -1; }
    }

    method FsRenameat(h: int, name: string, nh: int, newName: string) returns (reply: Reply)
      requires Good(State()) && Live(State(), h) && Live(State(), nh)
      modifies this
      ensures (State(), reply) == Rename(old(State()), h, name, nh, newName)
    {
      LiveInode(State(), h);
      LiveInode(State(), nh);
      var n := files[nh].value.inode;
      var i := InodeSearch(files[h].value.inode, name);
      if i < 0 { return Fail(ENOENT); }
      var j := InodeSearch(n, newName);
      if j < 0 {
        if inodes[n].kind != Dir { return Fault; }
        RenameFresh(i, n, newName);
      } else {
        EntryEnds(State(), j);
        if inodes[entries[j].target].kind == Dir { return Fail(EEXIST); }
        if i == j { return Fault; }
        RenameOnto(i, j, n, newName);
      }
      return Ok(0);
    }

    method RenameFresh(i: int, n: int, newName: string)
      requires Good(State()) && 0 <= i < |entries| && n in inodes
      modifies this
      ensures State() == MoveEntry(old(State()), i, n, newName)
    {
      EntryEnds(State(), i);
      var t := entries[i].target;
      InodeIncref(t);
      InodeDirAdd(n, newName, t);
      InodeDirentDelete(i);
    }

    /** The rest of fs_renameat when entry j has the new name already. */
    method RenameOnto(i: int, j: int, n: int, newName: string)
      requires Good(State()) && 0 <= i < |entries| && 0 <= j < |entries| && i != j && entries[j].dir == n
      modifies this
      ensures State() == ReplaceEntry(old(State()), i, j, n, newName)
    {
      ghost var was := State();
      EntryEnds(State(), i);
      EntryEnds(State(), j);
      var t, victim := entries[i].target, entries[j].target;
      ReplaceLink(j, t, n, newName);
      DropOld(was, i, j, n, newName, if j < i then i - 1 else i, victim);
    }

    /** The old entry, now the k-th, and the link of the victim go; `was` is the state before
        the new entry was made. */
    method DropOld(ghost was: Fs, ghost i: int, ghost j: int, ghost n: int, ghost newName: string, k: int, victim: int)
      requires Good(was) && 0 <= i < |was.entries| && 0 <= j < |was.entries| && i != j && was.entries[j].dir == n
      requires State() == var t := was.entries[i].target; DirAdd(Incref(EntryDelete(was, j), t), n, newName, t)
      requires k == (if j < i then i - 1 else i) && victim == was.entries[j].target
      modifies this
      ensures State() == Decref(EntryDrop(old(State()), k), victim)
    {
      ReplaceReady(was, i, j, n, newName);
      DropAndRelease(k, |was.entries| - 1, victim);
    }

    method ReplaceLink(j: int, t: int, n: int, newName: string)
      requires Good(State()) && 0 <= j < |entries| && t in inodes && n in inodes
      modifies this
      ensures State() == DirAdd(Incref(EntryDelete(old(State()), j), t), n, newName, t)
    {
      EntryEnds(State(), j);
      InodeDirentDeleteNoDecref(j);
      InodeIncref(t);
      InodeDirAdd(n, newName, t);
    }

    method DropAndRelease(k: int, ghost l: int, victim: int)
      requires RefInv(State(), multiset{victim}, multiset{}) && 0 <= k < |entries| && 0 <= l < |entries| && k != l
      requires entries[l].target == entries[k].target
      modifies this
      ensures State() == Decref(EntryDrop(old(State()), k), victim)
    {
      EntryEnds(State(), k);
      StaysNamed(State(), multiset{victim}, multiset{}, k, l);
      EntryDropKeeps(State(), multiset{victim}, multiset{}, k);
      assert victim in multiset{victim};
      InodeDirentDelete(k);
      InodeDecref(victim);
    }

    // ----- the content cache -----

    method FsTrimCache(addedSize: int)
      requires forall n :: n in inodeCacheList ==> n in inodes
      requires Distinct(inodeCacheList)
      modifies this
      ensures State() == TrimFrom(old(State()), |old(inodeCacheList)|, addedSize)
    {
      var k := |inodeCacheList|;
      while k > 0 && inodeCacheSize + addedSize > inodeCacheSizeLimit
        invariant 0 <= k <= |inodeCacheList| && Distinct(inodeCacheList)
        invariant forall n :: n in inodeCacheList ==> n in inodes
        invariant TrimFrom(State(), k, addedSize) == TrimFrom(old(State()), |old(inodeCacheList)|, addedSize)
      {
        k := k - 1;
        if inodes[inodeCacheList[k]].openCount == 0 {
          DistinctRemove(inodeCacheList, k);
          EvictAt(k);
        }
      }
    }

    method EvictAt(k: int)
      requires 0 <= k < |inodeCacheList| && inodeCacheList[k] in inodes
      modifies this`inodes, this`inodeCacheList, this`inodeCacheSize
      ensures State() == Evict(old(State()), k)
    {
      var n := inodeCacheList[k];
      inodes := inodes[n := inodes[n].(data := [], state := Unloaded)];
      inodeCacheList := RemoveAt(inodeCacheList, k);
      inodeCacheSize := inodeCacheSize - inodes[n].size;
    }

    /** The file is modified, so it is now local. */
    method MakeLocal(n: int)
      requires n in inodes
      modifies this
      ensures State() == FsData.MakeLocal(old(State()), n)
    {
      if inodes[n].state == Loaded {
        LeaveCache(n);
        inodes := inodes[n := inodes[n].(state := Local)];
      }
    }

    // ----- contents -----

    method FsTruncate(n: int, size: nat, heap: Heap) returns (reply: Reply)
      requires n in inodes && size < WORD
      modifies this
      ensures (State(), reply) == Truncate(old(State()), n, size, heap)
    {
      var x := inodes[n];
      if x.kind != Reg { return Fail(EINVAL); }
      var diff := Signed(size - x.size);
      if diff == 0 { return Ok(0); }
      var diffBlocks := ToBlocks(size) - ToBlocks(x.size);
      if x.state == Loading { return Fail(EIO); }
      if x.state == Unloaded {
        inodes := inodes[n := x.(size := size, state := if size == 0 then Local else Unloaded)];
        fsBlocks := fsBlocks + diffBlocks;
        return Ok(0);
      }
      if diff > 0 && fsBlocks + diffBlocks > fsMaxBlocks { return Fail(ENOSPC); }
      var data: Option<seq<int>>;
      if diff > 0 { data := GrowBuffer(x, size, heap); } else { data := ShrinkBuffer(x, size, heap); }
      if data == None { return Fail(ENOSPC); }
      if diff > 0 && x.size > size { return Fault; }
      SetContent(n, data.value, size);
      return Ok(0);
    }

    /** fs_truncate, a larger size: by a quarter at least, and the new bytes are cleared. */
    method GrowBuffer(x: Inode, size: nat, heap: Heap) returns (data: Option<seq<int>>)
      ensures data == Rebuffered(x, size, true, heap)
    {
      var bytes := x.data;
      if size > |bytes| {
        var newAllocatedSize := |bytes| * 5 % WORD / 4;
        if size > newAllocatedSize { newAllocatedSize := size; }
        data := FileBufferResize(bytes, newAllocatedSize, heap);
        if data == None { return; }
        bytes := data.value;
      }
      if 0 <= x.size <= size { bytes := FileBufferClear(bytes, x.size, size - x.size); }
      data := Some(bytes);
    }

    /** fs_truncate, a smaller size: the buffer shrinks by a fifth once that is enough. */
    method ShrinkBuffer(x: Inode, size: nat, heap: Heap) returns (data: Option<seq<int>>)
      ensures data == Rebuffered(x, size, false, heap)
    {
      var newAllocatedSize := |x.data| * 4 % WORD / 5;
      data := Some(x.data);
      if size <= newAllocatedSize { data := FileBufferResize(x.data, newAllocatedSize, heap); }
    }

    /** file_buffer_resize */
    method FileBufferResize(data: seq<int>, newSize: nat, heap: Heap) returns (r: Option<seq<int>>)
      ensures r == if newSize > heap.room then None else Some(Resized(data, newSize, heap))
    {
      if newSize > heap.room { return None; }
      return Some(Resized(data, newSize, heap));
    }

    /** file_buffer_set with 0 */
    method FileBufferClear(data: seq<int>, offset: nat, count: nat) returns (r: seq<int>)
      requires offset + count <= |data|
      ensures r == Overwritten(data, offset, Zeros(count))
    {
      r := data;
      var i := 0;
      while i < count
        invariant 0 <= i <= count && |r| == |data|
        invariant forall k :: 0 <= k < |r| ==> r[k] == if offset <= k < offset + i then 0 else data[k]
      {
        r := r[offset + i := 0];
        i := i + 1;
      }
    }

    method SetContent(n: int, data: seq<int>, size: int)
      requires n in inodes
      modifies this
      ensures var f1 := FsData.MakeLocal(old(State()), n); State() == Resize(f1, n, At(f1, n).(data := data, size := size))
    {
      MakeLocal(n);
      fsBlocks := fsBlocks + (ToBlocks(size) - ToBlocks(inodes[n].size));
      inodes := inodes[n := inodes[n].(data := data, size := size)];
    }

    method FsRead(h: int, offset: nat, count: nat) returns (reply: Reply, bytes: seq<int>)
      requires Live(State(), h) && InodeOf(State(), h) in inodes
      ensures (reply, bytes) == Read(State(), h, offset, count)
    {
      var f := files[h].value;
      var x := inodes[f.inode];
      if !f.isOpened { return Fail(EPROTO), []; }
      if x.kind != Reg || f.flags % 4 == WRONLY { return Fail(EIO), []; }
      if offset >= x.size { return Ok(0), []; }
      var n := if x.size - offset < count then x.size - offset else count;
      if offset + n > |x.data| { return Fault, []; }
      return Ok(n), x.data[offset..offset + n];
    }

    method FsWrite(h: int, offset: nat, bytes: seq<int>, heap: Heap) returns (reply: Reply)
      requires Live(State(), h) && InodeOf(State(), h) in inodes
      modifies this
      ensures reply != Fault ==> (State(), reply) == Write(old(State()), h, offset, bytes, heap)
      ensures reply == Fault <==> Write(old(State()), h, offset, bytes, heap).1 == Fault
    {
      var f := files[h].value;
      var n := f.inode;
      if !f.isOpened { return Fail(EPROTO); }
      if inodes[n].kind != Reg || f.flags % 4 == 0 { return Fail(EIO); }
      if bytes == [] { return Ok(0); }
      var end := (offset + |bytes|) % WORD;
      if end > inodes[n].size {
        TruncateFailureKeeps(State(), n, end, heap);
        reply := FsTruncate(n, end, heap);
        if reply != Ok(0) { return; }
      }
      reply := StoreBytes(n, offset, bytes);
    }

    method StoreBytes(n: int, offset: nat, bytes: seq<int>) returns (reply: Reply)
      requires n in inodes
      modifies this
      ensures (State(), reply) == Store(old(State()), n, offset, bytes)
    {
      MakeLocal(n);
      if offset + |bytes| > |inodes[n].data| { return Fault; }
      inodes := inodes[n := inodes[n].(data := Overwritten(inodes[n].data, offset, bytes))];
      return Ok(|bytes|);
    }

    // ----- opening -----

    method FsOpenWget(n: int, heap: Heap) returns (reply: Reply)
      requires Sound(State()) && n in inodes && inodes[n].kind == Reg && inodes[n].state == Unloaded && heap.room < HALF
      modifies this
      ensures (State(), reply) == OpenWget(old(State()), n, heap)
    {
      CacheIsListed(State());
      TrimSound(State(), |inodeCacheList|, Signed(inodes[n].size));
      FsTrimCache(Signed(inodes[n].size));
      var x := inodes[n];
      if x.size < 0 || x.size > heap.room { return Fail(EIO); }
      inodes := inodes[n := x.(data := Resized(x.data, x.size, heap), state := Loading, waiter := None)];
      return Ok(0);
    }

    method FsPreloadFiles(names: seq<int>, heap: Heap)
      requires Sound(State()) && heap.room < HALF
      modifies this
      ensures State() == Preload(old(State()), names, heap)
    {
      var i := 0;
      while i < |names|
        invariant 0 <= i <= |names| && Sound(State())
        invariant Preload(State(), names[i..], heap) == Preload(old(State()), names, heap)
      {
        var n := names[i];
        assert names[i..][0] == n && names[i..][1..] == names[i + 1..];
        if n in inodes && inodes[n].kind == Reg && inodes[n].state == Unloaded {
          OpenWgetSound(State(), n, heap, n);
          var _ := FsOpenWget(n, heap);
        }
        i := i + 1;
      }
    }

    method AwaitDownload(n: int, h: int) returns (reply: Reply)
      requires n in inodes
      modifies this
      ensures (State(), reply) == Await(old(State()), n, h)
    {
      if inodes[n].waiter.Some? { return Fail(EIO); }
      inodes := inodes[n := inodes[n].(waiter := Some(h))];
      return Async;
    }

    /** fs_open of a regular file */
    method OpenRegular(h: int, names: seq<int>, heap: Heap) returns (reply: Reply)
      requires Sound(State()) && Live(State(), h) && At(State(), InodeOf(State(), h)).kind == Reg && heap.room < HALF
      modifies this
      ensures (State(), reply) == OpenFile(old(State()), h, names, heap)
    {
      var n := files[h].value.inode;
      match inodes[n].state {
        case Local =>
          files := files[h := Some(files[h].value.(isOpened := true))];
          return Ok(0);
        case Loaded =>
          inodeCacheList := Unlinked(inodeCacheList, n);
          inodeCacheList := [n] + inodeCacheList;
          files := files[h := Some(files[h].value.(isOpened := true))];
          return Ok(0);
        case Loading =>
          reply := AwaitDownload(n, h);
        case Unloaded =>
          reply := OpenUnloaded(n, h, names, heap);
      }
    }

    method OpenUnloaded(n: int, h: int, names: seq<int>, heap: Heap) returns (reply: Reply)
      requires Sound(State()) && Live(State(), h) && InodeOf(State(), h) == n && heap.room < HALF
      requires n in inodes && inodes[n].kind == Reg && inodes[n].state == Unloaded
      modifies this
      ensures (State(), reply) == OpenFile(old(State()), h, names, heap)
    {
      PreloadSound(State(), names, heap, n);
      SameCounts(State(), Preload(State(), names, heap), n);
      FsPreloadFiles(names, heap);
      if inodes[n].state == Loading {
        reply := AwaitDownload(n, h);
      } else {
        OpenWgetSound(State(), n, heap, n);
        reply := FsOpenWget(n, heap);
        if !reply.Fail? { reply := AwaitDownload(n, h); }
      }
    }

    method FsOpen(h: int, flags: nat, names: seq<int>, heap: Heap) returns (reply: Reply)
      requires Sound(State()) && Live(State(), h) && heap.room < HALF
      modifies this
      ensures (State(), reply) == Open(old(State()), h, flags, names, heap)
    {
      LiveInode(State(), h);
      var n := files[h].value.inode;
      SetFileSound(State(), h, FileOf(State(), h).(isOpened := false, flags := flags));
      files := files[h := Some(files[h].value.(isOpened := false))];
      if DirectoryFlag(flags) && inodes[n].kind != Dir { return Fail(ENOTDIR); }
      if !DirectoryFlag(flags) && inodes[n].kind != Reg && inodes[n].kind != Dir { return Fail(EINVAL); }
      files := files[h := Some(files[h].value.(flags := flags))];
      assert State() == SetFile(old(State()), h, FileOf(old(State()), h).(isOpened := false, flags := flags)) by {
        assert files == old(files)[h := files[h]];
      }
      if inodes[n].kind != Reg {
        files := files[h := Some(files[h].value.(isOpened := true))];
        return Ok(0);
      }
      reply := TruncateAndOpen(h, TruncFlag(flags) && Access(flags) != 0, names, heap);
    }

    method TruncateAndOpen(h: int, truncate: bool, names: seq<int>, heap: Heap) returns (reply: Reply)
      requires Sound(State()) && Live(State(), h) && At(State(), InodeOf(State(), h)).kind == Reg && heap.room < HALF
      modifies this
      ensures var fs, n := old(State()), InodeOf(old(State()), h);
              Live(if truncate then Truncate(fs, n, 0, heap).0 else fs, h) &&
              (State(), reply) == OpenFile(if truncate then Truncate(fs, n, 0, heap).0 else fs, h, names, heap)
    {
      if truncate {
        OpenTruncSound(State(), files[h].value.inode, h, heap);
        var _ := FsTruncate(files[h].value.inode, 0, heap);
      }
      reply := OpenRegular(h, names, heap);
    }

    // ----- the end of a download -----

    method FsWgetSetLoaded(n: int, bytes: seq<int>)
      requires n in inodes
      modifies this
      ensures State() == SetLoaded(old(State()), n, bytes)
    {
      var x := inodes[n];
      inodes := inodes[n := x.(state := Loaded, data := bytes, waiter := None)];
      inodeCacheList := [n] + inodeCacheList;
      inodeCacheSize := inodeCacheSize + x.size;
      if x.waiter.Some? && Live(State(), x.waiter.value) {
        files := files[x.waiter.value := Some(files[x.waiter.value].value.(isOpened := true))];
      }
    }

    method FsWgetSetError(n: int)
      requires n in inodes
      modifies this
      ensures State() == SetError(old(State()), n)
    {
      inodes := inodes[n := inodes[n].(state := Unloaded, data := [], waiter := None)];
    }

    /** fs_open_cb at the end of the transfer */
    method FsOpenCb(n: int, download: Option<seq<int>>)
      requires n in inodes
      modifies this
      ensures State() == DownloadEnds(old(State()), n, download)
    {
      var size := inodes[n].size;
      if download.Some? && 0 <= size <= |download.value| {
        FsWgetSetLoaded(n, download.value[..size]);
      } else {
        FsWgetSetError(n);
      }
    }

    method FsNetSetUrl(n: int, size: nat) returns (reply: Reply)
      requires n in inodes
      modifies this
      ensures (State(), reply) == SetUrl(old(State()), n, size)
    {
      var x := inodes[n];
      if x.kind != Reg || x.state != Local || |x.data| != 0 { return Fail(EIO); }
      if size > 0 {
        inodes := inodes[n := x.(state := Unloaded, size := size)];
        fsBlocks := fsBlocks + ToBlocks(size);
      }
      return Ok(0);
    }
  }

  lemma CacheIsListed(fs: Fs)
    requires Sound(fs)
    ensures Distinct(fs.cache) && forall n :: n in fs.cache ==> n in fs.inodes
  {
    assert forall n :: n in fs.cache ==> Cached(fs.inodes, n);
  }

  /** A failing fs_truncate changes nothing. */
  lemma TruncateFailureKeeps(fs: Fs, n: int, size: nat, heap: Heap)
    requires size < WORD
    ensures var (r, reply) := Truncate(fs, n, size, heap); reply == Ok(0) || r == fs
  {
  }

  lemma EntryEnds(fs: Fs, i: int)
    requires Closed(fs) && 0 <= i < |fs.entries|
    ensures fs.entries[i].dir in fs.inodes && fs.entries[i].target in fs.inodes
  {
    assert fs.entries[i] in fs.entries;
  }

  lemma {:induction false} FirstInDir(es: seq<Entry>, dir: int, i: int)
    requires 0 <= i <= |es| && (i < |es| ==> es[i].dir == dir) && forall j :: 0 <= j < i ==> es[j].dir != dir
    ensures FirstOf(es, dir) == if i < |es| then i else -1
  {
    if i > 0 { FirstInDir(es[1..], dir, i - 1); }
  }

  lemma {:induction false} FirstPosition(s: seq<int>, n: int, i: int)
    requires 0 <= i < |s| && s[i] == n && n !in s[..i]
    ensures Position(s, n) == i
  {
    if i > 0 {
      assert s[0] == s[..i][0] && s[1..][..i - 1] == s[..i][1..];
      FirstPosition(s[1..], n, i - 1);
    }
  }

  lemma {:induction false} FirstSearch(es: seq<Entry>, dir: int, name: string, i: int)
    requires 0 <= i <= |es| && (i < |es| ==> es[i].dir == dir && es[i].name == name)
    requires forall j :: 0 <= j < i ==> es[j].dir != dir || es[j].name != name
    ensures SearchFrom(es, dir, name) == if i < |es| then i else -1
  {
    if i > 0 { FirstSearch(es[1..], dir, name, i - 1); }
  }
}
