// The operations on names leave file contents, downloads and open files alone.

module FsFrames {
  import opened Options
  import opened FsNet
  import opened FsNames
  import opened FsOps

  predicate Kept(x: Inode, y: Inode) {
    y.kind == x.kind && y.state == x.state && y.data == x.data && y.waiter == x.waiter && (x.kind == Reg ==> y.size == x.size)
  }

  predicate Blank(x: Inode) { x.state == Local && x.data == [] && x.waiter == None && (x.kind == Reg ==> x.size == 0) }

  /** Old inodes keep what they hold, new ones are empty. */
  ghost predicate Quiet(fs: Fs, r: Fs) {
    && r.nextId >= fs.nextId
    && forall n :: n in r.inodes ==>
      if n < fs.nextId then n in fs.inodes && Kept(fs.inodes[n], r.inodes[n]) else Blank(r.inodes[n])
  }

  lemma QuietTrans(a: Fs, b: Fs, c: Fs)
    requires Quiet(a, b) && Quiet(b, c)
    ensures Quiet(a, c)
  {
  }

  // ----- the primitives -----

  /** The numbers in use are below the next one. */
  ghost predicate Fresh(fs: Fs) { forall n :: n in fs.inodes ==> n < fs.nextId }

  lemma SetQuiet(fs: Fs, n: int, x: Inode)
    requires Fresh(fs) && n in fs.inodes && Kept(fs.inodes[n], x)
    ensures Quiet(fs, Set(fs, n, x)) && Fresh(Set(fs, n, x))
  {
  }

  lemma FreeQuiet(fs: Fs, n: int)
    requires Fresh(fs) && n in fs.inodes
    ensures Quiet(fs, FreeInode(fs, n)) && Fresh(FreeInode(fs, n))
  {
  }

  lemma CountQuiet(fs: Fs, n: int)
    requires Fresh(fs) && n in fs.inodes
    ensures Quiet(fs, Incref(fs, n)) && Quiet(fs, IncOpen(fs, n)) && Quiet(fs, Decref(fs, n)) && Quiet(fs, DecOpen(fs, n))
    ensures Fresh(Incref(fs, n)) && Fresh(Decref(fs, n))
  {
    var x := fs.inodes[n];
    SetQuiet(fs, n, x.(refcount := x.refcount + 1));
    SetQuiet(fs, n, x.(openCount := x.openCount + 1));
    SetQuiet(fs, n, x.(refcount := x.refcount - 1));
    SetQuiet(fs, n, x.(openCount := x.openCount - 1));
    FreeQuiet(fs, n);
  }

  lemma NewQuiet(fs: Fs, kind: Kind)
    requires Fresh(fs)
    ensures Quiet(fs, NewInode(fs, kind)) && Fresh(NewInode(fs, kind))
  {
  }

  lemma DirAddQuiet(fs: Fs, dir: int, name: string, target: int)
    requires Fresh(fs) && IsDir(fs, dir)
    ensures Quiet(fs, DirAdd(fs, dir, name, target)) && Fresh(DirAdd(fs, dir, name, target))
  {
  }

  lemma EntryDeleteQuiet(fs: Fs, i: int)
    requires Fresh(fs) && 0 <= i < |fs.entries| && IsDir(fs, fs.entries[i].dir)
    ensures Quiet(fs, EntryDelete(fs, i)) && Fresh(EntryDelete(fs, i))
  {
  }

  lemma EntryDropQuiet(fs: Fs, i: int)
    requires Fresh(fs) && 0 <= i < |fs.entries| && IsDir(fs, fs.entries[i].dir) && fs.entries[i].target in fs.inodes
    ensures Quiet(fs, EntryDrop(fs, i)) && Fresh(EntryDrop(fs, i))
  {
    EntryDeleteQuiet(fs, i);
    CountQuiet(EntryDelete(fs, i), fs.entries[i].target);
    QuietTrans(fs, EntryDelete(fs, i), EntryDrop(fs, i));
  }

  lemma {:induction false} FlushQuiet(fs: Fs, t: int)
    requires Good(fs) && NamedOutside(fs, t) && !FlushStrands(fs, t)
    ensures Quiet(fs, FlushDir(fs, t))
    decreases |fs.entries|
  {
    var i := FirstOf(fs.entries, t);
    if i >= 0 {
      assert fs.entries[i] in fs.entries;
      EntryDropQuiet(fs, i);
      FlushStep(fs, t, i);
      FlushQuiet(EntryDrop(fs, i), t);
      QuietTrans(fs, EntryDrop(fs, i), FlushDir(EntryDrop(fs, i), t));
    }
  }

  lemma IncrefAddQuiet(fs: Fs, dir: int, name: string, target: int)
    requires Fresh(fs) && IsDir(fs, dir) && target in fs.inodes
    ensures var r := DirAdd(Incref(fs, target), dir, name, target); Quiet(fs, r) && Fresh(r) && IsDir(r, dir)
    ensures forall m :: m in fs.inodes ==> m in DirAdd(Incref(fs, target), dir, name, target).inodes
  {
    CountQuiet(fs, target);
    DirAddQuiet(Incref(fs, target), dir, name, target);
    QuietTrans(fs, Incref(fs, target), DirAdd(Incref(fs, target), dir, name, target));
  }

  // ----- the operations -----

  lemma MkdirQuiet(fs: Fs, h: int, name: string)
    requires Good(fs) && Live(fs, h)
    ensures Quiet(fs, Mkdir(fs, h, name).0)
  {
    var n, id := InodeOf(fs, h), fs.nextId;
    if IsDir(fs, n) && Search(fs, n, name) < 0 {
      var f1 := NewInode(fs, Dir);
      NewQuiet(fs, Dir);
      IncrefAddQuiet(f1, id, ".", id);
      var f2 := DirAdd(Incref(f1, id), id, ".", id);
      QuietTrans(fs, f1, f2);
      IncrefAddQuiet(f2, id, "..", n);
      var f3 := DirAdd(Incref(f2, n), id, "..", n);
      QuietTrans(fs, f2, f3);
      DirAddQuiet(f3, n, name, id);
      QuietTrans(fs, f3, DirAdd(f3, n, name, id));
    }
  }

  lemma NewNameQuiet(fs: Fs, kind: Kind, n: int, name: string)
    requires Fresh(fs) && IsDir(fs, n)
    ensures var r := DirAdd(NewInode(fs, kind), n, name, fs.nextId); Quiet(fs, r) && Fresh(r)
  {
    NewQuiet(fs, kind);
    DirAddQuiet(NewInode(fs, kind), n, name, fs.nextId);
    QuietTrans(fs, NewInode(fs, kind), DirAdd(NewInode(fs, kind), n, name, fs.nextId));
  }

  lemma FidCreateQuiet(fs: Fs, n: int)
    requires Fresh(fs) && n in fs.inodes
    ensures Quiet(fs, FidCreate(fs, n))
  {
    CountQuiet(fs, n);
  }

  lemma DeleteQuiet(fs: Fs, h: int)
    requires Fresh(fs) && Live(fs, h) && InodeOf(fs, h) in fs.inodes
    ensures var r := Delete(fs, h).0; Quiet(fs, r) && Fresh(r) && Live(r.(files := fs.files), h)
    ensures forall m :: m in fs.inodes && m != InodeOf(fs, h) ==> m in Delete(fs, h).0.inodes
  {
    CountQuiet(fs, InodeOf(fs, h));
  }

  lemma RetargetQuiet(fs: Fs, h: int, f: FsFile)
    requires Fresh(fs) && Live(fs, h) && InodeOf(fs, h) in fs.inodes && f.inode in fs.inodes && f.inode != InodeOf(fs, h)
    ensures Quiet(fs, Retarget(fs, h, f))
  {
    DeleteQuiet(fs, h);
    var f1 := Delete(fs, h).0;
    FidCreateQuiet(f1, f.inode);
    QuietTrans(fs, f1, FidCreate(f1, f.inode));
  }

  lemma CreateQuiet(fs: Fs, h: int, name: string, flags: int)
    requires Good(fs) && Live(fs, h)
    ensures Quiet(fs, Create(fs, h, name, flags).0)
  {
    var n, id := InodeOf(fs, h), fs.nextId;
    if IsDir(fs, n) && Search(fs, n, name) < 0 {
      NewNameQuiet(fs, Reg, n, name);
      var f1 := DirAdd(NewInode(fs, Reg), n, name, id);
      RetargetQuiet(f1, h, FsFile(id, true, flags));
      QuietTrans(fs, f1, Retarget(f1, h, FsFile(id, true, flags)));
    }
  }

  lemma UnlinkQuiet(fs: Fs, h: int, name: string)
    requires Good(fs) && Live(fs, h) && !UnlinkStrands(fs, h, name)
    ensures Quiet(fs, Unlink(fs, h, name).0)
  {
    var n := InodeOf(fs, h);
    var i := Search(fs, n, name);
    if name !in {".", ".."} && i >= 0 {
      var t := fs.entries[i].target;
      assert fs.entries[i] in fs.entries;
      if !IsDir(fs, t) {
        EntryDropQuiet(fs, i);
      } else if EmptyDir(fs, t) {
        assert t != n;
        FlushQuiet(fs, t);
        FlushKeeps(fs, t);
        FlushKeepsSearch(fs, t, n, name);
        var f1 := FlushDir(fs, t);
        var k := SearchFrom(f1.entries, n, name);
        assert f1.entries[k] in f1.entries;
        EntryDropQuiet(f1, k);
        QuietTrans(fs, f1, EntryDrop(f1, k));
      }
    }
  }

  lemma RenameFreshQuiet(fs: Fs, i: int, n: int, newName: string)
    requires Good(fs) && 0 <= i < |fs.entries| && IsDir(fs, n)
    ensures Quiet(fs, MoveEntry(fs, i, n, newName))
  {
    var t := fs.entries[i].target;
    assert fs.entries[i] in fs.entries;
    IncrefAddQuiet(fs, n, newName, t);
    var f1 := DirAdd(Incref(fs, t), n, newName, t);
    assert f1.entries[i] == fs.entries[i] && IsDir(f1, fs.entries[i].dir);
    EntryDropQuiet(f1, i);
    QuietTrans(fs, f1, EntryDrop(f1, i));
  }

  lemma ReplaceNameQuiet(fs: Fs, j: int, t: int, n: int, newName: string)
    requires Good(fs) && 0 <= j < |fs.entries| && t in fs.inodes && IsDir(fs, n)
    ensures var r := DirAdd(Incref(EntryDelete(fs, j), t), n, newName, t);
            Quiet(fs, r) && Fresh(r) && forall m :: m in fs.inodes ==> m in r.inodes
  {
    assert fs.entries[j] in fs.entries;
    EntryDeleteQuiet(fs, j);
    var f0 := EntryDelete(fs, j);
    IncrefAddQuiet(f0, n, newName, t);
    QuietTrans(fs, f0, DirAdd(Incref(f0, t), n, newName, t));
  }

  lemma DropReleaseQuiet(f1: Fs, k: int, l: int, victim: int)
    requires RefInv(f1, multiset{victim}, multiset{}) && 0 <= k < |f1.entries| && 0 <= l < |f1.entries| && k != l
    requires f1.entries[l].target == f1.entries[k].target
    ensures Quiet(f1, Decref(EntryDrop(f1, k), victim))
  {
    assert f1.entries[k] in f1.entries;
    EntryDropQuiet(f1, k);
    StaysNamed(f1, multiset{victim}, multiset{}, k, l);
    EntryDropKeeps(f1, multiset{victim}, multiset{}, k);
    assert victim in multiset{victim};
    CountQuiet(EntryDrop(f1, k), victim);
    QuietTrans(f1, EntryDrop(f1, k), Decref(EntryDrop(f1, k), victim));
  }

  lemma RenameOverQuiet(fs: Fs, i: int, j: int, n: int, newName: string)
    requires Good(fs) && 0 <= i < |fs.entries| && 0 <= j < |fs.entries| && i != j && fs.entries[j].dir == n
    ensures Quiet(fs, ReplaceEntry(fs, i, j, n, newName))
  {
    var t, victim := fs.entries[i].target, fs.entries[j].target;
    ReplaceReady(fs, i, j, n, newName);
    ReplaceNameQuiet(fs, j, t, n, newName);
    var f1 := DirAdd(Incref(EntryDelete(fs, j), t), n, newName, t);
    var k := if j < i then i - 1 else i;
    DropReleaseQuiet(f1, k, |fs.entries| - 1, victim);
    QuietTrans(fs, f1, Decref(EntryDrop(f1, k), victim));
  }

  lemma RenameQuiet(fs: Fs, h: int, name: string, nh: int, newName: string)
    requires Good(fs) && Live(fs, h) && Live(fs, nh)
    ensures Quiet(fs, Rename(fs, h, name, nh, newName).0)
  {
    var n := InodeOf(fs, nh);
    var i, j := Search(fs, InodeOf(fs, h), name), Search(fs, n, newName);
    if i >= 0 && j < 0 && IsDir(fs, n) {
      RenameFreshQuiet(fs, i, n, newName);
    } else if i >= 0 && j >= 0 && i != j && !IsDir(fs, fs.entries[j].target) {
      RenameOverQuiet(fs, i, j, n, newName);
    }
  }

  lemma WalkQuiet(fs: Fs, h: int, names: seq<string>)
    requires Good(fs) && Live(fs, h)
    ensures Quiet(fs, Walk(fs, h, names).0)
  {
    LiveInode(fs, h);
    WalkStaysInside(fs, InodeOf(fs, h), names);
    FidCreateQuiet(fs, WalkNames(fs, InodeOf(fs, h), names).0);
  }

  lemma LinkQuiet(fs: Fs, dh: int, h: int, name: string)
    requires Good(fs) && Live(fs, dh) && Live(fs, h)
    ensures Quiet(fs, Link(fs, dh, h, name).0)
  {
    LiveInode(fs, h);
    if IsDir(fs, InodeOf(fs, dh)) { IncrefAddQuiet(fs, InodeOf(fs, dh), name, InodeOf(fs, h)); }
  }

  lemma FidDeleteQuiet(fs: Fs, h: int)
    requires Good(fs) && Live(fs, h)
    ensures Quiet(fs, Delete(fs, h).0)
  {
    LiveInode(fs, h);
    DeleteQuiet(fs, h);
  }

  lemma MakeNodeQuiet(fs: Fs, h: int, name: string, kind: Kind)
    requires Good(fs) && Live(fs, h) && kind != Dir
    ensures Quiet(fs, MakeNode(fs, h, name, kind).0)
  {
    if IsDir(fs, InodeOf(fs, h)) { NewNameQuiet(fs, kind, InodeOf(fs, h), name); }
  }

  lemma TreeStepQuiet(fs: Fs, op: Op)
    requires Good(fs) && LegalOp(fs, op) && (op.OMkdir? || op.OCreate? || op.ORename? || op.OUnlink?)
    ensures Quiet(fs, Step(fs, op).0)
  {
    match op
    case OMkdir(h, name) => MkdirQuiet(fs, h, name);
    case OCreate(h, name, flags) => CreateQuiet(fs, h, name, flags);
    case ORename(h, name, nh, newName) => RenameQuiet(fs, h, name, nh, newName);
    case OUnlink(h, name) => UnlinkQuiet(fs, h, name);
  }

  lemma NodeStepQuiet(fs: Fs, op: Op)
    requires Good(fs) && LegalOp(fs, op) && (op.OSymlink? || op.OMknod? || op.OLink?)
    ensures Quiet(fs, Step(fs, op).0)
  {
    match op
    case OSymlink(h, name) => MakeNodeQuiet(fs, h, name, Lnk);
    case OMknod(h, name, kind) => if kind != Dir { MakeNodeQuiet(fs, h, name, kind); }
    case OLink(dh, h, name) => LinkQuiet(fs, dh, h, name);
  }

  lemma FidStepQuiet(fs: Fs, op: Op)
    requires Good(fs) && LegalOp(fs, op) && (op.OAttach? || op.OWalk? || op.ODelete?)
    ensures Quiet(fs, Step(fs, op).0)
  {
    match op
    case OAttach => FidCreateQuiet(fs, fs.root);
    case OWalk(h, names) => WalkQuiet(fs, h, names);
    case ODelete(h) => FidDeleteQuiet(fs, h);
  }

  lemma StepQuiet(fs: Fs, op: Op)
    requires Good(fs) && LegalOp(fs, op)
    ensures Quiet(fs, Step(fs, op).0)
  {
    if op.OAttach? || op.OWalk? || op.ODelete? { FidStepQuiet(fs, op); }
    else if op.OSymlink? || op.OMknod? || op.OLink? { NodeStepQuiet(fs, op); }
    else { TreeStepQuiet(fs, op); }
  }
}
