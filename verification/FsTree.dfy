// The name space of temu/fs_net.c as a map: what each operation does to the names of the
// directories, and where a walk ends.

module FsTree {
  import opened Options
  import opened Sums
  import opened FsNet
  import opened FsNames
  import opened FsOps

  /** What a name in a directory stands for. */
  type Tree = map<(int, string), int>

  /** The first entry with a name counts. */
  function Names(es: seq<Entry>): Tree {
    if es == [] then map[] else Names(es[1..])[(es[0].dir, es[0].name) := es[0].target]
  }

  function TreeOf(fs: Fs): Tree { Names(fs.entries) }

  function Key(e: Entry): (int, string) { (e.dir, e.name) }

  /** No directory has a name twice. */
  ghost predicate Unique(es: seq<Entry>) { forall i, j :: 0 <= i < j < |es| ==> Key(es[i]) != Key(es[j]) }

  lemma {:induction false} InNames(es: seq<Entry>, k: (int, string))
    ensures k in Names(es) <==> exists e :: e in es && Key(e) == k
  {
    if es != [] {
      InNames(es[1..], k);
      if k != Key(es[0]) {
        if e :| e in es && Key(e) == k { assert e in es[1..]; }
        if e :| e in es[1..] && Key(e) == k { assert e in es; }
      }
    }
  }

  /** A search is a lookup. */
  lemma {:induction false} SearchIsLookup(es: seq<Entry>, dir: int, name: string)
    ensures var i := SearchFrom(es, dir, name);
            (i >= 0 <==> (dir, name) in Names(es)) && (i >= 0 ==> Names(es)[(dir, name)] == es[i].target)
  {
    if es != [] { SearchIsLookup(es[1..], dir, name); }
  }

  /** In a file system without dangling entries only directories have names. */
  lemma Lookup(fs: Fs, n: int, name: string)
    requires Closed(fs)
    ensures var i := Search(fs, n, name);
            (i >= 0 <==> (n, name) in TreeOf(fs)) && (i >= 0 ==> TreeOf(fs)[(n, name)] == fs.entries[i].target)
  {
    SearchIsLookup(fs.entries, n, name);
    var i := SearchFrom(fs.entries, n, name);
    if i >= 0 { assert fs.entries[i] in fs.entries; }
  }

  // ----- adding and removing entries -----

  lemma {:induction false} NamesPush(es: seq<Entry>, e: Entry)
    requires Key(e) !in Names(es)
    ensures Names(es + [e]) == Names(es)[Key(e) := e.target]
  {
    if es == [] {
      assert es + [e] == [e] && [e][1..] == [];
    } else {
      assert (es + [e])[1..] == es[1..] + [e];
      NamesPush(es[1..], e);
    }
  }

  lemma UniquePush(es: seq<Entry>, e: Entry)
    requires Unique(es) && Key(e) !in Names(es)
    ensures Unique(es + [e])
  {
    InNames(es, Key(e));
    forall i | 0 <= i < |es| ensures Key(es[i]) != Key(e) { assert es[i] in es; }
  }

  lemma {:induction false} NamesRemove(es: seq<Entry>, i: int)
    requires 0 <= i < |es| && Unique(es)
    ensures Names(RemoveAt(es, i)) == Names(es) - {Key(es[i])}
  {
    if i == 0 {
      assert RemoveAt(es, 0) == es[1..];
      InNames(es[1..], Key(es[0]));
    } else {
      assert RemoveAt(es, i)[0] == es[0] && RemoveAt(es, i)[1..] == RemoveAt(es[1..], i - 1);
      NamesRemove(es[1..], i - 1);
    }
  }

  lemma UniqueRemove(es: seq<Entry>, i: int)
    requires 0 <= i < |es| && Unique(es)
    ensures Unique(RemoveAt(es, i))
  {
    var r := RemoveAt(es, i);
    forall a, b | 0 <= a < b < |r| ensures Key(r[a]) != Key(r[b]) {
      assert r[a] == es[if a < i then a else a + 1] && r[b] == es[if b < i then b else b + 1];
    }
  }

  lemma Pushed(es: seq<Entry>, e: Entry)
    requires Unique(es) && Key(e) !in Names(es)
    ensures Unique(es + [e]) && Names(es + [e]) == Names(es)[Key(e) := e.target]
  {
    NamesPush(es, e);
    UniquePush(es, e);
  }

  lemma Removed(es: seq<Entry>, i: int)
    requires 0 <= i < |es| && Unique(es)
    ensures Unique(RemoveAt(es, i)) && Names(RemoveAt(es, i)) == Names(es) - {Key(es[i])}
  {
    NamesRemove(es, i);
    UniqueRemove(es, i);
  }

  lemma EntryDropEntries(fs: Fs, i: int)
    requires 0 <= i < |fs.entries|
    ensures EntryDrop(fs, i).entries == RemoveAt(fs.entries, i)
  {
  }

  /** The names of directory t go. */
  function WithoutDir(t: Tree, d: int): Tree { map k | k in t && k.0 != d :: t[k] }

  lemma WithoutOne(t: Tree, d: int, k: (int, string))
    requires k.0 == d
    ensures WithoutDir(t - {k}, d) == WithoutDir(t, d)
  {
  }

  lemma WithoutNone(es: seq<Entry>, d: int)
    requires forall j :: 0 <= j < |es| ==> es[j].dir != d
    ensures WithoutDir(Names(es), d) == Names(es)
  {
    forall k | k in Names(es) ensures k.0 != d { InNames(es, k); }
  }

  lemma {:induction false} Flushed(fs: Fs, d: int)
    requires Unique(fs.entries)
    ensures var r := FlushDir(fs, d); Unique(r.entries) && TreeOf(r) == WithoutDir(TreeOf(fs), d)
    decreases |fs.entries|
  {
    var i := FirstOf(fs.entries, d);
    if i >= 0 {
      EntryDropEntries(fs, i);
      Removed(fs.entries, i);
      Flushed(EntryDrop(fs, i), d);
      WithoutOne(TreeOf(fs), d, Key(fs.entries[i]));
    } else {
      WithoutNone(fs.entries, d);
    }
  }

  // ----- the operations -----

  /** A name that is free comes to stand for t. */
  function Bound(tree: Tree, dir: int, name: string, t: int): Tree {
    if (dir, name) in tree then tree else tree[(dir, name) := t]
  }

  /** Nothing is in a directory but itself and its parent. */
  predicate OnlyDots(tree: Tree, d: int) { forall k :: k in tree && k.0 == d ==> k.1 in {".", ".."} }

  /** rename: the old name goes, the new one stands for what the old one did. */
  function Renamed(fs: Fs, tree: Tree, src: (int, string), dst: (int, string)): Tree {
    if src !in tree || (dst in tree && IsDir(fs, tree[dst])) then tree
    else (tree - {src})[dst := tree[src]]
  }

  /** unlink: a name goes, with the names of the directory it stands for. */
  function Unlinked(fs: Fs, tree: Tree, k: (int, string)): Tree {
    if k !in tree || k.1 in {".", ".."} then tree
    else if !IsDir(fs, tree[k]) then tree - {k}
    else if !OnlyDots(tree, tree[k]) then tree
    else WithoutDir(tree, tree[k]) - {k}
  }

  /** The name space after an operation, from the name space before. */
  function TreeAfter(fs: Fs, tree: Tree, op: Op): Tree
    requires Uses(fs, op)
  {
    match op
    case OMkdir(h, name) =>
      var n, id := InodeOf(fs, h), fs.nextId;
      if IsDir(fs, n) && (n, name) !in tree then tree[(id, ".") := id][(id, "..") := n][(n, name) := id] else tree
    case OCreate(h, name, _) => if IsDir(fs, InodeOf(fs, h)) then Bound(tree, InodeOf(fs, h), name, fs.nextId) else tree
    case OSymlink(h, name) => Bound(tree, InodeOf(fs, h), name, fs.nextId)
    case OMknod(h, name, kind) => if kind in {Dir, Lnk} then tree else Bound(tree, InodeOf(fs, h), name, fs.nextId)
    case OLink(dh, h, name) => if IsDir(fs, InodeOf(fs, h)) then tree else Bound(tree, InodeOf(fs, dh), name, InodeOf(fs, h))
    case ORename(h, name, nh, newName) => Renamed(fs, tree, (InodeOf(fs, h), name), (InodeOf(fs, nh), newName))
    case OUnlink(h, name) => Unlinked(fs, tree, (InodeOf(fs, h), name))
    case _ => tree
  }

  /** The names are unique and stand for what `tree` says. */
  ghost predicate TreeStep(r: Fs, tree: Tree) { Unique(r.entries) && TreeOf(r) == tree }

  lemma NewDirHasNoNames(fs: Fs, name: string)
    requires Closed(fs)
    ensures (fs.nextId, name) !in TreeOf(fs)
  {
    InNames(fs.entries, (fs.nextId, name));
  }

  lemma MkdirEntries(fs: Fs, h: int, name: string)
    requires Live(fs, h)
    ensures var n, id := InodeOf(fs, h), fs.nextId;
            Mkdir(fs, h, name).0.entries ==
              if IsDir(fs, n) && Search(fs, n, name) < 0 then fs.entries + [Entry(id, ".", id)] + [Entry(id, "..", n)] + [Entry(n, name, id)]
              else fs.entries
  {
  }

  lemma DirectoryPushed(es: seq<Entry>, id: int, n: int, name: string)
    requires Unique(es) && id != n && (id, ".") !in Names(es) && (id, "..") !in Names(es) && (n, name) !in Names(es)
    ensures var r := es + [Entry(id, ".", id)] + [Entry(id, "..", n)] + [Entry(n, name, id)];
            Unique(r) && Names(r) == Names(es)[(id, ".") := id][(id, "..") := n][(n, name) := id]
  {
    Pushed(es, Entry(id, ".", id));
    Pushed(es + [Entry(id, ".", id)], Entry(id, "..", n));
    Pushed(es + [Entry(id, ".", id)] + [Entry(id, "..", n)], Entry(n, name, id));
  }

  lemma MkdirTree(fs: Fs, h: int, name: string)
    requires Good(fs) && Unique(fs.entries) && Live(fs, h)
    ensures TreeStep(Mkdir(fs, h, name).0, TreeAfter(fs, TreeOf(fs), OMkdir(h, name)))
  {
    var n, id := InodeOf(fs, h), fs.nextId;
    Lookup(fs, n, name);
    MkdirEntries(fs, h, name);
    if IsDir(fs, n) && Search(fs, n, name) < 0 {
      NewDirHasNoNames(fs, ".");
      NewDirHasNoNames(fs, "..");
      DirectoryPushed(fs.entries, id, n, name);
    }
  }

  /** An operation that adds one entry, or none. */
  lemma AddedTree(fs: Fs, r: Fs, n: int, name: string, t: int)
    requires Closed(fs) && Unique(fs.entries) && IsDir(fs, n)
    requires r.entries == if Search(fs, n, name) < 0 then fs.entries + [Entry(n, name, t)] else fs.entries
    ensures TreeStep(r, Bound(TreeOf(fs), n, name, t))
  {
    Lookup(fs, n, name);
    if Search(fs, n, name) < 0 { Pushed(fs.entries, Entry(n, name, t)); }
  }

  lemma MakeNodeEntries(fs: Fs, h: int, name: string, kind: Kind)
    requires Live(fs, h) && kind != Dir && IsDir(fs, InodeOf(fs, h))
    ensures MakeNode(fs, h, name, kind).0.entries ==
              if Search(fs, InodeOf(fs, h), name) < 0 then fs.entries + [Entry(InodeOf(fs, h), name, fs.nextId)] else fs.entries
  {
  }

  lemma MakeNodeTree(fs: Fs, h: int, name: string, kind: Kind)
    requires Good(fs) && Unique(fs.entries) && Live(fs, h) && kind != Dir && IsDir(fs, InodeOf(fs, h))
    ensures TreeStep(MakeNode(fs, h, name, kind).0, Bound(TreeOf(fs), InodeOf(fs, h), name, fs.nextId))
  {
    MakeNodeEntries(fs, h, name, kind);
    AddedTree(fs, MakeNode(fs, h, name, kind).0, InodeOf(fs, h), name, fs.nextId);
  }

  lemma LinkEntries(fs: Fs, dh: int, h: int, name: string)
    requires Live(fs, dh) && Live(fs, h) && !IsDir(fs, InodeOf(fs, h)) && IsDir(fs, InodeOf(fs, dh))
    ensures Link(fs, dh, h, name).0.entries ==
              if Search(fs, InodeOf(fs, dh), name) < 0 then fs.entries + [Entry(InodeOf(fs, dh), name, InodeOf(fs, h))] else fs.entries
  {
  }

  lemma LinkTree(fs: Fs, dh: int, h: int, name: string)
    requires Good(fs) && Unique(fs.entries) && Live(fs, dh) && Live(fs, h) && !IsDir(fs, InodeOf(fs, h)) && IsDir(fs, InodeOf(fs, dh))
    ensures TreeStep(Link(fs, dh, h, name).0, Bound(TreeOf(fs), InodeOf(fs, dh), name, InodeOf(fs, h)))
  {
    LinkEntries(fs, dh, h, name);
    AddedTree(fs, Link(fs, dh, h, name).0, InodeOf(fs, dh), name, InodeOf(fs, h));
  }

  lemma NodeTree(fs: Fs, op: Op)
    requires Good(fs) && Unique(fs.entries) && LegalOp(fs, op) && IsNode(op)
    ensures TreeStep(Step(fs, op).0, TreeAfter(fs, TreeOf(fs), op))
  {
    match op
    case OSymlink(h, name) => MakeNodeTree(fs, h, name, Lnk);
    case OMknod(h, name, kind) => if kind !in {Dir, Lnk} { MakeNodeTree(fs, h, name, kind); }
    case OLink(dh, h, name) => if !IsDir(fs, InodeOf(fs, h)) { LinkTree(fs, dh, h, name); }
  }

  lemma CreateEntries(fs: Fs, h: int, name: string, flags: int)
    requires Live(fs, h)
    ensures var n, r := InodeOf(fs, h), Create(fs, h, name, flags).0;
            r.entries == if IsDir(fs, n) && Search(fs, n, name) < 0 then fs.entries + [Entry(n, name, fs.nextId)] else fs.entries
  {
  }

  lemma CreateTree(fs: Fs, h: int, name: string, flags: int)
    requires Closed(fs) && Unique(fs.entries) && Live(fs, h)
    ensures var n, r := InodeOf(fs, h), Create(fs, h, name, flags).0;
            if IsDir(fs, n) then TreeStep(r, Bound(TreeOf(fs), n, name, fs.nextId)) else r.entries == fs.entries
  {
    CreateEntries(fs, h, name, flags);
    if IsDir(fs, InodeOf(fs, h)) { AddedTree(fs, Create(fs, h, name, flags).0, InodeOf(fs, h), name, fs.nextId); }
  }

  lemma MovedNames(es: seq<Entry>, i: int, e: Entry)
    requires 0 <= i < |es| && Unique(es) && Key(e) !in Names(es) && e.target == es[i].target && Key(es[i]) in Names(es)
    ensures var r := RemoveAt(es + [e], i); Unique(r) && Names(r) == (Names(es) - {Key(es[i])})[Key(e) := e.target]
  {
    Pushed(es, e);
    Removed(es + [e], i);
  }

  lemma ReplacedNames(es: seq<Entry>, i: int, j: int, e: Entry)
    requires 0 <= i < |es| && 0 <= j < |es| && i != j && Unique(es) && Key(e) == Key(es[j])
    ensures var k := if j < i then i - 1 else i;
            var r := RemoveAt(RemoveAt(es, j) + [e], k);
            Unique(r) && Names(r) == (Names(es) - {Key(es[i])})[Key(e) := e.target]
  {
    var k := if j < i then i - 1 else i;
    Removed(es, j);
    Pushed(RemoveAt(es, j), e);
    assert (RemoveAt(es, j) + [e])[k] == es[i];
    Removed(RemoveAt(es, j) + [e], k);
    assert Key(es[i]) != Key(es[j]);
  }

  lemma MoveEntries(fs: Fs, i: int, n: int, newName: string)
    requires 0 <= i < |fs.entries|
    ensures MoveEntry(fs, i, n, newName).entries == RemoveAt(fs.entries + [Entry(n, newName, fs.entries[i].target)], i)
  {
  }

  lemma ReplaceEntries(fs: Fs, i: int, j: int, n: int, newName: string)
    requires 0 <= i < |fs.entries| && 0 <= j < |fs.entries| && i != j
    ensures ReplaceEntry(fs, i, j, n, newName).entries ==
              RemoveAt(RemoveAt(fs.entries, j) + [Entry(n, newName, fs.entries[i].target)], if j < i then i - 1 else i)
  {
    var t := fs.entries[i].target;
    EntryDropEntries(DirAdd(Incref(EntryDelete(fs, j), t), n, newName, t), if j < i then i - 1 else i);
  }

  lemma RenameTree(fs: Fs, h: int, name: string, nh: int, newName: string)
    requires Good(fs) && Unique(fs.entries) && LegalOp(fs, ORename(h, name, nh, newName))
    ensures TreeStep(Rename(fs, h, name, nh, newName).0, Renamed(fs, TreeOf(fs), (InodeOf(fs, h), name), (InodeOf(fs, nh), newName)))
  {
    var n := InodeOf(fs, nh);
    var i, j := Search(fs, InodeOf(fs, h), name), Search(fs, n, newName);
    Lookup(fs, InodeOf(fs, h), name);
    Lookup(fs, n, newName);
    if i >= 0 && j < 0 {
      MoveEntries(fs, i, n, newName);
      MovedNames(fs.entries, i, Entry(n, newName, fs.entries[i].target));
    } else if i >= 0 && !IsDir(fs, fs.entries[j].target) {
      ReplaceEntries(fs, i, j, n, newName);
      ReplacedNames(fs.entries, i, j, Entry(n, newName, fs.entries[i].target));
    }
  }

  lemma OnlyDotsIsEmpty(fs: Fs, d: int)
    requires Unique(fs.entries)
    ensures EmptyDir(fs, d) <==> OnlyDots(TreeOf(fs), d)
  {
    forall k | k in TreeOf(fs) ensures exists e :: e in fs.entries && Key(e) == k { InNames(fs.entries, k); }
    forall i | 0 <= i < |fs.entries| ensures Key(fs.entries[i]) in TreeOf(fs) {
      assert fs.entries[i] in fs.entries;
      InNames(fs.entries, Key(fs.entries[i]));
    }
  }

  lemma UnlinkDirTree(fs: Fs, n: int, name: string, d: int)
    requires Unique(fs.entries) && d != n && (n, name) in TreeOf(fs)
    ensures var f1 := FlushDir(fs, d);
            var k := SearchFrom(f1.entries, n, name);
            k >= 0 && TreeStep(EntryDrop(f1, k), WithoutDir(TreeOf(fs), d) - {(n, name)})
  {
    var f1 := FlushDir(fs, d);
    Flushed(fs, d);
    SearchIsLookup(f1.entries, n, name);
    var k := SearchFrom(f1.entries, n, name);
    EntryDropEntries(f1, k);
    Removed(f1.entries, k);
  }

  lemma UnlinkTree(fs: Fs, h: int, name: string)
    requires Good(fs) && Unique(fs.entries) && Live(fs, h)
    ensures TreeStep(Unlink(fs, h, name).0, Unlinked(fs, TreeOf(fs), (InodeOf(fs, h), name)))
  {
    var n := InodeOf(fs, h);
    var i := Search(fs, n, name);
    Lookup(fs, n, name);
    if name !in {".", ".."} && i >= 0 {
      var t := fs.entries[i].target;
      OnlyDotsIsEmpty(fs, t);
      if !IsDir(fs, t) {
        EntryDropEntries(fs, i);
        Removed(fs.entries, i);
      } else if EmptyDir(fs, t) {
        assert t != n;
        UnlinkDirTree(fs, n, name, t);
      }
    }
  }

  lemma FidEntries(fs: Fs, op: Op)
    requires Uses(fs, op) && (op.OAttach? || op.OWalk? || op.ODelete?)
    ensures Step(fs, op).0.entries == fs.entries
  {
  }

  /** Every operation does to the names what TreeAfter says, and no name gets a second meaning. */
  lemma StepTree(fs: Fs, op: Op)
    requires Good(fs) && Unique(fs.entries) && LegalOp(fs, op)
    ensures Unique(Step(fs, op).0.entries) && TreeOf(Step(fs, op).0) == TreeAfter(fs, TreeOf(fs), op)
  {
    if IsNode(op) {
      NodeTree(fs, op);
    } else {
      match op
      case OMkdir(h, name) => MkdirTree(fs, h, name);
      case OCreate(h, name, flags) => CreateTree(fs, h, name, flags);
      case ORename(h, name, nh, newName) => RenameTree(fs, h, name, nh, newName);
      case OUnlink(h, name) => UnlinkTree(fs, h, name);
      case _ => FidEntries(fs, op);
    }
  }

  /** The kind of inode an operation makes under its new name. */
  function NewKind(op: Op): Kind {
    match op case OMkdir(_, _) => Dir case OSymlink(_, _) => Lnk case OMknod(_, _, kind) => kind case _ => Reg
  }

  predicate Makes(op: Op) { op.OMkdir? || op.OCreate? || op.OSymlink? || op.OMknod? }

  lemma MkdirKind(fs: Fs, h: int, name: string)
    requires Live(fs, h) && InodeOf(fs, h) != fs.nextId && Mkdir(fs, h, name).1 == Ok(0)
    ensures IsDir(Mkdir(fs, h, name).0, fs.nextId)
  {
  }

  lemma CreateKind(fs: Fs, h: int, name: string, flags: int)
    requires Live(fs, h) && InodeOf(fs, h) != fs.nextId && Create(fs, h, name, flags).1 == Ok(0)
    ensures var r := Create(fs, h, name, flags).0; fs.nextId in r.inodes && r.inodes[fs.nextId].kind == Reg
  {
  }

  /** The new inode has the kind asked for. */
  lemma MadeKind(fs: Fs, op: Op)
    requires Good(fs) && Uses(fs, op) && Makes(op) && Step(fs, op).1 == Ok(0)
    ensures var r := Step(fs, op).0; fs.nextId in r.inodes && r.inodes[fs.nextId].kind == NewKind(op)
  {
    LiveInode(fs, op.h);
    match op
    case OMkdir(h, name) => MkdirKind(fs, h, name);
    case OCreate(h, name, flags) => CreateKind(fs, h, name, flags);
    case _ =>
  }

  /** An entry takes 33 bytes and its name; the two of a new directory take 34 and 35. */
  lemma MkdirSizes(fs: Fs, h: int, name: string)
    requires Good(fs) && Live(fs, h) && Mkdir(fs, h, name).1 == Ok(0)
    ensures var r, n, id := Mkdir(fs, h, name).0, InodeOf(fs, h), fs.nextId;
            At(r, id).size == 34 + 35 && At(r, n).size == At(fs, n).size + 33 + |name|
  {
    LiveInode(fs, h);
  }

  /** The answers, from the names before: what exists, what a name is missing for, and which
      names stand for directories. */
  function Answer(fs: Fs, tree: Tree, op: Op): Reply
    requires Uses(fs, op) && !op.OWalk? && !op.OAttach?
  {
    match op
    case OMkdir(h, name) => if !IsDir(fs, InodeOf(fs, h)) then Fail(ENOTDIR) else Taken(tree, InodeOf(fs, h), name)
    case OCreate(h, name, _) => if !IsDir(fs, InodeOf(fs, h)) then Fail(ENOTDIR) else Taken(tree, InodeOf(fs, h), name)
    case OSymlink(h, name) => Taken(tree, InodeOf(fs, h), name)
    case OMknod(h, name, kind) => if kind in {Dir, Lnk} then Fail(EINVAL) else Taken(tree, InodeOf(fs, h), name)
    case OLink(dh, h, name) => if IsDir(fs, InodeOf(fs, h)) then Fail(EPERM) else Taken(tree, InodeOf(fs, dh), name)
    case ORename(h, name, nh, newName) =>
      var (src, dst) := ((InodeOf(fs, h), name), (InodeOf(fs, nh), newName));
      if src !in tree then Fail(ENOENT) else if dst in tree && IsDir(fs, tree[dst]) then Fail(EEXIST) else Ok(0)
    case OUnlink(h, name) =>
      var k := (InodeOf(fs, h), name);
      if k !in tree || name in {".", ".."} then Fail(ENOENT)
      else if IsDir(fs, tree[k]) && !OnlyDots(tree, tree[k]) then Fail(ENOTEMPTY) else Ok(0)
    case _ => Ok(0)
  }

  function Taken(tree: Tree, dir: int, name: string): Reply { if (dir, name) in tree then Fail(EEXIST) else Ok(0) }

  lemma NodeAnswer(fs: Fs, op: Op)
    requires Good(fs) && LegalOp(fs, op) && IsNode(op)
    ensures Step(fs, op).1 == Answer(fs, TreeOf(fs), op)
  {
    match op
    case OSymlink(h, name) => Lookup(fs, InodeOf(fs, h), name);
    case OMknod(h, name, _) => Lookup(fs, InodeOf(fs, h), name);
    case OLink(dh, _, name) => Lookup(fs, InodeOf(fs, dh), name);
  }

  lemma RenameAnswer(fs: Fs, h: int, name: string, nh: int, newName: string)
    requires Good(fs) && LegalOp(fs, ORename(h, name, nh, newName))
    ensures Rename(fs, h, name, nh, newName).1 == Answer(fs, TreeOf(fs), ORename(h, name, nh, newName))
  {
    Lookup(fs, InodeOf(fs, h), name);
    Lookup(fs, InodeOf(fs, nh), newName);
  }

  lemma UnlinkAnswer(fs: Fs, h: int, name: string)
    requires Good(fs) && Unique(fs.entries) && Live(fs, h)
    ensures Unlink(fs, h, name).1 == Answer(fs, TreeOf(fs), OUnlink(h, name))
  {
    var i := Search(fs, InodeOf(fs, h), name);
    Lookup(fs, InodeOf(fs, h), name);
    if i >= 0 { OnlyDotsIsEmpty(fs, fs.entries[i].target); }
  }

  /** Every reply is the one the names call for. */
  lemma StepAnswer(fs: Fs, op: Op)
    requires Good(fs) && Unique(fs.entries) && LegalOp(fs, op) && !op.OWalk? && !op.OAttach?
    ensures Step(fs, op).1 == Answer(fs, TreeOf(fs), op)
  {
    if IsNode(op) {
      NodeAnswer(fs, op);
    } else {
      match op
      case OMkdir(h, name) => Lookup(fs, InodeOf(fs, h), name);
      case OCreate(h, name, _) => Lookup(fs, InodeOf(fs, h), name);
      case ORename(h, name, nh, newName) => RenameAnswer(fs, h, name, nh, newName);
      case OUnlink(h, name) => UnlinkAnswer(fs, h, name);
      case _ =>
    }
  }

  lemma EmptyIsUnique(cacheLimit: int, maxBlocks: int)
    ensures Unique(Empty(cacheLimit, maxBlocks).entries)
  {
    assert Empty(cacheLimit, maxBlocks).entries == [Entry(1, ".", 1), Entry(1, "..", 1)];
  }

  /** Over every run from the empty file system no directory has a name twice, and the names
      are what the operations made them. */
  lemma {:induction false} RunTree(fss: seq<Fs>, ops: seq<Op>, cacheLimit: int, maxBlocks: int, i: nat)
    requires IsRun(fss, ops) && fss[0] == Empty(cacheLimit, maxBlocks) && i < |fss|
    ensures Good(fss[i]) && Unique(fss[i].entries)
    ensures i > 0 ==> TreeOf(fss[i]) == TreeAfter(fss[i - 1], TreeOf(fss[i - 1]), ops[i - 1])
    decreases i
  {
    if i == 0 {
      EmptyIsGood(cacheLimit, maxBlocks);
      EmptyIsUnique(cacheLimit, maxBlocks);
    } else {
      RunTree(fss, ops, cacheLimit, maxBlocks, i - 1);
      StepExact(fss[i - 1], ops[i - 1]);
      StepTree(fss[i - 1], ops[i - 1]);
    }
  }

  // ----- walks -----

  /** ns are the inodes met on the way: each name leads from one to the next. */
  predicate Leads(tree: Tree, ns: seq<int>, names: seq<string>) {
    && |ns| > 0 && |ns| - 1 <= |names|
    && forall k :: 0 <= k < |ns| - 1 ==> (ns[k], names[k]) in tree && tree[(ns[k], names[k])] == ns[k + 1]
  }

  /** The way ends with the names, or where the next name stands for nothing. */
  predicate Ends(tree: Tree, ns: seq<int>, names: seq<string>)
    requires 0 < |ns| <= |names| + 1
  {
    |ns| - 1 == |names| || (ns[|ns| - 1], names[|ns| - 1]) !in tree
  }

  lemma LeadsOn(tree: Tree, n: int, rest: seq<int>, names: seq<string>)
    requires names != [] && Leads(tree, rest, names[1..]) && (n, names[0]) in tree && tree[(n, names[0])] == rest[0]
    ensures Leads(tree, [n] + rest, names)
    ensures Ends(tree, rest, names[1..]) ==> Ends(tree, [n] + rest, names)
  {
    var ns := [n] + rest;
    forall k | 0 <= k < |ns| - 1 ensures (ns[k], names[k]) in tree && tree[(ns[k], names[k])] == ns[k + 1] {
      if k > 0 { assert names[k] == names[1..][k - 1] && ns[k] == rest[k - 1]; }
    }
  }

  /** A walk follows its names from inode to inode as far as they exist. */
  lemma {:induction false} WalkFollows(fs: Fs, n: int, names: seq<string>) returns (ns: seq<int>)
    requires Closed(fs)
    ensures var (n1, count) := WalkNames(fs, n, names);
            && Leads(TreeOf(fs), ns, names) && ns[0] == n
            && |ns| == count + 1 && ns[count] == n1 && Ends(TreeOf(fs), ns, names)
    decreases |names|
  {
    ns := [n];
    if names != [] {
      var i := Search(fs, n, names[0]);
      Lookup(fs, n, names[0]);
      if i >= 0 {
        var rest := WalkFollows(fs, fs.entries[i].target, names[1..]);
        LeadsOn(TreeOf(fs), n, rest, names);
        ns := [n] + rest;
      }
    }
  }

  /** There is only one way to go. */
  lemma {:induction false} OneWay(tree: Tree, ns: seq<int>, ms: seq<int>, names: seq<string>)
    requires Leads(tree, ns, names) && Leads(tree, ms, names) && ns[0] == ms[0] && Ends(tree, ns, names) && Ends(tree, ms, names)
    ensures ns == ms
    decreases |names|
  {
    if |ns| > 1 && |ms| > 1 {
      OneWay(tree, ns[1..], ms[1..], names[1..]);
      assert ns == [ns[0]] + ns[1..] && ms == [ms[0]] + ms[1..];
    }
  }

  /** fs_walk: a walk reaches n1 after count names exactly when a way along the names goes there
      and cannot go further. */
  lemma WalkExact(fs: Fs, n: int, names: seq<string>, ns: seq<int>)
    requires Closed(fs)
    ensures Leads(TreeOf(fs), ns, names) && ns[0] == n && Ends(TreeOf(fs), ns, names) ==>
              WalkNames(fs, n, names) == (ns[|ns| - 1], |ns| - 1)
  {
    var way := WalkFollows(fs, n, names);
    if Leads(TreeOf(fs), ns, names) && ns[0] == n && Ends(TreeOf(fs), ns, names) { OneWay(TreeOf(fs), way, ns, names); }
  }

  /** The new file of fs_walk is on the inode the walk reached, and not opened. */
  lemma WalkOpens(fs: Fs, h: int, names: seq<string>, ns: seq<int>)
    requires Closed(fs) && Live(fs, h) && Leads(TreeOf(fs), ns, names) && ns[0] == InodeOf(fs, h) && Ends(TreeOf(fs), ns, names)
    ensures var (r, reply) := Walk(fs, h, names);
            && reply == Ok(|ns| - 1) && TreeOf(r) == TreeOf(fs)
            && r.files == fs.files + [Some(FsFile(ns[|ns| - 1], false, 0))]
  {
    WalkExact(fs, InodeOf(fs, h), names, ns);
  }

  /** A walk of one name is a lookup. */
  lemma WalkOne(fs: Fs, n: int, name: string)
    requires Closed(fs)
    ensures WalkNames(fs, n, [name]) == if (n, name) in TreeOf(fs) then (TreeOf(fs)[(n, name)], 1) else (n, 0)
  {
    Lookup(fs, n, name);
    assert [name][1..] == [];
  }

  lemma FoundIn(r: Fs, tree: Tree, n: int, name: string)
    requires Closed(r) && TreeOf(r) == tree
    ensures WalkNames(r, n, [name]) == if (n, name) in tree then (tree[(n, name)], 1) else (n, 0)
  {
    WalkOne(r, n, name);
  }

  /** What a walk finds where the names are those of tree and a new directory id in n. */
  ghost predicate DirFound(r: Fs, n: int, name: string, id: int) {
    && WalkNames(r, n, [name]) == (id, 1)
    && WalkNames(r, id, ["."]) == (id, 1) && WalkNames(r, id, [".."]) == (n, 1)
    && forall k :: k in TreeOf(r) && k.0 == id ==> k.1 in {".", ".."}
  }

  lemma GrownIsFound(r: Fs, tree: Tree, n: int, name: string, id: int)
    requires Closed(r) && id != n && TreeOf(r) == tree[(id, ".") := id][(id, "..") := n][(n, name) := id]
    requires forall k :: k in tree ==> k.0 != id
    ensures DirFound(r, n, name, id)
  {
    WalkOne(r, n, name);
    WalkOne(r, id, ".");
    WalkOne(r, id, "..");
  }

  lemma NoNamesBelow(fs: Fs)
    requires Closed(fs)
    ensures forall k :: k in TreeOf(fs) ==> k.0 != fs.nextId
  {
    forall k | k in TreeOf(fs) ensures k.0 != fs.nextId { InNames(fs.entries, k); }
  }

  lemma MkdirOk(fs: Fs, h: int, name: string)
    requires Good(fs) && Live(fs, h) && Mkdir(fs, h, name).1 == Ok(0)
    ensures Closed(fs) && IsDir(fs, InodeOf(fs, h)) && InodeOf(fs, h) != fs.nextId && (InodeOf(fs, h), name) !in TreeOf(fs)
    ensures Closed(Mkdir(fs, h, name).0)
  {
    Lookup(fs, InodeOf(fs, h), name);
    MkdirKeeps(fs, h, name);
  }

  /** After mkdir a walk finds the new directory under its name, and in it "." and ".." and
      nothing else. */
  lemma MkdirIsFound(fs: Fs, h: int, name: string)
    requires Good(fs) && Unique(fs.entries) && Live(fs, h) && Mkdir(fs, h, name).1 == Ok(0)
    ensures DirFound(Mkdir(fs, h, name).0, InodeOf(fs, h), name, fs.nextId)
  {
    MkdirOk(fs, h, name);
    MkdirTree(fs, h, name);
    NoNamesBelow(fs);
    GrownIsFound(Mkdir(fs, h, name).0, TreeOf(fs), InodeOf(fs, h), name, fs.nextId);
  }

  lemma CreateOk(fs: Fs, h: int, name: string, flags: int)
    requires Good(fs) && LegalOp(fs, OCreate(h, name, flags)) && Create(fs, h, name, flags).1 == Ok(0)
    ensures IsDir(fs, InodeOf(fs, h)) && (InodeOf(fs, h), name) !in TreeOf(fs) && Closed(Create(fs, h, name, flags).0)
  {
    Lookup(fs, InodeOf(fs, h), name);
    CreateExact(fs, h, name, flags);
  }

  lemma CreatedFile(fs: Fs, h: int, name: string, flags: int)
    requires Live(fs, h) && Create(fs, h, name, flags).1 == Ok(0)
    ensures Create(fs, h, name, flags).0.files == fs.files[h := Some(FsFile(fs.nextId, true, flags))]
  {
  }

  /** After create a walk finds the new file under its name, and h is open on it. */
  lemma CreateIsFound(fs: Fs, h: int, name: string, flags: int)
    requires Good(fs) && Unique(fs.entries) && LegalOp(fs, OCreate(h, name, flags)) && Create(fs, h, name, flags).1 == Ok(0)
    ensures var r := Create(fs, h, name, flags).0;
            && WalkNames(r, InodeOf(fs, h), [name]) == (fs.nextId, 1)
            && r.files == fs.files[h := Some(FsFile(fs.nextId, true, flags))]
  {
    CreateOk(fs, h, name, flags);
    CreateTree(fs, h, name, flags);
    CreatedFile(fs, h, name, flags);
    WalkOne(Create(fs, h, name, flags).0, InodeOf(fs, h), name);
  }

  /** dst now stands for what src did, src for nothing, and all other names for what they did. */
  ghost predicate Moved(tree: Tree, r: Fs, src: (int, string), dst: (int, string)) {
    && src in tree && src != dst
    && WalkNames(r, dst.0, [dst.1]) == (tree[src], 1)
    && WalkNames(r, src.0, [src.1]) == (src.0, 0)
    && forall k :: k !in {src, dst} ==> (k in TreeOf(r) <==> k in tree) && (k in tree ==> TreeOf(r)[k] == tree[k])
  }

  lemma MovedIsFound(r: Fs, tree: Tree, src: (int, string), dst: (int, string))
    requires Closed(r) && src in tree && src != dst && TreeOf(r) == (tree - {src})[dst := tree[src]]
    ensures Moved(tree, r, src, dst)
  {
    WalkOne(r, dst.0, dst.1);
    WalkOne(r, src.0, src.1);
  }

  lemma RenameSucceeds(fs: Fs, h: int, name: string, nh: int, newName: string)
    requires Live(fs, h) && Live(fs, nh) && Rename(fs, h, name, nh, newName).1 == Ok(0)
    ensures var i, j := Search(fs, InodeOf(fs, h), name), Search(fs, InodeOf(fs, nh), newName);
            i >= 0 && i != j && (j >= 0 ==> !IsDir(fs, fs.entries[j].target))
  {
  }

  lemma RenameOk(fs: Fs, h: int, name: string, nh: int, newName: string)
    requires Good(fs) && Live(fs, h) && Live(fs, nh) && Rename(fs, h, name, nh, newName).1 == Ok(0)
    ensures var (src, dst) := ((InodeOf(fs, h), name), (InodeOf(fs, nh), newName));
            && src in TreeOf(fs) && src != dst && (dst in TreeOf(fs) ==> !IsDir(fs, TreeOf(fs)[dst]))
    ensures Closed(Rename(fs, h, name, nh, newName).0)
  {
    RenameSucceeds(fs, h, name, nh, newName);
    Lookup(fs, InodeOf(fs, h), name);
    Lookup(fs, InodeOf(fs, nh), newName);
    RenameKeeps(fs, h, name, nh, newName);
  }

  /** After rename the new name finds what the old one did, and the old one nothing. */
  lemma RenameIsFound(fs: Fs, h: int, name: string, nh: int, newName: string)
    requires Good(fs) && Unique(fs.entries) && LegalOp(fs, ORename(h, name, nh, newName))
    requires Rename(fs, h, name, nh, newName).1 == Ok(0)
    ensures Moved(TreeOf(fs), Rename(fs, h, name, nh, newName).0, (InodeOf(fs, h), name), (InodeOf(fs, nh), newName))
  {
    RenameOk(fs, h, name, nh, newName);
    RenameTree(fs, h, name, nh, newName);
    MovedIsFound(Rename(fs, h, name, nh, newName).0, TreeOf(fs), (InodeOf(fs, h), name), (InodeOf(fs, nh), newName));
  }

  lemma LinkOk(fs: Fs, dh: int, h: int, name: string)
    requires Good(fs) && LegalOp(fs, OLink(dh, h, name)) && Link(fs, dh, h, name).1 == Ok(0)
    ensures IsDir(fs, InodeOf(fs, dh)) && !IsDir(fs, InodeOf(fs, h)) && (InodeOf(fs, dh), name) !in TreeOf(fs)
    ensures Closed(Link(fs, dh, h, name).0)
  {
    Lookup(fs, InodeOf(fs, dh), name);
    LinkKeeps(fs, dh, h, name);
  }

  /** After link the new name and every old one of the file find its inode. */
  lemma LinkIsFound(fs: Fs, dh: int, h: int, name: string, k: (int, string))
    requires Good(fs) && Unique(fs.entries) && LegalOp(fs, OLink(dh, h, name)) && Link(fs, dh, h, name).1 == Ok(0)
    requires k == (InodeOf(fs, dh), name) || (k in TreeOf(fs) && TreeOf(fs)[k] == InodeOf(fs, h))
    ensures WalkNames(Link(fs, dh, h, name).0, k.0, [k.1]) == (InodeOf(fs, h), 1)
  {
    LinkOk(fs, dh, h, name);
    LinkTree(fs, dh, h, name);
    WalkOne(Link(fs, dh, h, name).0, k.0, k.1);
  }

  lemma UnlinkOk(fs: Fs, h: int, name: string)
    requires Good(fs) && Unique(fs.entries) && LegalOp(fs, OUnlink(h, name)) && Unlink(fs, h, name).1 == Ok(0)
    ensures var k := (InodeOf(fs, h), name);
            && k in TreeOf(fs) && name !in {".", ".."} && Closed(Unlink(fs, h, name).0)
            && (IsDir(fs, TreeOf(fs)[k]) ==> OnlyDots(TreeOf(fs), TreeOf(fs)[k]))
  {
    Lookup(fs, InodeOf(fs, h), name);
    UnlinkExact(fs, h, name);
    var i := Search(fs, InodeOf(fs, h), name);
    OnlyDotsIsEmpty(fs, fs.entries[i].target);
  }

  /** src finds nothing any more; all other names stay, but for those in a directory it stood
      for. */
  ghost predicate Gone(fs: Fs, tree: Tree, r: Tree, src: (int, string)) {
    && src in tree
    && (forall k :: (k in r <==> k in tree && k != src && (!IsDir(fs, tree[src]) || k.0 != tree[src])))
    && (forall k :: k in r ==> r[k] == tree[k])
  }

  lemma UnlinkedIsGone(fs: Fs, tree: Tree, src: (int, string))
    requires src in tree && src.1 !in {".", ".."} && (IsDir(fs, tree[src]) ==> OnlyDots(tree, tree[src]))
    ensures Gone(fs, tree, Unlinked(fs, tree, src), src)
  {
  }

  /** After unlink the name finds nothing. */
  lemma UnlinkIsGone(fs: Fs, h: int, name: string)
    requires Good(fs) && Unique(fs.entries) && LegalOp(fs, OUnlink(h, name)) && Unlink(fs, h, name).1 == Ok(0)
    ensures var r := Unlink(fs, h, name).0;
            && Gone(fs, TreeOf(fs), TreeOf(r), (InodeOf(fs, h), name))
            && WalkNames(r, InodeOf(fs, h), [name]) == (InodeOf(fs, h), 0)
  {
    UnlinkOk(fs, h, name);
    UnlinkTree(fs, h, name);
    UnlinkedIsGone(fs, TreeOf(fs), (InodeOf(fs, h), name));
    WalkOne(Unlink(fs, h, name).0, InodeOf(fs, h), name);
  }
}
