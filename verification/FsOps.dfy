// Which operations on names keep the counts of FsNames exact: all of them, except in cases that
// a test on the state before names exactly. So does every run of the others.

module FsOps {
  import opened Options
  import opened Sums
  import opened FsNet
  import opened FsNames
  import opened FsSpace

  /** Counts are exact and nothing is under way. */
  ghost predicate Good(fs: Fs) { RefInv(fs, multiset{}, multiset{}) }

  /** An inode exists exactly as long as it is the root, named by an entry or open. */
  lemma LiveIffUsed(fs: Fs, n: int)
    requires Good(fs)
    ensures n in fs.inodes <==>
              || n == fs.root
              || (exists e :: e in fs.entries && e.target == n)
              || (exists f :: f in fs.files && f.Some? && f.value.inode == n)
    ensures n in fs.inodes ==>
              fs.inodes[n].refcount == References(fs, n) && fs.inodes[n].openCount == Opens(fs, n)
  {
    if n in fs.inodes && (forall e :: e in fs.entries ==> e.target != n) && (forall f :: f in fs.files && f.Some? ==> f.value.inode != n) {
      NoneTargets(fs.entries, n);
      NoneOpen(fs.files, n);
    }
  }

  lemma CreditOf(n: int)
    ensures multiset{} + multiset{n} - multiset{n} == multiset{} && multiset{} + multiset{n} == multiset{n}
  {
  }

  lemma EntryDropKeeps(fs: Fs, er: multiset<int>, eo: multiset<int>, i: int)
    requires RefInv(fs, er, eo) && 0 <= i < |fs.entries|
    requires fs.entries[i].target in EntryDrop(fs, i).inodes || NoEntries(EntryDelete(fs, i), fs.entries[i].target)
    ensures RefInv(EntryDrop(fs, i), er, eo)
  {
    EntryDeleteKeeps(fs, er, eo, i);
    DecrefKeeps(EntryDelete(fs, i), er, eo, fs.entries[i].target);
  }

  /** Only directories hold entries. */
  lemma FileHasNoEntries(fs: Fs, n: int)
    requires Closed(fs) && !IsDir(fs, n)
    ensures NoEntries(fs, n)
  {
  }

  /** The target of a dropped entry stays while another entry names it. */
  lemma StaysNamed(fs: Fs, er: multiset<int>, eo: multiset<int>, i: int, j: int)
    requires NameInv(fs, er, eo) && 0 <= i < |fs.entries| && 0 <= j < |fs.entries| && i != j
    requires fs.entries[j].target == fs.entries[i].target
    ensures fs.entries[i].target in EntryDrop(fs, i).inodes
  {
    var t, f1 := fs.entries[i].target, EntryDelete(fs, i);
    EntryDeleteNames(fs, er, eo, i);
    DecrefNames(f1, er, eo, t);
    assert f1.entries[if j < i then j else j - 1] == fs.entries[j];
    ReferencesAreNonNegative(f1, t);
  }

  lemma FidCreateKeeps(fs: Fs, n: int)
    requires Good(fs) && n in fs.inodes
    ensures Good(FidCreate(fs, n))
  {
    IncOpenKeeps(fs, multiset{}, multiset{}, n);
    CreditOf(n);
    OpenFileKeeps(IncOpen(fs, n), multiset{}, multiset{}, FsFile(n, false, 0));
  }

  lemma {:induction false} WalkStaysInside(fs: Fs, n: int, names: seq<string>)
    requires Closed(fs) && n in fs.inodes
    ensures WalkNames(fs, n, names).0 in fs.inodes && WalkNames(fs, n, names).1 <= |names|
    decreases |names|
  {
    if names != [] {
      var i := Search(fs, n, names[0]);
      if i >= 0 {
        assert fs.entries[i] in fs.entries;
        WalkStaysInside(fs, fs.entries[i].target, names[1..]);
      }
    }
  }

  lemma LiveInode(fs: Fs, h: int)
    requires Closed(fs) && Live(fs, h)
    ensures InodeOf(fs, h) in fs.inodes
  {
    assert fs.files[h] in fs.files;
  }

  lemma WalkKeeps(fs: Fs, h: int, names: seq<string>)
    requires Good(fs) && Live(fs, h)
    ensures Good(Walk(fs, h, names).0)
  {
    LiveInode(fs, h);
    WalkStaysInside(fs, InodeOf(fs, h), names);
    FidCreateKeeps(fs, WalkNames(fs, InodeOf(fs, h), names).0);
  }

  /** Closing the file and giving up its open commute. */
  lemma DecOpenIgnoresFiles(fs: Fs, n: int, files: seq<Option<FsFile>>)
    ensures DecOpen(fs, n).(files := files) == DecOpen(fs.(files := files), n)
  {
  }

  /** The file is the last user of its inode. */
  predicate LastFile(fs: Fs, h: int)
    requires Live(fs, h)
  {
    At(fs, InodeOf(fs, h)).refcount == 0 && At(fs, InodeOf(fs, h)).openCount == 1
  }

  /** Closing a file is exact unless it frees a directory that has entries, which inode_free
      asserts against. */
  lemma DeleteExact(fs: Fs, h: int)
    requires Good(fs) && Live(fs, h)
    ensures Good(Delete(fs, h).0) <==> !LastFile(fs, h) || NoEntries(fs, InodeOf(fs, h))
  {
    var n := InodeOf(fs, h);
    LiveInode(fs, h);
    ReferencesAreNonNegative(fs, n);
    assert fs.files[h] in fs.files;
    if !LastFile(fs, h) || NoEntries(fs, n) {
      SetFileKeeps(fs, multiset{}, multiset{}, multiset{n}, h, None);
      CreditOf(n);
      DecOpenKeeps(fs.(files := fs.files[h := None]), multiset{}, multiset{}, n);
      DecOpenIgnoresFiles(fs, n, fs.files[h := None]);
    } else {
      assert n !in Delete(fs, h).0.inodes;
    }
  }

  /** A new inode under a new name. */
  lemma NewUnderName(fs: Fs, kind: Kind, n: int, name: string)
    requires Good(fs) && IsDir(fs, n)
    ensures Good(DirAdd(NewInode(fs, kind), n, name, fs.nextId))
  {
    var id := fs.nextId;
    NewInodeKeeps(fs, multiset{}, multiset{}, kind);
    CreditOf(id);
    DirAddKeeps(NewInode(fs, kind), multiset{id}, multiset{}, n, name, id);
  }

  lemma MakeNodeKeeps(fs: Fs, h: int, name: string, kind: Kind)
    requires Good(fs) && Live(fs, h) && kind != Dir
    ensures Good(MakeNode(fs, h, name, kind).0)
  {
    if IsDir(fs, InodeOf(fs, h)) { NewUnderName(fs, kind, InodeOf(fs, h), name); }
  }

  /** An entry for an inode that exists, with its own reference. */
  lemma IncrefAdd(fs: Fs, er: multiset<int>, dir: int, name: string, target: int)
    requires RefInv(fs, er, multiset{}) && IsDir(fs, dir) && target in fs.inodes
    ensures RefInv(DirAdd(Incref(fs, target), dir, name, target), er, multiset{})
  {
    IncrefKeeps(fs, er, multiset{}, target);
    DirAddKeeps(Incref(fs, target), er + multiset{target}, multiset{}, dir, name, target);
    assert er + multiset{target} - multiset{target} == er;
  }

  lemma LinkKeeps(fs: Fs, dh: int, h: int, name: string)
    requires Good(fs) && Live(fs, dh) && Live(fs, h)
    ensures Good(Link(fs, dh, h, name).0)
  {
    LiveInode(fs, h);
    if IsDir(fs, InodeOf(fs, dh)) { IncrefAdd(fs, multiset{}, InodeOf(fs, dh), name, InodeOf(fs, h)); }
  }

  /** A new directory with "." and "..", not yet named. */
  lemma NewDirectory(fs: Fs, n: int)
    requires Good(fs) && n in fs.inodes
    ensures var id := fs.nextId;
            var f2 := DirAdd(Incref(NewInode(fs, Dir), id), id, ".", id);
            var f3 := DirAdd(Incref(f2, n), id, "..", n);
            && RefInv(f3, multiset{id}, multiset{})
            && (IsDir(fs, n) ==> IsDir(f3, n))
  {
    var id, f1 := fs.nextId, NewInode(fs, Dir);
    NewInodeKeeps(fs, multiset{}, multiset{}, Dir);
    CreditOf(id);
    IncrefAdd(f1, multiset{id}, id, ".", id);
    var f2 := DirAdd(Incref(f1, id), id, ".", id);
    IncrefAdd(f2, multiset{id}, id, "..", n);
  }

  /** mkdir is exact in every directory, a removed one included: ".." refers to it again. */
  lemma MkdirKeeps(fs: Fs, h: int, name: string)
    requires Good(fs) && Live(fs, h)
    ensures Good(Mkdir(fs, h, name).0)
  {
    var n, id := InodeOf(fs, h), fs.nextId;
    if IsDir(fs, n) && Search(fs, n, name) < 0 {
      NewDirectory(fs, n);
      var f2 := DirAdd(Incref(NewInode(fs, Dir), id), id, ".", id);
      var f3 := DirAdd(Incref(f2, n), id, "..", n);
      DirAddKeeps(f3, multiset{id}, multiset{}, n, name, id);
      CreditOf(id);
    }
  }

  lemma ReopenKeeps(fs: Fs, h: int, f: FsFile)
    requires Good(fs) && 0 <= h < |fs.files| && fs.files[h].None? && f.inode in fs.inodes
    ensures Good(IncOpen(fs, f.inode).(files := fs.files[h := Some(f)]))
  {
    IncOpenKeeps(fs, multiset{}, multiset{}, f.inode);
    CreditOf(f.inode);
    SetFileKeeps(IncOpen(fs, f.inode), multiset{}, multiset{f.inode}, multiset{}, h, Some(f));
  }

  lemma NewEntryCounts(fs: Fs, kind: Kind, n: int, name: string)
    requires n in fs.inodes && n != fs.nextId
    ensures var f1 := DirAdd(NewInode(fs, kind), n, name, fs.nextId);
            && f1.files == fs.files && n in f1.inodes && fs.nextId in f1.inodes && !NoEntries(f1, n)
            && At(f1, n).refcount == At(fs, n).refcount && At(f1, n).openCount == At(fs, n).openCount
  {
    var f1 := DirAdd(NewInode(fs, kind), n, name, fs.nextId);
    assert f1.entries[|fs.entries|].dir == n;
  }

  /** Reopening a file gives no entry a directory it did not have. */
  lemma ReopenStrands(fs: Fs, h: int, f: FsFile, e: Entry)
    requires e in fs.entries && e.dir !in fs.inodes && f.inode in fs.inodes && 0 <= h < |fs.files|
    ensures !Closed(IncOpen(fs, f.inode).(files := fs.files[h := Some(f)]))
  {
    assert !IsDir(IncOpen(fs, f.inode), e.dir);
  }

  /** A file moves from a directory with entries to another inode. */
  lemma RetargetExact(fs: Fs, h: int, f: FsFile)
    requires Good(fs) && Live(fs, h) && f.inode in fs.inodes && f.inode != InodeOf(fs, h) && !NoEntries(fs, InodeOf(fs, h))
    ensures Good(Retarget(fs, h, f)) <==> !LastFile(fs, h)
  {
    DeleteExact(fs, h);
    if LastFile(fs, h) {
      var e :| e in fs.entries && e.dir == InodeOf(fs, h);
      ReopenStrands(Delete(fs, h).0, h, f, e);
    } else {
      ReopenKeeps(Delete(fs, h).0, h, f);
    }
  }

  /** fs_create adds an entry to the directory and then gives the file on it up: it is exact
      unless that file was the last user of a removed directory. */
  lemma CreateExact(fs: Fs, h: int, name: string, flags: int)
    requires Good(fs) && Live(fs, h)
    ensures Good(Create(fs, h, name, flags).0) <==>
              !IsDir(fs, InodeOf(fs, h)) || Search(fs, InodeOf(fs, h), name) >= 0 || !LastFile(fs, h)
  {
    var n, id := InodeOf(fs, h), fs.nextId;
    LiveInode(fs, h);
    if IsDir(fs, n) && Search(fs, n, name) < 0 {
      NewUnderName(fs, Reg, n, name);
      NewEntryCounts(fs, Reg, n, name);
      RetargetExact(DirAdd(NewInode(fs, Reg), n, name, id), h, FsFile(id, true, flags));
    }
  }

  // ----- removing names -----

  function FromTo(t: int, d: int): Entry -> int { (e: Entry) => if e.dir == t && e.target == d then 1 else 0 }

  /** d lives on entries of t alone, and has entries of its own. */
  ghost predicate Orphaned(fs: Fs, t: int, d: int) {
    && d != t && d in fs.inodes && !NoEntries(fs, d)
    && fs.inodes[d].openCount == 0 && fs.inodes[d].refcount == Sum(fs.entries, FromTo(t, d))
  }

  /** Emptying t frees a directory that has entries. */
  ghost predicate FlushStrands(fs: Fs, t: int) { exists d :: Orphaned(fs, t, d) }

  ghost predicate NamedOutside(fs: Fs, t: int) { exists e :: e in fs.entries && e.target == t && e.dir != t }

  ghost predicate Stranded(fs: Fs, t: int) { exists e :: e in fs.entries && e.dir != t && e.dir !in fs.inodes }

  lemma {:induction false} FromToIsPart(es: seq<Entry>, t: int, d: int)
    ensures 0 <= Sum(es, FromTo(t, d)) <= Sum(es, TargetIs(d))
  {
    if |es| > 0 { FromToIsPart(es[1..], t, d); }
  }

  /** What dropping entry i of t does to the counts of an inode d that stays. */
  lemma DropCounts(fs: Fs, i: int, t: int, d: int)
    requires Closed(fs) && 0 <= i < |fs.entries| && fs.entries[i].dir == t && d in EntryDrop(fs, i).inodes
    ensures var r, one := EntryDrop(fs, i), if d == fs.entries[i].target then 1 else 0;
            && d in fs.inodes && r.inodes[d].openCount == fs.inodes[d].openCount
            && r.inodes[d].refcount == fs.inodes[d].refcount - one
            && Sum(r.entries, FromTo(t, d)) == Sum(fs.entries, FromTo(t, d)) - one
            && r.entries == RemoveAt(fs.entries, i)
  {
    assert fs.entries[i] in fs.entries;
    SumRemove(fs.entries, i, FromTo(t, d));
  }

  lemma DropOthers(fs: Fs, i: int, d: int)
    requires 0 <= i < |fs.entries| && fs.entries[i].dir != d
    ensures NoEntries(EntryDrop(fs, i), d) <==> NoEntries(fs, d)
    ensures NoEntries(EntryDelete(fs, i), d) <==> NoEntries(fs, d)
  {
    RemoveKeepsOthers(fs.entries, i);
  }

  lemma SpentReference(fs: Fs, d: int)
    requires NameInv(fs, multiset{d}, multiset{}) && d !in Decref(fs, d).inodes
    ensures d in fs.inodes && fs.inodes[d].openCount == 0 && fs.inodes[d].refcount == 1 && Sum(fs.entries, TargetIs(d)) == 0
  {
    CreditOf(d);
    DecrefNames(fs, multiset{}, multiset{}, d);
    ReferencesAreNonNegative(fs, d);
    assert d in multiset{d};
  }

  /** A target that goes with its entry had no other user. */
  lemma LoneTarget(fs: Fs, i: int)
    requires Good(fs) && 0 <= i < |fs.entries| && fs.entries[i].target !in EntryDrop(fs, i).inodes
    ensures var d := fs.entries[i].target;
            d in fs.inodes && fs.inodes[d].openCount == 0 && fs.inodes[d].refcount == 1 && Sum(fs.entries, TargetIs(d)) == 1
  {
    var d := fs.entries[i].target;
    assert fs.entries[i] in fs.entries;
    EntryDeleteNames(fs, multiset{}, multiset{}, i);
    CreditOf(d);
    SpentReference(EntryDelete(fs, i), d);
    SumRemove(fs.entries, i, TargetIs(d));
  }

  lemma {:induction false} SumOfTwo(es: seq<Entry>, e: Entry, i: int, d: int)
    requires 0 <= i < |es| && e in es && e != es[i] && e.target == d == es[i].target
    ensures Sum(es, TargetIs(d)) >= 2
  {
    RemoveKeepsOthers(es, i);
    SumRemove(es, i, TargetIs(d));
    SumBound(RemoveAt(es, i), TargetIs(d));
    assert TargetIs(d)(e) == 1;
  }

  /** The target of an entry of t, when dropping it frees the target. */
  lemma FreedTarget(fs: Fs, t: int, i: int)
    requires Good(fs) && NamedOutside(fs, t) && 0 <= i < |fs.entries| && fs.entries[i].dir == t
    requires fs.entries[i].target !in EntryDrop(fs, i).inodes
    ensures var d := fs.entries[i].target;
            && d != t && d in fs.inodes && fs.inodes[d].openCount == 0 && fs.inodes[d].refcount == 1
            && Sum(fs.entries, FromTo(t, d)) == 1
  {
    var d := fs.entries[i].target;
    LoneTarget(fs, i);
    if d == t {
      var e :| e in fs.entries && e.target == t && e.dir != t;
      SumOfTwo(fs.entries, e, i, t);
    }
    FromToIsPart(fs.entries, t, d);
    SumRemove(fs.entries, i, FromTo(t, d));
    FromToIsPart(RemoveAt(fs.entries, i), t, d);
  }

  lemma NamedOutsideStays(fs: Fs, t: int, i: int)
    requires NamedOutside(fs, t) && 0 <= i < |fs.entries| && fs.entries[i].dir == t
    ensures NamedOutside(EntryDrop(fs, i), t)
  {
    var e :| e in fs.entries && e.target == t && e.dir != t;
    RemoveKeepsOthers(fs.entries, i);
    assert e in EntryDrop(fs, i).entries;
  }

  lemma NoNewOrphans(fs: Fs, t: int, i: int, d: int)
    requires Closed(fs) && 0 <= i < |fs.entries| && fs.entries[i].dir == t && Orphaned(EntryDrop(fs, i), t, d)
    ensures Orphaned(fs, t, d)
  {
    DropCounts(fs, i, t, d);
    DropOthers(fs, i, d);
  }

  /** One entry of t goes, and nothing that has entries is freed. */
  lemma FlushStep(fs: Fs, t: int, i: int)
    requires Good(fs) && NamedOutside(fs, t) && !FlushStrands(fs, t) && 0 <= i < |fs.entries| && fs.entries[i].dir == t
    ensures Good(EntryDrop(fs, i)) && NamedOutside(EntryDrop(fs, i), t) && !FlushStrands(EntryDrop(fs, i), t)
  {
    var d0 := fs.entries[i].target;
    if d0 !in EntryDrop(fs, i).inodes {
      FreedTarget(fs, t, i);
      assert !Orphaned(fs, t, d0);
      DropOthers(fs, i, d0);
    }
    EntryDropKeeps(fs, multiset{}, multiset{}, i);
    NamedOutsideStays(fs, t, i);
    if FlushStrands(EntryDrop(fs, i), t) {
      var d :| Orphaned(EntryDrop(fs, i), t, d);
      NoNewOrphans(fs, t, i, d);
    }
  }

  lemma {:induction false} FlushKeeps(fs: Fs, t: int)
    requires Good(fs) && NamedOutside(fs, t) && !FlushStrands(fs, t)
    ensures Good(FlushDir(fs, t)) && NamedOutside(FlushDir(fs, t), t)
    decreases |fs.entries|
  {
    var i := FirstOf(fs.entries, t);
    if i >= 0 {
      FlushStep(fs, t, i);
      FlushKeeps(EntryDrop(fs, i), t);
    }
  }

  /** An entry of a directory that is gone stays one while other directories lose entries. */
  lemma StrandedStays(fs: Fs, i: int, e: Entry)
    requires 0 <= i < |fs.entries| && e in fs.entries && e.dir !in fs.inodes && fs.entries[i].dir != e.dir
    ensures e in EntryDrop(fs, i).entries && e.dir !in EntryDrop(fs, i).inodes
  {
    RemoveKeepsOthers(fs.entries, i);
  }

  lemma {:induction false} StrandedFlush(fs: Fs, t: int)
    requires Stranded(fs, t)
    ensures Stranded(FlushDir(fs, t), t)
    decreases |fs.entries|
  {
    var i := FirstOf(fs.entries, t);
    if i >= 0 {
      var e :| e in fs.entries && e.dir != t && e.dir !in fs.inodes;
      StrandedStays(fs, i, e);
      StrandedFlush(EntryDrop(fs, i), t);
    }
  }

  /** One entry of t goes; an orphan is freed with its entries now or later. */
  lemma StrandStep(fs: Fs, t: int, i: int, d: int)
    requires Good(fs) && NamedOutside(fs, t) && Orphaned(fs, t, d) && 0 <= i < |fs.entries| && fs.entries[i].dir == t
    ensures var r := EntryDrop(fs, i);
            Stranded(r, t) || (Good(r) && NamedOutside(r, t) && Orphaned(r, t, d))
  {
    var r, d0 := EntryDrop(fs, i), fs.entries[i].target;
    DropOthers(fs, i, d);
    if d0 !in r.inodes {
      FreedTarget(fs, t, i);
      DropOthers(fs, i, d0);
    }
    if d0 !in r.inodes && !NoEntries(fs, d0) {
      var e :| e in r.entries && e.dir == d0;
    } else {
      EntryDropKeeps(fs, multiset{}, multiset{}, i);
      NamedOutsideStays(fs, t, i);
      DropCounts(fs, i, t, d);
    }
  }

  lemma {:induction false} NoneFrom(es: seq<Entry>, t: int, d: int)
    requires forall j :: 0 <= j < |es| ==> es[j].dir != t
    ensures Sum(es, FromTo(t, d)) == 0
  {
    if |es| > 0 { NoneFrom(es[1..], t, d); }
  }

  lemma {:induction false} FlushStrandsOne(fs: Fs, t: int, d: int)
    requires Good(fs) && NamedOutside(fs, t) && Orphaned(fs, t, d)
    ensures Stranded(FlushDir(fs, t), t)
    decreases |fs.entries|
  {
    var i := FirstOf(fs.entries, t);
    if i >= 0 {
      StrandStep(fs, t, i, d);
      if Stranded(EntryDrop(fs, i), t) { StrandedFlush(EntryDrop(fs, i), t); } else { FlushStrandsOne(EntryDrop(fs, i), t, d); }
    } else {
      NoneFrom(fs.entries, t, d);
    }
  }

  /** Removing an entry of another directory does not change what a search finds. */
  lemma {:induction false} SearchAfterRemove(es: seq<Entry>, i: int, dir: int, name: string)
    requires 0 <= i < |es| && es[i].dir != dir
    ensures var k, k' := SearchFrom(es, dir, name), SearchFrom(RemoveAt(es, i), dir, name);
            (k < 0 <==> k' < 0) && (k >= 0 ==> RemoveAt(es, i)[k'] == es[k])
  {
    var r := RemoveAt(es, i);
    if i == 0 {
      assert r == es[1..];
    } else {
      assert r[0] == es[0] && r[1..] == RemoveAt(es[1..], i - 1);
      SearchAfterRemove(es[1..], i - 1, dir, name);
    }
  }

  lemma {:induction false} FlushKeepsSearch(fs: Fs, n: int, dir: int, name: string)
    requires n != dir
    ensures var k, r := SearchFrom(fs.entries, dir, name), FlushDir(fs, n);
            var k' := SearchFrom(r.entries, dir, name);
            (k < 0 <==> k' < 0) && (k >= 0 ==> r.entries[k'] == fs.entries[k])
    decreases |fs.entries|
  {
    var i := FirstOf(fs.entries, n);
    if i >= 0 {
      SearchAfterRemove(fs.entries, i, dir, name);
      FlushKeepsSearch(EntryDrop(fs, i), n, dir, name);
    }
  }

  /** An open inode survives the flush of a directory. */
  lemma {:induction false} FlushKeepsOpen(fs: Fs, t: int, n: int)
    requires At(fs, n).openCount > 0
    ensures n in FlushDir(fs, t).inodes && At(FlushDir(fs, t), n).openCount > 0
    decreases |fs.entries|
  {
    var i := FirstOf(fs.entries, t);
    if i >= 0 { FlushKeepsOpen(EntryDrop(fs, i), t, n); }
  }

  /** A directory without entries but its "." and ".." is flushed first. */
  predicate Flushes(fs: Fs, h: int, name: string)
    requires Live(fs, h)
  {
    var i := Search(fs, InodeOf(fs, h), name);
    name !in {".", ".."} && i >= 0 && IsDir(fs, fs.entries[i].target) && EmptyDir(fs, fs.entries[i].target)
  }

  ghost predicate UnlinkStrands(fs: Fs, h: int, name: string)
    requires Live(fs, h)
  {
    Flushes(fs, h, name) && FlushStrands(fs, fs.entries[Search(fs, InodeOf(fs, h), name)].target)
  }

  lemma UnlinkDirectory(fs: Fs, n: int, name: string, i: int)
    requires Good(fs) && 0 <= i < |fs.entries| && i == SearchFrom(fs.entries, n, name)
    requires var t := fs.entries[i].target; t != n && !FlushStrands(fs, t)
    ensures var f1 := FlushDir(fs, fs.entries[i].target);
            var k := SearchFrom(f1.entries, n, name); k >= 0 && Good(EntryDrop(f1, k))
  {
    var t := fs.entries[i].target;
    assert fs.entries[i] in fs.entries;
    FlushKeeps(fs, t);
    FlushKeepsSearch(fs, t, n, name);
    var f1 := FlushDir(fs, t);
    var k := SearchFrom(f1.entries, n, name);
    DropOthers(f1, k, t);
    assert NoEntries(f1, t);
    EntryDropKeeps(f1, multiset{}, multiset{}, k);
  }

  lemma UnlinkBroken(fs: Fs, n: int, name: string, i: int)
    requires Good(fs) && 0 <= i < |fs.entries| && i == SearchFrom(fs.entries, n, name) && At(fs, n).openCount > 0
    requires var t := fs.entries[i].target; t != n && FlushStrands(fs, t)
    ensures var f1 := FlushDir(fs, fs.entries[i].target);
            var k := SearchFrom(f1.entries, n, name); k >= 0 && !Good(EntryDrop(f1, k))
  {
    var t := fs.entries[i].target;
    assert fs.entries[i] in fs.entries;
    var d :| Orphaned(fs, t, d);
    FlushStrandsOne(fs, t, d);
    FlushKeepsSearch(fs, t, n, name);
    FlushKeepsOpen(fs, t, n);
    var f1 := FlushDir(fs, t);
    var k := SearchFrom(f1.entries, n, name);
    var e :| e in f1.entries && e.dir != t && e.dir !in f1.inodes;
    StrandedStays(f1, k, e);
    assert !IsDir(EntryDrop(f1, k), e.dir);
  }

  /** Unlinking is exact unless emptying the directory frees another one that has entries. */
  lemma UnlinkExact(fs: Fs, h: int, name: string)
    requires Good(fs) && Live(fs, h)
    ensures Good(Unlink(fs, h, name).0) <==> !UnlinkStrands(fs, h, name)
  {
    var n := InodeOf(fs, h);
    var i := Search(fs, n, name);
    if name !in {".", ".."} && i >= 0 {
      var t := fs.entries[i].target;
      if !IsDir(fs, t) {
        FileHasNoEntries(fs, t);
        DropOthers(fs, i, t);
        EntryDropKeeps(fs, multiset{}, multiset{}, i);
      } else if EmptyDir(fs, t) {
        LiveInode(fs, h);
        ReferencesAreNonNegative(fs, n);
        assert fs.files[h] in fs.files;
        if FlushStrands(fs, t) { UnlinkBroken(fs, n, name, i); } else { UnlinkDirectory(fs, n, name, i); }
      }
    }
  }

  // ----- renaming -----

  lemma RenameFresh(fs: Fs, i: int, n: int, newName: string)
    requires Good(fs) && 0 <= i < |fs.entries| && IsDir(fs, n)
    ensures Good(MoveEntry(fs, i, n, newName))
  {
    var t := fs.entries[i].target;
    assert fs.entries[i] in fs.entries;
    IncrefAdd(fs, multiset{}, n, newName, t);
    StaysNamed(DirAdd(Incref(fs, t), n, newName, t), multiset{}, multiset{}, i, |fs.entries|);
    EntryDropKeeps(DirAdd(Incref(fs, t), n, newName, t), multiset{}, multiset{}, i);
  }

  /** The old name j is dropped before the new one is made. */
  lemma ReplaceName(fs: Fs, j: int, t: int, n: int, newName: string)
    requires Good(fs) && 0 <= j < |fs.entries| && t in fs.inodes && IsDir(fs, n) && fs.entries[j].dir == n
    ensures RefInv(DirAdd(Incref(EntryDelete(fs, j), t), n, newName, t), multiset{fs.entries[j].target}, multiset{})
  {
    EntryDeleteKeeps(fs, multiset{}, multiset{}, j);
    CreditOf(fs.entries[j].target);
    IncrefAdd(EntryDelete(fs, j), multiset{fs.entries[j].target}, n, newName, t);
  }

  lemma ShiftedIndex(fs: Fs, i: int, j: int, n: int, newName: string, t: int)
    requires 0 <= i < |fs.entries| && 0 <= j < |fs.entries| && i != j
    ensures var f1, k := DirAdd(Incref(EntryDelete(fs, j), t), n, newName, t), if j < i then i - 1 else i;
            && k < |f1.entries| - 1 == |fs.entries| - 1
            && f1.entries[k] == fs.entries[i] && f1.entries[|fs.entries| - 1] == Entry(n, newName, t)
  {
  }

  /** The new name stands last; entry i, moved up if j was before it, has the same target. */
  lemma ReplaceReady(fs: Fs, i: int, j: int, n: int, newName: string)
    requires Good(fs) && 0 <= i < |fs.entries| && 0 <= j < |fs.entries| && i != j && fs.entries[j].dir == n
    ensures var t, k, last := fs.entries[i].target, if j < i then i - 1 else i, |fs.entries| - 1;
            var f1 := DirAdd(Incref(EntryDelete(fs, j), t), n, newName, t);
            && t in fs.inodes && IsDir(fs, n)
            && RefInv(f1, multiset{fs.entries[j].target}, multiset{})
            && 0 <= k < last < |f1.entries| && f1.entries[last].target == f1.entries[k].target
  {
    assert fs.entries[i] in fs.entries && fs.entries[j] in fs.entries;
    ReplaceName(fs, j, fs.entries[i].target, n, newName);
    ShiftedIndex(fs, i, j, n, newName, fs.entries[i].target);
  }

  lemma ReplacedKinds(fs: Fs, j: int, n: int, newName: string, t: int, m: int)
    requires 0 <= j < |fs.entries| && fs.entries[j].dir in fs.inodes && t in fs.inodes && n in fs.inodes && m in fs.inodes
    ensures At(DirAdd(Incref(EntryDelete(fs, j), t), n, newName, t), m).kind == At(fs, m).kind
  {
  }

  /** An entry goes whose target has another name; then the inode of credit goes. */
  lemma DropThenRelease(fs: Fs, k: int, l: int, victim: int)
    requires RefInv(fs, multiset{victim}, multiset{}) && 0 <= k < |fs.entries| && 0 <= l < |fs.entries| && k != l
    requires fs.entries[l].target == fs.entries[k].target && !IsDir(fs, victim)
    ensures Good(Decref(EntryDrop(fs, k), victim))
  {
    StaysNamed(fs, multiset{victim}, multiset{}, k, l);
    EntryDropKeeps(fs, multiset{victim}, multiset{}, k);
    CreditOf(victim);
    FileHasNoEntries(EntryDrop(fs, k), victim);
    DecrefKeeps(EntryDrop(fs, k), multiset{}, multiset{}, victim);
  }

  /** Its inode is released last. */
  lemma RenameOver(fs: Fs, i: int, j: int, n: int, newName: string)
    requires Good(fs) && 0 <= i < |fs.entries| && 0 <= j < |fs.entries| && i != j
    requires fs.entries[j].dir == n && !IsDir(fs, fs.entries[j].target)
    ensures Good(ReplaceEntry(fs, i, j, n, newName))
  {
    var t, victim := fs.entries[i].target, fs.entries[j].target;
    ReplaceReady(fs, i, j, n, newName);
    assert fs.entries[j] in fs.entries;
    ReplacedKinds(fs, j, n, newName, t, victim);
    DropThenRelease(DirAdd(Incref(EntryDelete(fs, j), t), n, newName, t), if j < i then i - 1 else i, |fs.entries| - 1, victim);
  }

  lemma RenameKeeps(fs: Fs, h: int, name: string, nh: int, newName: string)
    requires Good(fs) && Live(fs, h) && Live(fs, nh)
    ensures Good(Rename(fs, h, name, nh, newName).0)
  {
    var n := InodeOf(fs, nh);
    var i, j := Search(fs, InodeOf(fs, h), name), Search(fs, n, newName);
    if i >= 0 && j < 0 && IsDir(fs, n) {
      RenameFresh(fs, i, n, newName);
    } else if i >= 0 && j >= 0 && i != j && !IsDir(fs, fs.entries[j].target) {
      RenameOver(fs, i, j, n, newName);
    }
  }

  /** A rename reads a freed entry exactly when it names one non-directory twice, and fails
      the assertion of inode_dir_add exactly when the new parent is no directory. */
  lemma RenameFaultExact(fs: Fs, h: int, name: string, nh: int, newName: string)
    requires Live(fs, h) && Live(fs, nh)
    ensures var i := Search(fs, InodeOf(fs, h), name);
            Rename(fs, h, name, nh, newName).1 == Fault <==>
              i >= 0 && (!IsDir(fs, InodeOf(fs, nh)) ||
                         (InodeOf(fs, h) == InodeOf(fs, nh) && name == newName && !IsDir(fs, fs.entries[i].target)))
  {
  }

  // ----- runs -----

  datatype Op =
    | OAttach
    | OWalk(h: int, names: seq<string>)
    | ODelete(h: int)
    | OMkdir(h: int, name: string)
    | OCreate(h: int, name: string, flags: int)
    | OSymlink(h: int, name: string)
    | OMknod(h: int, name: string, kind: Kind)
    | OLink(dh: int, h: int, name: string)
    | ORename(h: int, name: string, nh: int, newName: string)
    | OUnlink(h: int, name: string)

  /** The files the operation is given. */
  predicate Uses(fs: Fs, op: Op) {
    match op
    case OAttach => true
    case OLink(dh, h, _) => Live(fs, dh) && Live(fs, h)
    case ORename(h, _, nh, _) => Live(fs, h) && Live(fs, nh)
    case _ => Live(fs, op.h)
  }

  ghost function Step(fs: Fs, op: Op): (Fs, Reply)
    requires Uses(fs, op)
  {
    match op
    case OAttach => Attach(fs)
    case OWalk(h, names) => Walk(fs, h, names)
    case ODelete(h) => Delete(fs, h)
    case OMkdir(h, name) => Mkdir(fs, h, name)
    case OCreate(h, name, flags) => Create(fs, h, name, flags)
    case OSymlink(h, name) => Symlink(fs, h, name)
    case OMknod(h, name, kind) => Mknod(fs, h, name, kind)
    case OLink(dh, h, name) => Link(fs, dh, h, name)
    case ORename(h, name, nh, newName) => Rename(fs, h, name, nh, newName)
    case OUnlink(h, name) => Unlink(fs, h, name)
  }

  /** A new name in something that is no directory. */
  predicate NoParent(fs: Fs, h: int)
    requires Live(fs, h)
  {
    !IsDir(fs, InodeOf(fs, h))
  }

  /** What the source does not survive, each a test on the state before: a directory freed
      with its entries, a name made in a non-directory, and a file renamed onto itself. */
  ghost predicate Aborts(fs: Fs, op: Op)
    requires Uses(fs, op)
  {
    match op
    case ODelete(h) => LastFile(fs, h) && !NoEntries(fs, InodeOf(fs, h))
    case OCreate(h, name, _) => IsDir(fs, InodeOf(fs, h)) && Search(fs, InodeOf(fs, h), name) < 0 && LastFile(fs, h)
    case OUnlink(h, name) => UnlinkStrands(fs, h, name)
    case OSymlink(h, _) => NoParent(fs, h)
    case OMknod(h, _, kind) => kind != Dir && kind != Lnk && NoParent(fs, h)
    case OLink(dh, h, _) => !IsDir(fs, InodeOf(fs, h)) && NoParent(fs, dh)
    case ORename(h, name, nh, newName) =>
      var i := Search(fs, InodeOf(fs, h), name);
      i >= 0 && (NoParent(fs, nh) || (InodeOf(fs, h) == InodeOf(fs, nh) && name == newName && !IsDir(fs, fs.entries[i].target)))
    case _ => false
  }

  ghost predicate LegalOp(fs: Fs, op: Op) { Uses(fs, op) && !Aborts(fs, op) }

  ghost predicate Survives(fs: Fs, op: Op)
    requires Uses(fs, op)
  {
    Good(Step(fs, op).0) && Step(fs, op).1 != Fault
  }

  lemma FidStepExact(fs: Fs, op: Op)
    requires Good(fs) && Uses(fs, op) && (op.OAttach? || op.OWalk? || op.ODelete?)
    ensures Survives(fs, op) <==> !Aborts(fs, op)
  {
    match op
    case OAttach => FidCreateKeeps(fs, fs.root);
    case OWalk(h, names) => WalkKeeps(fs, h, names);
    case ODelete(h) => DeleteExact(fs, h);
  }

  predicate IsNode(op: Op) { op.OSymlink? || op.OMknod? || op.OLink? }

  lemma NodeStepKeeps(fs: Fs, op: Op)
    requires Good(fs) && Uses(fs, op) && IsNode(op)
    ensures Good(Step(fs, op).0)
  {
    match op
    case OSymlink(h, name) => MakeNodeKeeps(fs, h, name, Lnk);
    case OMknod(h, name, kind) => if kind != Dir { MakeNodeKeeps(fs, h, name, kind); }
    case OLink(dh, h, name) => LinkKeeps(fs, dh, h, name);
  }

  lemma NodeStepFaults(fs: Fs, op: Op)
    requires Uses(fs, op) && IsNode(op)
    ensures Step(fs, op).1 == Fault <==> Aborts(fs, op)
  {
  }

  lemma NodeStepExact(fs: Fs, op: Op)
    requires Good(fs) && Uses(fs, op) && IsNode(op)
    ensures Survives(fs, op) <==> !Aborts(fs, op)
  {
    NodeStepKeeps(fs, op);
    NodeStepFaults(fs, op);
  }

  lemma TreeStepExact(fs: Fs, op: Op)
    requires Good(fs) && Uses(fs, op) && (op.OMkdir? || op.OCreate? || op.ORename? || op.OUnlink?)
    ensures Survives(fs, op) <==> !Aborts(fs, op)
  {
    match op
    case OMkdir(h, name) => MkdirKeeps(fs, h, name);
    case OCreate(h, name, flags) => CreateExact(fs, h, name, flags);
    case ORename(h, name, nh, newName) =>
      RenameKeeps(fs, h, name, nh, newName);
      RenameFaultExact(fs, h, name, nh, newName);
    case OUnlink(h, name) => UnlinkExact(fs, h, name);
  }

  /** Every operation keeps all counts and totals exact and runs to its end, except exactly
      in the cases of Aborts. */
  lemma StepExact(fs: Fs, op: Op)
    requires Good(fs) && Uses(fs, op)
    ensures Good(Step(fs, op).0) && Step(fs, op).1 != Fault <==> !Aborts(fs, op)
  {
    if op.OAttach? || op.OWalk? || op.ODelete? { FidStepExact(fs, op); }
    else if IsNode(op) { NodeStepExact(fs, op); }
    else { TreeStepExact(fs, op); }
  }

  lemma EmptyHasSpace(cacheLimit: int, maxBlocks: int)
    ensures Space(Empty(cacheLimit, maxBlocks))
  {
    var f0 := Fs(map[], [], [], [], 1, 1, 0, maxBlocks, [], 0, cacheLimit);
    var f1 := NewInode(f0, Dir);
    NewKeepsSpace(f0, Dir);
    SetCountsKeepsSpace(f1, 1, f1.inodes[1].(refcount := 2));
    var f2 := DirAdd(Incref(f1, 1), 1, ".", 1);
    DirAddKeepsSpace(Incref(f1, 1), 1, ".", 1);
    SetCountsKeepsSpace(f2, 1, f2.inodes[1].(refcount := 3));
    DirAddKeepsSpace(Incref(f2, 1), 1, "..", 1);
  }

  lemma EmptyIsNamed(cacheLimit: int, maxBlocks: int)
    ensures NameInv(Empty(cacheLimit, maxBlocks), multiset{}, multiset{})
  {
    var fs := Empty(cacheLimit, maxBlocks);
    assert fs.entries == [Entry(1, ".", 1), Entry(1, "..", 1)];
    SumPush([Entry(1, ".", 1)], Entry(1, "..", 1), TargetIs(1));
    SumOne(Entry(1, ".", 1), TargetIs(1));
    assert fs.entries[0] in fs.entries;
  }

  lemma EmptyIsGood(cacheLimit: int, maxBlocks: int)
    ensures Good(Empty(cacheLimit, maxBlocks))
  {
    EmptyIsNamed(cacheLimit, maxBlocks);
    EmptyHasSpace(cacheLimit, maxBlocks);
  }

  /** fss[i] steps to fss[i + 1] by an operation the source survives. */
  ghost predicate IsRun(fss: seq<Fs>, ops: seq<Op>) {
    && |fss| == |ops| + 1
    && forall i :: 0 <= i < |ops| ==> LegalOp(fss[i], ops[i]) && Step(fss[i], ops[i]).0 == fss[i + 1]
  }

  /** Over every run from the empty file system the counts are exact in every state, and an
      inode exists exactly as long as it is the root, named or open. */
  lemma {:induction false} RunIsExact(fss: seq<Fs>, ops: seq<Op>, cacheLimit: int, maxBlocks: int, i: nat, n: int)
    requires IsRun(fss, ops) && fss[0] == Empty(cacheLimit, maxBlocks) && i < |fss|
    ensures Good(fss[i])
    ensures n in fss[i].inodes <==>
              || n == fss[i].root
              || (exists e :: e in fss[i].entries && e.target == n)
              || (exists f :: f in fss[i].files && f.Some? && f.value.inode == n)
    decreases i
  {
    if i == 0 {
      EmptyIsGood(cacheLimit, maxBlocks);
    } else {
      RunIsExact(fss, ops, cacheLimit, maxBlocks, i - 1, n);
      StepExact(fss[i - 1], ops[i - 1]);
    }
    LiveIffUsed(fss[i], n);
  }
}
