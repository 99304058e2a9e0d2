// Reference and open counts of temu/fs_net.c are exact over every run of the name
// operations, an inode is freed exactly when both reach zero, and space is conserved.
//
// While an operation is under way, `er` holds the references and `eo` the opens that are
// counted but not yet (or no longer) backed by a directory entry or a file.

module FsNames {
  import opened Options
  import opened Sums
  import opened FsNet
  import opened FsSpace

  function TargetIs(n: int): Entry -> int { (e: Entry) => if e.target == n then 1 else 0 }

  function OpensOn(n: int): Option<FsFile> -> int {
    (f: Option<FsFile>) => if f.Some? && f.value.inode == n then 1 else 0
  }

  /** The number of directory entries naming n, one more for the root. */
  ghost function References(fs: Fs, n: int): int {
    Sum(fs.entries, TargetIs(n)) + if n == fs.root then 1 else 0
  }

  /** The number of live files on n. */
  ghost function Opens(fs: Fs, n: int): int { Sum(fs.files, OpensOn(n)) }

  /** No entry lies in directory n: inode_free asserts it of a directory. */
  ghost predicate NoEntries(fs: Fs, n: int) { forall e :: e in fs.entries ==> e.dir != n }

  /** No dangling numbers. */
  ghost predicate Closed(fs: Fs) {
    && fs.root in fs.inodes && fs.inodes[fs.root].kind == Dir
    && (forall n :: n in fs.inodes ==> 0 < n < fs.nextId)
    && (forall e :: e in fs.entries ==> IsDir(fs, e.dir) && e.target in fs.inodes)
    && (forall f :: f in fs.files && f.Some? ==> f.value.inode in fs.inodes)
  }

  ghost predicate Counted(fs: Fs, er: multiset<int>, eo: multiset<int>) {
    forall n :: n in fs.inodes ==>
      && fs.inodes[n].refcount == References(fs, n) + er[n]
      && fs.inodes[n].openCount == Opens(fs, n) + eo[n]
      && (fs.inodes[n].refcount > 0 || fs.inodes[n].openCount > 0)
  }

  ghost predicate NameInv(fs: Fs, er: multiset<int>, eo: multiset<int>) {
    && Closed(fs) && Counted(fs, er, eo)
    && (forall n :: n in er || n in eo ==> n in fs.inodes)
  }

  ghost predicate RefInv(fs: Fs, er: multiset<int>, eo: multiset<int>) {
    NameInv(fs, er, eo) && Space(fs)
  }

  // ----- sums as counts -----

  lemma ReferencesAreNonNegative(fs: Fs, n: int)
    ensures Sum(fs.entries, TargetIs(n)) >= 0 && Opens(fs, n) >= 0
    ensures forall e :: e in fs.entries && e.target == n ==> Sum(fs.entries, TargetIs(n)) >= 1
    ensures forall f :: f in fs.files && f.Some? && f.value.inode == n ==> Opens(fs, n) >= 1
  {
    SumBound(fs.entries, TargetIs(n));
    SumBound(fs.files, OpensOn(n));
    forall e | e in fs.entries && e.target == n ensures Sum(fs.entries, TargetIs(n)) >= 1 {
      assert TargetIs(n)(e) == 1;
    }
    forall f | f in fs.files && f.Some? && f.value.inode == n ensures Opens(fs, n) >= 1 {
      assert OpensOn(n)(f) == 1;
    }
  }

  // ----- the primitives -----

  lemma IncrefNames(fs: Fs, er: multiset<int>, eo: multiset<int>, n: int)
    requires NameInv(fs, er, eo) && n in fs.inodes
    ensures NameInv(Incref(fs, n), er + multiset{n}, eo)
  {
  }

  lemma IncOpenNames(fs: Fs, er: multiset<int>, eo: multiset<int>, n: int)
    requires NameInv(fs, er, eo) && n in fs.inodes
    ensures NameInv(IncOpen(fs, n), er, eo + multiset{n})
  {
  }

  lemma NewInodeNames(fs: Fs, er: multiset<int>, eo: multiset<int>, kind: Kind)
    requires NameInv(fs, er, eo)
    requires fs.nextId > 0
    ensures NameInv(NewInode(fs, kind), er + multiset{fs.nextId}, eo)
    ensures fs.nextId in NewInode(fs, kind).inodes && fs.nextId !in fs.inodes
  {
    var id, r := fs.nextId, NewInode(fs, kind);
    Unreferenced(fs, id);
  }

  lemma {:induction false} NoneTargets(es: seq<Entry>, n: int)
    requires forall e :: e in es ==> e.target != n
    ensures Sum(es, TargetIs(n)) == 0
  {
    if |es| > 0 { NoneTargets(es[1..], n); }
  }

  lemma {:induction false} NoneOpen(fsFiles: seq<Option<FsFile>>, n: int)
    requires forall f :: f in fsFiles && f.Some? ==> f.value.inode != n
    ensures Sum(fsFiles, OpensOn(n)) == 0
  {
    if |fsFiles| > 0 { NoneOpen(fsFiles[1..], n); }
  }

  lemma Unreferenced(fs: Fs, n: int)
    requires Closed(fs) && n !in fs.inodes
    ensures References(fs, n) == 0 && Opens(fs, n) == 0
  {
    NoneTargets(fs.entries, n);
    NoneOpen(fs.files, n);
  }

  lemma DirAddCounts(fs: Fs, er: multiset<int>, eo: multiset<int>, dir: int, name: string, target: int)
    requires Closed(fs) && Counted(fs, er, eo) && er[target] > 0 && IsDir(fs, dir)
    ensures Counted(DirAdd(fs, dir, name, target), er - multiset{target}, eo)
  {
    var r, e := DirAdd(fs, dir, name, target), Entry(dir, name, target);
    forall n | n in r.inodes
      ensures References(r, n) == References(fs, n) + (if n == target then 1 else 0) && Opens(r, n) == Opens(fs, n)
    {
      SumPush(fs.entries, e, TargetIs(n));
    }
  }

  lemma DirAddNames(fs: Fs, er: multiset<int>, eo: multiset<int>, dir: int, name: string, target: int)
    requires NameInv(fs, er, eo) && er[target] > 0 && IsDir(fs, dir)
    ensures NameInv(DirAdd(fs, dir, name, target), er - multiset{target}, eo)
  {
    DirAddCounts(fs, er, eo, dir, name, target);
    var r, e := DirAdd(fs, dir, name, target), Entry(dir, name, target);
    assert forall x :: x in r.entries <==> x in fs.entries || x == e;
    assert target in er;
    assert Closed(r);
  }

  lemma EntryDeleteCounts(fs: Fs, er: multiset<int>, eo: multiset<int>, i: int)
    requires Closed(fs) && Counted(fs, er, eo) && 0 <= i < |fs.entries|
    ensures Counted(EntryDelete(fs, i), er + multiset{fs.entries[i].target}, eo)
  {
    var r, e := EntryDelete(fs, i), fs.entries[i];
    assert e in fs.entries;
    forall n | n in r.inodes
      ensures References(r, n) == References(fs, n) - (if n == e.target then 1 else 0) && Opens(r, n) == Opens(fs, n)
    {
      SumRemove(fs.entries, i, TargetIs(n));
    }
  }

  lemma EntryDeleteCloses(fs: Fs, i: int)
    requires Closed(fs) && 0 <= i < |fs.entries|
    ensures Closed(EntryDelete(fs, i))
  {
    RemoveKeepsOthers(fs.entries, i);
    assert fs.entries[i] in fs.entries;
  }

  lemma EntryDeleteNames(fs: Fs, er: multiset<int>, eo: multiset<int>, i: int)
    requires NameInv(fs, er, eo) && 0 <= i < |fs.entries|
    ensures NameInv(EntryDelete(fs, i), er + multiset{fs.entries[i].target}, eo)
  {
    EntryDeleteCounts(fs, er, eo, i);
    EntryDeleteCloses(fs, i);
    assert fs.entries[i] in fs.entries;
  }

  lemma RemoveKeepsOthers(es: seq<Entry>, i: int)
    requires 0 <= i < |es|
    ensures forall x :: x in RemoveAt(es, i) ==> x in es
    ensures forall x :: x in es && x != es[i] ==> x in RemoveAt(es, i)
  {
    forall x | x in es && x != es[i] ensures x in RemoveAt(es, i) {
      var j :| 0 <= j < |es| && es[j] == x;
      if j < i { assert RemoveAt(es, i)[j] == x; } else { assert RemoveAt(es, i)[j - 1] == x; }
    }
  }

  /** An inode whose counts are spent is named by nothing. */
  lemma SpentIsUnused(fs: Fs, er: multiset<int>, eo: multiset<int>, n: int)
    requires n in fs.inodes && References(fs, n) + er[n] <= 0 && Opens(fs, n) + eo[n] <= 0
    ensures n != fs.root && er[n] == 0 && eo[n] == 0
    ensures forall e :: e in fs.entries ==> e.target != n
    ensures forall f :: f in fs.files && f.Some? ==> f.value.inode != n
  {
    ReferencesAreNonNegative(fs, n);
  }

  lemma FreeCloses(fs: Fs, n: int)
    requires Closed(fs) && n in fs.inodes && n != fs.root && NoEntries(fs, n)
    requires forall e :: e in fs.entries ==> e.target != n
    requires forall f :: f in fs.files && f.Some? ==> f.value.inode != n
    ensures Closed(FreeInode(fs, n))
  {
  }

  lemma SetKeeps(fs: Fs, n: int, x: Inode)
    requires Closed(fs) && n in fs.inodes && x.kind == fs.inodes[n].kind
    ensures Closed(Set(fs, n, x))
  {
  }

  /** The counts after one reference or open of n has been given up: n is gone exactly when
      nothing refers to it any more. */
  lemma GiveUp(fs: Fs, er: multiset<int>, eo: multiset<int>, n: int, x: Inode, r: Fs)
    requires Closed(fs) && n in fs.inodes
    requires x == fs.inodes[n].(refcount := x.refcount, openCount := x.openCount)
    requires forall k :: k in er || k in eo ==> k in fs.inodes
    requires x.refcount == References(fs, n) + er[n] && x.openCount == Opens(fs, n) + eo[n]
    requires forall k :: k in fs.inodes && k != n ==>
      fs.inodes[k].refcount == References(fs, k) + er[k] && fs.inodes[k].openCount == Opens(fs, k) + eo[k] &&
      (fs.inodes[k].refcount > 0 || fs.inodes[k].openCount > 0)
    requires r == if x.refcount <= 0 && x.openCount <= 0 then FreeInode(fs, n) else Set(fs, n, x)
    ensures n in r.inodes || NoEntries(fs, n) ==> NameInv(r, er, eo)
    ensures n !in r.inodes <==> References(fs, n) + er[n] == 0 && Opens(fs, n) + eo[n] == 0
  {
    ReferencesAreNonNegative(fs, n);
    if x.refcount <= 0 && x.openCount <= 0 {
      SpentIsUnused(fs, er, eo, n);
      if NoEntries(fs, n) {
        FreeCloses(fs, n);
        assert Counted(r, er, eo);
      }
    } else {
      SetKeeps(fs, n, x);
      assert Counted(r, er, eo);
    }
  }

  lemma DecrefNames(fs: Fs, er: multiset<int>, eo: multiset<int>, n: int)
    requires NameInv(fs, er + multiset{n}, eo)
    ensures n in Decref(fs, n).inodes || NoEntries(fs, n) ==> NameInv(Decref(fs, n), er, eo)
    ensures n !in Decref(fs, n).inodes <==> References(fs, n) + er[n] == 0 && Opens(fs, n) + eo[n] == 0
  {
    assert n in er + multiset{n};
    GiveUp(fs, er, eo, n, fs.inodes[n].(refcount := fs.inodes[n].refcount - 1), Decref(fs, n));
  }

  lemma DecOpenNames(fs: Fs, er: multiset<int>, eo: multiset<int>, n: int)
    requires NameInv(fs, er, eo + multiset{n})
    ensures n in DecOpen(fs, n).inodes || NoEntries(fs, n) ==> NameInv(DecOpen(fs, n), er, eo)
    ensures n !in DecOpen(fs, n).inodes <==> References(fs, n) + er[n] == 0 && Opens(fs, n) + eo[n] == 0
  {
    assert n in eo + multiset{n};
    GiveUp(fs, er, eo, n, fs.inodes[n].(openCount := fs.inodes[n].openCount - 1), DecOpen(fs, n));
  }

  // ----- files -----

  lemma OpenFileNames(fs: Fs, er: multiset<int>, eo: multiset<int>, f: FsFile)
    requires NameInv(fs, er, eo + multiset{f.inode})
    ensures NameInv(fs.(files := fs.files + [Some(f)]), er, eo)
  {
    var r := fs.(files := fs.files + [Some(f)]);
    assert f.inode in eo + multiset{f.inode};
    forall n ensures Opens(r, n) == Opens(fs, n) + (if f.inode == n then 1 else 0) {
      SumPush(fs.files, Some(f), OpensOn(n));
    }
    assert Counted(r, er, eo);
  }

  /** Replaces the file of a handle; opens move between files and credit. */
  lemma SetFileNames(fs: Fs, er: multiset<int>, eo: multiset<int>, eo': multiset<int>, h: int, f: Option<FsFile>)
    requires NameInv(fs, er, eo) && 0 <= h < |fs.files|
    requires f.Some? ==> f.value.inode in fs.inodes
    requires forall n :: n in eo' ==> n in fs.inodes
    requires forall n :: n in fs.inodes ==> eo'[n] + OpensOn(n)(f) == eo[n] + OpensOn(n)(fs.files[h])
    ensures NameInv(fs.(files := fs.files[h := f]), er, eo')
  {
    var r := fs.(files := fs.files[h := f]);
    forall n ensures Opens(r, n) == Opens(fs, n) - OpensOn(n)(fs.files[h]) + OpensOn(n)(f) {
      SumUpdate(fs.files, h, f, OpensOn(n));
    }
    assert Counted(r, er, eo');
    assert Closed(r);
  }

  // ----- names and space together -----

  lemma IncrefKeeps(fs: Fs, er: multiset<int>, eo: multiset<int>, n: int)
    requires RefInv(fs, er, eo) && n in fs.inodes
    ensures RefInv(Incref(fs, n), er + multiset{n}, eo)
  {
    IncrefNames(fs, er, eo, n);
    IncrefKeepsSpace(fs, n);
  }

  lemma IncOpenKeeps(fs: Fs, er: multiset<int>, eo: multiset<int>, n: int)
    requires RefInv(fs, er, eo) && n in fs.inodes
    ensures RefInv(IncOpen(fs, n), er, eo + multiset{n})
  {
    IncOpenNames(fs, er, eo, n);
    IncOpenKeepsSpace(fs, n);
  }

  lemma NewInodeKeeps(fs: Fs, er: multiset<int>, eo: multiset<int>, kind: Kind)
    requires RefInv(fs, er, eo)
    ensures RefInv(NewInode(fs, kind), er + multiset{fs.nextId}, eo)
    ensures fs.nextId in NewInode(fs, kind).inodes && fs.nextId !in fs.inodes
  {
    NewInodeNames(fs, er, eo, kind);
    NewKeepsSpace(fs, kind);
  }

  lemma DirAddKeeps(fs: Fs, er: multiset<int>, eo: multiset<int>, dir: int, name: string, target: int)
    requires RefInv(fs, er, eo) && er[target] > 0 && IsDir(fs, dir)
    ensures RefInv(DirAdd(fs, dir, name, target), er - multiset{target}, eo)
  {
    DirAddNames(fs, er, eo, dir, name, target);
    DirAddKeepsSpace(fs, dir, name, target);
  }

  lemma EntryDeleteKeeps(fs: Fs, er: multiset<int>, eo: multiset<int>, i: int)
    requires RefInv(fs, er, eo) && 0 <= i < |fs.entries|
    ensures RefInv(EntryDelete(fs, i), er + multiset{fs.entries[i].target}, eo)
  {
    assert fs.entries[i] in fs.entries;
    EntryDeleteNames(fs, er, eo, i);
    EntryDeleteKeepsSpace(fs, i);
  }

  lemma DecrefKeepsSpace(fs: Fs, n: int)
    requires Space(fs) && n in fs.inodes && (n in Decref(fs, n).inodes || NoEntries(fs, n))
    ensures Space(Decref(fs, n))
  {
    ReleaseKeepsSpace(fs, n, fs.inodes[n].(refcount := fs.inodes[n].refcount - 1), Decref(fs, n));
  }

  lemma DecOpenKeepsSpace(fs: Fs, n: int)
    requires Space(fs) && n in fs.inodes && (n in DecOpen(fs, n).inodes || NoEntries(fs, n))
    ensures Space(DecOpen(fs, n))
  {
    ReleaseKeepsSpace(fs, n, fs.inodes[n].(openCount := fs.inodes[n].openCount - 1), DecOpen(fs, n));
  }

  lemma DecrefKeeps(fs: Fs, er: multiset<int>, eo: multiset<int>, n: int)
    requires RefInv(fs, er + multiset{n}, eo)
    requires n in Decref(fs, n).inodes || NoEntries(fs, n)
    ensures RefInv(Decref(fs, n), er, eo)
  {
    assert n in er + multiset{n};
    DecrefNames(fs, er, eo, n);
    DecrefKeepsSpace(fs, n);
  }

  lemma DecOpenKeeps(fs: Fs, er: multiset<int>, eo: multiset<int>, n: int)
    requires RefInv(fs, er, eo + multiset{n})
    requires n in DecOpen(fs, n).inodes || NoEntries(fs, n)
    ensures RefInv(DecOpen(fs, n), er, eo)
  {
    assert n in eo + multiset{n};
    DecOpenNames(fs, er, eo, n);
    DecOpenKeepsSpace(fs, n);
  }

  lemma OpenFileKeeps(fs: Fs, er: multiset<int>, eo: multiset<int>, f: FsFile)
    requires RefInv(fs, er, eo + multiset{f.inode})
    ensures RefInv(fs.(files := fs.files + [Some(f)]), er, eo)
  {
    OpenFileNames(fs, er, eo, f);
    FilesTakeNoSpace(fs, fs.files + [Some(f)]);
  }

  lemma SetFileKeeps(fs: Fs, er: multiset<int>, eo: multiset<int>, eo': multiset<int>, h: int, f: Option<FsFile>)
    requires RefInv(fs, er, eo) && 0 <= h < |fs.files|
    requires f.Some? ==> f.value.inode in fs.inodes
    requires forall n :: n in eo' ==> n in fs.inodes
    requires forall n :: n in fs.inodes ==> eo'[n] + OpensOn(n)(f) == eo[n] + OpensOn(n)(fs.files[h])
    ensures RefInv(fs.(files := fs.files[h := f]), er, eo')
  {
    SetFileNames(fs, er, eo, eo', h, f);
    FilesTakeNoSpace(fs, fs.files[h := f]);
  }
}
