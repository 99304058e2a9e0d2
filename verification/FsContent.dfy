// The content of a file refines a sequence of bytes (temu/fs_net.c:1162-1281).

module FsContent {
  import opened Options
  import opened FsNet
  import opened FsData

  predicate Ready(x: Inode) { x.kind == Reg && (x.state == Local || x.state == Loaded) }

  /** The file lies inside its buffer. */
  predicate InBuffer(x: Inode) { 0 <= x.size <= |x.data| < HALF }

  /** The bytes of a file that is open. */
  function Content(x: Inode): (c: seq<int>)
    requires InBuffer(x)
    ensures |c| == x.size
  {
    x.data[..x.size]
  }

  // ----- files as sequences -----

  /** Growing adds zeros, shrinking keeps the prefix. */
  function Trunc(c: seq<int>, size: nat): (r: seq<int>)
    ensures |r| == size
  {
    if size <= |c| then c[..size] else c + Zeros(size - |c|)
  }

  /** A gap before the written bytes is zero. */
  function Splice(c: seq<int>, offset: nat, bytes: seq<int>): (r: seq<int>)
    ensures |r| == if bytes != [] && offset + |bytes| > |c| then offset + |bytes| else |c|
  {
    if bytes == [] then c
    else
      var c1 := if offset + |bytes| > |c| then Trunc(c, offset + |bytes|) else c;
      Overwritten(c1, offset, bytes)
  }

  function Slice(c: seq<int>, offset: nat, count: nat): seq<int> {
    if offset >= |c| then [] else c[offset..offset + Min(|c| - offset, count)]
  }

  // ----- fs_truncate -----

  lemma GrowBuffer(x: Inode, size: nat, heap: Heap)
    requires InBuffer(x) && x.size <= size && heap.room < HALF
    ensures var data := Rebuffered(x, size, true, heap);
            data == None || (size <= |data.value| < HALF && data.value[..size] == Trunc(Content(x), size))
  {
    var data := Rebuffered(x, size, true, heap);
    if data.Some? {
      assert data.value[..size] == Trunc(Content(x), size);
    }
  }

  lemma ShrinkBuffer(x: Inode, size: nat, heap: Heap)
    requires InBuffer(x) && size <= x.size && heap.room < HALF
    ensures var data := Rebuffered(x, size, false, heap);
            data == None || (size <= |data.value| < HALF && data.value[..size] == Trunc(Content(x), size))
  {
    var data := Rebuffered(x, size, false, heap);
    if data.Some? {
      assert data.value[..size] == Trunc(Content(x), size);
    }
  }

  /** No 64-bit difference is misread. */
  lemma SignOfDifference(size: int, oldSize: int)
    requires 0 <= size < WORD && 0 <= oldSize < HALF
    ensures Signed(size - oldSize) == if size - oldSize < HALF then size - oldSize else size - oldSize - WORD
  {
    var d := size - oldSize;
    if d < 0 { assert d % WORD == d + WORD; } else { assert d % WORD == d; }
  }

  lemma MakeLocalKeeps(fs: Fs, n: int)
    requires n in fs.inodes
    ensures n in MakeLocal(fs, n).inodes
    ensures var y := At(MakeLocal(fs, n), n);
            y == At(fs, n).(state := if At(fs, n).state == Loaded then Local else At(fs, n).state)
  {
  }

  /** Either nothing happened, or the file holds `c` and the reply is `value`. */
  ghost predicate Became(fs: Fs, n: int, r: Fs, reply: Reply, c: seq<int>, value: int) {
    || (reply == Fail(ENOSPC) && r == fs)
    || (reply == Ok(value) && n in r.inodes && Ready(r.inodes[n]) && InBuffer(r.inodes[n]) && Content(r.inodes[n]) == c)
  }

  /** fs_truncate of a file with its content. The guard is on the size asked for. */
  lemma TruncateRefines(fs: Fs, n: int, size: nat, heap: Heap)
    requires n in fs.inodes && Ready(fs.inodes[n]) && InBuffer(fs.inodes[n]) && heap.room < HALF
    requires size < WORD && size - fs.inodes[n].size < HALF
    ensures var (r, reply) := Truncate(fs, n, size, heap); Became(fs, n, r, reply, Trunc(Content(fs.inodes[n]), size), 0)
  {
    var x := fs.inodes[n];
    SignOfDifference(size, x.size);
    MakeLocalKeeps(fs, n);
    if size > x.size {
      GrowBuffer(x, size, heap);
    } else if size < x.size {
      ShrinkBuffer(x, size, heap);
    }
  }

  /** Whether fs_truncate finds the blocks and the memory for a new size. */
  predicate RoomFor(fs: Fs, n: int, size: nat, heap: Heap) {
    var x := At(fs, n);
    var larger, smaller := |x.data| * 5 % WORD / 4, |x.data| * 4 % WORD / 5;
    if 0 < size - x.size < HALF then
      && fs.blocks + ToBlocks(size) - ToBlocks(x.size) <= fs.maxBlocks
      && (size > |x.data| ==> size <= heap.room && larger <= heap.room)
    else size != x.size && size <= smaller ==> smaller <= heap.room
  }

  /** The shrunken buffer is no larger, even where the product wraps. */
  lemma FourFifths(alloc: nat)
    requires alloc < HALF
    ensures alloc * 4 % WORD / 5 <= alloc
  {
    if alloc * 4 < WORD { assert alloc * 4 % WORD == alloc * 4; } else { assert alloc * 4 % WORD == alloc * 4 - WORD; }
  }

  /** A request 2^63 or more above the size is taken for a shrink: the file claims bytes its
      buffer does not have. So the file stays in its buffer exactly below that bound. */
  lemma TruncateExact(fs: Fs, n: int, size: nat, heap: Heap)
    requires n in fs.inodes && Ready(fs.inodes[n]) && InBuffer(fs.inodes[n]) && heap.room < HALF && size < WORD
    ensures InBuffer(At(Truncate(fs, n, size, heap).0, n)) <==> size - fs.inodes[n].size < HALF
    ensures Truncate(fs, n, size, heap).1 == if RoomFor(fs, n, size, heap) then Ok(0) else Fail(ENOSPC)
    ensures size - fs.inodes[n].size >= HALF ==> RoomFor(fs, n, size, heap)
  {
    var x := fs.inodes[n];
    TruncateReply(fs, n, size, heap);
    if size - x.size < HALF { TruncateRefines(fs, n, size, heap); } else { FourFifths(|x.data|); }
    TruncateSize(fs, n, size, heap);
  }

  lemma TruncateReply(fs: Fs, n: int, size: nat, heap: Heap)
    requires n in fs.inodes && Ready(fs.inodes[n]) && InBuffer(fs.inodes[n]) && heap.room < HALF && size < WORD
    ensures Truncate(fs, n, size, heap).1 == if RoomFor(fs, n, size, heap) then Ok(0) else Fail(ENOSPC)
  {
    SignOfDifference(size, fs.inodes[n].size);
  }

  /** On success the file has the size asked for. */
  lemma TruncateSize(fs: Fs, n: int, size: nat, heap: Heap)
    requires n in fs.inodes && Ready(fs.inodes[n]) && InBuffer(fs.inodes[n]) && heap.room < HALF && size < WORD
    ensures var (r, reply) := Truncate(fs, n, size, heap);
            if reply == Ok(0) then n in r.inodes && At(r, n).size == size && (size >= HALF ==> |At(r, n).data| < HALF)
            else At(r, n) == fs.inodes[n]
  {
    SignOfDifference(size, fs.inodes[n].size);
    MakeLocalKeeps(fs, n);
    if size - fs.inodes[n].size >= HALF { HugeTruncateKeepsBuffer(fs, n, size, heap); }
  }

  lemma TruncateFrame(fs: Fs, n: int, size: nat, heap: Heap, m: int)
    requires size < WORD && m != n
    ensures At(Truncate(fs, n, size, heap).0, m) == At(fs, m)
  {
  }

  // ----- fs_write and fs_read -----

  lemma OverwrittenPrefix(data: seq<int>, size: nat, offset: nat, bytes: seq<int>)
    requires offset + |bytes| <= size <= |data|
    ensures Overwritten(data, offset, bytes)[..size] == Overwritten(data[..size], offset, bytes)
  {
  }

  predicate Writable(fs: Fs, h: int)
    requires Live(fs, h)
  {
    FileOf(fs, h).isOpened && FileOf(fs, h).flags % 4 != 0
  }

  lemma StoreRefines(fs: Fs, n: int, offset: nat, bytes: seq<int>)
    requires n in fs.inodes && Ready(fs.inodes[n]) && InBuffer(fs.inodes[n]) && offset + |bytes| <= fs.inodes[n].size
    ensures var (r, reply) := Store(fs, n, offset, bytes);
            && reply == Ok(|bytes|) && n in r.inodes && Ready(r.inodes[n]) && InBuffer(r.inodes[n])
            && Content(r.inodes[n]) == Overwritten(Content(fs.inodes[n]), offset, bytes)
  {
    MakeLocalKeeps(fs, n);
    OverwrittenPrefix(fs.inodes[n].data, fs.inodes[n].size, offset, bytes);
  }

  lemma WriteInside(fs: Fs, n: int, offset: nat, bytes: seq<int>, heap: Heap)
    requires n in fs.inodes && Ready(fs.inodes[n]) && InBuffer(fs.inodes[n])
    requires bytes != [] && offset + |bytes| <= fs.inodes[n].size
    ensures var (r, reply) := WriteData(fs, n, offset, bytes, heap);
            Became(fs, n, r, reply, Splice(Content(fs.inodes[n]), offset, bytes), |bytes|)
  {
    StoreRefines(fs, n, offset, bytes);
  }

  lemma SpliceBeyond(c: seq<int>, c1: seq<int>, offset: nat, bytes: seq<int>)
    requires bytes != [] && offset + |bytes| > |c| && c1 == Trunc(c, offset + |bytes|)
    ensures Overwritten(c1, offset, bytes) == Splice(c, offset, bytes)
  {
  }

  lemma StoreBeyond(fs: Fs, f1: Fs, reply: Reply, n: int, c: seq<int>, offset: nat, bytes: seq<int>)
    requires bytes != [] && offset + |bytes| > |c| && Became(fs, n, f1, reply, Trunc(c, offset + |bytes|), 0)
    ensures var (r, rep) := StoreExtended(fs, n, (f1, reply), offset, bytes);
            Became(fs, n, r, rep, Splice(c, offset, bytes), |bytes|)
  {
    if reply == Ok(0) {
      StoreRefines(f1, n, offset, bytes);
      SpliceBeyond(c, Content(f1.inodes[n]), offset, bytes);
    }
  }

  lemma WriteBeyond(fs: Fs, n: int, offset: nat, bytes: seq<int>, heap: Heap)
    requires n in fs.inodes && Ready(fs.inodes[n]) && InBuffer(fs.inodes[n]) && heap.room < HALF
    requires bytes != [] && 0 < offset + |bytes| - fs.inodes[n].size < HALF
    ensures var (r, reply) := WriteData(fs, n, offset, bytes, heap);
            Became(fs, n, r, reply, Splice(Content(fs.inodes[n]), offset, bytes), |bytes|)
  {
    var end := offset + |bytes|;
    assert end % WORD == end;
    TruncateRefines(fs, n, end, heap);
    var (f1, reply) := Truncate(fs, n, end, heap);
    StoreBeyond(fs, f1, reply, n, Content(fs.inodes[n]), offset, bytes);
  }

  /** fs_write of an open file: either nothing changes, or exactly the bytes are written and
      a gap is zero. */
  lemma WriteRefines(fs: Fs, h: int, offset: nat, bytes: seq<int>, heap: Heap)
    requires Live(fs, h) && Writable(fs, h) && heap.room < HALF
    requires var n := InodeOf(fs, h);
             n in fs.inodes && Ready(fs.inodes[n]) && InBuffer(fs.inodes[n]) && offset + |bytes| - fs.inodes[n].size < HALF
    ensures var n := InodeOf(fs, h);
            var (r, reply) := Write(fs, h, offset, bytes, heap);
            Became(fs, n, r, reply, Splice(Content(fs.inodes[n]), offset, bytes), |bytes|)
  {
    if bytes != [] {
      var n := InodeOf(fs, h);
      if offset + |bytes| <= fs.inodes[n].size { WriteInside(fs, n, offset, bytes, heap); } else { WriteBeyond(fs, n, offset, bytes, heap); }
    }
  }

  /** fs_write succeeds, reports no space or leaves its buffer: the last exactly when the bytes
      end 2^63 or more above the size and the extension to their wrapped end is granted. */
  lemma WriteExact(fs: Fs, h: int, offset: nat, bytes: seq<int>, heap: Heap)
    requires Live(fs, h) && Writable(fs, h) && heap.room < HALF && offset < WORD && |bytes| < HALF
    requires var n := InodeOf(fs, h); n in fs.inodes && Ready(fs.inodes[n]) && InBuffer(fs.inodes[n])
    ensures var n, end := InodeOf(fs, h), (offset + |bytes|) % WORD;
            var granted := bytes == [] || end <= At(fs, n).size || RoomFor(fs, n, end, heap);
            Write(fs, h, offset, bytes, heap).1 ==
              if !granted then Fail(ENOSPC)
              else if bytes != [] && offset + |bytes| - At(fs, n).size >= HALF then Fault
              else Ok(|bytes|)
  {
    var n := InodeOf(fs, h);
    if bytes != [] {
      if offset + |bytes| - fs.inodes[n].size < HALF {
        var end := offset + |bytes|;
        assert end % WORD == end;
        TruncateExact(fs, n, end, heap);
        WriteRefines(fs, h, offset, bytes, heap);
      } else {
        OverflowingWrite(fs, n, offset, bytes, heap);
      }
    }
  }

  lemma OverflowingWrite(fs: Fs, n: int, offset: nat, bytes: seq<int>, heap: Heap)
    requires heap.room < HALF && offset < WORD && 0 < |bytes| < HALF
    requires n in fs.inodes && Ready(fs.inodes[n]) && InBuffer(fs.inodes[n]) && offset + |bytes| - fs.inodes[n].size >= HALF
    ensures var end := (offset + |bytes|) % WORD;
            WriteData(fs, n, offset, bytes, heap).1 ==
              if end <= fs.inodes[n].size || RoomFor(fs, n, end, heap) then Fault else Fail(ENOSPC)
  {
    var size := fs.inodes[n].size;
    var end := (offset + |bytes|) % WORD;
    MakeLocalKeeps(fs, n);
    if end > size {
      var (f1, reply) := Truncate(fs, n, end, heap);
      TruncateExact(fs, n, end, heap);
      if end - size < HALF { TruncateRefines(fs, n, end, heap); } else { HugeTruncateKeepsBuffer(fs, n, end, heap); }
      if reply == Ok(0) { MakeLocalKeeps(f1, n); }
    }
  }

  lemma HugeTruncateKeepsBuffer(fs: Fs, n: int, size: nat, heap: Heap)
    requires n in fs.inodes && Ready(fs.inodes[n]) && InBuffer(fs.inodes[n])
    requires size < WORD && size - fs.inodes[n].size >= HALF
    ensures n in Truncate(fs, n, size, heap).0.inodes && |At(Truncate(fs, n, size, heap).0, n).data| < HALF
  {
    var x := fs.inodes[n];
    SignOfDifference(size, x.size);
    MakeLocalKeeps(fs, n);
    FourFifths(|x.data|);
  }

  lemma SliceOfPrefix(data: seq<int>, size: nat, i: nat, j: nat)
    requires i <= j <= size <= |data|
    ensures data[i..j] == data[..size][i..j]
  {
  }

  /** fs_read of an open file returns the bytes of the sequence. */
  lemma ReadRefines(fs: Fs, h: int, offset: nat, count: nat)
    requires Live(fs, h) && FileOf(fs, h).isOpened && FileOf(fs, h).flags % 4 != WRONLY
    requires var n := InodeOf(fs, h); n in fs.inodes && Ready(fs.inodes[n]) && InBuffer(fs.inodes[n])
    ensures var bytes := Slice(Content(fs.inodes[InodeOf(fs, h)]), offset, count);
            Read(fs, h, offset, count) == (Ok(|bytes|), bytes)
  {
    var x := fs.inodes[InodeOf(fs, h)];
    if offset < x.size {
      var n := Min(x.size - offset, count);
      SliceOfPrefix(x.data, x.size, offset, offset + n);
    }
  }

  // ----- laws of the sequences -----

  /** What was written is read back, and nothing else changes but for zeros. */
  lemma ReadAfterWrite(c: seq<int>, offset: nat, bytes: seq<int>, k: nat)
    requires bytes != []
    ensures Slice(Splice(c, offset, bytes), offset, |bytes|) == bytes
    ensures k < |Splice(c, offset, bytes)| ==>
              Splice(c, offset, bytes)[k] == (
                if offset <= k < offset + |bytes| then bytes[k - offset] else if k < |c| then c[k] else 0)
  {
  }

  /** Growing back after shrinking gives zeros, not the old bytes. */
  lemma ShrinkThenGrow(c: seq<int>, small: nat, large: nat)
    requires small <= |c| && small <= large
    ensures Trunc(Trunc(c, small), large) == c[..small] + Zeros(large - small)
  {
  }
}
