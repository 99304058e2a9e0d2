// FDTState of temu/riscv_machine.c as a mutable object, proved against Fdt.

module FdtWriter {
  import opened Options
  import opened Fdt

  class FDTState {
    var tab: seq<Byte>
    var openNodeCount: int
    var stringTable: seq<Byte>

    function State(): Writer
      reads this
    {
      Writer(tab, stringTable, openNodeCount)
    }

    /** fdt_init */
    constructor ()
      ensures State() == Writer([], [], 0)
    {
      tab, openNodeCount, stringTable := [], 0, [];
    }

    method Put32(v: int)
      modifies this`tab
      ensures tab == old(tab) + Be32(v)
    {
      tab := tab + Be32(v);
    }

    method PutData(data: seq<Byte>)
      modifies this`tab
      ensures tab == old(tab) + Cells(data)
    {
      tab := tab + data;
      var pad := Pad(|data|, 4);
      var i := 0;
      while i < pad
        invariant 0 <= i <= pad && tab == old(tab) + data + Zeros(i)
      {
        tab := tab + [0];
        i := i + 1;
      }
    }

    method BeginNode(name: seq<Byte>)
      modifies this
      ensures State() == Write(old(State()), Begin(name))
    {
      Put32(BEGIN_NODE);
      PutData(name + [0]);
      openNodeCount := openNodeCount + 1;
    }

    method EndNode()
      modifies this
      ensures State() == Write(old(State()), End)
    {
      Put32(END_NODE);
      openNodeCount := openNodeCount - 1;
    }

    method GetStringOffset(name: seq<Byte>) returns (pos: int)
      modifies this`stringTable
      ensures (stringTable, pos) == Intern(old(stringTable), name)
    {
      pos := 0;
      while pos < |stringTable|
        invariant pos >= 0 && stringTable == old(stringTable)
        invariant FindString(stringTable, pos, name) == FindString(stringTable, 0, name)
        decreases |stringTable| - pos
      {
        var here := CString(stringTable[pos..]);
        if here == name { return; }
        pos := pos + |here| + 1;
      }
      pos := |stringTable|;
      stringTable := stringTable + name + [0];
    }

    method AddProp(name: seq<Byte>, data: seq<Byte>)
      modifies this
      ensures State() == Write(old(State()), Prop(name, data))
    {
      Put32(PROP);
      Put32(|data|);
      var offset := GetStringOffset(name);
      Put32(offset);
      PutData(data);
    }

    method PutWords(words: seq<int>)
      modifies this`tab
      ensures tab == old(tab) + Words(words)
    {
      var i := 0;
      while i < |words|
        invariant 0 <= i <= |words| && tab + Words(words[i..]) == old(tab) + Words(words)
      {
        Put32(words[i]);
        assert words[i..][1..] == words[i + 1..];
        i := i + 1;
      }
    }

    /** fdt_prop_tab_u32: a property of big-endian words. */
    method AddPropTabU32(name: seq<Byte>, words: seq<int>)
      modifies this
      ensures State() == Write(old(State()), Prop(name, Words(words)))
    {
      Put32(PROP);
      Put32(4 * |words|);
      var offset := GetStringOffset(name);
      Put32(offset);
      PutWords(words);
      assert Cells(Words(words)) == Words(words);
    }

    /** Bytes into the destination, one after the other. */
    method CopyTo(dst: array<Byte>, at: nat, b: seq<Byte>)
      requires at + |b| <= dst.Length
      modifies dst
      ensures dst[..at + |b|] == old(dst[..at]) + b && dst[at + |b|..] == old(dst[at + |b|..])
    {
      for i := 0 to |b|
        invariant dst[..at + i] == old(dst[..at]) + b[..i] && dst[at + i..] == old(dst[at + i..])
      {
        ghost var tail := dst[at + i..];
        dst[at + i] := b[i];
        assert dst[at + i + 1..] == tail[1..];
        assert b[..i + 1] == b[..i] + [b[i]];
      }
      assert b[..|b|] == b;
    }

    /** `while ((pos & 7) != 0)` */
    method AlignTo8(dst: array<Byte>, pos: nat) returns (r: nat)
      requires pos + Pad(pos, 8) <= dst.Length
      modifies dst
      ensures r == pos + Pad(pos, 8) && dst[..r] == old(dst[..pos]) + Zeros(Pad(pos, 8)) && dst[r..] == old(dst[r..])
    {
      r := pos;
      while r % 8 != 0
        invariant pos <= r <= pos + Pad(pos, 8) && r + Pad(r, 8) == pos + Pad(pos, 8)
        invariant dst[..r] == old(dst[..pos]) + Zeros(r - pos) && dst[r..] == old(dst[r..])
        decreases pos + Pad(pos, 8) - r
      {
        ghost var tail := dst[r..];
        dst[r] := 0;
        assert dst[r + 1..] == tail[1..];
        r := r + 1;
      }
    }

    /** Bytes and their padding. */
    method CopyAligned(dst: array<Byte>, at: nat, b: seq<Byte>) returns (r: nat)
      requires at + |b| + Pad(at + |b|, 8) <= dst.Length
      modifies dst
      ensures r == at + |b| + Pad(at + |b|, 8) && dst[r..] == old(dst[r..])
      ensures dst[..r] == old(dst[..at]) + b + Zeros(Pad(at + |b|, 8))
    {
      ghost var was, n := dst[..], at + |b|;
      CopyTo(dst, at, b);
      ghost var rest := dst[n..];
      assert rest == was[n..];
      r := AlignTo8(dst, at + |b|);
      assert dst[r..] == rest[r - n..] == was[r..];
    }

    /** The header, the structure block and its padding. */
    method OutputStruct(dst: array<Byte>) returns (pos: nat)
      requires dst.Length >= RsvmapAt(|tab|)
      modifies dst
      ensures pos == RsvmapAt(|tab|) && dst[pos..] == old(dst[pos..])
      ensures dst[..pos] == Words(Fields(|tab|, |stringTable|)) + tab + Zeros(Pad(HEADER + |tab|, 8))
    {
      ghost var was := dst[..];
      CopyTo(dst, 0, Words(Fields(|tab|, |stringTable|)));
      ghost var rest := dst[HEADER..];
      assert rest == was[HEADER..];
      pos := CopyAligned(dst, HEADER, tab);
      assert dst[pos..] == rest[pos - HEADER..] == was[pos..];
    }

    /** The reserve map, the strings and their padding. */
    method OutputStrings(dst: array<Byte>, pos: nat) returns (size: nat)
      requires pos + 16 + |stringTable| + Pad(pos + 16 + |stringTable|, 8) <= dst.Length
      modifies dst
      ensures size == pos + 16 + |stringTable| + Pad(pos + 16 + |stringTable|, 8) && dst[size..] == old(dst[size..])
      ensures dst[..size] == old(dst[..pos]) + Zeros(16) + stringTable + Zeros(Pad(pos + 16 + |stringTable|, 8))
    {
      ghost var was := dst[..];
      CopyTo(dst, pos, Zeros(16));
      ghost var rest := dst[pos + 16..];
      assert rest == was[pos + 16..];
      size := CopyAligned(dst, pos + 16, stringTable);
      assert dst[size..] == rest[size - pos - 16..] == was[size..];
    }

    /** All blocks of the file. */
    method OutputBlocks(dst: array<Byte>) returns (size: nat)
      requires dst.Length >= TotalSize(|tab|, |stringTable|)
      modifies dst
      ensures size == TotalSize(|tab|, |stringTable|) && dst[size..] == old(dst[size..])
      ensures dst[..size] == Words(Fields(|tab|, |stringTable|)) + tab + Zeros(Pad(HEADER + |tab|, 8)) + Zeros(16)
                             + stringTable + Zeros(Pad(StringsAt(|tab|) + |stringTable|, 8))
    {
      ghost var was := dst[..];
      var pos := OutputStruct(dst);
      ghost var mid := dst[pos..];
      assert mid == was[pos..];
      size := OutputStrings(dst, pos);
      assert dst[size..] == mid[size - pos..] == was[size..];
    }

    /** fdt_output */
    method Output(dst: array<Byte>) returns (size: nat)
      requires openNodeCount == 0 && dst.Length >= TotalSize(|tab| + 4, |stringTable|)
      modifies this`tab, dst
      ensures size == TotalSize(old(|tab|) + 4, |stringTable|) && dst[..size] == Fdt.Output(old(State()))
      ensures dst[size..] == old(dst[size..])
    {
      Put32(FDT_END);
      size := OutputBlocks(dst);
    }

    method Apply(c: Call)
      modifies this
      ensures State() == Write(old(State()), c)
    {
      match c {
        case Begin(name) => BeginNode(name);
        case Prop(name, data) => AddProp(name, data);
        case End => EndNode();
      }
    }
  }

  lemma WriteNext(w: Writer, calls: seq<Call>, i: nat)
    requires i < |calls|
    ensures WriteAll(w, calls[i..]) == WriteAll(Write(w, calls[i]), calls[i + 1..])
  {
    assert calls[i..][0] == calls[i] && calls[i..][1..] == calls[i + 1..];
  }

  /** The calls one after the other, on a new state. */
  method BuildTree(calls: seq<Call>) returns (s: FDTState)
    ensures fresh(s) && s.State() == WriteAll(Writer([], [], 0), calls)
  {
    s := new FDTState();
    var i := 0;
    while i < |calls|
      invariant 0 <= i <= |calls| && WriteAll(s.State(), calls[i..]) == WriteAll(Writer([], [], 0), calls)
    {
      WriteNext(s.State(), calls, i);
      s.Apply(calls[i]);
      i := i + 1;
    }
    assert calls[i..] == [];
  }

  /** Building a tree by any sequence of calls and writing it out gives a blob from which
      the same calls are read. */
  method WriteTree(calls: seq<Call>, dst: array<Byte>) returns (size: nat)
    requires CleanCalls(calls)
    requires var w := WriteAll(Writer([], [], 0), calls);
             w.openNodes == 0 && TotalSize(|w.tab| + 4, |w.strings|) < LIMIT && TotalSize(|w.tab| + 4, |w.strings|) <= dst.Length
    modifies dst
    ensures size <= dst.Length && size % 8 == 0 && Decode(dst[..size]) == Some(calls)
  {
    var s := BuildTree(calls);
    DecodeOutput(calls);
    TabAligned(calls);
    SizeAligned(|s.tab|, |s.stringTable|);
    size := s.Output(dst);
  }

  lemma SizeAligned(s: nat, n: nat)
    requires s % 4 == 0
    ensures TotalSize(s + 4, n) % 8 == 0
  {
    Layout(s + 4, n);
  }
}
