// The flattened device tree writer of temu/riscv_machine.c (sections 5.4 and 5.5 of the
// Devicetree Specification) and a reader that inverts it.

module Fdt {
  import opened Options

  type Byte = b: int | 0 <= b < 256

  /** fdt_begin_node, fdt_prop and fdt_end_node; names are the bytes before the NUL. */
  datatype Call = Begin(name: seq<Byte>) | Prop(name: seq<Byte>, data: seq<Byte>) | End

  const FDT_MAGIC := 0xd00dfeed
  const FDT_VERSION := 17
  const BEGIN_NODE := 1
  const END_NODE := 2
  const PROP := 3
  const FDT_END := 9
  const HEADER := 40
  const LIMIT := 0x8000_0000

  /** FDTState: both buffers as bytes. */
  datatype Writer = Writer(tab: seq<Byte>, strings: seq<Byte>, openNodes: int)

  // ----- bytes -----

  function Low(v: int): Byte { v % 0x100 }

  /** cpu_to_be32, in memory order */
  function Be32(v: int): (r: seq<Byte>)
    ensures |r| == 4
  {
    var a := v / 0x100;
    var b := a / 0x100;
    [Low(b / 0x100), Low(b), Low(a), Low(v)]
  }

  function Num32(b: seq<Byte>): int
    requires |b| >= 4
  {
    b[0] as int * 0x100_0000 + b[1] as int * 0x1_0000 + b[2] as int * 0x100 + b[3] as int
  }

  function Zeros(n: nat): seq<Byte> { seq(n, _ => 0) }

  /** Bytes of padding after n bytes. */
  function Pad(n: nat, align: nat): (r: nat)
    requires align > 0
    ensures r < align
  {
    if n % align == 0 then 0 else align - n % align
  }

  /** fdt_put_data: the data is zero padded to cells. */
  function Cells(data: seq<Byte>): seq<Byte> { data + Zeros(Pad(|data|, 4)) }

  /** The C string at the start of s. */
  function CString(s: seq<Byte>): (r: seq<Byte>)
    ensures |r| <= |s|
  {
    if s == [] || s[0] == 0 then [] else [s[0]] + CString(s[1..])
  }

  predicate NulFree(s: seq<Byte>) { forall i :: 0 <= i < |s| ==> s[i] != 0 }

  // ----- the string table -----

  /** The scan of fdt_get_string_offset from pos: the offset of the name, or -1. */
  function FindString(strings: seq<Byte>, pos: nat, name: seq<Byte>): int
    decreases |strings| - pos
  {
    if pos >= |strings| then -1
    else if CString(strings[pos..]) == name then pos
    else FindString(strings, pos + |CString(strings[pos..])| + 1, name)
  }

  /** fdt_get_string_offset: the new table and the offset. */
  function Intern(strings: seq<Byte>, name: seq<Byte>): (seq<Byte>, int) {
    var i := FindString(strings, 0, name);
    if i >= 0 then (strings, i) else (strings + name + [0], |strings|)
  }

  // ----- the writer -----

  function Write(w: Writer, c: Call): Writer {
    match c
    case Begin(name) => w.(tab := w.tab + Be32(BEGIN_NODE) + Cells(name + [0]), openNodes := w.openNodes + 1)
    case Prop(name, data) =>
      var (strings, offset) := Intern(w.strings, name);
      Writer(w.tab + Be32(PROP) + Be32(|data|) + Be32(offset) + Cells(data), strings, w.openNodes)
    case End => w.(tab := w.tab + Be32(END_NODE), openNodes := w.openNodes - 1)
  }

  function WriteAll(w: Writer, calls: seq<Call>): Writer
    decreases |calls|
  {
    if calls == [] then w else WriteAll(Write(w, calls[0]), calls[1..])
  }

  /** Cells in big-endian order. */
  function Words(ws: seq<int>): (r: seq<Byte>)
    ensures |r| == 4 * |ws|
  {
    if ws == [] then [] else Be32(ws[0]) + Words(ws[1..])
  }

  /** struct fdt_header */
  function Fields(structSize: nat, stringsSize: nat): (r: seq<int>)
    ensures |r| == 10
  {
    [FDT_MAGIC, TotalSize(structSize, stringsSize), HEADER, StringsAt(structSize), RsvmapAt(structSize),
     FDT_VERSION, 16, 0, stringsSize, structSize]
  }

  /** Offsets of the reserve map and the strings, and the total size. */
  function RsvmapAt(structSize: nat): nat { HEADER + structSize + Pad(HEADER + structSize, 8) }
  function StringsAt(structSize: nat): nat { RsvmapAt(structSize) + 16 }
  function TotalSize(structSize: nat, stringsSize: nat): nat {
    StringsAt(structSize) + stringsSize + Pad(StringsAt(structSize) + stringsSize, 8)
  }

  /** fdt_output */
  function Output(w: Writer): seq<Byte> {
    var tab := w.tab + Be32(FDT_END);
    Words(Fields(|tab|, |w.strings|)) + tab + Zeros(Pad(HEADER + |tab|, 8)) + Zeros(16)
    + w.strings + Zeros(Pad(StringsAt(|tab|) + |w.strings|, 8))
  }

  // ----- the reader -----

  /** What a cell starts, and how many bytes it takes. */
  datatype Token = Bad | Last | Item(c: Call, size: nat)

  function NextToken(b: seq<Byte>, strings: seq<Byte>): (t: Token)
    ensures t.Item? ==> 0 < t.size <= |b|
  {
    if |b| < 4 then Bad
    else if Num32(b) == FDT_END then Last
    else if Num32(b) == END_NODE then Item(End, 4)
    else if Num32(b) == BEGIN_NODE then
      var name := CString(b[4..]);
      var size := 4 + |Cells(name + [0])|;
      if size > |b| then Bad else Item(Begin(name), size)
    else if Num32(b) == PROP && |b| >= 12 then
      var len, offset := Num32(b[4..]), Num32(b[8..]);
      var size := 12 + len + Pad(len, 4);
      if size > |b| || offset > |strings| then Bad else Item(Prop(CString(strings[offset..]), b[12..12 + len]), size)
    else Bad
  }

  /** The calls a structure block stands for. */
  function Parse(b: seq<Byte>, strings: seq<Byte>): Option<seq<Call>>
    decreases |b|
  {
    match NextToken(b, strings)
    case Bad => None
    case Last => Some([])
    case Item(c, size) => After(c, Parse(b[size..], strings))
  }

  function After(c: Call, rest: Option<seq<Call>>): Option<seq<Call>> {
    if rest == None then None else Some([c] + rest.value)
  }

  /** Reads a whole blob by its header. */
  function Decode(f: seq<Byte>): Option<seq<Call>> {
    if |f| < HEADER || Num32(f) != FDT_MAGIC then None
    else
      var structAt, stringsAt, stringsSize, structSize := Num32(f[8..]), Num32(f[12..]), Num32(f[32..]), Num32(f[36..]);
      if structAt + structSize > |f| || stringsAt + stringsSize > |f| then None
      else Parse(f[structAt..structAt + structSize], f[stringsAt..stringsAt + stringsSize])
  }

  // ----- bytes and strings -----

  lemma Digits(v: int)
    requires 0 <= v < 0x1_0000_0000
    ensures Num32(Be32(v)) == v
  {
    var a := v / 0x100;
    var b := a / 0x100;
    assert v == 0x100 * a + v % 0x100 && a == 0x100 * b + a % 0x100 && b == 0x100 * (b / 0x100) + b % 0x100;
    assert 0 <= b / 0x100 < 0x100;
  }

  lemma Be32Num(v: int, rest: seq<Byte>)
    requires 0 <= v < 0x1_0000_0000
    ensures Num32(Be32(v) + rest) == v && (Be32(v) + rest)[4..] == rest
  {
    Digits(v);
  }

  lemma {:induction false} CStringOf(name: seq<Byte>, rest: seq<Byte>)
    requires NulFree(name)
    ensures CString(name + [0] + rest) == name
  {
    var s := name + [0] + rest;
    if name == [] {
      assert s[0] == 0;
    } else {
      assert s[0] == name[0] && s[1..] == name[1..] + [0] + rest;
      CStringOf(name[1..], rest);
    }
  }

  /** A table of names, one after the other. */
  function Join(names: seq<seq<Byte>>): seq<Byte> {
    if names == [] then [] else names[0] + [0] + Join(names[1..])
  }

  lemma {:induction false} JoinAppend(a: seq<seq<Byte>>, b: seq<seq<Byte>>)
    ensures Join(a + b) == Join(a) + Join(b)
  {
    if a == [] {
      assert a + b == b;
    } else {
      assert (a + b)[1..] == a[1..] + b;
      JoinAppend(a[1..], b);
    }
  }

  /** Where the k-th name starts. */
  function OffsetOf(names: seq<seq<Byte>>, k: nat): nat
    requires k <= |names|
  {
    |Join(names[..k])|
  }

  lemma NameAt(names: seq<seq<Byte>>, k: nat)
    requires k < |names| && forall i :: 0 <= i < |names| ==> NulFree(names[i])
    ensures OffsetOf(names, k) < |Join(names)| && CString(Join(names)[OffsetOf(names, k)..]) == names[k]
    ensures OffsetOf(names, k + 1) == OffsetOf(names, k) + |names[k]| + 1
  {
    var rest := names[k + 1..];
    assert names == names[..k] + ([names[k]] + rest);
    JoinAppend(names[..k], [names[k]] + rest);
    assert ([names[k]] + rest)[1..] == rest;
    assert Join(names)[OffsetOf(names, k)..] == names[k] + [0] + Join(rest);
    CStringOf(names[k], Join(rest));
    assert names[..k + 1] == names[..k] + [names[k]];
    JoinAppend(names[..k], [names[k]]);
    assert Join([names[k]]) == names[k] + [0] + Join([names[k]][1..]);
  }

  // ----- the table of names -----

  ghost predicate Names(names: seq<seq<Byte>>) {
    && (forall i :: 0 <= i < |names| ==> NulFree(names[i]))
    && (forall i, j :: 0 <= i < j < |names| ==> names[i] != names[j])
  }

  function Added(names: seq<seq<Byte>>, name: seq<Byte>): seq<seq<Byte>> {
    if name in names then names else names + [name]
  }

  /** The scan stops at names only, in order. */
  lemma {:induction false} FindIsIndex(names: seq<seq<Byte>>, k: nat, name: seq<Byte>)
    requires Names(names) && k <= |names| && name !in names[..k]
    ensures name !in names ==> FindString(Join(names), OffsetOf(names, k), name) == -1
    ensures forall j :: 0 <= j < |names| && names[j] == name ==>
              FindString(Join(names), OffsetOf(names, k), name) == OffsetOf(names, j)
    decreases |names| - k
  {
    if k == |names| {
      assert names[..k] == names;
    } else {
      NameAt(names, k);
      assert names[..k + 1] == names[..k] + [names[k]];
      if names[k] != name { FindIsIndex(names, k + 1, name); }
    }
  }

  /** fdt_get_string_offset keeps the table free of duplicates, returns an offset at which
      the name is read back, and leaves every earlier offset valid. */
  lemma InternExact(names: seq<seq<Byte>>, name: seq<Byte>)
    requires Names(names) && NulFree(name)
    ensures var (strings, offset) := Intern(Join(names), name);
            && Names(Added(names, name)) && names <= Added(names, name)
            && strings == Join(Added(names, name)) && Join(names) <= strings
            && exists k :: 0 <= k < |Added(names, name)| && Added(names, name)[k] == name && offset == OffsetOf(Added(names, name), k)
  {
    FindIsIndex(names, 0, name);
    assert names[..0] == [];
    if name in names {
      var k :| 0 <= k < |names| && names[k] == name;
      assert OffsetOf(names, k) >= 0;
    } else {
      var all := names + [name];
      JoinAppend(names, [name]);
      assert [name][1..] == [] && Join([name]) == name + [0];
      assert all[|names|] == name && all[..|names|] == names;
    }
  }

  /** An offset found in a shorter table is still good in a longer one. */
  lemma OffsetsStay(names: seq<seq<Byte>>, more: seq<seq<Byte>>, k: nat)
    requires Names(more) && names <= more && k < |names|
    ensures OffsetOf(more, k) == OffsetOf(names, k) < |Join(more)|
    ensures CString(Join(more)[OffsetOf(names, k)..]) == names[k]
  {
    NameAt(more, k);
    assert more[..k] == names[..k];
  }

  // ----- the round trip -----

  ghost predicate Clean(c: Call) {
    match c
    case Begin(name) => NulFree(name)
    case Prop(name, data) => NulFree(name) && |data| < LIMIT
    case End => true
  }

  ghost predicate CleanCalls(calls: seq<Call>) { forall i :: 0 <= i < |calls| ==> Clean(calls[i]) }

  /** The names in the table after some calls. */
  function NamesAfter(names: seq<seq<Byte>>, calls: seq<Call>): seq<seq<Byte>>
    decreases |calls|
  {
    if calls == [] then names
    else NamesAfter(if calls[0].Prop? then Added(names, calls[0].name) else names, calls[1..])
  }

  /** What one call appends to the structure block. */
  function Emitted(c: Call, strings: seq<Byte>): seq<Byte> {
    match c
    case Begin(name) => Be32(BEGIN_NODE) + Cells(name + [0])
    case Prop(name, data) => Be32(PROP) + Be32(|data|) + Be32(Intern(strings, name).1) + Cells(data)
    case End => Be32(END_NODE)
  }

  function EmittedAll(calls: seq<Call>, names: seq<seq<Byte>>): seq<Byte>
    decreases |calls|
  {
    if calls == [] then []
    else Emitted(calls[0], Join(names)) + EmittedAll(calls[1..], NamesAfter(names, [calls[0]]))
  }

  lemma WriteEmits(w: Writer, c: Call, names: seq<seq<Byte>>)
    requires Names(names) && Clean(c) && w.strings == Join(names)
    ensures var w1, n1 := Write(w, c), NamesAfter(names, [c]);
            w1.tab == w.tab + Emitted(c, w.strings) && w1.strings == Join(n1) && Names(n1) && names <= n1
  {
    assert [c][1..] == [];
    if c.Prop? { InternExact(names, c.name); }
  }

  lemma CleanRest(calls: seq<Call>)
    requires CleanCalls(calls) && calls != []
    ensures Clean(calls[0]) && CleanCalls(calls[1..])
  {
  }

  lemma {:induction false} WriteAllEmits(w: Writer, calls: seq<Call>, names: seq<seq<Byte>>)
    requires Names(names) && CleanCalls(calls) && w.strings == Join(names)
    ensures WriteAll(w, calls).tab == w.tab + EmittedAll(calls, names)
    ensures WriteAll(w, calls).strings == Join(NamesAfter(names, calls))
    ensures Names(NamesAfter(names, calls)) && names <= NamesAfter(names, calls)
    decreases |calls|
  {
    if calls == [] {
      assert w.tab + [] == w.tab;
    } else {
      var w1, n1 := Write(w, calls[0]), NamesAfter(names, [calls[0]]);
      CleanRest(calls);
      WriteEmits(w, calls[0], names);
      NamesAfterStep(names, calls);
      WriteAllEmits(w1, calls[1..], n1);
      Regroup(w.tab, Emitted(calls[0], w.strings), EmittedAll(calls[1..], n1));
    }
  }

  lemma Regroup(a: seq<Byte>, b: seq<Byte>, d: seq<Byte>)
    ensures a + b + d == a + (b + d)
  {
  }

  lemma NamesAfterStep(names: seq<seq<Byte>>, calls: seq<Call>)
    requires calls != []
    ensures NamesAfter(names, calls) == NamesAfter(NamesAfter(names, [calls[0]]), calls[1..])
  {
    assert [calls[0]][1..] == [];
  }

  lemma ParseEnd(rest: seq<Byte>, strings: seq<Byte>)
    ensures Parse(Be32(END_NODE) + rest, strings) == After(End, Parse(rest, strings))
  {
    Be32Num(END_NODE, rest);
    assert NextToken(Be32(END_NODE) + rest, strings) == Item(End, 4);
  }

  lemma ParseBegin(name: seq<Byte>, rest: seq<Byte>, strings: seq<Byte>)
    requires NulFree(name)
    ensures Parse(Be32(BEGIN_NODE) + Cells(name + [0]) + rest, strings) == After(Begin(name), Parse(rest, strings))
  {
    var cells := Cells(name + [0]);
    var b := Be32(BEGIN_NODE) + cells + rest;
    Be32Num(BEGIN_NODE, cells + rest);
    assert b == Be32(BEGIN_NODE) + (cells + rest);
    assert b[4..] == name + [0] + (Zeros(Pad(|name| + 1, 4)) + rest);
    CStringOf(name, Zeros(Pad(|name| + 1, 4)) + rest);
    assert NextToken(b, strings) == Item(Begin(name), 4 + |cells|);
    assert b[4 + |cells|..] == rest;
  }

  lemma Drops(b: seq<Byte>, i: nat, j: nat)
    requires i + j <= |b|
    ensures b[i..][j..] == b[i + j..]
  {
  }

  lemma PropLayout(data: seq<Byte>, offset: int, rest: seq<Byte>)
    requires |data| < LIMIT && 0 <= offset < LIMIT
    ensures var b := Be32(PROP) + Be32(|data|) + Be32(offset) + Cells(data) + rest;
            && |b| == 12 + |data| + Pad(|data|, 4) + |rest|
            && Num32(b) == PROP && Num32(b[4..]) == |data| && Num32(b[8..]) == offset && b[12..] == Cells(data) + rest
  {
    var t3 := Cells(data) + rest;
    var t2 := Be32(offset) + t3;
    var t1 := Be32(|data|) + t2;
    var b := Be32(PROP) + Be32(|data|) + Be32(offset) + Cells(data) + rest;
    Regroup(Be32(PROP) + Be32(|data|) + Be32(offset), Cells(data), rest);
    Regroup(Be32(PROP) + Be32(|data|), Be32(offset), t3);
    Regroup(Be32(PROP), Be32(|data|), t2);
    assert b == Be32(PROP) + t1;
    Be32Num(PROP, t1);
    Be32Num(|data|, t2);
    Be32Num(offset, t3);
    Drops(b, 4, 4);
    Drops(b, 8, 4);
  }

  lemma CellsParts(data: seq<Byte>, rest: seq<Byte>)
    ensures (Cells(data) + rest)[..|data|] == data && (Cells(data) + rest)[|data| + Pad(|data|, 4)..] == rest
  {
  }

  lemma ParsePropAt(b: seq<Byte>, name: seq<Byte>, data: seq<Byte>, offset: int, strings: seq<Byte>)
    requires |b| >= 12 + |data| + Pad(|data|, 4) && Num32(b) == PROP && Num32(b[4..]) == |data| && Num32(b[8..]) == offset
    requires b[12..12 + |data|] == data && 0 <= offset <= |strings| && CString(strings[offset..]) == name
    ensures NextToken(b, strings) == Item(Prop(name, data), 12 + |data| + Pad(|data|, 4))
  {
  }

  lemma ParseProp(name: seq<Byte>, data: seq<Byte>, offset: int, rest: seq<Byte>, strings: seq<Byte>)
    requires |data| < LIMIT && 0 <= offset <= |strings| && offset < LIMIT && CString(strings[offset..]) == name
    ensures Parse(Be32(PROP) + Be32(|data|) + Be32(offset) + Cells(data) + rest, strings)
         == After(Prop(name, data), Parse(rest, strings))
  {
    var b := Be32(PROP) + Be32(|data|) + Be32(offset) + Cells(data) + rest;
    PropLayout(data, offset, rest);
    CellsParts(data, rest);
    assert b[12..12 + |data|] == b[12..][..|data|];
    Drops(b, 12, |data| + Pad(|data|, 4));
    ParsePropAt(b, name, data, offset, strings);
  }

  lemma ParseOne(c: Call, names: seq<seq<Byte>>, last: seq<seq<Byte>>, rest: seq<Byte>)
    requires Names(names) && Names(last) && Clean(c) && NamesAfter(names, [c]) <= last && |Join(last)| < LIMIT
    ensures Parse(Emitted(c, Join(names)) + rest, Join(last)) == After(c, Parse(rest, Join(last)))
  {
    match c
    case End => ParseEnd(rest, Join(last));
    case Begin(name) => ParseBegin(name, rest, Join(last));
    case Prop(name, data) =>
      assert [c][1..] == [];
      InternExact(names, name);
      var all := Added(names, name);
      var k :| 0 <= k < |all| && all[k] == name && Intern(Join(names), name).1 == OffsetOf(all, k);
      OffsetsStay(all, last, k);
      ParseProp(name, data, OffsetOf(all, k), rest, Join(last));
  }

  lemma {:induction false} ParseAll(calls: seq<Call>, names: seq<seq<Byte>>, last: seq<seq<Byte>>)
    requires Names(names) && CleanCalls(calls) && last == NamesAfter(names, calls) && |Join(last)| < LIMIT
    ensures Names(last) && names <= last
    ensures Parse(EmittedAll(calls, names) + Be32(FDT_END), Join(last)) == Some(calls)
    decreases |calls|
  {
    if calls == [] {
      assert [] + Be32(FDT_END) == Be32(FDT_END) + [];
      Be32Num(FDT_END, []);
    } else {
      var n1, rest := NamesAfter(names, [calls[0]]), calls[1..];
      CleanRest(calls);
      WriteEmits(Writer([], Join(names), 0), calls[0], names);
      NamesAfterStep(names, calls);
      ParseAll(rest, n1, last);
      ParseOne(calls[0], names, last, EmittedAll(rest, n1) + Be32(FDT_END));
      Regroup(Emitted(calls[0], Join(names)), EmittedAll(rest, n1), Be32(FDT_END));
      assert [calls[0]] + rest == calls;
    }
  }

  // ----- the whole blob -----

  lemma {:induction false} WordAt(ws: seq<int>, k: nat, rest: seq<Byte>)
    requires k < |ws| && 0 <= ws[k] < 0x1_0000_0000
    ensures Num32((Words(ws) + rest)[4 * k..]) == ws[k]
  {
    Regroup(Be32(ws[0]), Words(ws[1..]), rest);
    if k == 0 {
      Be32Num(ws[0], Words(ws[1..]) + rest);
      assert (Words(ws) + rest)[0..] == Words(ws) + rest;
    } else {
      WordAt(ws[1..], k - 1, rest);
      assert (Words(ws) + rest)[4..] == Words(ws[1..]) + rest;
      Drops(Words(ws) + rest, 4, 4 * (k - 1));
    }
  }

  lemma PadAligns(n: nat)
    ensures (n + Pad(n, 8)) % 8 == 0 && (n + Pad(n, 4)) % 4 == 0
  {
  }

  lemma CellsAligned(data: seq<Byte>)
    ensures |Cells(data)| % 4 == 0
  {
    PadAligns(|data|);
  }

  lemma EmittedAligned(c: Call, strings: seq<Byte>)
    ensures |Emitted(c, strings)| % 4 == 0
  {
    match c
    case Begin(name) =>
      CellsAligned(name + [0]);
      SumAligned(4, |Cells(name + [0])|);
    case Prop(name, data) =>
      CellsAligned(data);
      SumAligned(12, |Cells(data)|);
    case End =>
  }

  lemma SumAligned(a: nat, b: nat)
    requires a % 4 == 0 && b % 4 == 0
    ensures (a + b) % 4 == 0
  {
  }

  lemma {:induction false} EmittedAllAligned(calls: seq<Call>, names: seq<seq<Byte>>)
    ensures |EmittedAll(calls, names)| % 4 == 0
    decreases |calls|
  {
    if calls != [] {
      EmittedAligned(calls[0], Join(names));
      EmittedAllAligned(calls[1..], NamesAfter(names, [calls[0]]));
      SumAligned(|Emitted(calls[0], Join(names))|, |EmittedAll(calls[1..], NamesAfter(names, [calls[0]]))|);
    }
  }

  /** The blocks are aligned, disjoint, in order and inside the total size. */
  lemma Layout(s: nat, n: nat)
    requires s % 4 == 0
    ensures HEADER % 4 == 0 && HEADER + s <= RsvmapAt(s) && RsvmapAt(s) % 8 == 0
    ensures RsvmapAt(s) + 16 == StringsAt(s) && StringsAt(s) + n <= TotalSize(s, n) && TotalSize(s, n) % 8 == 0
  {
    PadAligns(HEADER + s);
    PadAligns(StringsAt(s) + n);
  }

  lemma TabAligned(calls: seq<Call>)
    requires CleanCalls(calls)
    ensures |WriteAll(Writer([], [], 0), calls).tab| % 4 == 0
  {
    WriteAllEmits(Writer([], [], 0), calls, []);
    EmittedAllAligned(calls, []);
    assert [] + EmittedAll(calls, []) == EmittedAll(calls, []);
  }

  /** Where the blocks are in the blob. */
  lemma Blocks(w: Writer)
    ensures var f, s := Output(w), |w.tab| + 4;
            && |f| == TotalSize(s, |w.strings|)
            && f[..HEADER] == Words(Fields(s, |w.strings|))
            && f[HEADER..HEADER + s] == w.tab + Be32(FDT_END)
            && f[RsvmapAt(s)..RsvmapAt(s) + 16] == Zeros(16)
            && f[StringsAt(s)..StringsAt(s) + |w.strings|] == w.strings
  {
  }

  lemma HeaderField(w: Writer, k: nat)
    requires k < 10 && TotalSize(|w.tab| + 4, |w.strings|) < LIMIT
    ensures |Output(w)| >= HEADER && Num32(Output(w)[4 * k..]) == Fields(|w.tab| + 4, |w.strings|)[k]
  {
    var f, ws := Output(w), Fields(|w.tab| + 4, |w.strings|);
    Blocks(w);
    WordAt(ws, k, f[HEADER..]);
    assert f == Words(ws) + f[HEADER..] by { assert f == f[..HEADER] + f[HEADER..]; }
  }

  /** The header a reader of section 5.2 of the Devicetree Specification expects: magic, total
      size, where the blocks are, versions 17 and 16, boot CPU 0 and the sizes of the blocks. */
  lemma HeaderExact(w: Writer)
    requires TotalSize(|w.tab| + 4, |w.strings|) < LIMIT
    ensures var (f, s) := (Output(w), |w.tab| + 4);
            && |f| >= 40 && Num32(f[0..]) == 0xd00dfeed && Num32(f[4..]) == |f| && Num32(f[8..]) == 40
            && Num32(f[12..]) == StringsAt(s) && Num32(f[16..]) == RsvmapAt(s)
            && Num32(f[20..]) == 17 && Num32(f[24..]) == 16 && Num32(f[28..]) == 0
            && Num32(f[32..]) == |w.strings| && Num32(f[36..]) == s
  {
    Blocks(w);
    HeaderField(w, 0);
    HeaderField(w, 1);
    HeaderField(w, 2);
    HeaderField(w, 3);
    HeaderField(w, 4);
    HeaderField(w, 5);
    HeaderField(w, 6);
    HeaderField(w, 7);
    HeaderField(w, 8);
    HeaderField(w, 9);
  }

  /** The tokens of section 5.4.1 that start a node, a property and the end of a node, and the
      one that ends the structure. */
  lemma TokensExact(w: Writer, c: Call)
    ensures Write(w, c).tab[..|w.tab|] == w.tab && |Write(w, c).tab| >= |w.tab| + 4
    ensures Num32(Write(w, c).tab[|w.tab|..]) == match c case Begin(_) => 1 case Prop(_, _) => 3 case End => 2
    ensures |Output(w)| >= |w.tab| + 44 && Num32(Output(w)[40 + |w.tab|..]) == 9
  {
    Blocks(w);
    assert Output(w)[HEADER..][..|w.tab| + 4] == w.tab + Be32(FDT_END);
    assert forall i :: 0 <= i < 4 ==> Output(w)[40 + |w.tab|..][i] == Be32(FDT_END)[i];
  }

  /** Decoding what was written gives back every call in order, for all clean calls whose
      blob fits in the 31-bit sizes of the source. */
  lemma DecodeOutput(calls: seq<Call>)
    requires CleanCalls(calls)
    requires var w := WriteAll(Writer([], [], 0), calls); TotalSize(|w.tab| + 4, |w.strings|) < LIMIT
    ensures Decode(Output(WriteAll(Writer([], [], 0), calls))) == Some(calls)
  {
    var w := WriteAll(Writer([], [], 0), calls);
    WriteAllEmits(Writer([], [], 0), calls, []);
    ParseAll(calls, [], NamesAfter([], calls));
    assert [] + EmittedAll(calls, []) == EmittedAll(calls, []);
    DecodeBlocks(w);
  }

  lemma DecodeBlocks(w: Writer)
    requires TotalSize(|w.tab| + 4, |w.strings|) < LIMIT
    ensures Decode(Output(w)) == Parse(w.tab + Be32(FDT_END), w.strings)
  {
    Blocks(w);
    HeaderField(w, 0);
    HeaderField(w, 2);
    HeaderField(w, 3);
    HeaderField(w, 8);
    HeaderField(w, 9);
    assert Output(w)[0..] == Output(w);
  }
}
