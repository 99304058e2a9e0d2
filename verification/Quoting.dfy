// The file-name quoter and parser of temu/fs_utils.c. C strings are sequences of non-zero
// bytes; the end of a sequence is the NUL.

module Quoting {
  import opened Options

  type Byte = b: int | 0 <= b < 256

  const TAB := 9
  const LF := 10
  const CR := 13
  const SPACE := 32
  const QUOTE := 34
  const BACKSLASH := 92

  predicate CString(s: seq<Byte>) { forall i :: 0 <= i < |s| ==> s[i] != 0 }

  // ----- quoted_str -----

  /** '!' to '~' */
  predicate Graphic(c: Byte) { SPACE < c <= 126 }

  predicate AllGraphic(s: seq<Byte>) { forall i :: 0 <= i < |s| ==> Graphic(s[i]) }

  /** One digit of "%02x" */
  function HexDigit(d: int): Byte
    requires 0 <= d < 16
  {
    if d < 10 then 48 + d else 97 + (d - 10)
  }

  function EscapedByte(c: Byte): seq<Byte> {
    if c < SPACE || c == 127 then [BACKSLASH, 120, HexDigit(c / 16), HexDigit(c % 16)]
    else if c == BACKSLASH || c == QUOTE then [BACKSLASH, c]
    else [c]
  }

  function Escaped(s: seq<Byte>): seq<Byte> {
    if s == [] then [] else EscapedByte(s[0]) + Escaped(s[1..])
  }

  /** quoted_str */
  function Quoted(s: seq<Byte>): seq<Byte> {
    if s != [] && AllGraphic(s) then s else [QUOTE] + Escaped(s) + [QUOTE]
  }

  // ----- parse_fname -----

  predicate Blank(c: Byte) { c == SPACE || c == TAB }

  function SkipBlanks(p: seq<Byte>): seq<Byte> {
    if p != [] && Blank(p[0]) then SkipBlanks(p[1..]) else p
  }

  /** from_hex, or -1 */
  function FromHex(c: Byte): int {
    if 48 <= c <= 57 then c - 48
    else if 65 <= c <= 70 then c - 65 + 10
    else if 97 <= c <= 102 then c - 97 + 10
    else -1
  }

  /** What a backslash starts, with the bytes it takes after itself. */
  datatype Escape = BadEscape | Char(c: Byte, size: nat)

  function ReadEscape(p: seq<Byte>): (e: Escape)
    ensures e.Char? ==> 1 <= e.size <= |p|
  {
    if p == [] then BadEscape
    else if p[0] == 39 || p[0] == QUOTE || p[0] == BACKSLASH then Char(p[0], 1)
    else if p[0] == 110 then Char(LF, 1)
    else if p[0] == 114 then Char(CR, 1)
    else if p[0] == 116 then Char(TAB, 1)
    else if p[0] == 120 then
      if |p| < 3 || FromHex(p[1]) < 0 || FromHex(p[2]) < 0 then BadEscape else Char(FromHex(p[1]) * 16 + FromHex(p[2]), 3)
    else BadEscape
  }

  /** One turn of the loop after an opening quote. */
  datatype Lexeme = Wrong | Close | One(c: Byte, size: nat)

  function Lex(p: seq<Byte>): (l: Lexeme)
    ensures l.Close? ==> p != []
    ensures l.One? ==> 1 <= l.size <= |p|
  {
    if p == [] || p[0] == LF then Wrong
    else if p[0] == QUOTE then Close
    else if p[0] != BACKSLASH then One(p[0], 1)
    else
      var e := ReadEscape(p[1..]);
      if e.BadEscape? then Wrong else One(e.c, 1 + e.size)
  }

  /** The loop after an opening quote: the name and what follows it. */
  function ParseQuoted(p: seq<Byte>, out: seq<Byte>, bufSize: int): Option<(seq<Byte>, seq<Byte>)>
    decreases |p|
  {
    match Lex(p)
    case Wrong => None
    case Close => Some((out, p[1..]))
    case One(c, size) => if |out| >= bufSize - 1 then None else ParseQuoted(p[size..], out + [c], bufSize)
  }

  predicate EndsWord(c: Byte) { Blank(c) || c == LF }

  function ParseWord(p: seq<Byte>, out: seq<Byte>, bufSize: int): Option<(seq<Byte>, seq<Byte>)>
    decreases |p|
  {
    if p == [] || EndsWord(p[0]) then Some((out, p))
    else if |out| >= bufSize - 1 then None
    else ParseWord(p[1..], out + [p[0]], bufSize)
  }

  /** parse_fname: the name and the rest of the input, or None on error. */
  function Parse(p: seq<Byte>, bufSize: int): Option<(seq<Byte>, seq<Byte>)> {
    var start := SkipBlanks(p);
    if start == [] then None
    else if start[0] == QUOTE then ParseQuoted(start[1..], [], bufSize)
    else ParseWord(start, [], bufSize)
  }

  // ----- the round trip -----

  lemma HexRoundTrip(c: Byte)
    ensures FromHex(HexDigit(c / 16)) * 16 + FromHex(HexDigit(c % 16)) == c
    ensures FromHex(HexDigit(c / 16)) >= 0 && FromHex(HexDigit(c % 16)) >= 0
  {
  }

  /** The parser reads one escaped byte back. */
  lemma LexEscaped(c: Byte, tail: seq<Byte>)
    requires c != 0
    ensures var p := EscapedByte(c) + tail; Lex(p) == One(c, |EscapedByte(c)|) && p[|EscapedByte(c)|..] == tail
  {
    var p := EscapedByte(c) + tail;
    if c < SPACE || c == 127 {
      HexRoundTrip(c);
      assert p[1..] == [120, HexDigit(c / 16), HexDigit(c % 16)] + tail;
      assert ReadEscape(p[1..]) == Char(c, 3);
    } else if c == BACKSLASH || c == QUOTE {
      assert p[1..] == [c] + tail;
    }
  }

  lemma Regroup(a: seq<Byte>, b: seq<Byte>, d: seq<Byte>)
    ensures a + b + d == a + (b + d)
  {
  }

  lemma ParseOneEscaped(c: Byte, tail: seq<Byte>, out: seq<Byte>, bufSize: int)
    requires c != 0 && |out| + 1 < bufSize
    ensures ParseQuoted(EscapedByte(c) + tail, out, bufSize) == ParseQuoted(tail, out + [c], bufSize)
  {
    LexEscaped(c, tail);
  }

  lemma {:induction false} ParseEscaped(s: seq<Byte>, tail: seq<Byte>, out: seq<Byte>, bufSize: int)
    requires CString(s) && |out| + |s| < bufSize
    ensures ParseQuoted(Escaped(s) + tail, out, bufSize) == ParseQuoted(tail, out + s, bufSize)
    decreases |s|
  {
    if s == [] {
      assert Escaped(s) + tail == tail && out + s == out;
    } else {
      var rest, first := s[1..], out + [s[0]];
      Regroup(EscapedByte(s[0]), Escaped(rest), tail);
      ParseOneEscaped(s[0], Escaped(rest) + tail, out, bufSize);
      ParseEscaped(rest, tail, first, bufSize);
      assert first + rest == out + s;
    }
  }

  lemma ParseClose(rest: seq<Byte>, out: seq<Byte>, bufSize: int)
    ensures ParseQuoted([QUOTE] + rest, out, bufSize) == Some((out, rest))
  {
    assert ([QUOTE] + rest)[1..] == rest;
  }

  lemma {:induction false} ParseGraphic(s: seq<Byte>, rest: seq<Byte>, out: seq<Byte>, bufSize: int)
    requires AllGraphic(s) && |out| + |s| < bufSize && (rest == [] || EndsWord(rest[0]))
    ensures ParseWord(s + rest, out, bufSize) == Some((out + s, rest))
    decreases |s|
  {
    if s == [] {
      assert s + rest == rest && out + s == out;
    } else {
      assert Graphic(s[0]) && (s + rest)[1..] == s[1..] + rest;
      ParseGraphic(s[1..], rest, out + [s[0]], bufSize);
      assert out + [s[0]] + s[1..] == out + s;
    }
  }

  /** A quoted name never has more bytes than it takes between its quotes. */
  lemma {:induction false} QuotedIsShorter(p: seq<Byte>, out: seq<Byte>, bufSize: int)
    ensures var r := ParseQuoted(p, out, bufSize);
            r.Some? ==> |r.value.0| - |out| + 1 <= |p| - |r.value.1|
    decreases |p|
  {
    match Lex(p)
    case One(c, size) => QuotedIsShorter(p[size..], out + [c], bufSize);
    case _ =>
  }

  /** Names the quoter leaves alone although they start like a quoted one. */
  predicate LooksQuoted(s: seq<Byte>) { s != [] && AllGraphic(s) && s[0] == QUOTE }

  lemma LooksQuotedFails(s: seq<Byte>, rest: seq<Byte>, bufSize: int)
    requires LooksQuoted(s)
    ensures Parse(Quoted(s) + rest, bufSize) != Some((s, rest))
  {
    var p := s + rest;
    assert SkipBlanks(p) == p;
    QuotedIsShorter(p[1..], [], bufSize);
  }

  lemma GraphicRoundTrip(s: seq<Byte>, rest: seq<Byte>, bufSize: int)
    requires s != [] && AllGraphic(s) && s[0] != QUOTE && |s| < bufSize && (rest == [] || EndsWord(rest[0]))
    ensures Parse(Quoted(s) + rest, bufSize) == Some((s, rest))
  {
    var p := s + rest;
    assert Graphic(s[0]);
    assert SkipBlanks(p) == p;
    ParseGraphic(s, rest, [], bufSize);
    assert [] + s == s;
  }

  lemma ParseOpen(body: seq<Byte>, bufSize: int)
    ensures Parse([QUOTE] + body, bufSize) == ParseQuoted(body, [], bufSize)
  {
    var p := [QUOTE] + body;
    assert SkipBlanks(p) == p && p[1..] == body;
  }

  lemma ParseBody(s: seq<Byte>, rest: seq<Byte>, bufSize: int)
    requires CString(s) && |s| < bufSize
    ensures ParseQuoted(Escaped(s) + ([QUOTE] + rest), [], bufSize) == Some((s, rest))
  {
    ParseEscaped(s, [QUOTE] + rest, [], bufSize);
    assert [] + s == s;
    ParseClose(rest, s, bufSize);
  }

  lemma QuotedParts(body: seq<Byte>, rest: seq<Byte>)
    ensures [QUOTE] + body + [QUOTE] + rest == [QUOTE] + (body + ([QUOTE] + rest))
  {
  }

  lemma QuotedRoundTrip(s: seq<Byte>, rest: seq<Byte>, bufSize: int)
    requires (s == [] || !AllGraphic(s)) && CString(s) && |s| < bufSize
    ensures Parse(Quoted(s) + rest, bufSize) == Some((s, rest))
  {
    QuotedParts(Escaped(s), rest);
    ParseOpen(Escaped(s) + ([QUOTE] + rest), bufSize);
    ParseBody(s, rest, bufSize);
  }

  /** Parsing a quoted name gives the name back and stops right after it, exactly unless
      the name consists of '!' to '~' and starts with a double quote. */
  lemma RoundTripExact(s: seq<Byte>, rest: seq<Byte>, bufSize: int)
    requires CString(s) && CString(rest) && |s| < bufSize && (rest == [] || EndsWord(rest[0]))
    ensures Parse(Quoted(s) + rest, bufSize) == Some((s, rest)) <==> !LooksQuoted(s)
  {
    if s == [] || !AllGraphic(s) {
      QuotedRoundTrip(s, rest, bufSize);
    } else if s[0] == QUOTE {
      LooksQuotedFails(s, rest, bufSize);
    } else {
      GraphicRoundTrip(s, rest, bufSize);
    }
  }

  // ----- the routines -----

  /** The first loop of quoted_str */
  method NeedsQuotes(str: seq<Byte>) returns (useQuote: bool)
    ensures useQuote <==> str == [] || !AllGraphic(str)
  {
    if str == [] { return true; }
    var i := 0;
    while i < |str|
      invariant 0 <= i <= |str| && forall j :: 0 <= j < i ==> Graphic(str[j])
    {
      if str[i] <= SPACE || str[i] > 126 {
        assert !Graphic(str[i]);
        return true;
      }
      i := i + 1;
    }
    return false;
  }

  lemma EscapedNext(buf: seq<Byte>, str: seq<Byte>, i: nat)
    requires i < |str|
    ensures buf + Escaped(str[i..]) == buf + EscapedByte(str[i]) + Escaped(str[i + 1..])
  {
    assert str[i..][1..] == str[i + 1..];
  }

  method QuotedStr(str: seq<Byte>) returns (buf: seq<Byte>)
    ensures buf == Quoted(str)
  {
    var useQuote := NeedsQuotes(str);
    if !useQuote { return str; }
    buf := [QUOTE];
    var i := 0;
    while i < |str|
      invariant 0 <= i <= |str| && buf + Escaped(str[i..]) == [QUOTE] + Escaped(str)
    {
      EscapedNext(buf, str, i);
      var c := str[i];
      if c < SPACE || c == 127 {
        buf := buf + [BACKSLASH, 120, HexDigit(c / 16), HexDigit(c % 16)];
      } else if c == BACKSLASH || c == QUOTE {
        buf := buf + [BACKSLASH, c];
      } else {
        buf := buf + [c];
      }
      i := i + 1;
    }
    assert buf == [QUOTE] + Escaped(str);
    buf := buf + [QUOTE];
  }

  /** The name goes into `buf` with its NUL; the cursor is returned. */
  method ParseFname(buf: array<Byte>, bufSize: int, input: seq<Byte>) returns (ok: bool, len: int, rest: seq<Byte>)
    requires 1 <= bufSize <= buf.Length
    modifies buf
    ensures ok <==> Parse(input, bufSize).Some?
    ensures ok ==> 0 <= len < bufSize && buf[..len] == Parse(input, bufSize).value.0 && buf[len] == 0
    ensures ok ==> rest == Parse(input, bufSize).value.1
  {
    var p := input;
    len, rest := 0, input;
    while p != [] && Blank(p[0])
      invariant SkipBlanks(p) == SkipBlanks(input)
      decreases |p|
    {
      p := p[1..];
    }
    if p == [] { return false, len, rest; }
    if p[0] == QUOTE {
      p := p[1..];
      ghost var start := p;
      while true
        invariant 0 <= len < bufSize && ParseQuoted(p, buf[..len], bufSize) == ParseQuoted(start, [], bufSize)
        decreases |p|
      {
        var l := Lex(p);
        if l.Wrong? { return false, len, rest; }
        if l.Close? {
          p := p[1..];
          break;
        }
        var c, size := l.c, l.size;
        if len >= bufSize - 1 { return false, len, rest; }
        ghost var before := buf[..len];
        buf[len] := c;
        len := len + 1;
        assert buf[..len] == before + [c];
        p := p[size..];
      }
    } else {
      ghost var start := p;
      while p != [] && !EndsWord(p[0])
        invariant 0 <= len < bufSize && ParseWord(p, buf[..len], bufSize) == ParseWord(start, [], bufSize)
        decreases |p|
      {
        if len >= bufSize - 1 { return false, len, rest; }
        ghost var before := buf[..len];
        buf[len] := p[0];
        len := len + 1;
        assert buf[..len] == before + [p[0]];
        p := p[1..];
      }
    }
    ghost var name := buf[..len];
    buf[len] := 0;
    assert buf[..len] == name;
    return true, len, p;
  }
}
