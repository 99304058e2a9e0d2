// Streaming decryption of temu/fs_wget.c: the state depends only on the bytes consumed, so
// the result does not depend on how the file is cut into chunks.

module DecryptFile {
  import opened Options
  import opened Cbc

  const HEADER := 20
  const DEC_BUF := 4096
  const MAGIC: seq<Byte> := [0xfb, 0xa2, 0xe9, 0x01]

  /** Payload bytes handed out once n have arrived: whole runs of 255 blocks, while at
      least one block is kept back. */
  function Done(n: nat): nat { if n < 16 then 0 else (n - 16) / 4080 * 4080 }

  predicate BadMagic(t: seq<Byte>) { |t| >= HEADER && t[..4] != MAGIC }

  function IvOf(t: seq<Byte>): Block
    requires |t| >= HEADER
  {
    t[4..20]
  }

  /** The plaintext of a complete file: the last byte says how much padding to drop. */
  function Plain(c: Cipher, t: seq<Byte>): Option<seq<Byte>> {
    if |t| <= HEADER || BadMagic(t) || (|t| - HEADER) % 16 != 0 then None
    else
      WholeSteps(|t| - HEADER);
      var p := Decrypted(c, IvOf(t), t[HEADER..], |t| - HEADER);
      var padLen := p[|p| - 1] as int;
      if 1 <= padLen <= 16 && padLen <= |p| then Some(p[..|p| - padLen]) else None
  }

  /** What is left in the buffer decides whether the payload is whole. */
  lemma PlainNeedsBlocks(c: Cipher, t: seq<Byte>)
    requires |t| >= HEADER && !BadMagic(t)
    ensures var len := |t| - HEADER - Done(|t| - HEADER);
            && (len == 0 || len % 16 != 0 ==> Plain(c, t) == None)
            && (len > 0 && len % 16 == 0 ==> |t| > HEADER && (|t| - HEADER) % 16 == 0)
  {
    DoneSteps(|t| - HEADER);
    SameRemainder(|t| - HEADER, Done(|t| - HEADER));
  }

  // ----- arithmetic of the buffer -----

  lemma DoneSteps(n: nat)
    ensures Done(n) % 16 == 0 && Done(n) <= n && n - Done(n) < DEC_BUF && Whole(Done(n)) == Done(n)
    ensures n >= 16 ==> n - Done(n) >= 16
  {
    WholeSteps(Done(n));
  }

  lemma SameRemainder(n: nat, m: nat)
    requires m % 16 == 0 && m <= n
    ensures (n - m) % 16 == n % 16
  {
  }

  lemma DoneGrows(n: nat, l: nat)
    requires n - Done(n) + l <= DEC_BUF
    ensures Done(n + l) == if n - Done(n) + l == DEC_BUF then Done(n) + 4080 else Done(n)
  {
  }

  /** More payload does not change what was decrypted of it. */
  lemma PayloadGrows(c: Cipher, iv0: Block, p: seq<Byte>, data: seq<Byte>, n: nat)
    requires Whole(n) == n <= |p|
    ensures (p + data)[n..] == p[n..] + data
    ensures Decrypted(c, iv0, p + data, n) == Decrypted(c, iv0, p, n) && Chained(iv0, p + data, n) == Chained(iv0, p, n)
  {
    assert p[..n] == (p + data)[..n];
    DecryptedPrefix(c, iv0, p, p + data, n);
  }

  lemma HeaderStays(t: seq<Byte>, data: seq<Byte>)
    requires |t| >= HEADER
    ensures (t + data)[HEADER..] == t[HEADER..] + data && IvOf(t + data) == IvOf(t) && BadMagic(t + data) == BadMagic(t)
  {
    assert (t + data)[..4] == t[..4];
  }

  /** The bytes in the buffer continue the decryption. */
  lemma BufferContinues(c: Cipher, iv0: Block, p: seq<Byte>, n: nat, buf: seq<Byte>, len: nat)
    requires n % 16 == 0 && len % 16 == 0 && n + len <= |p| && len <= |buf| && buf[..len] == p[n..n + len]
    ensures Whole(n) == n && Whole(len) == len && Whole(n + len) == n + len
    ensures Decrypted(c, iv0, p, n + len) == Decrypted(c, iv0, p, n) + Decrypted(c, Chained(iv0, p, n), buf, len)
  {
    WholeAdd(len, 0);
    DecryptedAppend(c, iv0, p, n, len);
    assert p[n..][..len] == p[n..n + len];
    DecryptedPrefix(c, Chained(iv0, p, n), buf, p[n..], len);
  }

  class DecryptFileState {
    const key: Cipher
    var decState: int
    var decBufPos: int
    const iv: array<Byte>
    const decBuf: array<Byte>
    /** What the callback has received. */
    var output: seq<Byte>
    ghost var consumed: seq<Byte>

    /** Every field is a function of the bytes consumed. */
    ghost predicate Valid()
      reads this, iv, decBuf
    {
      && iv.Length == 16 && decBuf.Length == DEC_BUF && iv != decBuf
      && if |consumed| < HEADER || BadMagic(consumed) then
           && |consumed| <= HEADER && decState == 0 && decBufPos == |consumed|
           && decBuf[..decBufPos] == consumed && output == []
         else InBody(consumed[HEADER..], IvOf(consumed))
    }

    ghost predicate InBody(p: seq<Byte>, iv0: Block)
      requires iv.Length == 16 && decBuf.Length == DEC_BUF
      reads this, iv, decBuf
    {
      var n := Done(|p|);
      DoneSteps(|p|);
      && decState == 1 && decBufPos == |p| - n && decBuf[..decBufPos] == p[n..]
      && iv[..] == Chained(iv0, p, n) && output == Decrypted(key, iv0, p, n)
    }

    /** decrypt_file_init */
    constructor (aesState: Cipher)
      ensures Valid() && fresh(iv) && fresh(decBuf) && key == aesState && consumed == []
    {
      key, decState, decBufPos, output, consumed := aesState, 0, 0, [], [];
      iv := new Byte[16](_ => 0);
      decBuf := new Byte[DEC_BUF](_ => 0);
    }

    /** The header is complete, or not yet. */
    method TakeHeader(data: seq<Byte>) returns (ok: bool)
      requires Valid() && decState == 0 && 0 < decBufPos + |data| <= HEADER
      modifies this, iv, decBuf
      ensures Valid() && consumed == old(consumed) + data
      ensures ok <==> !BadMagic(consumed)
    {
      Put(decBuf, decBufPos, data);
      decBufPos := decBufPos + |data|;
      consumed := consumed + data;
      assert decBuf[..decBufPos] == consumed;
      ok := true;
      if decBufPos >= HEADER {
        if decBuf[..4] != MAGIC { return false; }
        Put(iv, 0, decBuf[4..20]);
        assert iv[..] == IvOf(consumed);
        decState, decBufPos := 1, 0;
      }
    }

    /** Fills the buffer; a full one is decrypted except for its last block. */
    method TakeBody(data: seq<Byte>)
      requires Valid() && decState == 1 && decBufPos + |data| <= DEC_BUF
      modifies this, iv, decBuf
      ensures Valid() && consumed == old(consumed) + data && decState == 1
    {
      ghost var p, iv0 := consumed[HEADER..], IvOf(consumed);
      HeaderStays(consumed, data);
      FillBody(data, p, iv0);
      consumed := consumed + data;
    }

    method FillBody(data: seq<Byte>, ghost p: seq<Byte>, ghost iv0: Block)
      requires iv.Length == 16 && decBuf.Length == DEC_BUF && iv != decBuf
      requires InBody(p, iv0) && decBufPos + |data| <= DEC_BUF
      modifies this`decBufPos, this`output, iv, decBuf
      ensures InBody(p + data, iv0)
    {
      ghost var n := Done(|p|);
      DoneSteps(|p|);
      DoneGrows(|p|, |data|);
      PayloadGrows(key, iv0, p, data, n);
      Put(decBuf, decBufPos, data);
      decBufPos := decBufPos + |data|;
      assert decBuf[..decBufPos] == (p + data)[n..];
      if decBufPos >= DEC_BUF {
        assert decBuf[..] == decBuf[..DEC_BUF];
        HandOut(p + data, iv0, n);
      }
    }

    method HandOut(ghost p: seq<Byte>, ghost iv0: Block, ghost n: nat)
      requires iv.Length == 16 && decBuf.Length == DEC_BUF && iv != decBuf && decState == 1
      requires n % 16 == 0 && Whole(n) == n && |p| == n + DEC_BUF && Done(|p|) == n + 4080
      requires decBuf[..] == p[n..] && iv[..] == Chained(iv0, p, n) && output == Decrypted(key, iv0, p, n)
      modifies this`decBufPos, this`output, iv, decBuf
      ensures InBody(p, iv0)
    {
      var len := DEC_BUF - 16;
      WholeSteps(len);
      DecryptedAppend(key, iv0, p, n, len);
      CbcDecrypt(key, decBuf, len, iv);
      output := output + decBuf[..len];
      ghost var last := decBuf[len..];
      Put(decBuf, 0, decBuf[len..]);
      decBufPos := 16;
      assert p[n..][len..] == p[n + len..];
      assert Chained(iv0, p, n + len) == p[n..][len - 16..len];
    }

    /** One turn of the loop of decrypt_file. */
    method Turn(rest: seq<Byte>) returns (l: int, ok: bool)
      requires Valid() && rest != []
      modifies this, iv, decBuf
      ensures Valid() && 0 <= l <= |rest| && consumed == old(consumed) + rest[..l]
      ensures ok ==> 0 < l && !BadMagic(consumed)
      ensures !ok ==> BadMagic(consumed)
    {
      if decState == 0 {
        l := if |rest| < HEADER - decBufPos then |rest| else HEADER - decBufPos;
        if l == 0 {
          // an earlier call has found the magic wrong
          assert rest[..l] == [];
          return l, false;
        }
        ok := TakeHeader(rest[..l]);
      } else {
        l := if |rest| < DEC_BUF - decBufPos then |rest| else DEC_BUF - decBufPos;
        DoneSteps(|consumed| - HEADER);
        TakeBody(rest[..l]);
        ok := true;
      }
    }

    /** decrypt_file: it fails exactly when the header is there and wrong. */
    method Decrypt(data: seq<Byte>) returns (ok: bool)
      requires Valid() && |data| < 0x8000_0000
      modifies this, iv, decBuf
      ensures Valid()
      ensures ok ==> consumed == old(consumed) + data
      ensures ok <==> data == [] || !BadMagic(old(consumed) + data)
    {
      ghost var total := consumed + data;
      var rest := data;
      while rest != []
        invariant Valid() && consumed + rest == total && |rest| <= |data|
        invariant |rest| < |data| ==> !BadMagic(consumed)
        decreases |rest|
      {
        var l;
        ghost var before := consumed;
        l, ok := Turn(rest);
        Regroup(before, rest, l);
        if !ok {
          SameMagic(consumed, total);
          return;
        }
        rest := rest[l..];
      }
      return true;
    }

    /** decrypt_file_flush: the rest is decrypted and the padding dropped. */
    method Flush() returns (ok: bool)
      requires Valid()
      modifies this, iv, decBuf
      ensures ok <==> Plain(key, consumed).Some?
      ensures ok ==> output == Plain(key, consumed).value
      ensures consumed == old(consumed)
    {
      if decState != 1 { return false; }
      var len := decBufPos;
      PlainNeedsBlocks(key, consumed);
      if len == 0 || len % 16 != 0 { return false; }
      ok := Finish(len, consumed[HEADER..], IvOf(consumed));
    }

    method DecryptRest(len: nat, ghost p: seq<Byte>, ghost iv0: Block) returns (last: seq<Byte>)
      requires iv.Length == 16 && decBuf.Length == DEC_BUF && iv != decBuf
      requires InBody(p, iv0) && len == decBufPos && len % 16 == 0
      modifies iv, decBuf
      ensures Whole(|p|) == |p| && |last| == len
      ensures Decrypted(key, iv0, p, |p|) == output + last
    {
      ghost var n, buf := Done(|p|), decBuf[..];
      DoneSteps(|p|);
      assert buf[..len] == p[n..n + len];
      BufferContinues(key, iv0, p, n, buf, len);
      CbcDecrypt(key, decBuf, len, iv);
      last := decBuf[..len];
    }

    method Finish(len: nat, ghost p: seq<Byte>, ghost iv0: Block) returns (ok: bool)
      requires iv.Length == 16 && decBuf.Length == DEC_BUF && iv != decBuf
      requires InBody(p, iv0) && len == decBufPos > 0 && len % 16 == 0 && |p| % 16 == 0
      modifies this`output, iv, decBuf
      ensures Whole(|p|) == |p|
      ensures var all := Decrypted(key, iv0, p, |p|);
              var padLen := all[|all| - 1] as int;
              && (ok <==> 1 <= padLen <= 16)
              && (ok ==> padLen <= |all| && output == all[..|all| - padLen])
    {
      var last := DecryptRest(len, p, iv0);
      var padLen := last[len - 1] as int;
      Tail(output, last, 0);
      if padLen < 1 || padLen > 16 { return false; }
      Tail(output, last, padLen);
      output := output + last[..len - padLen];
      return true;
    }
  }

  lemma Regroup(s: seq<Byte>, rest: seq<Byte>, l: nat)
    requires l <= |rest|
    ensures s + rest[..l] + rest[l..] == s + rest && s + rest[..l] <= s + rest
  {
    assert rest == rest[..l] + rest[l..];
  }

  lemma Tail(a: seq<Byte>, b: seq<Byte>, k: nat)
    requires k <= |b|
    ensures (a + b)[..|a + b| - k] == a + b[..|b| - k] && (|b| > 0 ==> (a + b)[|a + b| - 1] == b[|b| - 1])
  {
  }

  lemma SameMagic(s: seq<Byte>, t: seq<Byte>)
    requires s <= t && BadMagic(s)
    ensures BadMagic(t)
  {
    assert s[..4] == t[..4];
  }

  // ----- whole files -----

  function Flatten(chunks: seq<seq<Byte>>): seq<Byte> {
    if chunks == [] then [] else Flatten(chunks[..|chunks| - 1]) + chunks[|chunks| - 1]
  }

  lemma {:induction false} FlattenPrefix(chunks: seq<seq<Byte>>, k: nat)
    requires k <= |chunks|
    ensures Flatten(chunks[..k]) <= Flatten(chunks)
    decreases |chunks|
  {
    if k == |chunks| {
      assert chunks[..k] == chunks;
    } else {
      FlattenPrefix(chunks[..|chunks| - 1], k);
      assert chunks[..|chunks| - 1][..k] == chunks[..k];
    }
  }

  /** A wrong magic in the chunks so far is one in the whole file. */
  lemma RefusedPrefix(key: Cipher, chunks: seq<seq<Byte>>, k: nat)
    requires k <= |chunks| && BadMagic(Flatten(chunks[..k]))
    ensures Plain(key, Flatten(chunks)) == None
  {
    FlattenPrefix(chunks, k);
    SameMagic(Flatten(chunks[..k]), Flatten(chunks));
  }

  lemma FlattenNext(chunks: seq<seq<Byte>>, i: nat)
    requires i < |chunks|
    ensures Flatten(chunks[..i + 1]) == Flatten(chunks[..i]) + chunks[i]
  {
    assert chunks[..i + 1][..i] == chunks[..i];
  }

  /** A file that arrives in chunks: however it is cut, the result is that of the whole. */
  method DecryptChunks(key: Cipher, chunks: seq<seq<Byte>>) returns (r: Option<seq<Byte>>)
    requires forall chunk :: chunk in chunks ==> |chunk| < 0x8000_0000
    ensures r == Plain(key, Flatten(chunks))
  {
    var s := new DecryptFileState(key);
    var i := 0;
    while i < |chunks|
      invariant 0 <= i <= |chunks| && s.Valid() && s.consumed == Flatten(chunks[..i]) && s.key == key
      invariant fresh(s) && fresh(s.iv) && fresh(s.decBuf)
    {
      FlattenNext(chunks, i);
      var ok := s.Decrypt(chunks[i]);
      if !ok {
        RefusedPrefix(key, chunks, i + 1);
        return None;
      }
      i := i + 1;
    }
    assert chunks[..i] == chunks;
    var ok := s.Flush();
    return if ok then Some(s.output) else None;
  }

  /** A file as it is written: header, then the encrypted plaintext with its padding. */
  ghost function EncryptedFile(c: Cipher, iv: Block, plain: seq<Byte>, padding: seq<Byte>): seq<Byte> {
    MAGIC + iv + Encrypted(c, iv, plain + padding)
  }

  lemma FileParts(iv: Block, body: seq<Byte>)
    ensures var t := MAGIC + iv + body;
            |t| == HEADER + |body| && !BadMagic(t) && IvOf(t) == iv && t[HEADER..] == body
  {
    var t := MAGIC + iv + body;
    assert t[..4] == MAGIC && t[4..20] == iv;
  }

  lemma PlainIs(c: Cipher, t: seq<Byte>, p: seq<Byte>, padLen: nat)
    requires |t| > HEADER && !BadMagic(t) && |p| == |t| - HEADER && |p| % 16 == 0 && Whole(|p|) == |p|
    requires Decrypted(c, IvOf(t), t[HEADER..], |p|) == p
    requires 1 <= padLen <= 16 && padLen <= |p| && p[|p| - 1] as int == padLen
    ensures Plain(c, t) == Some(p[..|p| - padLen])
  {
  }

  /** Decryption gives the plaintext back for every length and every padding whose last byte
      is its length. */
  lemma PlainOfEncrypted(c: Cipher, iv: Block, plain: seq<Byte>, padding: seq<Byte>)
    requires Inverse(c) && 1 <= |padding| <= 16 && padding[|padding| - 1] as int == |padding|
    requires (|plain| + |padding|) % 16 == 0
    ensures Plain(c, EncryptedFile(c, iv, plain, padding)) == Some(plain)
  {
    var p, t := plain + padding, EncryptedFile(c, iv, plain, padding);
    EncryptedSize(c, iv, p);
    WholeSteps(|p|);
    DecryptsEncrypted(c, iv, p);
    FileParts(iv, Encrypted(c, iv, p));
    assert p[..|p| - |padding|] == plain;
    PlainIs(c, t, p, |padding|);
  }
}
