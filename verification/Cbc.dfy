// Cipher block chaining in place (AES_cbc_encrypt of temu/aes.c, section 6.2 of NIST
// SP 800-38A) over an abstract pair of block functions.

module Cbc {
  type Byte = bv8

  const BLOCK := 16

  type Block = b: seq<Byte> | |b| == 16 witness [0, 0, 0, 0, 0, 0, 0, 0, 0, 0, 0, 0, 0, 0, 0, 0]

  /** AES_encrypt and AES_decrypt under one key */
  datatype Cipher = Cipher(enc: Block -> Block, dec: Block -> Block)

  ghost predicate Inverse(c: Cipher) { forall b: Block :: c.dec(c.enc(b)) == b }

  function Xor(a: Byte, b: Byte): Byte { a ^ b }

  function XorBlock(a: Block, b: Block): Block { seq(16, i requires 0 <= i < 16 => Xor(a[i], b[i])) }

  /** A short last block is filled with zeros. */
  function Padded(p: seq<Byte>): Block
    requires |p| <= 16
  {
    p + seq(16 - |p|, _ => 0)
  }

  /** Bytes of ciphertext for n bytes of plaintext. */
  function Whole(n: nat): nat { (n + 15) / 16 * 16 }

  function Encrypted(c: Cipher, iv: Block, p: seq<Byte>): (r: seq<Byte>)
    decreases |p|
  {
    if p == [] then []
    else if |p| < 16 then c.enc(XorBlock(Padded(p), iv))
    else var b := c.enc(XorBlock(p[..16], iv)); b + Encrypted(c, b, p[16..])
  }

  /** The first n bytes of plaintext. */
  function Decrypted(c: Cipher, iv: Block, s: seq<Byte>, n: nat): (r: seq<Byte>)
    requires Whole(n) <= |s|
    ensures |r| == n
    decreases n
  {
    if n == 0 then []
    else if n < 16 then XorBlock(c.dec(s[..16]), iv)[..n]
    else XorBlock(c.dec(s[..16]), iv) + Decrypted(c, s[..16], s[16..], n - 16)
  }

  /** The chaining value left behind: the last ciphertext block that was used. */
  function Chained(iv: Block, s: seq<Byte>, n: nat): Block
    requires Whole(n) <= |s|
  {
    if n == 0 then iv else s[Whole(n) - 16..Whole(n)]
  }

  lemma WholeSteps(n: nat)
    ensures n >= 16 ==> Whole(n) == 16 + Whole(n - 16)
    ensures n % 16 == 0 ==> Whole(n) == n
    ensures 0 < n <= 16 ==> Whole(n) == 16
  {
  }

  // ----- laws -----

  lemma XorTwice(a: Block, b: Block)
    ensures XorBlock(XorBlock(a, b), b) == a
  {
    assert forall i :: 0 <= i < 16 ==> XorBlock(XorBlock(a, b), b)[i] == a[i];
  }

  lemma {:induction false} EncryptedSize(c: Cipher, iv: Block, p: seq<Byte>)
    ensures |Encrypted(c, iv, p)| == Whole(|p|)
    decreases |p|
  {
    WholeSteps(|p|);
    if |p| >= 16 { EncryptedSize(c, c.enc(XorBlock(p[..16], iv)), p[16..]); }
  }

  /** Decryption undoes encryption, for every length. */
  lemma {:induction false} DecryptsEncrypted(c: Cipher, iv: Block, p: seq<Byte>)
    requires Inverse(c)
    ensures Whole(|p|) <= |Encrypted(c, iv, p)| && Decrypted(c, iv, Encrypted(c, iv, p), |p|) == p
    decreases |p|
  {
    EncryptedSize(c, iv, p);
    WholeSteps(|p|);
    if 0 < |p| < 16 {
      XorTwice(Padded(p), iv);
      assert Encrypted(c, iv, p)[..16] == Encrypted(c, iv, p);
    } else if |p| >= 16 {
      var b := c.enc(XorBlock(p[..16], iv));
      DecryptsEncrypted(c, b, p[16..]);
      XorTwice(p[..16], iv);
      assert Encrypted(c, iv, p)[..16] == b && Encrypted(c, iv, p)[16..] == Encrypted(c, b, p[16..]);
      assert p == p[..16] + p[16..];
    }
  }

  lemma ChainedSteps(iv: Block, s: seq<Byte>, n: nat)
    requires n % 16 == 0 && 16 <= n <= |s|
    ensures Whole(n) == n && Whole(n - 16) == n - 16
    ensures Chained(s[..16], s[16..], n - 16) == Chained(iv, s, n)
  {
    WholeSteps(n);
    WholeSteps(n - 16);
    if n == 16 { assert s[0..16] == s[..16]; } else { assert s[16..][n - 32..n - 16] == s[n - 16..n]; }
  }

  lemma WholeAdd(n: nat, m: nat)
    requires n % 16 == 0
    ensures Whole(n) == n && Whole(n + m) == n + Whole(m)
  {
  }

  lemma Assoc<T>(a: seq<T>, b: seq<T>, d: seq<T>)
    ensures a + b + d == a + (b + d)
  {
  }

  /** Whole blocks can be decrypted in two runs with the chaining value carried over. */
  lemma {:induction false} DecryptedAppend(c: Cipher, iv: Block, s: seq<Byte>, n: nat, m: nat)
    requires n % 16 == 0 && n + Whole(m) <= |s|
    ensures Whole(n) == n && Whole(n + m) == n + Whole(m)
    ensures Decrypted(c, iv, s, n + m) == Decrypted(c, iv, s, n) + Decrypted(c, Chained(iv, s, n), s[n..], m)
    decreases n
  {
    WholeAdd(n, m);
    if n == 0 {
      assert s[0..] == s;
    } else {
      WholeAdd(n - 16, m);
      var iv1, s1 := s[..16], s[16..];
      DecryptedAppend(c, iv1, s1, n - 16, m);
      ChainedSteps(iv, s, n);
      assert s1[n - 16..] == s[n..];
      Assoc(XorBlock(c.dec(iv1), iv), Decrypted(c, iv1, s1, n - 16), Decrypted(c, Chained(iv, s, n), s[n..], m));
    }
  }

  /** Only the blocks in use matter. */
  lemma {:induction false} DecryptedPrefix(c: Cipher, iv: Block, s: seq<Byte>, t: seq<Byte>, n: nat)
    requires Whole(n) <= |s| && Whole(n) <= |t| && s[..Whole(n)] == t[..Whole(n)]
    ensures Decrypted(c, iv, s, n) == Decrypted(c, iv, t, n) && Chained(iv, s, n) == Chained(iv, t, n)
    decreases n
  {
    WholeSteps(n);
    if n > 0 {
      assert s[..16] == s[..Whole(n)][..16] && t[..16] == t[..Whole(n)][..16];
      assert s[Whole(n) - 16..Whole(n)] == s[..Whole(n)][Whole(n) - 16..];
      assert t[Whole(n) - 16..Whole(n)] == t[..Whole(n)][Whole(n) - 16..];
      if n >= 16 {
        assert s[16..][..Whole(n - 16)] == s[..Whole(n)][16..] && t[16..][..Whole(n - 16)] == t[..Whole(n)][16..];
        DecryptedPrefix(c, s[..16], s[16..], t[16..], n - 16);
      }
    }
  }

  // ----- the routine -----

  /** Writes the bytes of a block into an array. */
  method Put(a: array<Byte>, at: nat, b: seq<Byte>)
    requires at + |b| <= a.Length
    modifies a
    ensures a[..] == old(a[..at]) + b + old(a[at + |b|..])
  {
    for i := 0 to |b|
      invariant a[..] == old(a[..at]) + b[..i] + old(a[at + i..])
    {
      a[at + i] := b[i];
    }
    assert b[..|b|] == b;
  }

  /** The body of the loop, and of the short last block with n < 16. */
  method DecryptBlock(c: Cipher, buf: array<Byte>, at: nat, n: nat, ivec: array<Byte>)
    requires buf != ivec && ivec.Length == 16 && at + 16 <= buf.Length && n <= 16
    modifies buf, ivec
    ensures buf[..] == old(buf[..at]) + XorBlock(c.dec(old(buf[at..at + 16])), old(ivec[..]))[..n] + old(buf[at + n..])
    ensures ivec[..] == old(buf[at..at + 16])
  {
    var tmp: Block, iv: Block := buf[at..at + 16], ivec[..];
    Put(buf, at, XorBlock(c.dec(tmp), iv)[..n]);
    Put(ivec, 0, tmp);
    assert ivec[..] == tmp;
  }

  /** AES_cbc_encrypt with enc == 0, decrypting the first `length` bytes in place. */
  method CbcDecrypt(c: Cipher, buf: array<Byte>, length: nat, ivec: array<Byte>)
    requires buf != ivec && ivec.Length == 16 && Whole(length) <= buf.Length
    modifies buf, ivec
    ensures buf[..length] == Decrypted(c, old(ivec[..]), old(buf[..]), length)
    ensures buf[length..] == old(buf[length..])
    ensures ivec[..] == Chained(old(ivec[..]), old(buf[..]), length)
  {
    ghost var iv0: Block, s := ivec[..], buf[..];
    var at := 0;
    RoundUp(0, length);
    while length - at >= 16
      invariant 0 <= at <= length && at % 16 == 0 && Whole(at) == at
      invariant buf[..at] == Decrypted(c, iv0, s, at) && buf[at..] == s[at..]
      invariant ivec[..] == Chained(iv0, s, at)
    {
      RoundUp(at, length);
      DecryptNext(c, buf, at, 16, ivec, iv0, s);
      at := at + 16;
    }
    RoundUp(at, length);
    if at < length { DecryptNext(c, buf, at, length - at, ivec, iv0, s); }
  }

  lemma RoundUp(at: nat, length: nat)
    requires at % 16 == 0 && at <= length
    ensures Whole(at) == at && Whole(length) >= length && (at < length ==> at + 16 <= Whole(length))
  {
  }

  /** One step, with what it means for the whole. */
  method DecryptNext(c: Cipher, buf: array<Byte>, at: nat, n: nat, ivec: array<Byte>, ghost iv0: Block, ghost s: seq<Byte>)
    requires buf != ivec && ivec.Length == 16 && at % 16 == 0 && 0 < n <= 16 && at + 16 <= buf.Length == |s|
    requires buf[..at] == Decrypted(c, iv0, s, at) && buf[at..] == s[at..] && ivec[..] == Chained(iv0, s, at)
    modifies buf, ivec
    ensures Whole(at + n) == at + 16
    ensures buf[..at + n] == Decrypted(c, iv0, s, at + n) && buf[at + n..] == s[at + n..]
    ensures ivec[..] == Chained(iv0, s, at + n)
  {
    OneBlock(c, iv0, s, at, n);
    assert buf[at..at + 16] == s[at..at + 16] by { assert buf[at..][..16] == s[at..][..16]; }
    assert buf[at + n..] == s[at + n..] by { assert buf[at..][n..] == s[at..][n..]; }
    DecryptBlock(c, buf, at, n, ivec);
  }

  lemma SingleBlock(c: Cipher, iv: Block, t: seq<Byte>, n: nat)
    requires 0 < n <= 16 <= |t|
    ensures Whole(n) == 16 && Decrypted(c, iv, t, n) == XorBlock(c.dec(t[..16]), iv)[..n]
  {
    WholeSteps(n);
    if n == 16 { assert Decrypted(c, t[..16], t[16..], 0) == []; }
  }

  lemma OneBlock(c: Cipher, iv: Block, s: seq<Byte>, at: nat, n: nat)
    requires at % 16 == 0 && 0 < n <= 16 && at + 16 <= |s|
    ensures Whole(at) == at && Whole(at + n) == at + 16
    ensures Decrypted(c, iv, s, at + n) == Decrypted(c, iv, s, at) + XorBlock(c.dec(s[at..at + 16]), Chained(iv, s, at))[..n]
    ensures Chained(iv, s, at + n) == s[at..at + 16]
  {
    WholeSteps(at);
    assert Whole(at + n) == at + 16;
    DecryptedAppend(c, iv, s, at, n);
    SingleBlock(c, Chained(iv, s, at), s[at..], n);
    assert s[at..][..16] == s[at..at + 16];
  }
}
