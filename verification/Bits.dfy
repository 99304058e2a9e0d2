// Machine words as sequences of bits, bit 0 first.

module Bits {

  type Word = w: seq<bool> | |w| == 64 witness seq(64, _ => false)
  type Word32 = w: seq<bool> | |w| == 32 witness seq(32, _ => false)

  function Zero(): Word { seq(64, _ => false) }
  function Zero32(): Word32 { seq(32, _ => false) }

  /** The unsigned value of a bit field. */
  function Num(b: seq<bool>): (n: int)
    ensures n >= 0
  {
    if |b| == 0 then 0 else (if b[0] then 1 else 0) + 2 * Num(b[1..])
  }

  function Pow2(n: nat): (p: int)
    ensures p > 0
  {
    if n == 0 then 1 else 2 * Pow2(n - 1)
  }

  /** `(word & ~mask) | (val & mask)` */
  function Merge(word: Word, val: Word, mask: set<int>): (r: Word)
    ensures forall i :: 0 <= i < 64 ==> r[i] == if i in mask then val[i] else word[i]
  {
    seq(64, i requires 0 <= i < 64 => if i in mask then val[i] else word[i])
  }

  function Merge32(word: Word32, val: Word, mask: set<int>): (r: Word32)
    ensures forall i :: 0 <= i < 32 ==> r[i] == if i in mask then val[i] else word[i]
  {
    seq(32, i requires 0 <= i < 32 => if i in mask then val[i] else word[i])
  }

  function And32(a: Word32, b: Word32): Word32 { seq(32, i requires 0 <= i < 32 => a[i] && b[i]) }
  function Or32(a: Word32, b: Word32): Word32 { seq(32, i requires 0 <= i < 32 => a[i] || b[i]) }
  function Not32(a: Word32): Word32 { seq(32, i requires 0 <= i < 32 => !a[i]) }

  lemma {:induction false} NumBound(b: seq<bool>)
    ensures Num(b) < Pow2(|b|)
  {
    if |b| > 0 { NumBound(b[1..]); }
  }

  lemma {:induction false} NumOfZeros(b: seq<bool>)
    requires forall i :: 0 <= i < |b| ==> !b[i]
    ensures Num(b) == 0
  {
    if |b| > 0 { NumOfZeros(b[1..]); }
  }

  lemma NumOfFour(b: seq<bool>)
    requires |b| == 4
    ensures Num(b) == (if b[0] then 1 else 0) + (if b[1] then 2 else 0) + (if b[2] then 4 else 0) + (if b[3] then 8 else 0)
  {
    assert Num(b) == (if b[0] then 1 else 0) + 2 * Num(b[1..]);
    assert Num(b[1..]) == (if b[1] then 1 else 0) + 2 * Num(b[1..][1..]);
    assert b[1..][1..] == b[2..];
    assert Num(b[2..]) == (if b[2] then 1 else 0) + 2 * Num(b[2..][1..]);
    assert b[2..][1..] == b[3..];
    assert Num(b[3..]) == (if b[3] then 1 else 0) + 2 * Num(b[3..][1..]);
    assert b[3..][1..] == [];
  }

  lemma Double(p: int, x: int)
    ensures (2 * p) * x == 2 * (p * x)
  {
  }

  lemma {:induction false} NumSplit(b: seq<bool>, k: nat)
    requires k <= |b|
    ensures Num(b) == Num(b[..k]) + Pow2(k) * Num(b[k..])
    decreases k
  {
    if k == 0 {
      assert b[0..] == b && b[..0] == [];
    } else {
      NumSplit(b[1..], k - 1);
      assert b[1..][..k - 1] == b[..k][1..] && b[1..][k - 1..] == b[k..];
      Double(Pow2(k - 1), Num(b[k..]));
    }
  }

  /** Bit k of a number, with what is below and above it. */
  lemma NumBit(b: seq<bool>, k: nat) returns (low: int, high: int)
    requires k < |b|
    ensures Num(b) == low + Pow2(k) * ((if b[k] then 1 else 0) + 2 * high) && 0 <= low < Pow2(k) && 0 <= high
  {
    NumSplit(b, k);
    NumBound(b[..k]);
    low, high := Num(b[..k]), Num(b[k..][1..]);
    assert Num(b[k..]) == (if b[k] then 1 else 0) + 2 * high;
  }
}
