// Sums of integer weights over sequences.

module Sums {

  function Sum<T>(s: seq<T>, w: T -> int): int {
    if |s| == 0 then 0 else w(s[0]) + Sum(s[1..], w)
  }

  function RemoveAt<T>(s: seq<T>, i: int): (r: seq<T>)
    requires 0 <= i < |s|
    ensures |r| == |s| - 1
  {
    s[..i] + s[i + 1..]
  }

  lemma {:induction false} SumAppend<T>(s: seq<T>, t: seq<T>, w: T -> int)
    ensures Sum(s + t, w) == Sum(s, w) + Sum(t, w)
  {
    if |s| == 0 {
      assert s + t == t;
    } else {
      assert (s + t)[1..] == s[1..] + t;
      SumAppend(s[1..], t, w);
    }
  }

  lemma SumOne<T>(x: T, w: T -> int)
    ensures Sum([x], w) == w(x)
  {
    assert Sum([x][1..], w) == 0;
  }

  lemma SumSplit<T>(s: seq<T>, i: int, w: T -> int)
    requires 0 <= i < |s|
    ensures Sum(s, w) == Sum(s[..i], w) + w(s[i]) + Sum(s[i + 1..], w)
  {
    assert s == s[..i] + ([s[i]] + s[i + 1..]);
    SumAppend(s[..i], [s[i]] + s[i + 1..], w);
    SumAppend([s[i]], s[i + 1..], w);
    SumOne(s[i], w);
  }

  lemma SumRemove<T>(s: seq<T>, i: int, w: T -> int)
    requires 0 <= i < |s|
    ensures Sum(RemoveAt(s, i), w) == Sum(s, w) - w(s[i])
  {
    SumSplit(s, i, w);
    SumAppend(s[..i], s[i + 1..], w);
  }

  lemma SumUpdate<T>(s: seq<T>, i: int, x: T, w: T -> int)
    requires 0 <= i < |s|
    ensures Sum(s[i := x], w) == Sum(s, w) - w(s[i]) + w(x)
  {
    SumSplit(s, i, w);
    SumSplit(s[i := x], i, w);
    assert s[i := x][..i] == s[..i] && s[i := x][i + 1..] == s[i + 1..];
  }

  lemma SumPush<T>(s: seq<T>, x: T, w: T -> int)
    ensures Sum(s + [x], w) == Sum(s, w) + w(x)
    ensures Sum([x] + s, w) == w(x) + Sum(s, w)
  {
    SumAppend(s, [x], w);
    SumAppend([x], s, w);
    SumOne(x, w);
  }

  lemma {:induction false} SumAgree<T>(s: seq<T>, w1: T -> int, w2: T -> int)
    requires forall x :: x in s ==> w1(x) == w2(x)
    ensures Sum(s, w1) == Sum(s, w2)
  {
    if |s| > 0 { SumAgree(s[1..], w1, w2); }
  }

  /** A sum of non-negative weights is at least each of them. */
  lemma {:induction false} SumBound<T>(s: seq<T>, w: T -> int)
    requires forall x :: x in s ==> w(x) >= 0
    ensures Sum(s, w) >= 0
    ensures forall x :: x in s ==> Sum(s, w) >= w(x)
  {
    if |s| > 0 { SumBound(s[1..], w); }
  }

  ghost predicate Distinct<T>(s: seq<T>) {
    forall i, j :: 0 <= i < j < |s| ==> s[i] != s[j]
  }

  lemma DistinctRemove<T>(s: seq<T>, i: int)
    requires 0 <= i < |s| && Distinct(s)
    ensures Distinct(RemoveAt(s, i))
    ensures forall x :: x in RemoveAt(s, i) <==> x in s && x != s[i]
  {
    var r := RemoveAt(s, i);
    forall x | x in s && x != s[i] ensures x in r {
      var j :| 0 <= j < |s| && s[j] == x;
      if j < i { assert r[j] == x; } else { assert r[j - 1] == x; }
    }
  }

  function Position<T(==)>(s: seq<T>, x: T): (i: int)
    ensures -1 <= i < |s|
    ensures i >= 0 ==> s[i] == x
    ensures i == -1 <==> x !in s
  {
    if |s| == 0 then -1
    else if s[0] == x then 0
    else var i := Position(s[1..], x); if i == -1 then -1 else i + 1
  }

  /** Two weights that differ at one element of a sequence without repetitions. */
  lemma SumDiffer<T>(s: seq<T>, w1: T -> int, w2: T -> int, x: T)
    requires Distinct(s) && x in s && forall y :: y in s && y != x ==> w1(y) == w2(y)
    ensures Sum(s, w2) == Sum(s, w1) - w1(x) + w2(x)
  {
    var k :| 0 <= k < |s| && s[k] == x;
    SumSplit(s, k, w1);
    SumSplit(s, k, w2);
    SumAgree(s[..k], w1, w2);
    SumAgree(s[k + 1..], w1, w2);
  }
}
