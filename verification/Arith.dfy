// Division facts shared by the address arithmetic of several modules.

module Arith {
  lemma OneMore(d: int, n: int)
    requires n > 0
    ensures d > 0 ==> d * n >= n
    ensures d < 0 ==> d * n <= -n
  {
  }

  lemma DivModUnique(v: int, n: int, q: int, r: int)
    requires n > 0 && v == q * n + r && 0 <= r < n
    ensures v / n == q && v % n == r
  {
    var d := v / n - q;
    assert v == v / n * n + v % n;
    assert d * n == r - v % n;
    OneMore(d, n);
  }

  /** Quotient and remainder by m*k, taken in two steps. */
  lemma DivModTwice(v: int, m: int, k: int)
    requires m > 0 && k > 0
    ensures m * k > 0
    ensures v % (m * k) == v / m % k * m + v % m
    ensures v / (m * k) == v / m / k
  {
    var q, r, o := v / m / k, v / m % k, v % m;
    assert m * k > 0;
    assert v == (q * k + r) * m + o;
    assert (q * k + r) * m == q * (m * k) + r * m;
    assert (r + 1) * m <= k * m;
    DivModUnique(v, m * k, q, r * m + o);
  }

  /** Cells of 8 inside rows of n: where the cell of v starts. */
  lemma CellInRow(v: int, n: int)
    requires n > 0 && n % 8 == 0
    ensures var start := v / 8 * 8;
            && start / n == v / n
            && start % n + v % 8 == v % n
            && 0 <= start % n && start % n + 8 <= n
  {
    var q, r, k := v / n, v % n, n / 8;
    assert v == q * n + r;
    assert q * n == 8 * (q * k) by { assert n == 8 * k; Assoc(q, k); }
    assert v / 8 * 8 == q * n + r / 8 * 8;
    DivModUnique(v / 8 * 8, n, q, r / 8 * 8);
  }

  lemma Assoc(q: int, k: int)
    ensures q * (8 * k) == 8 * (q * k)
  {
  }

  lemma DivMono(a: int, b: int, n: int)
    requires n > 0 && a <= b
    ensures a / n <= b / n
  {
    var d := a / n - b / n;
    assert a == a / n * n + a % n && b == b / n * n + b % n;
    OneMore(d, n);
    assert d * n == a / n * n - b / n * n;
  }

  lemma DivMod(x: int, B: int)
    requires B > 0
    ensures x == x / B * B + x % B && 0 <= x % B < B
  {
  }

  lemma Distribute(x: int, y: int, n: int)
    ensures (x + y) * n == x * n + y * n && (x - y) * n == x * n - y * n
  {
  }

  /** A value below k times n has its quotient below k. */
  lemma Quotient(v: int, n: int, k: int)
    requires n > 0 && 0 <= v < k * n
    ensures 0 <= v / n < k
  {
    DivMod(v, n);
    var d := v / n - (k - 1);
    Distribute(v / n, k - 1, n);
    Distribute(k, 1, n);
    OneMore(d, n);
  }

  /** An aligned access of at most 8 bytes stays inside its 4096-byte page. */
  lemma RoomInPage(addr: int, n: int)
    requires n in {1, 2, 4, 8} && addr % n == 0
    ensures addr % 4096 + n <= 4096
  {
    if n == 2 { DivModTwice(addr, 2, 2048); } else if n == 4 { DivModTwice(addr, 4, 1024); } else if n == 8 { DivModTwice(addr, 8, 512); }
  }
}
