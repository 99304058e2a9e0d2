// Double-width multiplication from half words (temu/riscv_cpu_template.h), for any half
// word of B = 2^H values, H >= 1; section 6.1 of the RISC-V User-Level ISA v2.2.

module Multiply {
  import opened Arith

  /** A word is a pair of half words: there are B * B words. */
  function Words(B: int): int { B * B }

  predicate IsWord(B: int, x: int) { 0 <= x < Words(B) }

  /** The sums of mulhu; the casts to UHALF are the remainders by B. */
  function Sum1(B: int, a: int, b: int): int
    requires B >= 2
  {
    (a % B) * (b % B) / B + (a % B) * (b / B) % B + (a / B) * (b % B) % B
  }

  function Sum2(B: int, a: int, b: int): int
    requires B >= 2
  {
    Sum1(B, a, b) / B + (a % B) * (b / B) / B + (a / B) * (b % B) / B + (a / B) * (b / B) % B
  }

  function High(B: int, a: int, b: int): int
    requires B >= 2
  {
    Sum2(B, a, b) / B + (a / B) * (b / B) / B
  }

  /** mulhu: `((uintx_t)r3 << UHALF_LEN) | r2`, where r3 is kept in a half word. */
  function Mulhu(B: int, a: int, b: int): int
    requires B >= 2
  {
    High(B, a, b) % B * B + Sum2(B, a, b) % B
  }

  // ----- products, one step at a time -----

  lemma NotNegative(x: int, y: int)
    requires x >= 0 && y >= 0
    ensures x * y >= 0
  {
  }

  lemma Monotone(x: int, m: int, y: int, n: int)
    requires 0 <= x <= m && 0 <= y <= n
    ensures 0 <= x * y <= m * n
  {
    NotNegative(x, y);
    NotNegative(m - x, y);
    NotNegative(m, n - y);
    Distribute(m, x, y);
    Distribute(n, y, m);
  }

  lemma Shifted(p: int, q: int, B: int)
    ensures (p * B + q) * B == p * (B * B) + q * B
  {
    Distribute(p * B, q, B);
    Associate(p, B, B);
  }

  lemma Associate(x: int, y: int, z: int)
    ensures x * y * z == x * (y * z) && x * y == y * x
  {
  }

  lemma Foil(p: int, q: int, r: int, s: int)
    ensures (p + q) * (r + s) == p * r + p * s + q * r + q * s
  {
    Distribute(p, q, r + s);
    Distribute(r, s, p);
    Distribute(r, s, q);
  }

  /** A product of two-digit numbers in base B. */
  lemma Digits(B: int, a1: int, a0: int, b1: int, b0: int)
    ensures (a1 * B + a0) * (b1 * B + b0) == (a1 * b1) * (B * B) + (a1 * b0) * B + (a0 * b1) * B + a0 * b0
  {
    Foil(a1 * B, a0, b1 * B, b0);
    Swap(a1, B, b1);
    Associate(a1 * b1, B, B);
    Associate(a0, b1, B);
    Associate(a1, B, b0);
    Associate(a1, b0, B);
    Associate(B, b0, a1);
  }

  lemma Swap(x: int, B: int, y: int)
    ensures (x * B) * (y * B) == (x * y) * B * B
  {
    Associate(x * B, y, B);
    Associate(x, B, y);
    Associate(x, y, B);
    Associate(B, y, x);
  }

  // ----- mulhu -----

  /** A product of half words. */
  lemma HalfProduct(B: int, x: int, y: int)
    requires B >= 2 && 0 <= x < B && 0 <= y < B
    ensures 0 <= x * y / B <= B - 2 && 0 <= x * y % B < B && x * y == x * y / B * B + x * y % B
  {
    Monotone(x, B - 1, y, B - 1);
    Distribute(B, 1, B - 1);
    Distribute(B, 1, B);
    Quotient(x * y, B, B - 1);
    DivMod(x * y, B);
  }

  lemma HalvesOf(B: int, a: int)
    requires B >= 2 && IsWord(B, a)
    ensures 0 <= a % B < B && 0 <= a / B < B && a == a / B * B + a % B
  {
    DivMod(a, B);
    Quotient(a, B, B);
  }

  /** The schoolbook product in base B, with the carries of the scheme. */
  lemma Schoolbook(B: int, D: int, r00: int, r01: int, r10: int, r11: int,
                   p00: int, q00: int, p01: int, q01: int, p10: int, q10: int, p11: int, q11: int,
                   k1: int, m1: int, k2: int, m2: int)
    requires D == B * B
    requires r00 == p00 * B + q00 && r01 == p01 * B + q01 && r10 == p10 * B + q10 && r11 == p11 * B + q11
    requires p00 + q01 + q10 == k1 * B + m1 && k1 + p01 + p10 + q11 == k2 * B + m2
    ensures r11 * D + r10 * B + r01 * B + r00 == ((p11 + k2) * B + m2) * D + (m1 * B + q00)
  {
    Shifted(p01, q01, B);
    Shifted(p10, q10, B);
    Shifted(k1, m1, B);
    Distribute(p00 + q01, q10, B);
    Distribute(p00, q01, B);
    Distribute(p11 * B, q11, D);
    Distribute(p11, k2, B);
    Distribute(p11 * B, k2 * B + m2, D);
    Distribute(k1 + p01, p10 + q11, D);
    Distribute(k1, p01, D);
    Distribute(p10, q11, D);
  }

  /** mulhu is the exact high word; no sum needs more than a word and r3 fits a half word. */
  lemma MulhuExact(B: int, a: int, b: int)
    requires B >= 2 && IsWord(B, a) && IsWord(B, b)
    ensures Mulhu(B, a, b) == a * b / Words(B) && IsWord(B, Mulhu(B, a, b))
    ensures IsWord(B, Sum1(B, a, b)) && IsWord(B, Sum2(B, a, b)) && 0 <= High(B, a, b) < B
  {
    HalvesOf(B, a);
    HalvesOf(B, b);
    MulhuOfHalves(B, a, b, a % B, a / B, b % B, b / B, Sum1(B, a, b), Sum2(B, a, b));
  }

  lemma MulhuOfHalves(B: int, a: int, b: int, a0: int, a1: int, b0: int, b1: int, s1: int, s2: int)
    requires B >= 2 && 0 <= a0 < B && 0 <= a1 < B && 0 <= b0 < B && 0 <= b1 < B
    requires IsWord(B, a) && IsWord(B, b) && a == a1 * B + a0 && b == b1 * B + b0
    requires s1 == a0 * b0 / B + a0 * b1 % B + a1 * b0 % B
    requires s2 == s1 / B + a0 * b1 / B + a1 * b0 / B + a1 * b1 % B
    ensures var h := s2 / B + a1 * b1 / B;
            && h % B * B + s2 % B == a * b / (B * B) && IsWord(B, h % B * B + s2 % B)
            && IsWord(B, s1) && IsWord(B, s2) && 0 <= h < B
  {
    HalfProduct(B, a0, b0);
    HalfProduct(B, a0, b1);
    HalfProduct(B, a1, b0);
    HalfProduct(B, a1, b1);
    Digits(B, a1, a0, b1, b0);
    ProductBelow(B * B, a, b);
    Combine(B, B * B, a * b, a0 * b0, a0 * b1, a1 * b0, a1 * b1, s1, s2);
  }

  lemma Combine(B: int, w: int, product: int, r00: int, r01: int, r10: int, r11: int, s1: int, s2: int)
    requires B >= 2 && w == B * B && 0 <= product < w * w && product == r11 * w + r10 * B + r01 * B + r00
    requires 0 <= r00 / B <= B - 2 && 0 <= r01 / B <= B - 2 && 0 <= r10 / B <= B - 2 && 0 <= r11 / B
    requires s1 == r00 / B + r01 % B + r10 % B && s2 == s1 / B + r01 / B + r10 / B + r11 % B
    ensures var h := s2 / B + r11 / B;
            && h % B * B + s2 % B == product / w && IsWord(B, h % B * B + s2 % B)
            && IsWord(B, s1) && IsWord(B, s2) && 0 <= h < B
  {
    DivMod(r00, B);
    DivMod(r01, B);
    DivMod(r10, B);
    DivMod(r11, B);
    DivMod(s1, B);
    DivMod(s2, B);
    SumsFit(B, s1, s2, r00 / B, r01 / B, r10 / B);
    Schoolbook(B, w, r00, r01, r10, r11, r00 / B, r00 % B, r01 / B, r01 % B,
               r10 / B, r10 % B, r11 / B, r11 % B, s1 / B, s1 % B, s2 / B, s2 % B);
    TwoDigits(B, s1 % B, r00 % B);
    TwoDigits(B, 1, 0);
    HighFits(B, w, product, s2 / B + r11 / B, s2 % B, s1 % B * B + r00 % B);
  }

  lemma TwoDigits(B: int, x: int, y: int)
    requires B >= 2 && 0 <= x < B && 0 <= y < B
    ensures 0 <= x * B + y < B * B
  {
    Monotone(x, B - 1, B, B);
    Distribute(B, 1, B);
  }

  lemma SumsFit(B: int, s1: int, s2: int, p00: int, p01: int, p10: int)
    requires B >= 2 && 0 <= p00 <= B - 2 && 0 <= p01 <= B - 2 && 0 <= p10 <= B - 2
    requires p00 <= s1 <= p00 + 2 * (B - 1) && s1 / B + p01 + p10 <= s2 <= s1 / B + p01 + p10 + B - 1
    ensures IsWord(B, s1) && IsWord(B, s2) && s2 / B >= 0
  {
    Quotient(s1, B, 3);
    Square(B);
    Quotient(s2, B, 3);
  }

  lemma Square(B: int)
    requires B >= 2
    ensures 3 * B - 3 < B * B
  {
    if B >= 3 { Monotone(3, B, B, B); }
  }

  lemma ProductBelow(w: int, a: int, b: int)
    requires 0 <= a < w && 0 <= b < w
    ensures 0 <= a * b < w * w
  {
    Monotone(a, w - 1, b, w - 1);
    Distribute(w, 1, w - 1);
    Distribute(w, 1, w);
  }

  /** The high word of a product of words is a word, so its upper half is a half word. */
  lemma HighFits(B: int, w: int, product: int, h: int, m: int, low: int)
    requires B >= 2 && w == B * B && w > 0 && 0 <= product < w * w
    requires product == (h * B + m) * w + low && 0 <= low < w && 0 <= m < B && h >= 0
    ensures 0 <= h < B && IsWord(B, h * B + m) && product / w == h * B + m && h % B == h
  {
    DivModUnique(product, w, h * B + m, low);
    Quotient(product, w, w);
    UpperHalf(B, h * B + m, h, m);
  }

  lemma UpperHalf(B: int, high: int, h: int, m: int)
    requires B >= 2 && high == h * B + m && 0 <= high < B * B && 0 <= m < B
    ensures 0 <= h < B && h % B == h
  {
    DivModUnique(high, B, h, m);
    Quotient(high, B, B);
    DivModUnique(h, B, 0, h);
  }

  // ----- the signed forms -----

  /** The unsigned image of a signed word. */
  function Image(W: int, a: int): int { if a < 0 then a + W else a }

  predicate IsSigned(W: int, a: int) { -W <= 2 * a < W }

  /** mulh: the operands themselves are subtracted for the signs. */
  function Mulh(B: int, a: int, b: int): int
    requires B >= 2
  {
    (Mulhu(B, Image(Words(B), a), Image(Words(B), b)) - (if a < 0 then a else 0) - (if b < 0 then b else 0)) % Words(B)
  }

  /** mulhsu */
  function Mulhsu(B: int, a: int, b: int): int
    requires B >= 2
  {
    (Mulhu(B, Image(Words(B), a), b) - (if a < 0 then a else 0)) % Words(B)
  }

  /** The high word of the true product, as MULH and MULHSU require it. */
  function TrueHigh(W: int, a: int, b: int): int
    requires W > 0
  {
    a * b / W % W
  }

  lemma DivAdd(x: int, k: int, W: int)
    requires W > 0
    ensures (x + k * W) / W == x / W + k
  {
    DivMod(x, W);
    DivModUnique(x + k * W, W, x / W + k, x % W);
  }

  lemma ModAdd(x: int, k: int, W: int)
    requires W > 0
    ensures (x + k * W) % W == x % W
  {
    DivMod(x, W);
    DivModUnique(x + k * W, W, x / W + k, x % W);
  }

  /** Two values agree modulo W exactly when their difference is a multiple of it. */
  lemma SameMod(x: int, y: int, W: int)
    requires W > 0 && -W < x - y < W
    ensures x % W == y % W <==> x == y
  {
    DivMod(x, W);
    DivMod(y, W);
    if x % W == y % W {
      var d := x / W - y / W;
      assert d * W == x - y;
      OneMore(d, W);
    }
  }

  lemma ShiftedProduct(W: int, a: int, b: int)
    requires W > 0
    ensures (a + W) * b / W == a * b / W + b && b * (a + W) / W == b * a / W + b
  {
    Distribute(a, W, b);
    Associate(b, a + W, 1);
    Associate(a, b, 1);
    Associate(W, b, 1);
    DivAdd(a * b, b, W);
  }

  /** The unsigned high word of the images, against the signed one. */
  lemma ImageHigh(W: int, a: int, b: int)
    requires W > 0
    ensures Image(W, a) * b / W == a * b / W + (if a < 0 then b else 0)
    ensures Image(W, a) * Image(W, b) / W ==
              a * b / W + (if a < 0 then b else 0) + (if b < 0 then a else 0) + (if a < 0 && b < 0 then W else 0)
  {
    ShiftedProduct(W, a, b);
    ShiftedProduct(W, b, a);
    ShiftedProduct(W, a, b + W);
  }

  lemma ImageIsWord(B: int, a: int)
    requires B >= 2 && IsSigned(Words(B), a)
    ensures IsWord(B, Image(Words(B), a))
  {
    TwoDigits(B, 0, 0);
  }

  /** mulh gives the true high word exactly when the operands have the same sign. */
  lemma MulhExact(B: int, a: int, b: int)
    requires B >= 2 && IsSigned(Words(B), a) && IsSigned(Words(B), b)
    ensures Mulh(B, a, b) == TrueHigh(Words(B), a, b) <==> (a < 0 <==> b < 0)
  {
    var W := Words(B);
    ImageIsWord(B, a);
    ImageIsWord(B, b);
    MulhuExact(B, Image(W, a), Image(W, b));
    ImageHigh(W, a, b);
    var t := a * b / W;
    if a < 0 && b < 0 {
      ModAdd(t, 1, W);
    } else if a < 0 {
      SameMod(t + b - a, t, W);
    } else if b < 0 {
      SameMod(t + a - b, t, W);
    }
  }

  /** mulhsu gives the true high word exactly when a is not negative or b is its image. */
  lemma MulhsuExact(B: int, a: int, b: int)
    requires B >= 2 && IsSigned(Words(B), a) && IsWord(B, b)
    ensures Mulhsu(B, a, b) == TrueHigh(Words(B), a, b) <==> a >= 0 || b == a + Words(B)
  {
    var W := Words(B);
    ImageIsWord(B, a);
    MulhuExact(B, Image(W, a), b);
    ImageHigh(W, a, b);
    var t := a * b / W;
    if a < 0 {
      ModAdd(t + b - a - W, 1, W);
      SameMod(t + b - a - W, t, W);
    }
  }
}
