/**
 * The portable two-word primitives of third-party/gmp/longlong.h, on words of any even width 2 * h.
 * Every word operation is taken modulo B * B, where B == 2^h is the base of a half word.
 */
module LongLong {
  import opened Arith

  /** The value that a machine word of modulus M keeps of x. */
  function Word(x: int, M: nat): (w: nat)
    requires M > 0
    ensures w < M
  {
    x % M
  }

  lemma WordIs(x: int, M: nat)
    requires M > 0
    ensures 0 <= x < M ==> Word(x, M) == x
    ensures M <= x < 2 * M ==> Word(x, M) == x - M
    ensures 0 <= x + M < M ==> Word(x, M) == x + M
  {
    if 0 <= x < M { DivModUnique(x, M, 0, x); }
    if M <= x < 2 * M { DivModUnique(x, M, 1, x - M); }
    if 0 <= x + M < M { DivModUnique(x, M, -1, x + M); }
  }

  lemma HalfIsBelow(u: nat, B: nat)
    requires B > 0 && u < B * B
    ensures u / B < B && u == u / B * B + u % B && u % B < B
  {
    DivMod(u, B);
    if u / B >= B { MulLe(B, B, B, u / B); }
  }

  /** Shifting a word up by half its width keeps its low half. */
  lemma ShiftUp(x: nat, B: nat, M: nat)
    requires B > 0 && M == B * B
    ensures Word(x * B, M) == (x % B) * B <= M - B
    ensures x * B == (x / B) * M + (x % B) * B
  {
    var q, m := x / B, x % B;
    DivMod(x, B);
    ShiftUpBy(q, m, B, M);
    DivModUnique(x * B, M, q, m * B);
  }

  lemma ShiftUpBy(q: nat, m: nat, B: nat, M: nat)
    requires B > 0 && M == B * B && m < B
    ensures (B * q + m) * B == q * M + m * B && 0 <= m * B <= M - B
  {
    MulAssoc(q, B, B);
    MulLe(m, B - 1, B, B);
  }

  /** __ll_highpart and __ll_lowpart. */
  method Halves(u: nat, B: nat, M: nat) returns (high: nat, low: nat)
    requires B > 0 && M == B * B && u < M
    ensures high < B && low < B && u == high * B + low && high == u / B && low == u % B
  {
    HalfIsBelow(u, B);
    high, low := u / B, u % B;
  }

  // ---------------------------------------------------------------- umul_ppmm

  lemma HalfProduct(a: nat, b: nat, B: nat, M: nat)
    requires a < B && b < B && M == B * B
    ensures a * b <= M - 2 * B + 1 && Word(a * b, M) == a * b
  {
    ProductBelow(a, b, B, M);
    WordIs(a * b, M);
  }

  lemma ProductBelow(a: nat, b: nat, B: nat, M: nat)
    requires a < B && b < B && M == B * B
    ensures a * b <= M - 2 * B + 1 < M
  {
    MulLe(a, B - 1, b, B - 1);
    SquareBelow(B, M);
  }

  lemma SquareBelow(B: nat, M: nat)
    requires B > 0 && M == B * B
    ensures (B - 1) * (B - 1) == M - 2 * B + 1 && M - 2 * B + 1 < M
  {
    Dist(B, 1, B - 1);
  }

  lemma SchoolProduct(u: nat, v: nat, ul: nat, uh: nat, vl: nat, vh: nat, B: nat, M: nat)
    requires u == uh * B + ul && v == vh * B + vl && M == B * B
    ensures u * v == (uh * vh) * M + (ul * vh + uh * vl) * B + ul * vl
  {
    assert (uh * B) * (vh * B) == (uh * vh) * M by {
      MulAssoc(uh * B, vh, B);
      MulAssoc(uh, vh, B);
    }
    assert u * v == (uh * B) * v + ul * v;
    assert (uh * B) * v == (uh * B) * (vh * B) + (uh * B) * vl;
    assert (uh * B) * vl == (uh * vl) * B;
    assert ul * v == ul * (vh * B) + ul * vl;
    assert ul * (vh * B) == (ul * vh) * B;
  }

  /** The cross products with their carry, put back into place, give the whole product. */
  lemma Recombine(p0: nat, p12: nat, p3: nat, carry: nat, x1: nat, x3: nat, c0: nat, l0: nat, q1: nat, r1: nat, B: nat,
                  M: nat)
    requires B > 0 && c0 == p0 / B && l0 == p0 % B && p12 + c0 == x1 + carry * M && x3 == p3 + carry * B
    requires x1 * B == q1 * M + r1
    ensures (x3 + q1) * M + (r1 + l0) == p3 * M + p12 * B + p0
  {
    DivMod(p0, B);
    RecombineSum(p0, p12, p3, carry, x1, x3, c0, l0, q1, r1, B, M);
  }

  lemma RecombineSum(p0: nat, p12: nat, p3: nat, carry: nat, x1: nat, x3: nat, c0: nat, r0: nat, q1: nat, r1: nat,
                     B: nat, M: nat)
    requires p12 + c0 == x1 + carry * M && x1 * B == q1 * M + r1 && p0 == B * c0 + r0 && x3 == p3 + carry * B
    ensures (x3 + q1) * M + r1 + r0 == p3 * M + p12 * B + p0
  {
    calc {
      (x3 + q1) * M + r1 + r0;
      { assert x3 * M == p3 * M + (carry * B) * M; }
      p3 * M + (carry * B) * M + q1 * M + r1 + r0;
      p3 * M + (carry * B) * M + x1 * B + r0;
      { assert (carry * B) * M == (carry * M) * B; }
      p3 * M + (carry * M + x1) * B + r0;
      p3 * M + p12 * B + B * c0 + r0;
    }
  }

  lemma HighWordFits(u: nat, v: nat, w1: nat, w0: nat, M: nat)
    requires u < M && v < M && w1 * M + w0 == u * v
    ensures w1 < M
  {
    MulLe(u, M - 1, v, M);
    if w1 >= M { MulLe(M, w1, M, M); }
  }

  /** The two words are those of the product, and neither addition overflows. */
  lemma TwoWords(u: nat, v: nat, p0: nat, p1: nat, x2: nat, p3: nat, c0: nat, l0: nat, carry: nat, x1: nat, x3: nat,
                 w1: nat, w0: nat, B: nat, M: nat)
    requires B > 0 && M == B * B && u < M && v < M && u * v == p3 * M + (p1 + x2) * B + p0
    requires c0 == p0 / B && l0 == p0 % B && p1 + x2 + c0 == x1 + carry * M && x3 == p3 + carry * B
    requires w1 == Word(x3 + x1 / B, M) && w0 == Word(Word(x1 * B, M) + l0, M)
    ensures w1 * M + w0 == u * v
  {
    ShiftUp(x1, B, M);
    Recombine(p0, p1 + x2, p3, carry, x1, x3, c0, l0, x1 / B, Word(x1 * B, M), B, M);
    Unreduced(u, v, x3 + x1 / B, Word(x1 * B, M) + l0, M);
  }

  lemma Unreduced(u: nat, v: nat, w1: nat, w0: nat, M: nat)
    requires u < M && v < M && w1 * M + w0 == u * v && w0 < M
    ensures Word(w1, M) == w1 && Word(w0, M) == w0
  {
    HighWordFits(u, v, w1, w0, M);
    WordIs(w1, M);
    WordIs(w0, M);
  }

  /** The additions of the macro, with the one carry they can produce. */
  method AddCross(c0: nat, p1: nat, x2: nat, p3: nat, B: nat, M: nat) returns (x1: nat, x3: nat, ghost carry: nat)
    requires B >= 2 && c0 < B
    requires p1 <= M - 2 * B + 1 && x2 <= M - 2 * B + 1 && p3 <= M - 2 * B + 1
    ensures p1 + x2 + c0 == x1 + carry * M && x3 == p3 + carry * B && x1 < M
  {
    WordIs(p1 + c0, M);
    x1 := Word(p1 + c0, M);
    WordIs(x1 + x2, M);
    x1 := Word(x1 + x2, M);
    x3, carry := p3, 0;
    if x1 < x2 {
      WordIs(x3 + B, M);
      x3 := Word(x3 + B, M);
      carry := 1;
    }
  }

  method UmulPpmm(u: nat, v: nat, h: nat) returns (w1: nat, w0: nat)
    requires h >= 1 && u < Pow2(h) * Pow2(h) && v < Pow2(h) * Pow2(h)
    ensures w1 * (Pow2(h) * Pow2(h)) + w0 == u * v
    ensures w1 < Pow2(h) * Pow2(h) && w0 < Pow2(h) * Pow2(h)
  {
    var B := Pow2(h);
    w1, w0 := UmulWords(u, v, B, B * B);
  }

  /** The half products, which together are the product of the two words. */
  method HalfProducts(u: nat, v: nat, B: nat, M: nat) returns (x0: nat, x1: nat, x2: nat, x3: nat)
    requires B >= 2 && M == B * B && u < M && v < M
    ensures x0 <= M - 2 * B + 1 && x1 <= M - 2 * B + 1 && x2 <= M - 2 * B + 1 && x3 <= M - 2 * B + 1
    ensures u * v == x3 * M + (x1 + x2) * B + x0
  {
    var uh, ul := Halves(u, B, M);
    var vh, vl := Halves(v, B, M);
    HalfProduct(ul, vl, B, M);
    HalfProduct(ul, vh, B, M);
    HalfProduct(uh, vl, B, M);
    HalfProduct(uh, vh, B, M);
    SchoolProduct(u, v, ul, uh, vl, vh, B, M);
    x0, x1, x2, x3 := Word(ul * vl, M), Word(ul * vh, M), Word(uh * vl, M), Word(uh * vh, M);
  }

  /** The last two assignments of the macro. */
  method PlaceWords(l0: nat, x1: nat, x3: nat, B: nat, M: nat) returns (w1: nat, w0: nat)
    requires B > 0 && M > 0
    ensures w1 == Word(x3 + x1 / B, M) && w0 == Word(Word(x1 * B, M) + l0, M)
  {
    w1 := Word(x3 + x1 / B, M);
    w0 := Word(Word(x1 * B, M) + l0, M);
  }

  method UmulWords(u: nat, v: nat, B: nat, M: nat) returns (w1: nat, w0: nat)
    requires B >= 2 && M == B * B && u < M && v < M
    ensures w1 * M + w0 == u * v && w1 < M && w0 < M
  {
    var x0, p1, x2, p3 := HalfProducts(u, v, B, M);
    var c0, l0 := Halves(x0, B, M);
    var x1, x3, carry := AddCross(c0, p1, x2, p3, B, M);
    w1, w0 := PlaceWords(l0, x1, x3, B, M);
    TwoWords(u, v, x0, p1, x2, p3, c0, l0, carry, x1, x3, w1, w0, B, M);
  }

  // ---------------------------------------------------------------- __udiv_qrnnd_c

  /** The guess for a half digit is never too small and at most two too large, and fits a word with its product. */
  lemma Guess(n: nat, low: nat, d: nat, d1: nat, d0: nat, q: nat, r: nat, B: nat, M: nat)
    requires B >= 2 && M == B * B && n < d < M <= 2 * d && low < B
    requires d == d1 * B + d0 && d0 < B && n == q * d1 + r && r < d1
    ensures q <= B + 1 && q * d0 < M && 0 <= r * B <= M - B
    ensures (r * B + low) - q * d0 == (n * B + low) - q * d
    ensures -2 * d <= (r * B + low) - q * d0 < d
  {
    GuessRemainder(n, d, d1, d0, q, r, B);
    GuessIsSmall(n, d, d1, d0, q, B, M);
    GuessBounds(q, d1, d0, r, B, M);
  }

  lemma GuessRemainder(n: nat, d: nat, d1: nat, d0: nat, q: nat, r: nat, B: nat)
    requires d == d1 * B + d0 && n == q * d1 + r
    ensures r * B - q * d0 == n * B - q * d
  {
    Dist(q * d1, r, B);
    Dist(d1 * B, d0, q);
    MulAssoc(q, d1, B);
  }

  lemma GuessBounds(q: nat, d1: nat, d0: nat, r: nat, B: nat, M: nat)
    requires B >= 2 && M == B * B && q <= B + 1 && d0 < B && r < d1
    ensures q * d0 < M && 0 <= r * B <= d1 * B - B
  {
    MulLe(r, d1 - 1, B, B);
    Dist(d1, 1, B);
    MulLe(q, B + 1, d0, B - 1);
    Dist(B, 1, B - 1);
    Dist(B, 1, B);
  }

  lemma GuessIsSmall(n: nat, d: nat, d1: nat, d0: nat, q: nat, B: nat, M: nat)
    requires B >= 2 && M == B * B && n < d && M <= 2 * d && d == d1 * B + d0 && d0 < B && q * d1 <= n
    ensures q <= B + 1
  {
    if q >= B + 2 {
      var t := d1 * B;
      MulLe(B + 2, q, d1, d1);
      Dist(B, 2, d1);
      assert 2 * d1 <= B - 2;
      MulLe(2 * d1, B - 2, B, B);
      Dist(B, 2, B);
      MulAssoc(2, d1, B);
    }
  }

  lemma DigitFits(n: nat, low: nat, d: nat, q: int, r: int, B: nat)
    requires n < d && low < B && q * d + r == n * B + low && 0 <= r < d
    ensures 0 <= q < B
  {
    MulGe(d, q + 1);
    Dist(q, 1, d);
    MulLe(n + 1, d, B, B);
    Dist(n, 1, B);
    if q >= B { MulLe(B, q, d, d); }
  }

  /** The corrections: with E == R - m the wanted remainder is E, E + d or E + 2 * d, computed modulo the word. */
  method Correct(q1: nat, R: nat, m: nat, d: nat, M: nat) returns (q: int, r: nat, ghost steps: nat)
    requires R < d && m < M && d < M && -2 * d <= R - m < d
    ensures steps <= 2 && q == q1 - steps && r == R - m + (if steps == 0 then 0 else if steps == 1 then d else 2 * d)
    ensures r < d
  {
    q, r, steps := q1, R, 0;
    if r < m {
      q, steps := q - 1, 1;
      WordIs(r + d, M);
      r := Word(r + d, M);
      if r >= d {
        if r < m {
          q, steps := q - 1, 2;
          WordIs(r + d, M);
          r := Word(r + d, M);
        }
      }
    }
    WordIs(r - m, M);
    r := Word(r - m, M);
  }

  lemma TopHalfPositive(d: nat, B: nat, M: nat)
    requires B >= 2 && M == B * B && M <= 2 * d
    ensures d / B > 0
  {
    MulLe(2, B, B, B);
    DivMod(d, B);
  }

  /** What the corrections are given, and what they make of it: the half digit and its remainder. */
  lemma Corrected(n: nat, low: nat, d: nat, q1: nat, d0: nat, R: nat, steps: nat, q: int, r: nat, B: nat)
    requires n < d && low < B && R - q1 * d0 == (n * B + low) - q1 * d
    requires q == q1 - steps && r < d && steps <= 2
    requires r == R - q1 * d0 + (if steps == 0 then 0 else if steps == 1 then d else 2 * d)
    ensures q * d + r == n * B + low && 0 <= q < B
  {
    Dist(q1, steps, d);
    assert steps * d == if steps == 0 then 0 else if steps == 1 then d else 2 * d;
    DigitFits(n, low, d, q, r, B);
  }

  /** A digit or-ed below a shifted one. */
  method AppendDigit(x: nat, low: nat, h: nat, B: nat, M: nat) returns (w: nat)
    requires B == Pow2(h) && low < B && x * B < M
    ensures w == x * B + low
  {
    WordIs(x * B, M);
    BitOrIsSum(x, low, h);
    w := BitOr(Word(x * B, M), low);
  }

  method GuessQuotient(n: nat, d1: nat) returns (q: nat, r: nat)
    requires d1 > 0
    ensures n == q * d1 + r && r < d1
  {
    DivMod(n, d1);
    q := n / d1;
    r := n - q * d1;
  }

  /** The first guess q1, with the words R and m whose difference is what q1 leaves of the dividend. */
  method GuessDigit(n: nat, low: nat, d: nat, d1: nat, d0: nat, h: nat, B: nat, M: nat)
    returns (q1: nat, R: nat, m: nat)
    requires h >= 1 && B == Pow2(h) && M == B * B && n < d < M <= 2 * d && low < B
    requires d == d1 * B + d0 && d0 < B && d1 > 0
    ensures m == q1 * d0 && R - m == (n * B + low) - q1 * d
    ensures R < d && m < M && -2 * d <= R - m < d
  {
    var r1;
    q1, r1 := GuessQuotient(n, d1);
    Guess(n, low, d, d1, d0, q1, r1, B, M);
    GuessBounds(q1, d1, d0, r1, B, M);
    WordIs(q1 * d0, M);
    m := Word(q1 * d0, M);
    R := AppendDigit(r1, low, h, B, M);
  }

  /** One half digit of the division: n * B + low by d, for n < d. The guess is corrected at most twice. */
  method HalfDigit(n: nat, low: nat, d: nat, h: nat, B: nat, M: nat) returns (q: nat, r: nat)
    requires h >= 1 && B == Pow2(h) && M == B * B && n < d < M <= 2 * d && low < B
    ensures q * d + r == n * B + low && r < d && q < B
  {
    var d1, d0 := d / B, d % B;
    HalfIsBelow(d, B);
    TopHalfPositive(d, B, M);
    var q1, R, m := GuessDigit(n, low, d, d1, d0, h, B, M);
    var q', r', steps := Correct(q1, R, m, d, M);
    Corrected(n, low, d, q1, d0, R, steps, q', r', B);
    q, r := q', r';
  }

  lemma TwoDigits(q1: nat, q0: nat, r1: nat, r0: nat, n1: nat, nh: nat, nl: nat, n0: nat, d: nat, B: nat, M: nat)
    requires M == B * B && n0 == nh * B + nl
    requires q1 * d + r1 == n1 * B + nh && q0 * d + r0 == r1 * B + nl
    ensures (q1 * B + q0) * d + r0 == n1 * M + n0
  {
    calc {
      (q1 * B + q0) * d + r0;
      { Dist(q1 * B, q0, d); }
      (q1 * B) * d + q0 * d + r0;
      { assert (q1 * B) * d == (q1 * d) * B; }
      (q1 * d) * B + r1 * B + nl;
      { Dist(q1 * d, r1, B); }
      (n1 * B + nh) * B + nl;
      { Dist(n1 * B, nh, B); MulAssoc(n1, B, B); }
      n1 * M + nh * B + nl;
    }
  }

  /** __udiv_qrnnd_c: the two-word number n1, n0 divided by d, whose top bit is set. */
  method UdivQrnnd(n1: nat, n0: nat, d: nat, h: nat) returns (q: nat, r: nat)
    requires h >= 1
    requires n1 < d < Pow2(h) * Pow2(h) <= 2 * d && n0 < Pow2(h) * Pow2(h)
    ensures q * d + r == n1 * (Pow2(h) * Pow2(h)) + n0 && r < d
    ensures q < Pow2(h) * Pow2(h)
  {
    var B := Pow2(h);
    var M := B * B;
    var nh, nl := Halves(n0, B, M);
    q, r := DivideDigits(n1, n0, nh, nl, d, h, B, M);
  }

  method DivideDigits(n1: nat, ghost n0: nat, nh: nat, nl: nat, d: nat, h: nat, B: nat, M: nat)
    returns (q: nat, r: nat)
    requires h >= 1 && B == Pow2(h) && M == B * B && n1 < d < M <= 2 * d
    requires nh < B && nl < B && n0 == nh * B + nl
    ensures q * d + r == n1 * M + n0 && r < d && q < M
  {
    var q1, r1 := HalfDigit(n1, nh, d, h, B, M);
    var q0, r0 := HalfDigit(r1, nl, d, h, B, M);
    TwoDigits(q1, q0, r1, r0, n1, nh, nl, n0, d, B, M);
    ShiftUpBy(0, q1, B, M);
    q := AppendDigit(q1, q0, h, B, M);
    r := r0;
  }
}
