/**
 * The seed mangling of third-party/gmp/randmts.c: a power modulo 2^n - 20023, for n == 19937 in the source.
 * GMP's integers are taken as natural numbers.
 */
module MangleSeed {
  import opened Arith

  const K: nat := 20023
  const EXPONENT: nat := 0x40118124

  // ---------------------------------------------------------------- congruence

  ghost predicate Congruent(a: nat, b: nat, m: nat) {
    m > 0 && a % m == b % m
  }

  lemma CongruentMul(a: nat, b: nat, c: nat, d: nat, m: nat)
    requires Congruent(a, b, m) && Congruent(c, d, m)
    ensures Congruent(a * c, b * d, m)
  {
    var k := ModEqual(a, b, m);
    var l := ModEqual(c, d, m);
    var x := ProductOfSums(a, b, k, c, d, l, m);
    ModAddMultiple(b * d, x, m);
  }

  lemma ProductOfSums(a: int, b: int, k: int, c: int, d: int, l: int, m: int) returns (x: int)
    requires a == b + m * k && c == d + m * l
    ensures a * c == b * d + m * x
  {
    x := k * c + b * l;
    calc {
      a * c;
      { Dist(b, m * k, c); }
      b * c + (m * k) * c;
      { Dist(d, m * l, b); MulAssoc(m, k, c); }
      b * d + b * (m * l) + m * (k * c);
      { MulAssoc(b, m, l); MulAssoc(m, b, l); }
      b * d + m * (b * l) + m * (k * c);
      { Dist(k * c, b * l, m); }
      b * d + m * x;
    }
  }

  // ---------------------------------------------------------------- the reduction

  /** Folding the high part back in keeps the residue and makes the number smaller. */
  lemma Fold(r: nat, n: nat)
    requires K < Pow2(n) && ShiftRight(r, n) != 0
    ensures LowBits(r, n) + ShiftRight(r, n) * K < r
    ensures Congruent(LowBits(r, n) + ShiftRight(r, n) * K, r, Pow2(n) - K)
  {
    var t, m, p := ShiftRight(r, n), LowBits(r, n), Pow2(n) - K;
    DivMod(r, Pow2(n));
    Dist(p, K, t);
    MulLe(1, p, 1, t);
    ModAddMultiple(m + t * K, t, p);
  }

  lemma BelowPower(r: nat, n: nat)
    requires ShiftRight(r, n) == 0
    ensures r < Pow2(n)
  {
    DivMod(r, Pow2(n));
    assert Pow2(n) * 0 == 0;
  }

  /** The loop after the label reduce: the same residue, below 2^n. */
  method Reduce(r0: nat, n: nat) returns (r: nat)
    requires K < Pow2(n)
    ensures r < Pow2(n) && Congruent(r, r0, Pow2(n) - K)
  {
    r := r0;
    while true
      invariant Congruent(r, r0, Pow2(n) - K)
      decreases r
    {
      var t := ShiftRight(r, n);
      if t == 0 { break; }
      Fold(r, n);
      r := LowBits(r, n);
      r := r + t * K;
    }
    BelowPower(r, n);
  }

  // ---------------------------------------------------------------- the bits of the exponent

  lemma {:induction false} AndBit(x: nat, j: nat)
    ensures BitAnd(x, Pow2(j)) == Bit(x, j) * Pow2(j)
  {
    if j == 0 {
      DivModUnique(x, 1, x, 0);
      if x > 0 { assert BitAnd(x / 2, 0) == 0; }
    } else if x == 0 {
      ModSelf(0, Pow2(j));
    } else {
      AndBit(x / 2, j - 1);
      HalveMod(x, Pow2(j - 1));
    }
  }

  /** One more bit of the exponent doubles what has been read so far and adds the bit. */
  lemma NextExponent(x: nat, j: nat)
    ensures ShiftRight(x, j) == 2 * ShiftRight(x, j + 1) + Bit(x, j)
  {
    DivDiv(x, Pow2(j), 2);
    assert Pow2(j + 1) == Pow2(j) * 2;
  }

  /** The bits below position j of two numbers agree. */
  ghost predicate AgreeBelow(x: nat, y: nat, j: nat) {
    LowBits(x, j) == LowBits(y, j)
  }

  lemma LowBitsSplit(x: nat, j: nat)
    ensures LowBits(x, j + 1) == Bit(x, j) * Pow2(j) + LowBits(x, j)
  {
    NextExponent(x, j);
    DivMod(x, Pow2(j));
    DivMod(x, Pow2(j + 1));
    var p, h := Pow2(j), ShiftRight(x, j + 1);
    Dist(2 * h, Bit(x, j), p);
    MulAssoc(p, 2, h);
    MulLe(Bit(x, j), 1, p, p);
    DivModUnique(x, Pow2(j + 1), h, Bit(x, j) * p + LowBits(x, j));
  }

  lemma AgreeOnBit(x: nat, y: nat, j: nat)
    requires AgreeBelow(x, y, j + 1)
    ensures Bit(x, j) == Bit(y, j) && AgreeBelow(x, y, j)
  {
    LowBitsSplit(x, j);
    LowBitsSplit(y, j);
    var p := Pow2(j);
    SameDigits(Bit(x, j), LowBits(x, j), Bit(y, j), LowBits(y, j), p);
  }

  lemma SameDigits(a: nat, r: nat, b: nat, s: nat, p: nat)
    requires r < p && s < p && a * p + r == b * p + s
    ensures a == b && r == s
  {
    QuotientUnique(p, a, r, b, s);
  }

  lemma AndBitSet(x: nat, j: nat)
    requires BitAnd(x, Pow2(j)) != 0
    ensures BitAnd(x, Pow2(j)) == Pow2(j) && ShiftRight(x, j) % 2 == 1
  {
    AndBit(x, j);
  }

  /** Clearing the bit that was just used leaves the bits below it. */
  lemma ClearBit(x: nat, j: nat)
    requires BitAnd(x, Pow2(j)) != 0
    ensures x >= Pow2(j) == BitAnd(x, Pow2(j))
    ensures AgreeBelow(x - Pow2(j), x, j) && Bit(x - Pow2(j), j) == 0
  {
    AndBitSet(x, j);
    OneShiftLess(x, j);
    EvenAfterOdd(ShiftRight(x, j), ShiftRight(x - Pow2(j), j));
  }

  lemma EvenAfterOdd(q: nat, next: nat)
    requires q % 2 == 1 && next == q - 1
    ensures next % 2 == 0
  {}

  lemma OneShiftLess(x: nat, j: nat)
    requires ShiftRight(x, j) >= 1
    ensures x >= Pow2(j)
    ensures ShiftRight(x - Pow2(j), j) == ShiftRight(x, j) - 1 && LowBits(x - Pow2(j), j) == LowBits(x, j)
  {
    DivMod(x, Pow2(j));
    OneLess(x, Pow2(j), ShiftRight(x, j), LowBits(x, j));
  }

  lemma OneLess(x: nat, p: nat, q: nat, m: nat)
    requires q >= 1 && x == p * q + m && m < p
    ensures x >= p && (x - p) / p == q - 1 && (x - p) % p == m
  {
    MulLe(p, p, 1, q);
    Dist(q, 1, p);
    DivModUnique(x - p, p, q - 1, m);
  }

  // ---------------------------------------------------------------- the power

  /** Squaring, and one more factor where the bit is set, is the power for one more bit. */
  lemma NextPower(b: nat, x: nat, j: nat)
    ensures Pow(b, ShiftRight(x, j))
         == Pow(b, ShiftRight(x, j + 1)) * Pow(b, ShiftRight(x, j + 1)) * (if Bit(x, j) == 1 then b else 1)
  {
    var q := ShiftRight(x, j + 1);
    NextExponent(x, j);
    PowAdd(b, q, q);
    if Bit(x, j) == 1 { assert Pow(b, 2 * q + 1) == b * Pow(b, 2 * q); }
  }

  /** What the body of the do loop starts from: the square of what has been read so far. */
  lemma Squared(r: nat, b: nat, j: nat, m: nat)
    requires Congruent(r, Pow(b, ShiftRight(EXPONENT, j + 1)), m)
    ensures Bit(EXPONENT, j) == 0 ==> Congruent(r * r, Pow(b, ShiftRight(EXPONENT, j)), m)
    ensures Bit(EXPONENT, j) == 1 ==> OneFactorShort(r * r, b, j, m)
  {
    var s := Pow(b, ShiftRight(EXPONENT, j + 1));
    CongruentMul(r, s, r, s, m);
    NextPower(b, EXPONENT, j);
  }

  ghost predicate OneFactorShort(r: nat, b: nat, j: nat, m: nat) {
    exists s: nat :: Congruent(r, s, m) && IsTimes(Pow(b, ShiftRight(EXPONENT, j)), s, b)
  }

  ghost predicate IsTimes(x: nat, s: nat, b: nat) {
    x == s * b
  }

  lemma LastFactor(r: nat, b: nat, j: nat, m: nat)
    requires OneFactorShort(r, b, j, m)
    ensures Congruent(r * b, Pow(b, ShiftRight(EXPONENT, j)), m)
  {
    var s: nat :| Congruent(r, s, m) && IsTimes(Pow(b, ShiftRight(EXPONENT, j)), s, b);
    CongruentMul(r, s, b, b, m);
  }

  lemma ReducedShort(r: nat, r': nat, b: nat, j: nat, m: nat)
    requires OneFactorShort(r, b, j, m) && Congruent(r', r, m)
    ensures OneFactorShort(r', b, j, m)
  {
    var s: nat :| Congruent(r, s, m) && IsTimes(Pow(b, ShiftRight(EXPONENT, j)), s, b);
    assert Congruent(r', s, m);
  }

  /** The test of the exponent's bit, and e &= ~bit where it is set. */
  method TestAndClear(e: nat, bit: nat, ghost j: nat) returns (found: bool, e': nat)
    requires bit == Pow2(j)
    ensures found <==> Bit(e, j) == 1
    ensures found ==> AgreeBelow(e', e, j) && Bit(e', j) == 0
    ensures !found ==> e' == e
  {
    AndBit(e, j);
    found, e' := BitAnd(e, bit) != 0, e;
    if found {
      ClearBit(e, j);
      e' := e - BitAnd(e, bit);
    }
  }

  /** The body of the do loop, for the bit of weight 2^j. */
  method PowerBit(r0: nat, e0: nat, b: nat, bit: nat, ghost j: nat, n: nat) returns (r: nat, e: nat)
    requires K < Pow2(n) && bit == Pow2(j) && AgreeBelow(e0, EXPONENT, j + 1)
    requires Congruent(r0, Pow(b, ShiftRight(EXPONENT, j + 1)), Pow2(n) - K)
    ensures r < Pow2(n) && AgreeBelow(e, EXPONENT, j)
    ensures Congruent(r, Pow(b, ShiftRight(EXPONENT, j)), Pow2(n) - K)
  {
    ghost var m := Pow2(n) - K;
    AgreeOnBit(e0, EXPONENT, j);
    Squared(r0, b, j, m);
    e := e0;
    r := r0 * r0;
    while true
      invariant AgreeBelow(e, EXPONENT, j) && Bit(e, j) <= 1
      invariant Bit(e, j) == 1 ==> OneFactorShort(r, b, j, m)
      invariant Bit(e, j) == 0 ==> Congruent(r, Pow(b, ShiftRight(EXPONENT, j)), m)
      decreases Bit(e, j)
    {
      var r' := Reduce(r, n);
      if Bit(e, j) == 1 { ReducedShort(r, r', b, j, m); }
      r := r';
      var found;
      found, e := TestAndClear(e, bit, j);
      if !found { break; }
      LastFactor(r, b, j, m);
      r := r * b;
    }
  }

  lemma TopBit()
    ensures Pow2(29) == 0x2000_0000 && Pow2(30) == 0x4000_0000
  {
    assert Pow2(7) == 128 && Pow2(8) == 256;
    Pow2Add(8, 7);
    Pow2Add(15, 15);
    Pow2Add(15, 14);
  }

  /** mangle_seed: b to the fixed exponent, modulo 2^n - 20023, and below 2^n. */
  method Mangle(b: nat, n: nat) returns (r: nat)
    requires K < Pow2(n)
    ensures r < Pow2(n) && Congruent(r, Pow(b, EXPONENT), Pow2(n) - K) && EXPONENT == 1074888996 && K == 20023
  {
    var e: nat := EXPONENT;
    var bit: nat := 0x2000_0000;
    ghost var j := 30;
    TopBit();
    r := b;
    assert ShiftRight(EXPONENT, 30) == 1;
    assert Pow(b, 1) == b * Pow(b, 0);
    while true
      invariant 1 <= j <= 30 && bit == Pow2(j - 1) && AgreeBelow(e, EXPONENT, j)
      invariant Congruent(r, Pow(b, ShiftRight(EXPONENT, j)), Pow2(n) - K)
      decreases j
    {
      r, e := PowerBit(r, e, b, bit, j - 1, n);
      j := j - 1;
      bit := bit / 2;
      if bit == 0 { break; }
    }
    DivModUnique(EXPONENT, 1, EXPONENT, 0);
  }
}
