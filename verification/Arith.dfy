/** Integer facts that the arithmetic modules share. */
module Arith {

  function Pow(b: nat, e: nat): (p: nat)
    ensures b > 0 ==> p > 0
  {
    if e == 0 then 1 else b * Pow(b, e - 1)
  }

  function Pow2(e: nat): (p: nat)
    ensures p > 0
  {
    if e == 0 then 1 else 2 * Pow2(e - 1)
  }

  lemma {:induction false} PowAdd(b: nat, x: nat, y: nat)
    ensures Pow(b, x + y) == Pow(b, x) * Pow(b, y)
  {
    if x > 0 {
      PowAdd(b, x - 1, y);
      MulAssoc(b, Pow(b, x - 1), Pow(b, y));
    }
  }

  lemma MulAssoc(a: int, b: int, c: int)
    ensures a * (b * c) == (a * b) * c
  {}

  lemma {:induction false} Pow2Add(x: nat, y: nat)
    ensures Pow2(x + y) == Pow2(x) * Pow2(y)
  {
    if x > 0 {
      Pow2Add(x - 1, y);
      assert Pow2(x + y) == 2 * Pow2(x - 1 + y);
    }
  }

  lemma {:induction false} PowMono(a: nat, b: nat, e: nat)
    requires a <= b
    ensures Pow(a, e) <= Pow(b, e)
  {
    if e > 0 {
      PowMono(a, b, e - 1);
      MulLe(a, b, Pow(a, e - 1), Pow(b, e - 1));
    }
  }

  lemma MulLe(a: nat, b: nat, x: nat, y: nat)
    requires a <= b && x <= y
    ensures a * x <= b * y
  {
    assert b * y - a * x == b * (y - x) + (b - a) * x;
    assert b * (y - x) >= 0 && (b - a) * x >= 0;
  }

  lemma Dist(a: int, b: int, c: int)
    ensures (a + b) * c == a * c + b * c && c * (a + b) == c * a + c * b
    ensures (a - b) * c == a * c - b * c && c * (a - b) == c * a - c * b
  {}

  lemma MulGe(b: int, k: int)
    requires b > 0
    ensures k >= 1 ==> b * k >= b
    ensures k <= -1 ==> b * k <= -b
    ensures k >= 0 ==> b * k >= 0
  {
    assert b * k == b * (k - 1) + b;
    assert b * k == b * (k + 1) - b;
  }

  lemma DivMod(a: int, b: int)
    requires b > 0
    ensures a == b * (a / b) + a % b && 0 <= a % b < b
  {}

  /** The quotient and the remainder of a division are unique. */
  lemma DivModUnique(a: int, b: int, q: int, r: int)
    requires b > 0 && a == b * q + r && 0 <= r < b
    ensures a / b == q && a % b == r
  {
    DivMod(a, b);
    QuotientUnique(b, q, r, a / b, a % b);
  }

  lemma QuotientUnique(b: int, q: int, r: int, q': int, r': int)
    requires b > 0 && b * q + r == b * q' + r' && 0 <= r < b && 0 <= r' < b
    ensures q == q' && r == r'
  {
    assert b * (q - q') == r' - r;
    MulGe(b, q - q');
  }

  lemma ModSelf(a: int, b: int)
    requires 0 <= a < b
    ensures a % b == a && a / b == 0
  {
    DivModUnique(a, b, 0, a);
  }

  lemma ModAddMultiple(a: int, k: int, b: int)
    requires b > 0
    ensures (a + b * k) % b == a % b && (a + b * k) / b == a / b + k
  {
    var q, r := a / b, a % b;
    assert a + b * k == b * (q + k) + r by {
      assert a == b * q + r;
      assert b * (q + k) == b * q + b * k;
    }
    DivModUnique(a + b * k, b, q + k, r);
  }

  lemma ModEqual(a: int, c: int, b: int) returns (k: int)
    requires b > 0 && a % b == c % b
    ensures a == c + b * k
  {
    k := a / b - c / b;
    assert b * k == b * (a / b) - b * (c / b);
  }

  function BitOr(x: nat, y: nat): nat {
    if x == 0 && y == 0 then 0
    else (if x % 2 == 1 || y % 2 == 1 then 1 else 0) + 2 * BitOr(x / 2, y / 2)
  }

  lemma {:induction false} BitOrZero(x: nat)
    ensures BitOr(x, 0) == x
  {
    if x > 0 { BitOrZero(x / 2); }
  }

  /** A value below 2^h can be or-ed into the h low bits of a shifted value. */
  lemma {:induction false} BitOrIsSum(x: nat, y: nat, h: nat)
    requires y < Pow2(h)
    ensures BitOr(x * Pow2(h), y) == x * Pow2(h) + y
  {
    if h == 0 {
      BitOrZero(x);
      assert x * Pow2(0) == x;
    } else {
      var p := Pow2(h - 1);
      assert x * Pow2(h) == 2 * (x * p);
      BitOrIsSum(x, y / 2, h - 1);
      if x * p == 0 && y == 0 { assert BitOr(0, 0) == 0; }
    }
  }

  lemma {:induction false} BitOrComm(x: nat, y: nat)
    ensures BitOr(x, y) == BitOr(y, x)
  {
    if x != 0 || y != 0 { BitOrComm(x / 2, y / 2); }
  }

  function BitAnd(x: nat, y: nat): nat {
    if x == 0 || y == 0 then 0
    else (if x % 2 == 1 && y % 2 == 1 then 1 else 0) + 2 * BitAnd(x / 2, y / 2)
  }

  /** Masking with 2^h - 1 keeps the h low bits. */
  lemma {:induction false} BitAndMask(x: nat, h: nat)
    ensures BitAnd(x, Pow2(h) - 1) == x % Pow2(h)
  {
    var p := Pow2(h);
    if h == 0 {
    } else if x == 0 {
      ModSelf(0, p);
    } else {
      var m := Pow2(h - 1);
      BitAndMask(x / 2, h - 1);
      assert p == 2 * m && (p - 1) / 2 == m - 1 && (p - 1) % 2 == 1;
      HalveMod(x, m);
    }
  }

  lemma HalveMod(x: nat, m: nat)
    requires m > 0
    ensures x % (2 * m) == x % 2 + 2 * ((x / 2) % m)
    ensures x / (2 * m) == (x / 2) / m
  {
    var q, r := (x / 2) / m, (x / 2) % m;
    DivMod(x / 2, m);
    assert (2 * m) * q == 2 * (m * q);
    DivModUnique(x, 2 * m, q, x % 2 + 2 * r);
  }

  lemma DivDiv(x: nat, a: nat, b: nat)
    requires a > 0 && b > 0
    ensures a * b > 0 && x / (a * b) == (x / a) / b
  {
    MulLe(1, a, 1, b);
    var q, r := x / a, x % a;
    var q', r' := q / b, q % b;
    DivMod(x, a);
    DivMod(q, b);
    DivDivSum(x, a, b, q, r, q', r');
    DivModUnique(x, a * b, q', a * r' + r);
  }

  lemma DivDivSum(x: nat, a: nat, b: nat, q: nat, r: nat, q': nat, r': nat)
    requires x == a * q + r && r < a && q == b * q' + r' && r' < b
    ensures x == (a * b) * q' + (a * r' + r) && 0 <= a * r' + r < a * b
  {
    Dist(b * q', r', a);
    MulAssoc(a, b, q');
    MulLe(a, a, r', b - 1);
    Dist(b, 1, a);
  }

  lemma DivNat(x: nat, p: nat)
    requires p > 0
    ensures x / p >= 0
  {
    DivMod(x, p);
    MulGe(p, x / p);
  }

  function ShiftRight(x: nat, bits: nat): nat {
    var p := Pow2(bits);
    DivNat(x, p);
    x / p
  }

  function LowBits(x: nat, bits: nat): (m: nat)
    ensures m < Pow2(bits)
  {
    var p := Pow2(bits);
    x % p
  }

  /** Bit number j of x. */
  function Bit(x: nat, j: nat): nat {
    ShiftRight(x, j) % 2
  }
}
