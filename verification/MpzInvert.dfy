/** The inverse modulo a power of two, one bit at a time, as in mpz_invert_2exp of third-party/gmp/dumbmp.c. */
module MpzInvert {
  import opened Arith
  import opened Limbs
  import opened Mpz
  import opened MpzMul
  import opened MpzShift
  import opened MpzBits

  /** inv is the inverse of a modulo 2^n. */
  ghost predicate IsInverse(inv: nat, a: nat, n: nat) {
    inv < Pow2(n) && exists h: nat :: IsOnePlus(inv * a, Pow2(n), h)
  }

  ghost predicate IsOnePlus(prod: nat, p: nat, h: nat) {
    prod == 1 + p * h
  }

  /** In the usual form: the product leaves the remainder 1. */
  lemma InverseIsInverse(inv: nat, a: nat, n: nat)
    requires IsInverse(inv, a, n) && n >= 1
    ensures (inv * a) % Pow2(n) == 1
  {
    var h: nat :| IsOnePlus(inv * a, Pow2(n), h);
    DivModUnique(inv * a, Pow2(n), h, 1);
  }

  lemma InverseAtOne(a: nat)
    requires a % 2 == 1
    ensures IsInverse(1, a, 1)
  {
    assert Pow2(1) == 2 * Pow2(0);
    assert IsOnePlus(1 * a, Pow2(1), a / 2);
  }

  lemma BitIsSet(inv: nat, a: nat, p: nat, h: nat, m: nat)
    requires inv * a == 1 + p * h && h + a == 2 * m
    ensures (inv + p) * a == 1 + (2 * p) * m
  {
    calc {
      (inv + p) * a;
      { Dist(inv, p, a); }
      1 + p * h + p * a;
      { Dist(h, a, p); }
      1 + p * (2 * m);
      { MulAssoc(p, 2, m); }
      1 + (2 * p) * m;
    }
  }

  /** Bit n of the product tells whether bit n of the inverse has to be set. */
  lemma NextBit(inv: nat, a: nat, n: nat)
    requires n >= 1 && a % 2 == 1 && IsInverse(inv, a, n)
    ensures Bit(inv, n) == 0
    ensures IsInverse(if Bit(inv * a, n) != 0 then inv + Pow2(n) else inv, a, n + 1)
  {
    var p := Pow2(n);
    var h: nat :| IsOnePlus(inv * a, p, h);
    DivModUnique(inv * a, p, h, 1);
    ModSelf(inv, p);
    if h % 2 == 1 {
      BitIsSet(inv, a, p, h, (h + a) / 2);
      assert IsOnePlus((inv + p) * a, Pow2(n + 1), (h + a) / 2);
    } else {
      MulAssoc(p, 2, h / 2);
      assert IsOnePlus(inv * a, Pow2(n + 1), h / 2);
    }
  }

  /** mpz_invert_2exp, for an odd a that is not negative. */
  method Invert2exp(r: Integer, a: Integer, n: nat)
    requires a.Valid() && a.size >= 0 && a.Value() % 2 == 1 && n >= 1
    modifies r
    ensures r.Valid() && r.size >= 0 && IsInverse(r.Value(), old(a.Value()), n)
  {
    ghost var av := a.Value();
    var inv := new Integer();
    SetUi(inv, 1);
    var prod := new Integer();
    InverseAtOne(av);
    var i := 1;
    while i < n
      invariant 1 <= i <= n && fresh(inv) && fresh(prod) && inv != prod && a.Valid() && a.size >= 0 && a.Value() == av
      invariant inv.Valid() && inv.size >= 0 && IsInverse(inv.Value(), av, i)
    {
      InvertStep(inv, prod, a, i);
      i := i + 1;
    }
    Product(prod, inv, a);
    InverseIsInverse(inv.Value(), av, n);
    TdivR2exp(prod, prod, n);
    var one := new Integer();
    SetUi(one, 1);
    var c := Cmp(prod, one);
    assert c == 0;
    Set(r, inv);
  }

  method Product(prod: Integer, x: Integer, y: Integer)
    requires x.Valid() && y.Valid() && x.size >= 0 && y.size >= 0
    modifies prod
    ensures prod.Valid() && prod.size >= 0 && prod.Value() == old(x.Value() * y.Value())
  {
    MulLe(0, x.Value(), 0, y.Value());
    Mul(prod, x, y);
    SizeSign(prod);
  }

  /** One pass of the loop of mpz_invert_2exp, which settles bit i. */
  method InvertStep(inv: Integer, prod: Integer, a: Integer, i: nat)
    requires inv != prod && inv != a && prod != a && inv.Valid() && a.Valid() && inv.size >= 0 && a.size >= 0
    requires i >= 1 && a.Value() % 2 == 1 && IsInverse(inv.Value(), a.Value(), i)
    modifies inv, prod
    ensures inv.Valid() && inv.size >= 0 && IsInverse(inv.Value(), a.Value(), i + 1)
  {
    NextBit(inv.Value(), a.Value(), i);
    Product(prod, inv, a);
    var t := TstBit(prod, i);
    if t != 0 { SetBit(inv, i); }
  }
}
