/** Integer roots by Newton's iteration, as in mpz_root of third-party/gmp/dumbmp.c. */
module MpzRoot {
  import opened Arith
  import opened Limbs
  import opened Mpz
  import opened MpzMul
  import opened MpzShift
  import opened MpzDiv

  /** x is the floor of the z-th root of y. */
  ghost predicate IsRoot(x: nat, y: nat, z: nat) {
    Pow(x, z) <= y < Pow(x + 1, z)
  }

  // ---------------------------------------------------------------- the inequality between the means, on integers

  /** Bernoulli's inequality without fractions: (u - k)^z >= u^(z-1) * (u - z*k). */
  lemma {:induction false} Bernoulli(u: nat, k: nat, z: nat)
    requires k <= u && z >= 1
    ensures Pow(u - k, z) >= Pow(u, z - 1) * (u - z * k)
    ensures k >= 1 && z >= 2 && u >= 1 && u - z * k >= 1 ==> Pow(u - k, z) > Pow(u, z - 1) * (u - z * k)
    decreases z
  {
    if z == 1 {
      assert Pow(u - k, 1) == (u - k) * Pow(u - k, 0);
    } else {
      Bernoulli(u, k, z - 1);
      BernoulliStep(u, k, z, Pow(u - k, z - 1), Pow(u, z - 2));
    }
  }

  lemma BernoulliStep(u: nat, k: nat, z: nat, w: nat, p: nat)
    requires k <= u && z >= 2 && w >= p * (u - (z - 1) * k)
    ensures (u - k) * w >= (u * p) * (u - z * k)
    ensures k >= 1 && p >= 1 && u - z * k >= 1 ==> (u - k) * w > (u * p) * (u - z * k)
  {
    var m := (z - 1) * k;
    var e := u - m;
    Dist(z - 1, 1, k);
    MulLe(1, z - 1, k, k);
    if e - k < 0 {
      NegativeBound(u, k, w, p, e - k);
    } else {
      BernoulliGain(u, k, p, e, m, w);
    }
  }

  lemma NegativeBound(u: nat, k: nat, w: nat, p: nat, e: int)
    requires k <= u && e < 0
    ensures (u - k) * w >= 0 >= (u * p) * e
  {
    MulLe(0, u - k, 0, w);
    MulLe(0, u, 0, p);
    MulLe(0, u * p, 0, 0 - e);
  }

  lemma BernoulliGain(u: nat, k: nat, p: nat, e: nat, m: nat, w: nat)
    requires k <= e && u == m + e && k <= m && w >= p * e
    ensures (u - k) * w >= (u * p) * (e - k)
    ensures k >= 1 && p >= 1 ==> (u - k) * w > (u * p) * (e - k)
  {
    BernoulliSlack(u, k, p, e);
    MulLe(u - k, u - k, p * e, w);
    MulLe(0, k, 0, m);
    MulLe(0, p, 0, k * m);
    if k >= 1 && p >= 1 {
      MulLe(1, k, 1, m);
      MulLe(1, p, 1, k * m);
    }
  }

  lemma BernoulliSlack(u: nat, k: nat, p: nat, e: nat)
    requires k <= u && e <= u
    ensures (u - k) * (p * e) - (u * p) * (e - k) == p * (k * (u - e))
  {
    Dist(u, k, p * e);
    Dist(e, k, u * p);
    assert u * (p * e) == (u * p) * e;
    Dist(u, e, k);
    Dist(k * u, k * e, p);
    assert k * (p * e) == p * (k * e);
    assert (u * p) * k == p * (k * u);
  }

  // ---------------------------------------------------------------- one Newton step

  /** What the step computes its next iterate from: the quotient and z - 1 times the iterate. */
  function Numerator(y: nat, z: nat, u: nat): nat
    requires u > 0 && z > 0
  {
    Quotient(y, Pow(u, z - 1)) + u * (z - 1)
  }

  /** The next iterate, with both quotients as the source computes them. */
  function Step(y: nat, z: nat, u: nat): nat
    requires u > 0 && z > 0
  {
    Quotient(Numerator(y, z, u), z)
  }

  lemma {:induction false} OnePow(z: nat)
    ensures Pow(1, z) == 1
  {
    if z > 0 { OnePow(z - 1); }
  }

  /** Where the quotient answers 0 for equal operands, an answer of 1 would not have been needed either. */
  lemma EqualOperands(r: nat, y: nat, z: nat, u: nat)
    requires 1 <= r <= u && z >= 1 && y >= 2 && Pow(r, z) <= y == Pow(u, z - 1)
    ensures u - z * (u - r) <= 0
  {
    var k, p := u - r, Pow(u, z - 1);
    var m := u - z * k;
    assert z != 1 && u != 1 by {
      OnePow(z - 1);
      assert Pow(u, 0) == 1;
    }
    if k == 0 {
      MulLe(2, u, p, p);
    } else if m >= 1 {
      Bernoulli(u, k, z);
      MulLe(p, p, 1, m);
    }
  }

  /** A number whose z-th power is at most y is at most as far below u as the quotient allows. */
  lemma QuotientIsLarge(r: nat, y: nat, z: nat, u: nat)
    requires 1 <= r <= u && z >= 1 && y >= 2 && Pow(r, z) <= y
    ensures Quotient(y, Pow(u, z - 1)) >= u - z * (u - r)
  {
    var k, p := u - r, Pow(u, z - 1);
    var m := u - z * k;
    Bernoulli(u, k, z);
    if m >= 1 {
      if y == p {
        EqualOperands(r, y, z, u);
      } else {
        DivMod(y, p);
        QuotientAtLeast(y, p, m);
      }
    } else {
      DivNat(y, p);
    }
  }

  lemma QuotientAtLeast(y: nat, p: nat, m: nat)
    requires p > 0 && p * m <= y
    ensures y / p >= m
  {
    DivMod(y, p);
    if y / p < m {
      MulLe(p, p, y / p + 1, m);
      Dist(y / p, 1, p);
    }
  }

  /** The second quotient never meets equal operands, except for the square root of 2. */
  lemma NumeratorIsNotZ(y: nat, z: nat, u: nat)
    requires u >= 1 && z >= 1 && y >= 2 && !(y == 2 && z == 2)
    ensures Numerator(y, z, u) != z
  {
    var p := Pow(u, z - 1);
    if u == 1 {
      OnePow(z - 1);
      DivModUnique(y, 1, y, 0);
    } else if z == 1 {
      DivModUnique(y, 1, y, 0);
    } else {
      MulLe(2, u, z - 1, z - 1);
      if z == 2 && u == 2 {
        assert Pow(2, 1) == 2 * Pow(2, 0);
        QuotientByTwo(y);
      }
    }
  }

  lemma QuotientByTwo(y: nat)
    requires y > 2
    ensures Quotient(y, 2) > 0
  {}

  /** A step never leads below the root, and it stops falling only at the root. */
  lemma StepKeepsAbove(r: nat, y: nat, z: nat, u: nat)
    requires IsRoot(r, y, z) && 1 <= r <= u && z >= 1 && y >= 2 && !(y == 2 && z == 2)
    ensures r <= Step(y, z, u)
    ensures Step(y, z, u) >= u ==> u == r
  {
    var q, n := Quotient(y, Pow(u, z - 1)), Numerator(y, z, u);
    QuotientIsLarge(r, y, z, u);
    NumeratorIsNotZ(y, z, u);
    Dist(u, r, z);
    Dist(z, 1, u);
    QuotientAtLeast(n, z, r);
    if Step(y, z, u) >= u { StepStops(r, y, z, u, q, n); }
  }

  lemma StepStops(r: nat, y: nat, z: nat, u: nat, q: nat, n: nat)
    requires IsRoot(r, y, z) && 1 <= r <= u && z >= 1 && n / z >= u
    requires q == Quotient(y, Pow(u, z - 1)) && n == q + u * (z - 1)
    ensures u == r
  {
    DividendAtLeast(n, z, u);
    Dist(z, 1, u);
    PowerReached(y, z, u, q);
    if u > r { PowMono(r + 1, u, z); }
  }

  lemma PowerReached(y: nat, z: nat, u: nat, q: nat)
    requires z >= 1 && 1 <= u <= q == Quotient(y, Pow(u, z - 1))
    ensures Pow(u, z) <= y
  {
    DividendAtLeast(y, Pow(u, z - 1), u);
  }

  lemma DividendAtLeast(a: nat, b: nat, c: nat)
    requires b > 0
    ensures a / b >= c ==> a >= b * c
  {
    DivMod(a, b);
    if a / b >= c { MulLe(b, b, c, a / b); }
  }

  // ---------------------------------------------------------------- the root

  /** Every number has an integer root. */
  lemma {:induction false} RootExists(y: nat, z: nat, k: nat) returns (x: nat)
    requires z >= 1 && y < Pow(k + 1, z)
    ensures IsRoot(x, y, z)
    decreases k
  {
    if Pow(k, z) <= y {
      x := k;
    } else {
      if k == 0 { assert Pow(0, z) == 0 * Pow(0, z - 1); }
      x := RootExists(y, z, k - 1);
    }
  }

  lemma {:induction false} PowAbove(y: nat, z: nat)
    requires z >= 1
    ensures y < Pow(y + 1, z) && y <= Pow(y, z)
  {
    if z == 1 {
      assert Pow(y + 1, 1) == (y + 1) * Pow(y + 1, 0);
      assert Pow(y, 1) == y * Pow(y, 0);
    } else {
      PowAbove(y, z - 1);
      MulLe(1, y + 1, y + 1, Pow(y + 1, z - 1));
      if y > 0 { MulLe(1, y, y, Pow(y, z - 1)); }
    }
  }

  lemma RootIsUnique(x: nat, x': nat, y: nat, z: nat)
    requires IsRoot(x, y, z) && IsRoot(x', y, z)
    ensures x == x'
  {
    if x < x' { PowMono(x + 1, x', z); }
    if x' < x { PowMono(x' + 1, x, z); }
  }

  /** Where the iteration starts: y itself is not below the root, and the root is not zero. */
  lemma StartAbove(r: nat, y: nat, z: nat)
    requires IsRoot(r, y, z) && y >= 2 && z >= 1
    ensures 1 <= r <= y
  {
    OnePow(z);
    if r > y {
      PowAbove(y, z);
      PowMono(y + 1, r, z);
    }
  }

  lemma SmallRoot(y: nat, z: nat)
    requires y <= 1 && z >= 1
    ensures IsRoot(y, y, z)
  {
    PowAbove(y, z);
    OnePow(z);
    if y == 0 { assert Pow(0, z) == 0 * Pow(0, z - 1); }
  }

  /** The one input at which the iteration fails: it reaches 0, and then divides by 0. */
  lemma SquareRootOfTwoFails()
    ensures Step(2, 2, 2) == 0 && Step(2, 2, 2) < 2
    ensures Pow(Step(2, 2, 2), 2 - 1) == 0
  {
    assert Pow(2, 1) == 2 * Pow(2, 0);
    assert Pow(0, 1) == 0 * Pow(0, 0);
  }

  /** One pass of the loop of mpz_root: t becomes the next iterate after u. */
  method NewtonStep(t: Integer, u: Integer, y: Integer, z: nat)
    requires t != u && t != y && u.Valid() && y.Valid() && t.Valid() && u.size >= 0 && y.size >= 0
    requires u.Value() > 0 && 0 < z < WORD
    modifies t
    ensures t.Valid() && t.size >= 0 && t.Value() == Step(y.Value(), z, u.Value())
  {
    PowUi(t, u, z - 1);
    SizeSign(t);
    TdivQ(t, y, t);
    AddmulUi(t, u, z - 1);
    TdivQUi(t, t, z);
  }

  /** mpz_root: the floor of the z-th root, for every y >= 0 and z >= 1 but y == z == 2. */
  method Root(x: Integer, y: Integer, z: nat)
    requires y.Valid() && y.size >= 0 && 0 < z < WORD
    requires !(y.Value() == 2 && z == 2)
    modifies x
    ensures x.Valid() && x.size >= 0 && IsRoot(x.Value(), old(y.Value()), z)
  {
    ghost var yv := y.Value();
    var one := new Integer();
    SetUi(one, 1);
    var small := Cmp(y, one);
    if small <= 0 {
      SmallRoot(yv, z);
      Set(x, y);
      return;
    }
    var t := new Integer();
    var u := new Integer();
    Set(u, y);
    PowAbove(yv, z);
    ghost var r := RootExists(yv, z, yv);
    StartAbove(r, yv, z);
    while true
      invariant fresh(t) && fresh(u) && t != u && t.Valid() && u.Valid() && u.size >= 0
      invariant y.Valid() && y.size >= 0 && y.Value() == yv && r <= u.Value()
      decreases u.Value()
    {
      NewtonStep(t, u, y, z);
      StepKeepsAbove(r, yv, z, u.Value());
      var c := Cmp(t, u);
      if c >= 0 { break; }
      Set(u, t);
    }
    Set(x, u);
  }
}
