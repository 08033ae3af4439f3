/**
 * The multi-precision integers of third-party/gmp/dumbmp.c, on objects whose limbs are overwritten in place.
 * The result object may be one of the operands.
 */
module Mpz {
  import opened Arith
  import opened Limbs

  function Abs(x: int): nat {
    if x >= 0 then x else -x
  }

  class Integer {
    var size: int
    var d: seq<nat>

    ghost predicate Valid()
      reads this
    {
      && Abs(size) <= |d|
      && Proper(d[..Abs(size)])
      && (size != 0 ==> d[Abs(size) - 1] > 0)
    }

    ghost function Magnitude(): nat
      reads this
      requires Valid()
    {
      Val(d[..Abs(size)])
    }

    ghost function Value(): int
      reads this
      requires Valid()
    {
      if size >= 0 then Magnitude() else 0 - Magnitude()
    }

    // mpz_init
    constructor ()
      ensures Valid() && Value() == 0 && size == 0
    {
      size, d := 0, [0];
    }

    /** mpz_realloc: the limbs stay, what is added is arbitrary. */
    method Realloc(n: nat)
      modifies this`d
      ensures |d| >= n && |d| >= |old(d)| && d[..|old(d)|] == old(d)
    {
      if n <= |d| { return; }
      var junk: seq<nat> := *;
      if |junk| != n - |d| { junk := seq(n - |d|, _ => 0); }
      d := d + junk;
    }

    /** mpn_normalize: drops the zero limbs at the top. */
    method Normalize(rn: nat) returns (n: nat)
      requires rn <= |d|
      ensures n <= rn && (n > 0 ==> d[n - 1] > 0)
      ensures Val(d[..n]) == Val(d[..rn])
    {
      n := rn;
      while n > 0 && d[n - 1] == 0
        invariant n <= rn && Val(d[..n]) == Val(d[..rn])
      {
        ValPrefix(d, n - 1);
        n := n - 1;
      }
    }
  }

  /** The limbs of x from position i on are still those of xs, although the result may be written over x. */
  ghost predicate Unread(x: Integer, xs: seq<nat>, i: nat)
    reads x
  {
    |xs| <= |x.d| && forall j {:trigger x.d[j]} :: i <= j < |xs| ==> x.d[j] == xs[j]
  }

  lemma WriteLimb(before: seq<nat>, i: nat, v: nat)
    requires i < |before| && Proper(before[..i]) && v < B
    ensures Proper(before[i := v][..i + 1])
    ensures Val(before[i := v][..i + 1]) == Val(before[..i]) + v * Pow(B, i)
  {
    var after := before[i := v];
    assert after[..i] == before[..i];
    ValPrefix(after, i);
    assert after[..i + 1] == before[..i] + [v];
  }

  /** The limbs below i and the carry hold what the operands' limbs below i add up to. */
  ghost predicate Summed(rd: seq<nat>, i: nat, cy: nat, xs: seq<nat>, vy: nat) {
    && i <= |rd| && i <= |xs| && cy <= 1
    && Proper(rd[..i])
    && Val(rd[..i]) + cy * Pow(B, i) == Val(xs[..i]) + vy
  }

  lemma SumLimb(rd: seq<nat>, i: nat, cy: nat, xs: seq<nat>, vy: nat, y: nat, t: nat)
    requires Summed(rd, i, cy, xs, vy) && i < |rd| && i < |xs| && xs[i] < B && y < B && t == xs[i] + y + cy
    ensures LO(t) < B && Summed(rd[i := LO(t)], i + 1, HI(t), xs, vy + y * Pow(B, i))
  {
    WriteLimb(rd, i, LO(t));
    ValPrefix(xs, i);
    AddStep(Val(xs[..i]), vy, Val(rd[..i]), Pow(B, i), cy, xs[i], y, LO(t), HI(t));
  }

  /** The first loop of mpz_add: the limb positions that both operands have. */
  method AddCommon(r: Integer, x: Integer, y: Integer, bn: nat, ghost xs: seq<nat>, ghost ys: seq<nat>)
    returns (cy: nat)
    requires bn == |ys| <= |xs| <= |r.d| && Proper(xs) && Proper(ys)
    requires Unread(x, xs, 0) && Unread(y, ys, 0)
    modifies r`d
    ensures |r.d| == old(|r.d|) && Unread(x, xs, bn)
    ensures Summed(r.d, bn, cy, xs, Val(ys))
  {
    cy := 0;
    var i := 0;
    while i < bn
      invariant 0 <= i <= bn && |r.d| == old(|r.d|)
      invariant Unread(x, xs, i) && Unread(y, ys, i)
      invariant Summed(r.d, i, cy, xs, Val(ys[..i]))
    {
      var t := x.d[i] + y.d[i] + cy;
      SumLimb(r.d, i, cy, xs, Val(ys[..i]), ys[i], t);
      ValPrefix(ys, i);
      r.d := r.d[i := LO(t)];
      cy := HI(t);
      i := i + 1;
    }
    ValWhole(ys);
  }

  /** The second loop of mpz_add: the carry through the positions that only the longer operand has. */
  method AddCarry(r: Integer, x: Integer, bn: nat, an: nat, cy0: nat, ghost xs: seq<nat>, ghost vy: nat)
    returns (cy: nat)
    requires bn <= an == |xs| <= |r.d| && Proper(xs) && Unread(x, xs, bn)
    requires Summed(r.d, bn, cy0, xs, vy)
    modifies r`d
    ensures |r.d| == old(|r.d|) && Summed(r.d, an, cy, xs, vy)
  {
    cy := cy0;
    var i := bn;
    while i < an
      invariant bn <= i <= an && |r.d| == old(|r.d|) && Unread(x, xs, i)
      invariant Summed(r.d, i, cy, xs, vy)
    {
      var t := x.d[i] + cy;
      SumLimb(r.d, i, cy, xs, vy, 0, t);
      r.d := r.d[i := LO(t)];
      cy := HI(t);
      i := i + 1;
    }
  }

  /** The end of mpz_add and mpz_sub: the last carry becomes the top limb, and zero limbs are dropped. */
  method StoreTop(r: Integer, an: nat, cy: nat, ghost v: nat)
    requires an < |r.d| && cy < B && Proper(r.d[..an]) && Val(r.d[..an]) + cy * Pow(B, an) == v
    modifies r
    ensures r.Valid() && r.size >= 0 && r.Value() == v
  {
    WriteLimb(r.d, an, cy);
    r.d := r.d[an := cy];
    var rn := r.Normalize(an + 1);
    assert r.d[..rn] == r.d[..an + 1][..rn];
    r.size := rn;
  }

  /** mpz_add, for operands that are not negative. */
  method Add(r: Integer, a: Integer, b: Integer)
    requires a.Valid() && b.Valid() && a.size >= 0 && b.size >= 0
    modifies r
    ensures r.Valid() && r.size >= 0 && r.Value() == old(a.Value() + b.Value())
  {
    var an, bn := a.size, b.size;
    r.Realloc((if an > bn then an else bn) + 1);
    var x, y := a, b;
    if an < bn {
      an, bn := bn, an;
      x, y := b, a;
    }
    ghost var xs, ys := old(x.d[..x.size]), old(y.d[..y.size]);
    var cy := AddCommon(r, x, y, bn, xs, ys);
    cy := AddCarry(r, x, bn, an, cy, xs, Val(ys));
    ValWhole(xs);
    StoreTop(r, an, cy, Val(xs) + Val(ys));
  }

  // ---------------------------------------------------------------- mpz_sub

  /** The limbs below i and the borrow hold the difference of the operands' limbs below i. */
  ghost predicate Subtracted(rd: seq<nat>, i: nat, cy: nat, xs: seq<nat>, vy: nat) {
    && i <= |rd| && i <= |xs| && cy <= 1
    && Proper(rd[..i])
    && Val(rd[..i]) + vy == Val(xs[..i]) + cy * Pow(B, i)
  }

  lemma SubtractLimb(rd: seq<nat>, i: nat, cy: nat, xs: seq<nat>, vy: nat, y: nat, t: nat, cy': nat)
    requires Subtracted(rd, i, cy, xs, vy) && i < |rd| && i < |xs| && xs[i] < B && y < B
    requires t == Wrap(xs[i] - y - cy) && cy' == LO(Wrap(0 - HI(t)))
    ensures LO(t) < B && Subtracted(rd[i := LO(t)], i + 1, cy', xs, vy + y * Pow(B, i))
  {
    Borrow(xs[i] - y - cy);
    SubtractDigit(rd, i, cy, xs, vy, y, LO(t), cy');
  }

  lemma SubtractDigit(rd: seq<nat>, i: nat, cy: nat, xs: seq<nat>, vy: nat, y: nat, lo: nat, cy': nat)
    requires Subtracted(rd, i, cy, xs, vy) && i < |rd| && i < |xs| && lo < B
    requires xs[i] - y - cy + B * cy' == lo && cy' <= 1
    ensures Subtracted(rd[i := lo], i + 1, cy', xs, vy + y * Pow(B, i))
  {
    WriteLimb(rd, i, lo);
    ValPrefix(xs, i);
    SubStep(Val(xs[..i]), vy, Val(rd[..i]), Pow(B, i), cy, xs[i], y, lo, cy');
  }

  method SubCommon(r: Integer, x: Integer, y: Integer, bn: nat, ghost xs: seq<nat>, ghost ys: seq<nat>)
    returns (cy: nat)
    requires bn == |ys| <= |xs| <= |r.d| && Proper(xs) && Proper(ys)
    requires Unread(x, xs, 0) && Unread(y, ys, 0)
    modifies r`d
    ensures |r.d| == old(|r.d|) && Unread(x, xs, bn)
    ensures Subtracted(r.d, bn, cy, xs, Val(ys))
  {
    cy := 0;
    var i := 0;
    while i < bn
      invariant 0 <= i <= bn && |r.d| == old(|r.d|)
      invariant Unread(x, xs, i) && Unread(y, ys, i)
      invariant Subtracted(r.d, i, cy, xs, Val(ys[..i]))
    {
      var t := Wrap(x.d[i] - y.d[i] - cy);
      SubtractLimb(r.d, i, cy, xs, Val(ys[..i]), ys[i], t, LO(Wrap(0 - HI(t))));
      ValPrefix(ys, i);
      r.d := r.d[i := LO(t)];
      cy := LO(Wrap(0 - HI(t)));
      i := i + 1;
    }
    ValWhole(ys);
  }

  method SubCarry(r: Integer, x: Integer, bn: nat, an: nat, cy0: nat, ghost xs: seq<nat>, ghost vy: nat)
    returns (cy: nat)
    requires bn <= an == |xs| <= |r.d| && Proper(xs) && Unread(x, xs, bn)
    requires Subtracted(r.d, bn, cy0, xs, vy)
    modifies r`d
    ensures |r.d| == old(|r.d|) && Subtracted(r.d, an, cy, xs, vy)
  {
    cy := cy0;
    var i := bn;
    while i < an
      invariant bn <= i <= an && |r.d| == old(|r.d|) && Unread(x, xs, i)
      invariant Subtracted(r.d, i, cy, xs, vy)
    {
      var t := Wrap(x.d[i] - cy);
      SubtractLimb(r.d, i, cy, xs, vy, 0, t, LO(Wrap(0 - HI(t))));
      r.d := r.d[i := LO(t)];
      cy := LO(Wrap(0 - HI(t)));
      i := i + 1;
    }
  }

  /** The limbs below i are the two's complement of those of ws. */
  ghost predicate Complemented(rd: seq<nat>, i: nat, cy: nat, ws: seq<nat>) {
    && i <= |ws| <= |rd| && cy <= 1
    && Proper(rd[..i])
    && Val(rd[..i]) + Val(ws[..i]) == cy * Pow(B, i)
    && (forall j {:trigger rd[j]} :: i <= j < |ws| ==> rd[j] == ws[j])
  }

  lemma ComplementLimb(rd: seq<nat>, i: nat, cy: nat, ws: seq<nat>, t: nat, cy': nat)
    requires Complemented(rd, i, cy, ws) && i < |ws| && ws[i] < B
    requires t == Wrap(0 - ws[i] - cy) && cy' == LO(Wrap(0 - HI(t)))
    ensures LO(t) < B && Complemented(rd[i := LO(t)], i + 1, cy', ws)
  {
    Borrow(0 - ws[i] - cy);
    WriteLimb(rd, i, LO(t));
    ValPrefix(ws, i);
    SubStep(0, Val(ws[..i]), Val(rd[..i]), Pow(B, i), cy, 0, ws[i], LO(t), cy');
  }

  /** The branch of mpz_sub that negates the limbs. */
  method Negate(r: Integer, rn: nat, ghost ws: seq<nat>)
    requires rn == |ws| <= |r.d| && Proper(ws) && r.d[..rn] == ws
    modifies r`d
    ensures |r.d| == old(|r.d|) && exists cy :: Complemented(r.d, rn, cy, ws)
  {
    var cy := 0;
    var i := 0;
    assert forall j :: 0 <= j < rn ==> r.d[j] == r.d[..rn][j];
    while i < rn
      invariant 0 <= i <= rn && |r.d| == old(|r.d|)
      invariant Complemented(r.d, i, cy, ws)
    {
      var limb: int := r.d[i];
      var t := Wrap(0 - limb - cy);
      ComplementLimb(r.d, i, cy, ws, t, LO(Wrap(0 - HI(t))));
      r.d := r.d[i := LO(t)];
      cy := LO(Wrap(0 - HI(t)));
      i := i + 1;
    }
  }

  /** What the negating branch leaves, for a borrow out of an limbs that hold diff + B^an: not -diff. */
  lemma NegatedTop(rd: seq<nat>, an: nat, cy: nat, ws: seq<nat>, diff: int)
    requires |ws| == an + 1 && Complemented(rd, an + 1, cy, ws) && diff < 0
    requires Val(ws) == diff + 2 * Pow(B, an) && diff + Pow(B, an) >= 0
    ensures rd[an] > 0 && Val(rd[..an + 1]) > 0 - diff
  {
    ValWhole(ws);
    NegatedValue(Val(rd[..an + 1]), Val(ws), cy, Pow(B, an), diff);
    TopIsPositive(rd[..an + 1], an);
  }

  lemma TopIsPositive(s: seq<nat>, n: nat)
    requires |s| == n + 1 && Proper(s) && Val(s) >= Pow(B, n)
    ensures s[n] > 0
  {
    ValPrefix(s, n);
    ValBound(s[..n]);
    ValWhole(s);
  }

  lemma NegatedValue(v: nat, w: nat, cy: nat, p: nat, diff: int)
    requires v + w == cy * (B * p) && cy <= 1 && p > 0 && diff < 0 && w == diff + 2 * p && diff + p >= 0
    ensures v >= p && v > 0 - diff
  {
    Dist(B - 4, 4, p);
    MulGe(p, B - 4);
  }

  /** Of two numbers in limbs the one with more limbs is the larger. */
  lemma LongerIsLarger(xs: seq<nat>, ys: seq<nat>)
    requires Proper(xs) && Proper(ys) && |xs| > |ys| && xs[|xs| - 1] > 0
    ensures Val(xs) > Val(ys)
  {
    ValTop(xs);
    ValBound(ys);
    PowAdd(B, |ys|, |xs| - 1 - |ys|);
    MulLe(Pow(B, |ys|), Pow(B, |ys|), 1, Pow(B, |xs| - 1 - |ys|));
  }

  lemma BorrowMeansLess(rd: seq<nat>, an: nat, cy: nat, xs: seq<nat>, vy: nat)
    requires an == |xs| && Subtracted(rd, an, cy, xs, vy)
    ensures cy <= 1 && an <= |rd| && Proper(rd[..an])
    ensures cy == 0 <==> Val(xs) >= vy
    ensures cy == 0 ==> Val(rd[..an]) + cy * Pow(B, an) == Val(xs) - vy
    ensures cy != 0 ==> Val(rd[..an]) == Val(xs) - vy + Pow(B, an)
  {
    ValWhole(xs);
    ValBound(rd[..an]);
    OneBorrow(Val(rd[..an]), vy, Val(xs), cy, Pow(B, an));
  }

  lemma OneBorrow(r: nat, y: nat, x: nat, cy: nat, p: nat)
    requires r + y == x + cy * p && r < p && cy <= 1
    ensures cy == 0 <==> x >= y
    ensures cy == 0 ==> r + cy * p == x - y
    ensures cy != 0 ==> r == x - y + p
  {}

  /** The body of mpz_sub, where x has at least as many limbs as y. */
  method SubLimbs(r: Integer, x: Integer, y: Integer, ghost xs: seq<nat>, ghost ys: seq<nat>, an: nat, bn: nat)
    requires an == |xs| < |r.d| && bn == |ys| <= an && Proper(xs) && Proper(ys)
    requires Unread(x, xs, 0) && Unread(y, ys, 0)
    modifies r
    ensures r.Valid()
    ensures Val(xs) >= Val(ys) ==> r.size >= 0 && r.Value() == Val(xs) - Val(ys)
    ensures Val(xs) < Val(ys) ==> r.Value() < Val(xs) - Val(ys)
  {
    var cy := SubCommon(r, x, y, bn, xs, ys);
    cy := SubCarry(r, x, bn, an, cy, xs, Val(ys));
    BorrowMeansLess(r.d, an, cy, xs, Val(ys));
    if cy != 0 {
      NegativeResult(r, an, cy, Val(xs) - Val(ys));
    } else {
      StoreTop(r, an, cy, Val(xs) - Val(ys));
    }
  }

  /** mpz_sub, for operands that are not negative: right exactly when the difference is not negative. */
  method Sub(r: Integer, a: Integer, b: Integer)
    requires a.Valid() && b.Valid() && a.size >= 0 && b.size >= 0
    modifies r
    ensures r.Valid()
    ensures r.Value() == old(a.Value() - b.Value()) <==> old(a.Value() >= b.Value())
    ensures old(a.Value() >= b.Value()) ==> r.size >= 0
  {
    var an, bn := a.size, b.size;
    ghost var av, bv := a.d[..an], b.d[..bn];
    r.Realloc((if an > bn then an else bn) + 1);
    if an < bn {
      LongerIsLarger(bv, av);
      SubLimbs(r, b, a, bv, av, bn, an);
    } else {
      SubLimbs(r, a, b, av, bv, an, bn);
    }
  }

  /** The end of mpz_sub after a borrow. */
  method NegativeResult(r: Integer, an: nat, cy: nat, ghost diff: int)
    requires an < |r.d| && cy == 1 && Proper(r.d[..an]) && diff < 0 && Val(r.d[..an]) == diff + Pow(B, an)
    modifies r
    ensures r.Valid() && r.Value() < diff
  {
    WriteLimb(r.d, an, cy);
    r.d := r.d[an := cy];
    ghost var ws := r.d[..an + 1];
    Negate(r, an + 1, ws);
    ghost var c :| Complemented(r.d, an + 1, c, ws);
    NegatedTop(r.d, an, c, ws, diff);
    r.size := 0 - (an + 1);
  }
}
