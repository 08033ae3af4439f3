/** Multiplication on limbs: mpz_mul and what third-party/gmp/dumbmp.c builds on it and on mpz_add. */
module MpzMul {
  import opened Arith
  import opened Limbs
  import opened Mpz

  /** Against the limbs of ys below i, x times them has been added into the limbs at tmp. */
  ghost predicate RowDone(before: seq<nat>, tmp: seq<nat>, i: nat, cy: nat, x: nat, ys: seq<nat>) {
    && i <= |ys| < |tmp| && |tmp| == |before| && cy < B
    && Proper(tmp[..i])
    && (forall j {:trigger tmp[j]} :: i <= j < |ys| ==> tmp[j] == before[j])
    && Val(tmp[..i]) + cy * Pow(B, i) == Val(before[..i]) + x * Val(ys[..i])
  }

  lemma RowLimb(before: seq<nat>, tmp: seq<nat>, i: nat, cy: nat, x: nat, ys: seq<nat>, t: nat)
    requires RowDone(before, tmp, i, cy, x, ys) && i < |ys|
    requires t == x * ys[i] + before[i] + cy < WORD
    ensures RowDone(before, tmp[i := LO(t)], i + 1, HI(t), x, ys)
  {
    WriteLimb(tmp, i, LO(t));
    ValPrefix(before, i);
    ValPrefix(ys, i);
    RowStep(Val(tmp[..i]), Val(before[..i]), Val(ys[..i]), x, ys[i], before[i], cy, Pow(B, i), LO(t), HI(t));
  }

  lemma RowStep(v: nat, v0: nat, vy: nat, x: nat, y: nat, s: nat, cy: nat, p: nat, lo: nat, hi: nat)
    requires v + cy * p == v0 + x * vy && x * y + s + cy == lo + B * hi
    ensures (v + lo * p) + hi * (B * p) == (v0 + s * p) + x * (vy + y * p)
  {
    assert (x * y + s + cy) * p == (x * y) * p + s * p + cy * p;
    assert (lo + B * hi) * p == lo * p + hi * (B * p);
    assert x * (vy + y * p) == x * vy + (x * y) * p;
  }

  /** The word of one inner step of mpz_mul, which does not overflow. */
  method MulAddLimb(x: nat, y: nat, s: nat, cy: nat) returns (t: nat)
    requires x < B && y < B && s < B && cy < B
    ensures t == x * y + s + cy < WORD
  {
    LimbProduct(x, y, s, cy);
    t := Wrap(x * y + s + cy);
  }

  /** The inner loop of mpz_mul, on the limbs from scratch + ai on. */
  method MulRow(before: seq<nat>, x: nat, ys: seq<nat>) returns (tmp: seq<nat>)
    requires |before| == |ys| + 1 && x < B && Proper(ys) && Proper(before[..|ys|])
    ensures |tmp| == |before| && Proper(tmp)
    ensures Val(tmp) == Val(before[..|ys|]) + x * Val(ys)
  {
    tmp := before;
    var cy := 0;
    var bi := 0;
    while bi < |ys|
      invariant 0 <= bi <= |ys| && RowDone(before, tmp, bi, cy, x, ys)
    {
      assert before[..|ys|][bi] == before[bi];
      var t := MulAddLimb(x, ys[bi], tmp[bi], cy);
      RowLimb(before, tmp, bi, cy, x, ys, t);
      tmp := tmp[bi := LO(t)];
      cy := HI(t);
      bi := bi + 1;
    }
    RowLast(before, tmp, cy, x, ys);
    tmp := tmp[|ys| := cy];
  }

  lemma RowLast(before: seq<nat>, tmp: seq<nat>, cy: nat, x: nat, ys: seq<nat>)
    requires |before| == |ys| + 1 && RowDone(before, tmp, |ys|, cy, x, ys)
    ensures Proper(tmp[|ys| := cy]) && Val(tmp[|ys| := cy]) == Val(before[..|ys|]) + x * Val(ys)
  {
    ValWhole(ys);
    WriteLimb(tmp, |ys|, cy);
    var last := tmp[|ys| := cy];
    assert last[..|ys| + 1] == last;
  }

  /** A row put back at position ai of the scratch limbs adds x times the limbs ys at the weight of that position. */
  lemma PlaceRow(scratch: seq<nat>, ai: nat, row: seq<nat>, n: nat, w: nat)
    requires ai + n <= |scratch| && Proper(scratch[..ai + n]) && Proper(row)
    requires Val(row) == Val(scratch[ai..ai + n]) + w
    ensures Proper(scratch[..ai] + row)
    ensures Val(scratch[..ai] + row) == Val(scratch[..ai + n]) + Pow(B, ai) * w
  {
    var low := scratch[..ai];
    ValSplit(scratch[..ai + n], ai);
    ValSplit(low + row, ai);
    assert scratch[..ai + n][..ai] == low && scratch[..ai + n][ai..] == scratch[ai..ai + n];
    assert (low + row)[..ai] == low && (low + row)[ai..] == row;
    Dist(Val(scratch[ai..ai + n]), w, Pow(B, ai));
    assert forall j :: 0 <= j < ai ==> low[j] == scratch[..ai + n][j];
  }

  lemma NextRow(va: nat, x: nat, p: nat, vb: nat)
    ensures va * vb + p * (x * vb) == (va + x * p) * vb
  {}

  /** Row by row, the scratch limbs become the product of the operands' limbs. */
  method MulLimbs(xs: seq<nat>, ys: seq<nat>) returns (scratch: seq<nat>)
    requires Proper(xs) && Proper(ys)
    ensures |scratch| == |xs| + |ys| && Proper(scratch)
    ensures Val(scratch) == Val(xs) * Val(ys)
  {
    var an, bn := |xs|, |ys|;
    var junk: seq<nat> := *;
    scratch := if |junk| == an + bn then junk else seq(an + bn, _ => 0);
    var bi := 0;
    while bi < bn
      invariant 0 <= bi <= bn && |scratch| == an + bn
      invariant forall j {:trigger scratch[j]} :: 0 <= j < bi ==> scratch[j] == 0
    {
      scratch := scratch[bi := 0];
      bi := bi + 1;
    }
    ValZeros(scratch[..bn]);
    var ai := 0;
    while ai < an
      invariant 0 <= ai <= an && |scratch| == an + bn && Proper(scratch[..ai + bn])
      invariant Val(scratch[..ai + bn]) == Val(xs[..ai]) * Val(ys)
    {
      scratch := AddRow(scratch, ai, xs, ys);
      ai := ai + 1;
    }
    ValWhole(xs);
    ValWhole(scratch);
    assert scratch[..an + bn] == scratch;
  }

  /** One pass of the outer loop of mpz_mul. */
  method AddRow(scratch: seq<nat>, ai: nat, xs: seq<nat>, ys: seq<nat>) returns (now: seq<nat>)
    requires |scratch| == |xs| + |ys| && ai < |xs| && Proper(xs) && Proper(ys) && Proper(scratch[..ai + |ys|])
    requires Val(scratch[..ai + |ys|]) == Val(xs[..ai]) * Val(ys)
    ensures |now| == |scratch| && Proper(now[..ai + 1 + |ys|])
    ensures Val(now[..ai + 1 + |ys|]) == Val(xs[..ai + 1]) * Val(ys)
  {
    var bn := |ys|;
    var before := scratch[ai..ai + bn + 1];
    assert before[..bn] == scratch[ai..ai + bn];
    assert Proper(before[..bn]) by {
      assert forall j :: 0 <= j < bn ==> before[..bn][j] == scratch[..ai + bn][ai + j];
    }
    var row := MulRow(before, xs[ai], ys);
    PlaceRow(scratch, ai, row, bn, xs[ai] * Val(ys));
    now := scratch[..ai] + row + scratch[ai + bn + 1..];
    assert now[..ai + 1 + bn] == scratch[..ai] + row;
    NextRow(Val(xs[..ai]), xs[ai], Pow(B, ai), Val(ys));
    ValPrefix(xs, ai);
  }

  function Signed(size: int, magnitude: nat): int {
    if size >= 0 then magnitude else 0 - magnitude
  }

  lemma SignOfProduct(sa: int, sb: int, am: nat, bm: nat)
    ensures Signed(sa, am) * Signed(sb, bm) == if (sa >= 0) == (sb >= 0) then am * bm else 0 - am * bm
  {}

  /** The sign that mpz_mul gives to its normalized limbs. */
  method StoreSigned(r: Integer, rn: nat, sameSign: bool, ghost m: nat)
    requires rn <= |r.d| && Proper(r.d[..rn]) && (rn > 0 ==> r.d[rn - 1] > 0) && Val(r.d[..rn]) == m
    modifies r
    ensures r.Valid() && r.Value() == (if sameSign then m else 0 - m)
  {
    r.size := if sameSign then rn else 0 - rn;
  }

  /** mpz_mul, for operands of any sign. */
  method Mul(r: Integer, a: Integer, b: Integer)
    requires a.Valid() && b.Valid()
    modifies r
    ensures r.Valid() && r.Value() == old(a.Value() * b.Value())
  {
    var an, bn := Abs(a.size), Abs(b.size);
    var sameSign := (a.size >= 0) == (b.size >= 0);
    ghost var am, bm := a.Magnitude(), b.Magnitude();
    SignOfProduct(a.size, b.size, am, bm);
    assert Signed(a.size, am) == a.Value() && Signed(b.size, bm) == b.Value();
    var scratch := MulLimbs(a.d[..an], b.d[..bn]);
    r.d := scratch;
    var rn := r.Normalize(an + bn);
    ValWhole(scratch);
    StoreSigned(r, rn, sameSign, am * bm);
  }

  /** mpz_set */
  method Set(r: Integer, a: Integer)
    requires a.Valid()
    modifies r
    ensures r.Valid() && r.Value() == old(a.Value()) && r.size == old(a.size)
  {
    var size, ap := a.size, a.d;
    r.Realloc(Abs(size));
    var n := Abs(size);
    var i := 0;
    while i < n
      invariant 0 <= i <= n && |r.d| >= n
      invariant forall j {:trigger r.d[j]} :: 0 <= j < i ==> r.d[j] == ap[j]
    {
      r.d := r.d[i := ap[i]];
      i := i + 1;
    }
    assert r.d[..n] == ap[..n];
    r.size := size;
  }

  lemma ValTwo(lo: nat, hi: nat)
    ensures Val([lo, hi]) == lo + B * hi
  {
    ValPrefix([lo, hi], 1);
    ValPrefix([lo, hi], 0);
    ValWhole([lo, hi]);
    assert Pow(B, 1) == B * Pow(B, 0);
  }

  /** mpz_set_ui */
  method SetUi(r: Integer, ui: nat)
    requires ui < WORD
    modifies r
    ensures r.Valid() && r.Value() == ui && r.size >= 0
  {
    r.Realloc(2);
    r.d := r.d[0 := LO(ui)][1 := HI(ui)];
    assert r.d[..2] == [LO(ui), HI(ui)];
    ValTwo(LO(ui), HI(ui));
    var rn := r.Normalize(2);
    assert r.d[..rn] == r.d[..2][..rn];
    r.size := rn;
  }

  /** mpz_add_ui */
  method AddUi(r: Integer, a: Integer, ui: nat)
    requires a.Valid() && a.size >= 0 && ui < WORD
    modifies r
    ensures r.Valid() && r.size >= 0 && r.Value() == old(a.Value()) + ui
  {
    var b := new Integer();
    SetUi(b, ui);
    Add(r, a, b);
  }

  /** mpz_mul_ui */
  method MulUi(r: Integer, a: Integer, ui: nat)
    requires a.Valid() && ui < WORD
    modifies r
    ensures r.Valid() && r.Value() == old(a.Value()) * ui
  {
    var b := new Integer();
    SetUi(b, ui);
    Mul(r, a, b);
  }

  /** A number that is not negative has a size that is not negative. */
  lemma SizeSign(a: Integer)
    requires a.Valid()
    ensures a.Value() >= 0 <==> a.size >= 0
    ensures a.Value() > 0 <==> a.size > 0
  {
    if a.size != 0 { ValTop(a.d[..Abs(a.size)]); }
  }

  lemma Doubled(w: nat, p: nat)
    ensures (w + w) * p == w * (2 * p)
  {}

  /** mpz_mul_2exp: shifting up by doubling. */
  method Mul2exp(r: Integer, a: Integer, bcnt: nat)
    requires a.Valid() && a.size >= 0
    modifies r
    ensures r.Valid() && r.size >= 0 && r.Value() == old(a.Value()) * Pow2(bcnt)
  {
    ghost var v := a.Value();
    Set(r, a);
    var n := bcnt;
    while n > 0
      invariant 0 <= n <= bcnt && r.Valid() && r.size >= 0 && r.Value() * Pow2(n) == v * Pow2(bcnt)
    {
      ghost var w := r.Value();
      Add(r, r, r);
      n := n - 1;
      Doubled(w, Pow2(n));
    }
  }

  /** The power of a base of any sign. */
  ghost function IntPow(b: int, e: nat): int {
    if e == 0 then 1 else b * IntPow(b, e - 1)
  }

  lemma {:induction false} NaturalPow(b: nat, e: nat)
    ensures IntPow(b, e) == Pow(b, e)
  {
    if e > 0 { NaturalPow(b, e - 1); }
  }

  /** mpz_pow_ui */
  method PowUi(x: Integer, y: Integer, z: nat)
    requires y.Valid()
    modifies x
    ensures x.Valid() && x.Value() == IntPow(old(y.Value()), z)
    ensures old(y.size) >= 0 ==> x.size >= 0 && x.Value() == Pow(old(y.Value()), z)
  {
    ghost var v, natural := y.Value(), y.size >= 0;
    var t := new Integer();
    SetUi(t, 1);
    var n := z;
    while n != 0
      invariant 0 <= n <= z && fresh(t) && t.Valid() && y.Valid() && y.Value() == v
      invariant t.Value() * IntPow(v, n) == IntPow(v, z)
      decreases n
    {
      MulAssoc(t.Value(), v, IntPow(v, n - 1));
      Mul(t, t, y);
      n := n - 1;
    }
    Set(x, t);
    SizeSign(x);
    if natural { NaturalPow(v, z); }
  }

  /** mpz_addmul_ui */
  method AddmulUi(x: Integer, y: Integer, z: nat)
    requires x.Valid() && y.Valid() && x.size >= 0 && y.size >= 0 && z < WORD
    modifies x
    ensures x.Valid() && x.size >= 0 && x.Value() == old(x.Value() + y.Value() * z)
  {
    var t := new Integer();
    SizeSign(y);
    MulLe(0, y.Value(), 0, z);
    MulUi(t, y, z);
    SizeSign(t);
    Add(x, x, t);
  }
}
