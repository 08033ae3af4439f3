/** Comparison, bit access and shifts of third-party/gmp/dumbmp.c. */
module MpzShift {
  import opened Arith
  import opened Limbs
  import opened Mpz
  import opened MpzMul

  // ---------------------------------------------------------------- mpz_cmp

  /** The vector with the larger limb in the highest place where two vectors differ is the larger number. */
  lemma {:induction false} CompareAt(xs: seq<nat>, ys: seq<nat>, i: nat)
    requires |xs| == |ys| && i < |xs| && Proper(xs) && Proper(ys) && xs[i] > ys[i]
    requires forall j {:trigger xs[j]} :: i < j < |xs| ==> xs[j] == ys[j]
    ensures Val(xs) > Val(ys)
    decreases |xs|
  {
    var n := |xs| - 1;
    if i == n {
      ValBound(ys[..n]);
      MulLe(ys[n] + 1, xs[n], Pow(B, n), Pow(B, n));
      Dist(ys[n], 1, Pow(B, n));
    } else {
      assert xs[n] == ys[n];
      CompareAt(xs[..n], ys[..n], i);
    }
  }

  method Cmp(a: Integer, b: Integer) returns (c: int)
    requires a.Valid() && b.Valid()
    ensures c > 0 <==> a.Value() > b.Value()
    ensures c < 0 <==> a.Value() < b.Value()
    ensures c == 0 <==> a.Value() == b.Value()
  {
    ghost var xs, ys := a.d[..Abs(a.size)], b.d[..Abs(b.size)];
    if a.size != b.size {
      if Abs(a.size) > Abs(b.size) { LongerIsLarger(xs, ys); }
      if Abs(a.size) < Abs(b.size) { LongerIsLarger(ys, xs); }
      SizeSign(a);
      SizeSign(b);
      return if a.size > b.size then 1 else -1;
    }
    var sign := if a.size > 0 then 1 else -1;
    var i := Abs(a.size) - 1;
    while i >= 0
      invariant -1 <= i < |xs|
      invariant forall j {:trigger xs[j]} :: i < j < |xs| ==> xs[j] == ys[j]
    {
      var al, bl := a.d[i], b.d[i];
      if al != bl {
        if al > bl { CompareAt(xs, ys, i); } else { CompareAt(ys, xs, i); }
        return if al > bl then sign else 0 - sign;
      }
      i := i - 1;
    }
    assert xs == ys;
    return 0;
  }

  // ---------------------------------------------------------------- mpz_tdiv_q_2exp

  /** The limbs below i and the limb still to be completed hold the limbs zs below i + 1, shifted down by cnt bits. */
  ghost predicate Shifted(rd: seq<nat>, i: nat, low: nat, zs: seq<nat>, P: nat) {
    && i < |zs| && i <= |rd| && P > 0
    && Proper(rd[..i])
    && low == zs[i] / P
    && P * (Val(rd[..i]) + low * Pow(B, i)) + zs[0] % P == Val(zs[..i + 1])
    && (i > 0 && zs[i] > 0 && low == 0 ==> rd[i - 1] > 0)
  }

  lemma SplitLimb(cnt: nat, tnc: nat)
    requires cnt + tnc == LIMB_BITS
    ensures Pow2(cnt) * Pow2(tnc) == B && Pow2(tnc) <= B
  {
    Pow2Add(cnt, tnc);
    TwoTo32();
    MulLe(1, Pow2(cnt), Pow2(tnc), Pow2(tnc));
  }

  lemma ShiftUpInLimb(z: nat, P: nat, T: nat)
    requires P > 0 && T > 0 && P * T == B && z < B
    ensures z * T < WORD && LO(z * T) == (z % P) * T <= B - T
  {
    var q, m := z / P, z % P;
    DivMod(z, P);
    MulLe(m, P - 1, T, T);
    Dist(P, 1, T);
    MulLe(1, P, T, T);
    MulLe(z, B - 1, T, B);
    ShiftUpSum(q, m, P, T);
    DivModUnique(z * T, B, q, m * T);
  }

  lemma ShiftUpSum(q: nat, m: nat, P: nat, T: nat)
    requires P * T == B
    ensures (P * q + m) * T == B * q + m * T
  {
    Dist(P * q, m, T);
    assert (P * q) * T == (P * T) * q;
  }

  lemma OrLow(low: nat, v: nat, m: nat, tnc: nat)
    requires low < Pow2(tnc) && v == m * Pow2(tnc)
    ensures BitOr(low, v) == low + v
  {
    BitOrIsSum(m, low, tnc);
    BitOrComm(low, v);
  }

  lemma ShiftedUp(z: nat, cnt: nat, tnc: nat)
    requires cnt + tnc == LIMB_BITS && z < B
    ensures LO(Wrap(z * Pow2(tnc))) == LowBits(z, cnt) * Pow2(tnc) <= B - Pow2(tnc)
    ensures ShiftRight(z, cnt) < Pow2(tnc)
  {
    SplitLimb(cnt, tnc);
    ShiftUpInLimb(z, Pow2(cnt), Pow2(tnc));
    ShiftedDown(z, cnt, tnc);
  }

  lemma ShiftedDown(z: nat, cnt: nat, tnc: nat)
    requires cnt + tnc == LIMB_BITS && z < B
    ensures ShiftRight(z, cnt) < Pow2(tnc)
  {
    SplitLimb(cnt, tnc);
    LimbBelow(z, Pow2(cnt), Pow2(tnc));
  }

  /** The part of limb z that is shifted out at the bottom is put at the top of the limb below it. */
  method CrossLimb(low: nat, z: nat, cnt: nat, tnc: nat) returns (v: nat, low': nat)
    requires cnt + tnc == LIMB_BITS && z < B && low < Pow2(tnc)
    ensures v == low + LowBits(z, cnt) * Pow2(tnc) < B
    ensures low' == ShiftRight(z, cnt) < Pow2(tnc)
  {
    ShiftedUp(z, cnt, tnc);
    var up := LO(Wrap(z * Pow2(tnc)));
    OrLow(low, up, LowBits(z, cnt), tnc);
    v := BitOr(low, up);
    low' := ShiftRight(z, cnt);
  }

  lemma LimbBelow(z: nat, P: nat, T: nat)
    requires P > 0 && z < B && P * T == B
    ensures z / P < T
  {
    DivMod(z, P);
    if z / P >= T { MulLe(P, P, T, z / P); }
  }

  lemma ShiftLimbUp(rd: seq<nat>, i: nat, low: nat, zs: seq<nat>, cnt: nat, tnc: nat, v: nat, low': nat)
    requires cnt + tnc == LIMB_BITS && Shifted(rd, i, low, zs, Pow2(cnt)) && i + 1 < |zs| && i < |rd|
    requires v == low + LowBits(zs[i + 1], cnt) * Pow2(tnc) < B && low' == ShiftRight(zs[i + 1], cnt)
    ensures Shifted(rd[i := v], i + 1, low', zs, Pow2(cnt))
  {
    var P, T, z := Pow2(cnt), Pow2(tnc), zs[i + 1];
    SplitLimb(cnt, tnc);
    WriteLimb(rd, i, v);
    ValPrefix(zs, i + 1);
    DivMod(z, P);
    ShiftSum(P, T, Val(rd[..i]), low, Pow(B, i), z / P, z % P);
    if z > 0 && z / P == 0 { MulLe(1, z % P, 1, T); }
  }

  lemma ShiftSum(P: nat, T: nat, v: nat, low: nat, p: nat, q: nat, m: nat)
    requires P * T == B
    ensures P * ((v + (low + m * T) * p) + q * (B * p)) == P * (v + low * p) + (P * q + m) * (B * p)
  {
    calc {
      P * ((v + (low + m * T) * p) + q * (B * p));
      { Dist(low, m * T, p); }
      P * (v + low * p + (m * T) * p + q * (B * p));
      { Dist(v + low * p, (m * T) * p + q * (B * p), P); Dist((m * T) * p, q * (B * p), P); }
      P * (v + low * p) + P * ((m * T) * p) + P * (q * (B * p));
      { assert P * ((m * T) * p) == m * ((P * T) * p); MulAssoc(P, q, B * p); }
      P * (v + low * p) + m * (B * p) + (P * q) * (B * p);
      { Dist(P * q, m, B * p); }
      P * (v + low * p) + (P * q + m) * (B * p);
    }
  }

  /** The loop of mpz_tdiv_q_2exp: shifting the limbs of a from lcnt on down by cnt bits, into r. */
  method ShiftDown(r: Integer, a: Integer, lcnt: nat, cnt: nat, rn: nat, ghost xs: seq<nat>, ghost zs: seq<nat>)
    returns (low: nat)
    requires 0 < cnt < LIMB_BITS && 0 < rn == |zs| && lcnt + rn == |xs| && rn <= |r.d| && Unread(a, xs, 0)
    requires Proper(zs) && zs == xs[lcnt..]
    modifies r`d
    ensures |r.d| == old(|r.d|) && Shifted(r.d, rn - 1, low, zs, Pow2(cnt))
    ensures low < B
  {
    ghost var P := Pow2(cnt);
    var tnc := LIMB_BITS - cnt;
    var high := a.d[lcnt];
    low := ShiftRight(high, cnt);
    FirstLimb(zs, r.d, cnt, tnc);
    var i := 0;
    while i < rn - 1
      invariant 0 <= i <= rn - 1 && |r.d| == old(|r.d|) && low < Pow2(tnc)
      invariant Unread(a, xs, lcnt + i + 1) && Shifted(r.d, i, low, zs, P)
    {
      high := a.d[lcnt + i + 1];
      var v, low' := CrossLimb(low, high, cnt, tnc);
      ShiftLimbUp(r.d, i, low, zs, cnt, tnc, v, low');
      r.d := r.d[i := v];
      low := low';
      i := i + 1;
    }
  }

  lemma FirstLimb(zs: seq<nat>, rd: seq<nat>, cnt: nat, tnc: nat)
    requires |zs| > 0 && zs[0] < B && cnt + tnc == LIMB_BITS
    ensures Shifted(rd, 0, ShiftRight(zs[0], cnt), zs, Pow2(cnt))
    ensures ShiftRight(zs[0], cnt) < Pow2(tnc) <= B
  {
    ValPrefix(zs, 0);
    DivMod(zs[0], Pow2(cnt));
    SplitLimb(cnt, tnc);
    LimbBelow(zs[0], Pow2(cnt), Pow2(tnc));
  }

  /** The limbs that were shifted down are the quotient by the power of two. */
  lemma ShiftedQuotient(rd: seq<nat>, rn: nat, low: nat, zs: seq<nat>, P: nat)
    requires rn == |zs| && 0 < rn <= |rd| && Shifted(rd, rn - 1, low, zs, P) && low < B
    ensures Proper(rd[rn - 1 := low][..rn]) && Val(rd[rn - 1 := low][..rn]) == Val(zs) / P
  {
    WriteLimb(rd, rn - 1, low);
    ValWhole(zs);
    DivMod(zs[0], P);
    DivModUnique(Val(zs), P, Val(rd[rn - 1 := low][..rn]), zs[0] % P);
  }

  lemma DropLimbs(xs: seq<nat>, l: nat)
    requires l <= |xs| && Proper(xs)
    ensures Proper(xs[l..]) && Val(xs[l..]) == Val(xs) / Pow(B, l)
  {
    ValSplit(xs, l);
    ValBound(xs[..l]);
    DivModUnique(Val(xs), Pow(B, l), Val(xs[l..]), Val(xs[..l]));
  }

  lemma LimbShift(bcnt: nat)
    ensures Pow2(bcnt) == Pow(B, bcnt / LIMB_BITS) * Pow2(bcnt % LIMB_BITS)
  {
    PowB(bcnt / LIMB_BITS);
    Pow2Add(LIMB_BITS * (bcnt / LIMB_BITS), bcnt % LIMB_BITS);
  }

  /** mpz_tdiv_q_2exp: the magnitude is shifted down, and the sign stays. */
  method TdivQ2exp(r: Integer, a: Integer, bcnt: nat)
    requires a.Valid()
    modifies r
    ensures r.Valid() && r.Value() == Signed(old(a.size), ShiftRight(old(a.Magnitude()), bcnt))
    ensures old(a.size) >= 0 ==> r.size >= 0
  {
    var size := a.size;
    ghost var xs := a.d[..Abs(size)];
    var lcnt, cnt := bcnt / LIMB_BITS, bcnt % LIMB_BITS;
    var rn := Abs(size) - lcnt;
    if rn <= 0 {
      ShiftedAway(xs, lcnt, bcnt);
      r.size := 0;
      return;
    }
    r.Realloc(rn);
    ShiftedQuotients(xs, lcnt, cnt, bcnt);
    if cnt != 0 {
      var low := ShiftDown(r, a, lcnt, cnt, rn, xs, xs[lcnt..]);
      rn := FinishShift(r, rn, low, xs[lcnt..], Pow2(cnt));
    } else {
      CopyDown(r, a, lcnt, rn, xs);
    }
    r.size := if size >= 0 then rn else 0 - rn;
  }

  /** The last limb of mpz_tdiv_q_2exp, which is dropped when it is zero. */
  method FinishShift(r: Integer, rn: nat, low: nat, ghost zs: seq<nat>, ghost P: nat) returns (n: nat)
    requires rn == |zs| && 0 < rn <= |r.d| && Shifted(r.d, rn - 1, low, zs, P) && low < B && zs[rn - 1] > 0
    modifies r`d
    ensures n <= rn <= |r.d| && Proper(r.d[..n]) && Val(r.d[..n]) == Val(zs) / P && (n > 0 ==> r.d[n - 1] > 0)
  {
    ShiftedQuotient(r.d, rn, low, zs, P);
    r.d := r.d[rn - 1 := low];
    n := rn;
    if low == 0 {
      ValPrefix(r.d, rn - 1);
      assert r.d[..rn - 1] == r.d[..rn][..rn - 1];
      n := rn - 1;
    }
  }

  /** mpn_copyi from position lcnt of a to the start of r. */
  method CopyDown(r: Integer, a: Integer, lcnt: nat, rn: nat, ghost xs: seq<nat>)
    requires lcnt + rn == |xs| && rn <= |r.d| && Unread(a, xs, 0)
    modifies r`d
    ensures |r.d| == old(|r.d|) && r.d[..rn] == xs[lcnt..]
  {
    var i := 0;
    while i < rn
      invariant 0 <= i <= rn && |r.d| == old(|r.d|) && Unread(a, xs, lcnt + i)
      invariant forall j {:trigger r.d[j]} :: 0 <= j < i ==> r.d[j] == xs[lcnt + j]
    {
      r.d := r.d[i := a.d[lcnt + i]];
      i := i + 1;
    }
  }

  /** Dropping whole limbs and shifting the rest is shifting by all the bits. */
  lemma ShiftedQuotients(xs: seq<nat>, lcnt: nat, cnt: nat, bcnt: nat)
    requires lcnt == bcnt / LIMB_BITS && cnt == bcnt % LIMB_BITS && lcnt <= |xs| && Proper(xs)
    ensures Proper(xs[lcnt..]) && ShiftRight(Val(xs[lcnt..]), cnt) == ShiftRight(Val(xs), bcnt)
    ensures cnt == 0 ==> Val(xs[lcnt..]) == ShiftRight(Val(xs), bcnt)
  {
    LimbShift(bcnt);
    DropLimbs(xs, lcnt);
    DivDiv(Val(xs), Pow(B, lcnt), Pow2(cnt));
  }

  lemma ShiftedAway(xs: seq<nat>, lcnt: nat, bcnt: nat)
    requires Proper(xs) && lcnt == bcnt / LIMB_BITS && |xs| <= lcnt
    ensures ShiftRight(Val(xs), bcnt) == 0
  {
    LimbShift(bcnt);
    ValBound(xs);
    PowAdd(B, |xs|, lcnt - |xs|);
    MulLe(Pow(B, |xs|), Pow(B, |xs|), 1, Pow(B, lcnt - |xs|));
    MulLe(Pow(B, lcnt), Pow(B, lcnt), 1, Pow2(bcnt % LIMB_BITS));
    ModSelf(Val(xs), Pow2(bcnt));
  }
}
