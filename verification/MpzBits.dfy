/** Single bits, bit lengths and remainders by powers of two of third-party/gmp/dumbmp.c. */
module MpzBits {
  import opened Arith
  import opened Limbs
  import opened Mpz
  import opened MpzMul
  import opened MpzShift

  lemma ValLow(xs: seq<nat>)
    requires |xs| > 0
    ensures Val(xs) == xs[0] + B * Val(xs[1..])
  {
    ValSplit(xs, 1);
    ValPrefix(xs, 0);
    assert xs[..1][..0] == [];
    assert Pow(B, 1) == B * Pow(B, 0);
  }

  // ---------------------------------------------------------------- mpz_tdiv_r_2exp

  lemma LowPart(low: nat, p: nat, h: nat, q: nat)
    requires p > 0 && q > 0 && low < p
    ensures p * q > 0 && (low + p * h) % (p * q) == low + p * (h % q)
  {
    MulLe(1, p, 1, q);
    var k, m := h / q, h % q;
    DivMod(h, q);
    Dist(q * k, m, p);
    MulAssoc(p, q, k);
    MulLe(p, p, m + 1, q);
    Dist(m, 1, p);
    DivModUnique(low + p * h, p * q, k, low + p * m);
  }

  lemma LowPartOfLimb(x: nat, rest: nat, cnt: nat)
    requires cnt <= LIMB_BITS
    ensures LowBits(x + B * rest, cnt) == LowBits(x, cnt)
  {
    var P, T := Pow2(cnt), Pow2(LIMB_BITS - cnt);
    SplitLimb(cnt, LIMB_BITS - cnt);
    MulAssoc(P, T, rest);
    ModAddMultiple(x, T * rest, P);
  }

  lemma LowPartBits(low: nat, p: nat, h: nat, c: nat, bcnt: nat)
    requires p > 0 && low < p && Pow2(bcnt) == p * Pow2(c)
    ensures LowBits(low + p * h, bcnt) == low + p * LowBits(h, c)
  {
    LowPart(low, p, h, Pow2(c));
  }

  /** The limbs below the one that holds bit bcnt, and the low bits of that one, are the remainder. */
  lemma MaskedLimbs(xs: seq<nat>, l: nat, c: nat, bcnt: nat)
    requires Proper(xs) && l == bcnt / LIMB_BITS < |xs| && c == bcnt % LIMB_BITS
    ensures LowBits(Val(xs), bcnt) == Val(xs[..l]) + LowBits(xs[l], c) * Pow(B, l)
  {
    LimbShift(bcnt);
    ValSplit(xs, l);
    ValBound(xs[..l]);
    LowBitsOfLimbs(xs[l..], c);
    MaskedSum(Val(xs), Val(xs[..l]), Pow(B, l), Val(xs[l..]), LowBits(xs[l], c), c, bcnt);
  }

  lemma MaskedSum(v: nat, low: nat, p: nat, h: nat, m: nat, c: nat, bcnt: nat)
    requires p > 0 && low < p && Pow2(bcnt) == p * Pow2(c) && v == low + p * h && m == LowBits(h, c)
    ensures LowBits(v, bcnt) == low + m * p
  {
    LowPartBits(low, p, h, c, bcnt);
  }

  lemma LowBitsOfLimbs(zs: seq<nat>, c: nat)
    requires |zs| > 0 && c <= LIMB_BITS
    ensures LowBits(Val(zs), c) == LowBits(zs[0], c)
  {
    ValLow(zs);
    LowPartOfLimb(zs[0], Val(zs[1..]), c);
  }

  lemma NothingToMask(xs: seq<nat>, bcnt: nat)
    requires Proper(xs) && |xs| <= bcnt / LIMB_BITS
    ensures LowBits(Val(xs), bcnt) == Val(xs)
  {
    ShiftedAway(xs, bcnt / LIMB_BITS, bcnt);
    DivMod(Val(xs), Pow2(bcnt));
    assert Pow2(bcnt) * 0 == 0;
  }

  /** mpz_tdiv_r_2exp: the low bits of the magnitude, with the sign of a. */
  method TdivR2exp(r: Integer, a: Integer, bcnt: nat)
    requires a.Valid()
    modifies r
    ensures r.Valid() && r.Value() == Signed(old(a.size), LowBits(old(a.Magnitude()), bcnt))
    ensures old(a.size) >= 0 ==> r.size >= 0
  {
    ghost var v := a.Value();
    Set(r, a);
    var rn := Abs(r.size);
    ghost var xs := r.d[..rn];
    var bwhole, c := bcnt / LIMB_BITS, bcnt % LIMB_BITS;
    if rn > bwhole {
      MaskedLimbs(xs, bwhole, c, bcnt);
      MaskLimb(r, bwhole, c, xs, LowBits(Val(xs), bcnt));
    } else {
      NothingToMask(xs, bcnt);
    }
  }

  method MaskLimb(r: Integer, bwhole: nat, c: nat, ghost xs: seq<nat>, ghost v: nat)
    requires c < LIMB_BITS && r.Valid() && bwhole < |xs| == Abs(r.size) && r.d[..|xs|] == xs
    requires v == Val(xs[..bwhole]) + LowBits(xs[bwhole], c) * Pow(B, bwhole)
    modifies r
    ensures r.Valid() && (old(r.size) >= 0 ==> r.size >= 0)
    ensures r.Value() == Signed(old(r.size), v)
  {
    var size := r.size;
    var limb := MaskWord(r.d[bwhole], c);
    LimbPrefix(xs, r.d, bwhole);
    StoreTop(r, bwhole, limb, v);
    if size < 0 { r.size := 0 - r.size; }
  }

  method MaskWord(x: nat, c: nat) returns (y: nat)
    requires x < B
    ensures y == LowBits(x, c) < B
  {
    y := BitAnd(x, Pow2(c) - 1);
    MaskIs(x, c, y);
  }

  lemma LimbPrefix(xs: seq<nat>, d: seq<nat>, n: nat)
    requires n <= |xs| <= |d| && d[..|xs|] == xs && Proper(xs)
    ensures d[..n] == xs[..n] && Proper(d[..n])
  {
    assert d[..|xs|][..n] == d[..n];
  }

  lemma MaskIs(x: nat, c: nat, y: nat)
    requires y == BitAnd(x, Pow2(c) - 1) && x < B
    ensures y == LowBits(x, c) < B
  {
    BitAndMask(x, c);
    LowBitsBelow(x, c);
  }

  lemma LowBitsBelow(x: nat, c: nat)
    ensures LowBits(x, c) <= x
  {
    DivMod(x, Pow2(c));
    DivNat(x, Pow2(c));
    MulLe(0, Pow2(c), 0, x / Pow2(c));
  }

  // ---------------------------------------------------------------- mpz_tstbit and mpz_setbit

  lemma BitOfLimb(x: nat, rest: nat, c: nat)
    requires c < LIMB_BITS
    ensures ShiftRight(x + B * rest, c) % 2 == ShiftRight(x, c) % 2
  {
    var P, T, T' := Pow2(c), Pow2(LIMB_BITS - c), Pow2(LIMB_BITS - c - 1);
    SplitLimb(c, LIMB_BITS - c);
    MulAssoc(P, T, rest);
    ModAddMultiple(x, T * rest, P);
    assert T * rest == 2 * (T' * rest) by { assert T == 2 * T'; }
  }

  lemma BitIsInLimb(xs: seq<nat>, bit: nat)
    requires Proper(xs)
    ensures bit / LIMB_BITS >= |xs| ==> Bit(Val(xs), bit) == 0
    ensures bit / LIMB_BITS < |xs| ==> Bit(Val(xs), bit) == Bit(xs[bit / LIMB_BITS], bit % LIMB_BITS)
  {
    var l, c := bit / LIMB_BITS, bit % LIMB_BITS;
    if l >= |xs| {
      ShiftedAway(xs, l, bit);
    } else {
      ShiftedQuotients(xs, l, c, bit);
      ValLow(xs[l..]);
      BitOfLimb(xs[l], Val(xs[l..][1..]), c);
    }
  }

  /** mpz_tstbit, for a number that is not negative. */
  method TstBit(r: Integer, bit: nat) returns (t: nat)
    requires r.Valid() && r.size >= 0
    ensures t == Bit(r.Value(), bit)
  {
    var limb := bit / LIMB_BITS;
    ghost var xs := r.d[..r.size];
    BitIsInLimb(xs, bit);
    if r.size <= limb { return 0; }
    t := Bit(r.d[limb], bit % LIMB_BITS);
  }

  /** Or-ing in a bit adds its weight when the bit was clear, and changes nothing when it was set. */
  lemma {:induction false} BitOrBit(x: nat, c: nat)
    ensures BitOr(x, Pow2(c)) == (if Bit(x, c) == 0 then x + Pow2(c) else x)
  {
    if c == 0 {
      BitOrZero(x / 2);
      DivModUnique(x, 1, x, 0);
    } else {
      BitOrBit(x / 2, c - 1);
      HalveMod(x, Pow2(c - 1));
    }
  }

  lemma BitRoom(x: nat, c: nat)
    requires c < LIMB_BITS && x < B && Bit(x, c) == 0
    ensures x + Pow2(c) < B
  {
    var P, T := Pow2(c), Pow2(LIMB_BITS - c);
    SplitLimb(c, LIMB_BITS - c);
    LimbBelow(x, P, T);
    DivMod(x, P);
    EvenGap(x / P, Pow2(LIMB_BITS - c - 1));
    RoomAbove(x / P, x % P, P, T);
  }

  lemma EvenGap(q: nat, half: nat)
    requires q % 2 == 0 && q < 2 * half
    ensures q + 2 <= 2 * half
  {}

  lemma RoomAbove(q: nat, r: nat, P: nat, T: nat)
    requires r < P && q + 2 <= T
    ensures P * q + r + P < P * T
  {
    MulLe(P, P, q + 2, T);
    Dist(q, 2, P);
  }

  lemma ValUpdate(xs: seq<nat>, l: nat, y: nat)
    requires l < |xs|
    ensures Val(xs[l := y]) == Val(xs) - xs[l] * Pow(B, l) + y * Pow(B, l)
  {
    var ys := xs[l := y];
    ValSplit(xs, l + 1);
    ValSplit(ys, l + 1);
    assert ys[l + 1..] == xs[l + 1..] && ys[..l] == xs[..l];
    ValPrefix(xs, l);
    ValPrefix(ys, l);
  }

  /** Zero limbs at the top do not count. */
  lemma {:induction false} ZeroTop(s: seq<nat>, n: nat)
    requires n <= |s| && forall j {:trigger s[j]} :: n <= j < |s| ==> s[j] == 0
    ensures Val(s) == Val(s[..n])
    decreases |s|
  {
    if n == |s| { ValWhole(s); } else {
      var k := |s| - 1;
      ZeroTop(s[..k], n);
      assert s[..k][..n] == s[..n];
    }
  }

  /** mpz_setbit, for a number that is not negative. */
  method SetBit(r: Integer, bit: nat)
    requires r.Valid() && r.size >= 0
    modifies r
    ensures r.Valid() && r.size >= 0
    ensures r.Value() == (if Bit(old(r.Value()), bit) == 0 then old(r.Value()) + Pow2(bit) else old(r.Value()))
  {
    var limb, c := bit / LIMB_BITS, bit % LIMB_BITS;
    var rn := r.size;
    var n := if rn > limb + 1 then rn else limb + 1;
    ghost var xs := r.d[..rn];
    r.Realloc(limb + 1);
    ZeroExtend(r, rn, n, xs);
    ghost var zs := r.d[..n];
    BitIsInLimb(zs, bit);
    LimbShift(bit);
    SetLimb(r, limb, c, n, zs, rn);
  }

  /** mpn_zero on the limbs between rn and n. */
  method ZeroExtend(r: Integer, rn: nat, n: nat, ghost xs: seq<nat>)
    requires rn == |xs| <= n <= |r.d| && r.d[..rn] == xs && Proper(xs)
    modifies r`d
    ensures |r.d| == old(|r.d|) && r.d[..rn] == xs && Proper(r.d[..n]) && Val(r.d[..n]) == Val(xs)
    ensures forall j :: rn <= j < n ==> r.d[j] == 0
  {
    var i := rn;
    while i < n
      invariant rn <= i <= n && |r.d| == old(|r.d|) && r.d[..rn] == xs
      invariant forall j :: rn <= j < i ==> r.d[j] == 0
    {
      r.d := r.d[i := 0];
      i := i + 1;
    }
    ghost var zs := r.d[..n];
    assert zs[..rn] == xs;
    assert forall j :: 0 <= j < rn ==> zs[j] == xs[j];
    ZeroTop(zs, rn);
  }

  method SetLimb(r: Integer, limb: nat, c: nat, n: nat, ghost zs: seq<nat>, rn: nat)
    requires c < LIMB_BITS && limb < n == |zs| <= |r.d| && r.d[..n] == zs && Proper(zs)
    requires n == (if rn > limb + 1 then rn else limb + 1) && (limb < n - 1 ==> zs[n - 1] > 0)
    modifies r
    ensures r.Valid() && r.size >= 0
    ensures r.Value() == Val(zs) + (if Bit(zs[limb], c) == 0 then Pow(B, limb) * Pow2(c) else 0)
  {
    var x := r.d[limb];
    assert x == zs[limb];
    BitOrBit(x, c);
    if Bit(x, c) == 0 { BitRoom(x, c); } else if x == 0 { ModSelf(0, Pow2(c)); }
    var y := BitOr(x, Pow2(c));
    ValUpdate(zs, limb, y);
    Dist(x, Pow2(c), Pow(B, limb));
    r.d := r.d[limb := y];
    assert r.d[..n] == zs[limb := y];
    r.size := n;
  }

  // ---------------------------------------------------------------- mpz_sizeinbase

  /** The number of bits of one limb. */
  method LimbBits(limb: nat) returns (cnt: nat)
    ensures limb < Pow2(cnt) && (limb > 0 ==> cnt > 0 && Pow2(cnt - 1) <= limb)
  {
    var hi := limb;
    cnt := 0;
    while hi != 0
      invariant hi == ShiftRight(limb, cnt)
      invariant limb > 0 ==> (cnt == 0 && hi > 0) || (cnt > 0 && Pow2(cnt - 1) <= limb)
      decreases hi
    {
      DivMod(limb, Pow2(cnt));
      MulLe(Pow2(cnt), Pow2(cnt), 1, hi);
      DivDiv(limb, Pow2(cnt), 2);
      hi := hi / 2;
      cnt := cnt + 1;
    }
    DivMod(limb, Pow2(cnt));
    assert Pow2(cnt) * 0 == 0;
  }

  /** mpz_sizeinbase, base 2. */
  method SizeInBase2(a: Integer) returns (n: nat)
    requires a.Valid()
    ensures a.Magnitude() < Pow2(n)
    ensures a.Magnitude() > 0 ==> n > 0 && Pow2(n - 1) <= a.Magnitude()
  {
    var an := Abs(a.size);
    if an == 0 { return 1; }
    ghost var xs := a.d[..an];
    var cnt := LimbBits(a.d[an - 1]);
    n := (an - 1) * LIMB_BITS + cnt;
    BitLength(xs, an - 1, cnt);
  }

  lemma BitLength(xs: seq<nat>, k: nat, cnt: nat)
    requires |xs| == k + 1 && Proper(xs) && cnt > 0 && Pow2(cnt - 1) <= xs[k] < Pow2(cnt)
    ensures Pow2(k * LIMB_BITS + cnt - 1) <= Val(xs) < Pow2(k * LIMB_BITS + cnt)
  {
    PowB(k);
    ValBound(xs[..k]);
    Pow2Add(LIMB_BITS * k, cnt);
    Pow2Add(LIMB_BITS * k, cnt - 1);
    TopLimbBounds(Val(xs[..k]), xs[k], Pow(B, k), Pow2(cnt - 1), Pow2(cnt));
  }

  lemma TopLimbBounds(low: nat, x: nat, p: nat, q: nat, q': nat)
    requires low < p && q <= x < q'
    ensures p * q <= low + x * p < p * q'
  {
    MulLe(q, x, p, p);
    MulLe(x + 1, q', p, p);
    Dist(x, 1, p);
  }
}
