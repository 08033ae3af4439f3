/**
 * Limb vectors of third-party/gmp/dumbmp.c. A limb is the low half of a 64-bit word, least significant limb first.
 */
module Limbs {
  import opened Arith

  const LIMB_BITS: nat := 32
  const B: nat := 0x1_0000_0000
  const WORD: nat := 0x1_0000_0000_0000_0000

  // LO, HI and the wrap-around of the word they are taken from.
  function LO(x: nat): nat { x % B }

  function HI(x: nat): nat { x / B }

  function Wrap(x: int): nat { x % WORD }

  ghost predicate Proper(s: seq<nat>) {
    forall i {:trigger s[i]} :: 0 <= i < |s| ==> s[i] < B
  }

  /** The number that a limb vector stands for. */
  ghost function Val(s: seq<nat>): nat {
    if |s| == 0 then 0 else Val(s[..|s| - 1]) + s[|s| - 1] * Pow(B, |s| - 1)
  }

  lemma ValPrefix(s: seq<nat>, i: nat)
    requires i < |s|
    ensures Val(s[..i + 1]) == Val(s[..i]) + s[i] * Pow(B, i)
  {
    assert s[..i + 1][..i] == s[..i];
  }

  lemma ValWhole(s: seq<nat>)
    ensures Val(s[..|s|]) == Val(s)
  {
    assert s[..|s|] == s;
  }

  lemma {:induction false} ValBound(s: seq<nat>)
    requires Proper(s)
    ensures Val(s) < Pow(B, |s|)
  {
    if |s| > 0 {
      var n := |s| - 1;
      ValBound(s[..n]);
      MulLe(s[n], B - 1, Pow(B, n), Pow(B, n));
      Dist(B, 1, Pow(B, n));
    }
  }

  lemma ValTop(s: seq<nat>)
    requires |s| > 0 && s[|s| - 1] > 0
    ensures Val(s) >= Pow(B, |s| - 1)
  {
    MulLe(1, s[|s| - 1], Pow(B, |s| - 1), Pow(B, |s| - 1));
  }

  lemma {:induction false} ValZeros(s: seq<nat>)
    requires forall i {:trigger s[i]} :: 0 <= i < |s| ==> s[i] == 0
    ensures Val(s) == 0
  {
    if |s| > 0 { ValZeros(s[..|s| - 1]); }
  }

  /** A vector is its low limbs plus its high limbs shifted into place. */
  lemma {:induction false} ValSplit(s: seq<nat>, l: nat)
    requires l <= |s|
    ensures Val(s) == Val(s[..l]) + Pow(B, l) * Val(s[l..])
  {
    if l == |s| {
      ValWhole(s);
      assert Val(s[l..]) == 0;
    } else {
      var n := |s| - 1;
      ValSplit(s[..n], l);
      assert s[..n][..l] == s[..l];
      assert s[..n][l..] == s[l..][..n - l];
      PowAdd(B, l, n - l);
      ShiftLimb(Pow(B, l), Val(s[..n][l..]), s[n], Pow(B, n - l));
    }
  }

  lemma ShiftLimb(p: nat, v: nat, x: nat, q: nat)
    ensures p * (v + x * q) == p * v + x * (p * q)
  {
    Dist(v, x * q, p);
    MulAssoc(x, p, q);
    MulAssoc(p, x, q);
  }

  lemma {:induction false} PowB(n: nat)
    ensures Pow(B, n) == Pow2(LIMB_BITS * n)
  {
    if n == 0 {
    } else {
      PowB(n - 1);
      Pow2Add(LIMB_BITS, LIMB_BITS * (n - 1));
      TwoTo32();
    }
  }

  lemma TwoTo32()
    ensures Pow2(32) == B
  {
    assert Pow2(8) == 256;
    Pow2Add(8, 8);
    Pow2Add(16, 16);
  }

  // ---------------------------------------------------------------- one step of a carry loop

  /** Adding one limb position with its carry. */
  lemma AddStep(va: nat, vb: nat, vr: nat, p: nat, cy: nat, x: nat, y: nat, lo: nat, hi: nat)
    requires vr + cy * p == va + vb && x + y + cy == lo + B * hi
    ensures (vr + lo * p) + hi * (B * p) == (va + x * p) + (vb + y * p)
  {
    assert (x + y + cy) * p == x * p + y * p + cy * p;
    assert (lo + B * hi) * p == lo * p + hi * (B * p);
  }

  /** Subtracting one limb position with its borrow. */
  lemma SubStep(va: nat, vb: nat, vr: nat, p: nat, cy: nat, x: nat, y: nat, lo: nat, hi: nat)
    requires vr + vb == va + cy * p && x + B * hi == lo + y + cy
    ensures (vr + lo * p) + (vb + y * p) == (va + x * p) + hi * (B * p)
  {
    assert (lo + y + cy) * p == lo * p + y * p + cy * p;
    assert (x + B * hi) * p == x * p + hi * (B * p);
  }

  /** The low half and the borrow of a difference that wraps around in its word. */
  lemma Borrow(x: int)
    requires 0 <= x + B && x < B
    ensures var t := Wrap(x);
      var cy := LO(Wrap(0 - HI(t)));
      cy <= 1 && x + B * cy == LO(t)
  {}

  /** The product of two limbs plus two limbs fits a word. */
  lemma LimbProduct(x: nat, y: nat, t: nat, cy: nat)
    requires x < B && y < B && t < B && cy < B
    ensures x * y + t + cy < WORD
  {
    MulLe(x, B - 1, y, B - 1);
  }
}
