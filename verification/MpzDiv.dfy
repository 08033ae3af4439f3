/** Restoring division of third-party/gmp/dumbmp.c, with the comparison exactly as the source has it. */
module MpzDiv {
  import opened Arith
  import opened Limbs
  import opened Mpz
  import opened MpzMul
  import opened MpzShift
  import opened MpzBits

  /** The quotient that mpz_tdiv_qr computes: the test for a > b leaves equal operands undivided. */
  function Quotient(a: nat, b: nat): nat
    requires b > 0
  {
    if a == b then 0 else DivNat(a, b); a / b
  }

  function Remainder(a: nat, b: nat): nat
    requires b > 0
  {
    if a == b then b else a % b
  }

  /** This is the quotient and the remainder of the division exactly when the operands are not equal. */
  lemma WrongExactlyForEqualOperands(a: nat, b: nat)
    requires b > 0
    ensures Quotient(a, b) == a / b && Remainder(a, b) == a % b <==> a != b
  {
    if a == b { DivModUnique(a, b, 1, 0); }
  }

  lemma {:induction false} Pow2Mono(a: nat, b: nat)
    requires a <= b
    ensures Pow2(a) <= Pow2(b)
  {
    Pow2Add(a, b - a);
    MulLe(Pow2(a), Pow2(a), 1, Pow2(b - a));
  }

  /** The shift that the bit lengths give makes the divisor larger than the dividend. */
  lemma AlignedDivisor(a: nat, b: nat, sa: nat, sb: nat)
    requires a > b > 0 && a < Pow2(sa) && sb > 0 && Pow2(sb - 1) <= b
    ensures sa >= sb && a < b * Pow2(sa - sb + 1)
  {
    if sa < sb { Pow2Mono(sa, sb - 1); }
    Pow2Add(sb - 1, sa - sb + 1);
    MulLe(Pow2(sb - 1), b, Pow2(sa - sb + 1), Pow2(sa - sb + 1));
  }

  lemma OneShift(d: nat)
    ensures Pow2(1) == 2 && ShiftRight(2 * d, 1) == d
  {
    assert Pow2(1) == 2 * Pow2(0);
  }

  /** q and r are a quotient and a remainder of a and b. */
  predicate Divided(a: nat, b: nat, q: nat, r: nat) {
    a == q * b + r && r < b
  }

  /** One quotient bit: the remainder is kept below the divisor, so the assertion of the source holds. */
  lemma QuotientBit(a: nat, q: nat, d: nat, r: nat)
    requires Divided(a, 2 * d, q, r)
    ensures r >= d ==> Divided(a, d, q * 2 + 1, r - d)
    ensures r < d ==> Divided(a, d, q * 2, r)
  {
    Doubled(q, d);
    Dist(q * 2, 1, d);
  }

  lemma DivisionIs(a: nat, b: nat, q: nat, r: nat)
    requires b > 0 && a == q * b + r && r < b && a != b
    ensures q == Quotient(a, b) && r == Remainder(a, b)
  {
    DivModUnique(a, b, q, r);
  }

  /** mpz_tdiv_qr; the results may be any of the operands. */
  method TdivQr(q: Integer, r: Integer, a: Integer, b: Integer)
    requires a.Valid() && b.Valid() && a.size >= 0 && b.size > 0 && q != r
    modifies q, r
    ensures q.Valid() && r.Valid() && q.size >= 0 && r.size >= 0 && old(b.Value()) > 0
    ensures q.Value() == Quotient(old(a.Value()), old(b.Value()))
    ensures r.Value() == Remainder(old(a.Value()), old(b.Value()))
  {
    SizeSign(b);
    ghost var av, bv := a.Value(), b.Value();
    var tmpr := new Integer();
    Set(tmpr, a);
    var tmpb := new Integer();
    Set(tmpb, b);
    SetUi(q, 0);
    var c := Cmp(tmpr, tmpb);
    if c > 0 {
      DivideAligned(q, tmpr, tmpb);
      DivisionIs(av, bv, q.Value(), tmpr.Value());
    } else if c < 0 {
      ModSelf(av, bv);
    }
    Set(r, tmpr);
  }

  /** The larger number is divided, from the shift on at which it is below the divisor. */
  method DivideAligned(q: Integer, tmpr: Integer, tmpb: Integer)
    requires q != tmpr && q != tmpb && tmpr != tmpb
    requires q.Valid() && tmpr.Valid() && tmpb.Valid() && q.size >= 0
    requires q.Value() == 0 && tmpr.Value() > tmpb.Value() > 0
    modifies q, tmpr, tmpb
    ensures q.Valid() && tmpr.Valid() && q.size >= 0 && tmpr.size >= 0
    ensures old(tmpr.Value()) == q.Value() * old(tmpb.Value()) + tmpr.Value() && tmpr.Value() < old(tmpb.Value())
  {
    SizeSign(tmpr);
    SizeSign(tmpb);
    ghost var av, bv := tmpr.Value(), tmpb.Value();
    var sa := SizeInBase2(tmpr);
    var sb := SizeInBase2(tmpb);
    AlignedDivisor(av, bv, sa, sb);
    var cnt: nat := sa - sb + 1;
    Mul2exp(tmpb, tmpb, cnt);
    DivideBits(q, tmpr, tmpb, cnt, av, bv);
  }

  /** The loop of mpz_tdiv_qr. */
  method DivideBits(q: Integer, tmpr: Integer, tmpb: Integer, cnt0: nat, ghost av: nat, ghost bv: nat)
    requires q != tmpr && q != tmpb && tmpr != tmpb && bv > 0
    requires q.Valid() && tmpr.Valid() && tmpb.Valid() && q.size >= 0 && tmpr.size >= 0 && tmpb.size >= 0
    requires q.Value() == 0 && tmpr.Value() == av < bv * Pow2(cnt0) == tmpb.Value()
    modifies q, tmpr, tmpb
    ensures q.Valid() && tmpr.Valid() && q.size >= 0 && tmpr.size >= 0
    ensures av == q.Value() * bv + tmpr.Value() && tmpr.Value() < bv
  {
    var cnt := cnt0;
    while cnt > 0
      invariant q.Valid() && tmpr.Valid() && tmpb.Valid() && q.size >= 0 && tmpr.size >= 0 && tmpb.size >= 0
      invariant tmpb.Value() == bv * Pow2(cnt)
      invariant Divided(av, tmpb.Value(), q.Value(), tmpr.Value())
      decreases cnt
    {
      TwiceShifted(bv, cnt);
      QuotientStep(q, tmpr, tmpb, av, bv * Pow2(cnt - 1));
      cnt := cnt - 1;
    }
  }

  lemma TwiceShifted(b: nat, cnt: nat)
    requires cnt > 0
    ensures b * Pow2(cnt) == 2 * (b * Pow2(cnt - 1))
  {}

  /** One round: the quotient gets one more bit, and the divisor moves down to d. */
  method QuotientStep(q: Integer, tmpr: Integer, tmpb: Integer, ghost av: nat, ghost d: nat)
    requires q != tmpr && q != tmpb && tmpr != tmpb
    requires q.Valid() && tmpr.Valid() && tmpb.Valid() && q.size >= 0 && tmpr.size >= 0 && tmpb.size >= 0
    requires tmpb.Value() == 2 * d && Divided(av, 2 * d, q.Value(), tmpr.Value())
    modifies q, tmpr, tmpb
    ensures q.Valid() && tmpr.Valid() && tmpb.Valid() && q.size >= 0 && tmpr.size >= 0 && tmpb.size >= 0
    ensures tmpb.Value() == d && Divided(av, d, q.Value(), tmpr.Value())
  {
    QuotientBit(av, q.Value(), d, tmpr.Value());
    MoveOn(q, tmpb, d);
    SubtractOnce(q, tmpr, tmpb);
  }

  method MoveOn(q: Integer, tmpb: Integer, ghost d: nat)
    requires q != tmpb && q.Valid() && tmpb.Valid() && q.size >= 0 && tmpb.size >= 0 && tmpb.Value() == 2 * d
    modifies q, tmpb
    ensures q.Valid() && tmpb.Valid() && q.size >= 0 && tmpb.size >= 0
    ensures q.Value() == old(q.Value()) * 2 && tmpb.Value() == d
  {
    OneShift(d);
    Mul2exp(q, q, 1);
    TdivQ2exp(tmpb, tmpb, 1);
  }

  /** The divisor is subtracted if it is not the larger number. */
  method SubtractOnce(q: Integer, tmpr: Integer, tmpb: Integer)
    requires q != tmpr && q != tmpb && tmpr != tmpb
    requires q.Valid() && tmpr.Valid() && tmpb.Valid() && q.size >= 0 && tmpr.size >= 0 && tmpb.size >= 0
    modifies q, tmpr
    ensures q.Valid() && tmpr.Valid() && tmpb.Valid() && q.size >= 0 && tmpr.size >= 0
    ensures old(tmpr.Value()) >= tmpb.Value() ==>
      q.Value() == old(q.Value()) + 1 && tmpr.Value() == old(tmpr.Value()) - tmpb.Value()
    ensures old(tmpr.Value()) < tmpb.Value() ==> q.Value() == old(q.Value()) && tmpr.Value() == old(tmpr.Value())
  {
    var c := Cmp(tmpr, tmpb);
    if c >= 0 {
      Sub(tmpr, tmpr, tmpb);
      AddUi(q, q, 1);
    }
  }

  /** mpz_tdiv_q */
  method TdivQ(q: Integer, a: Integer, b: Integer)
    requires a.Valid() && b.Valid() && a.size >= 0 && b.size > 0
    modifies q
    ensures q.Valid() && q.size >= 0 && old(b.Value()) > 0
    ensures q.Value() == Quotient(old(a.Value()), old(b.Value()))
  {
    var r := new Integer();
    TdivQr(q, r, a, b);
  }

  /** mpz_tdiv_q_ui */
  method TdivQUi(q: Integer, n: Integer, d: nat)
    requires n.Valid() && n.size >= 0 && 0 < d < WORD
    modifies q
    ensures q.Valid() && q.size >= 0 && q.Value() == Quotient(old(n.Value()), d)
  {
    var dz := new Integer();
    SetUi(dz, d);
    SizeSign(dz);
    TdivQ(q, n, dz);
  }
}
