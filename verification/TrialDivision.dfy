/** The primality test of third-party/gmp/dumbmp.c: a table of bits for small numbers, and trial division. */
module TrialDivision {
  import opened Arith
  import opened Primes

  /** Bit number t of a number. */
  function TableBit(x: nat, t: nat): bool {
    if t == 0 then x % 2 == 1 else TableBit(x / 2, t - 1)
  }

  /** No prime below d divides t. */
  ghost predicate NoDivisorBelow(t: nat, d: nat) {
    forall k: nat :: 2 <= k < d ==> !Divides(k, t)
  }

  /** Below 32 a number that 2, 3 and 5 do not divide is prime. */
  lemma SmallPrimes(t: nat)
    requires 2 <= t < 32
    ensures IsPrime(t) <==> t == 2 || t == 3 || t == 5 || (t % 2 != 0 && t % 3 != 0 && t % 5 != 0)
  {
    if !IsPrime(t) {
      var p := PrimeDivisor(t);
      if p >= 6 { MulLe(6, p, 6, p); }
      assert Divides(2, 4);
    } else {
      assert !(t > 2 && Divides(2, t)) && !(t > 3 && Divides(3, t)) && !(t > 5 && Divides(5, t));
    }
  }

  /** The table has a one exactly for the primes. */
  lemma TableIsRight(t: nat)
    requires t < 32
    ensures TableBit(0xa08a28ac, t) <==> IsPrime(t)
  {
    if t >= 2 { SmallPrimes(t); }
    TableFrom(0xa08a28ac, t, 0);
  }

  /** Whether 2, 3 and 5 let a small number pass. */
  predicate Passes(t: nat) {
    t == 2 || t == 3 || t == 5 || (t > 1 && t % 2 != 0 && t % 3 != 0 && t % 5 != 0)
  }

  /** Four bits at a time, the table is read on. */
  lemma TableShift(x: nat, t: nat)
    requires t >= 4
    ensures TableBit(x, t) == TableBit(x / 16, t - 4)
  {
    assert TableBit(x, t) == TableBit(x / 2, t - 1) == TableBit(x / 2 / 2, t - 2);
    var y := x / 4;
    assert TableBit(y, t - 2) == TableBit(y / 2, t - 3) == TableBit(y / 2 / 2, t - 4);
  }

  lemma FourBits(x: nat)
    ensures TableBit(x, 0) == (x % 2 == 1) && TableBit(x, 1) == (x / 2 % 2 == 1)
    ensures TableBit(x, 2) == (x / 2 / 2 % 2 == 1) && TableBit(x, 3) == (x / 2 / 2 / 2 % 2 == 1)
  {
    assert TableBit(x, 2) == TableBit(x / 2, 1) == TableBit(x / 2 / 2, 0);
    assert TableBit(x, 3) == TableBit(x / 2, 2) == TableBit(x / 2 / 2, 1) == TableBit(x / 2 / 2 / 2, 0);
  }

  /** The table from bit number `from` on, read four bits at a time. */
  lemma TableFrom(x: nat, t: nat, from: nat)
    requires from <= t < 32 && from % 4 == 0
    requires x == match from
                  case 0 => 0xa08a28ac case 4 => 0xa08a28a case 8 => 0xa08a28 case 12 => 0xa08a2
                  case 16 => 0xa08a case 20 => 0xa08 case 24 => 0xa0 case _ => 0xa
    ensures TableBit(x, t - from) <==> Passes(t)
    decreases t - from
  {
    if t < from + 4 {
      FourBits(x);
    } else {
      TableShift(x, t - from);
      TableFrom(x / 16, t, from + 4);
    }
  }

  /** A divisor that is not among 2 and 3 leaves 1 or 5 when it is divided by six. */
  lemma NextCandidate(t: nat, d: nat, step: nat)
    requires NoDivisorBelow(t, d + 1) && d >= 5 && t > 0
    requires (d % 6 == 5 && step == 2) || (d % 6 == 1 && step == 4)
    ensures NoDivisorBelow(t, d + step)
  {
    forall k: nat | d < k < d + step ensures !Divides(k, t) {
      if Divides(k, t) {
        var p := if k % 2 == 0 then 2 else 3;
        assert Divides(p, k);
        DividesTrans(p, k, t);
      }
    }
  }

  /** Without a divisor below d, a quotient below d means that there is none at all. */
  lemma NoMoreDivisors(t: nat, d: nat)
    requires t >= 32 && d > 1 && NoDivisorBelow(t, d) && t / d < d
    ensures IsPrime(t)
  {
    if !IsPrime(t) {
      var p := PrimeDivisor(t);
      assert p >= d;
      MulLe(d, p, d, p);
      DivMod(t, d);
      MulLe(d, d, t / d, d - 1);
      Dist(d, 1, d);
    }
  }

  /** One round of the loop: a candidate divides, or it is large enough, or there is none up to it. */
  method TryDivisor(t: nat, d: nat) returns (prime: bool, composite: bool)
    requires t >= 32 && 11 <= d < t && NoDivisorBelow(t, d)
    ensures prime ==> IsPrime(t)
    ensures composite ==> !IsPrime(t)
    ensures !prime && !composite ==> NoDivisorBelow(t, d + 1) && d + 4 < t
  {
    var q := t / d;
    var r := t - q * d;
    DivMod(t, d);
    assert q * d == d * q;
    prime, composite := q < d, false;
    if prime {
      NoMoreDivisors(t, d);
    } else {
      composite := r == 0;
      MulLe(11, d, d, q);
      if composite { assert Divides(d, t); }
    }
  }

  /** The loop over the candidates, two of every six. */
  method TryDivisors(t: nat) returns (r: bool)
    requires t >= 32 && NoDivisorBelow(t, 11)
    ensures r <==> IsPrime(t)
  {
    var d := 11;
    while true
      invariant d % 6 == 5 && 11 <= d < t && NoDivisorBelow(t, d)
      decreases t - d
    {
      var prime, composite := TryDivisor(t, d);
      if prime { return true; }
      if composite { return false; }
      NextCandidate(t, d, 2);
      d := d + 2;
      prime, composite := TryDivisor(t, d);
      if prime { return true; }
      if composite { return false; }
      NextCandidate(t, d, 4);
      d := d + 4;
    }
  }

  /** isprime. */
  method IsPrimeNumber(t: nat) returns (r: bool)
    ensures r <==> IsPrime(t)
  {
    if t < 32 {
      TableIsRight(t);
      return TableBit(0xa08a28ac, t);
    }
    if t % 2 == 0 { assert Divides(2, t); return false; }
    if t % 3 == 0 { assert Divides(3, t); return false; }
    if t % 5 == 0 { assert Divides(5, t); return false; }
    if t % 7 == 0 { assert Divides(7, t); return false; }
    StartCandidates(t);
    r := TryDivisors(t);
  }

  lemma StartCandidates(t: nat)
    requires t >= 32 && t % 2 != 0 && t % 3 != 0 && t % 5 != 0 && t % 7 != 0
    ensures NoDivisorBelow(t, 11)
  {
    forall k: nat | 2 <= k < 11 ensures !Divides(k, t) {
      if Divides(k, t) {
        var p := if k % 2 == 0 then 2 else if k % 3 == 0 then 3 else k;
        assert Divides(p, k);
        DividesTrans(p, k, t);
      }
    }
  }
}
