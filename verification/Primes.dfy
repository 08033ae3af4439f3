/** Primes: divisibility, a prime above every number, and the enumeration of the primes. */
module Primes {
  import opened Arith

  predicate Divides(d: nat, n: nat) {
    d > 0 && n % d == 0
  }

  ghost predicate IsPrime(n: nat) {
    n >= 2 && forall k: nat :: 2 <= k < n ==> !Divides(k, n)
  }

  lemma DividesIntro(d: nat, k: nat)
    requires d > 0
    ensures Divides(d, d * k)
  {
    DivModUnique(d * k, d, k, 0);
  }

  lemma DividesElim(d: nat, n: nat) returns (k: nat)
    requires Divides(d, n)
    ensures n == d * k
  {
    k := n / d;
  }

  lemma DividesTrans(a: nat, b: nat, c: nat)
    requires Divides(a, b) && Divides(b, c)
    ensures Divides(a, c)
  {
    var k := DividesElim(a, b);
    var l := DividesElim(b, c);
    assert c == a * (k * l) by { assert (a * k) * l == a * (k * l); }
    DividesIntro(a, k * l);
  }

  lemma DividesDiff(d: nat, a: nat, b: nat)
    requires Divides(d, a) && Divides(d, b) && a >= b
    ensures Divides(d, a - b)
  {
    var k := DividesElim(d, a);
    var l := DividesElim(d, b);
    assert a - b == d * (k - l);
    MulGe(d, k - l);
    DividesIntro(d, k - l);
  }

  lemma DividesLe(d: nat, n: nat)
    requires Divides(d, n) && n > 0
    ensures d <= n
  {
    var k := DividesElim(d, n);
    assert k >= 1;
    assert d * k >= d;
  }

  /** Every n >= 2 has a prime divisor; a composite one has one whose square is at most n. */
  lemma {:induction false} PrimeDivisor(n: nat) returns (p: nat)
    requires n >= 2
    ensures IsPrime(p) && Divides(p, n)
    ensures !IsPrime(n) ==> p * p <= n
  {
    p := LeastDivisor(n, 2);
    forall k: nat | 2 <= k < p
      ensures !Divides(k, p)
    {
      if Divides(k, p) { DividesTrans(k, p, n); }
    }
    if !IsPrime(n) {
      var k := DividesElim(p, n);
      assert p < n;
      MulGe(p, 1 - k);
      DividesIntro(k, p);
      assert k * p == n;
      assert !(2 <= k < p);
      MulLe(p, p, p, k);
    }
  }

  lemma {:induction false} LeastDivisor(n: nat, from: nat) returns (p: nat)
    requires 2 <= from <= n
    requires forall k: nat :: 2 <= k < from ==> !Divides(k, n)
    ensures 2 <= p <= n && Divides(p, n)
    ensures forall k: nat :: 2 <= k < p ==> !Divides(k, n)
    decreases n - from
  {
    if Divides(from, n) {
      p := from;
    } else {
      assert Divides(n, n);
      p := LeastDivisor(n, from + 1);
    }
  }

  function Factorial(n: nat): (f: nat)
    ensures f >= 1
  {
    if n == 0 then 1 else n * Factorial(n - 1)
  }

  lemma {:induction false} DividesFactorial(d: nat, n: nat)
    requires 1 <= d <= n
    ensures Divides(d, Factorial(n))
  {
    if d == n {
      DividesIntro(d, Factorial(n - 1));
    } else {
      DividesFactorial(d, n - 1);
      assert Divides(Factorial(n - 1), Factorial(n)) by {
        DividesIntro(Factorial(n - 1), n);
        assert Factorial(n - 1) * n == n * Factorial(n - 1);
      }
      DividesTrans(d, Factorial(n - 1), Factorial(n));
    }
  }

  /** There is a prime above every number (Euclid). */
  lemma LargerPrime(n: nat) returns (p: nat)
    ensures IsPrime(p) && p > n
  {
    var f := Factorial(n) + 1;
    p := PrimeDivisor(f);
    if p <= n {
      DividesFactorial(p, n);
      DividesDiff(p, f, f - 1);
      DividesLe(p, 1);
    }
  }

  /** p is the least prime above n. */
  ghost predicate IsNextPrime(n: nat, p: nat) {
    IsPrime(p) && n < p && forall k: nat :: n < k < p ==> !IsPrime(k)
  }

  lemma {:induction false} LeastPrimeFrom(n: nat, k: nat, bound: nat) returns (p: nat)
    requires n < k <= bound && IsPrime(bound)
    requires forall j: nat :: n < j < k ==> !IsPrime(j)
    ensures IsNextPrime(n, p)
    decreases bound - k
  {
    if IsPrime(k) { p := k; } else { p := LeastPrimeFrom(n, k + 1, bound); }
  }

  lemma NextPrimeExists(n: nat)
    ensures exists p: nat :: IsNextPrime(n, p)
  {
    var b := LargerPrime(n);
    var p := LeastPrimeFrom(n, n + 1, b);
  }

  /** The least prime above n. */
  ghost function NextPrimeAfter(n: nat): nat {
    NextPrimeExists(n);
    var p: nat :| IsNextPrime(n, p);
    p
  }

  lemma NextPrimeUnique(n: nat, p: nat)
    requires IsNextPrime(n, p)
    ensures p == NextPrimeAfter(n)
  {
    var q := NextPrimeAfter(n);
    assert IsNextPrime(n, q);
    if p < q { assert false; } else if q < p { assert false; }
  }

  /** The n-th prime, counting from NthPrime(0) == 2. */
  ghost function NthPrime(n: nat): nat {
    NextPrimeAfter(if n == 0 then 0 else NthPrime(n - 1))
  }

  lemma NthPrimeIsNext(n: nat)
    ensures IsNextPrime(if n == 0 then 0 else NthPrime(n - 1), NthPrime(n))
  {
    NextPrimeExists(if n == 0 then 0 else NthPrime(n - 1));
  }

  lemma {:induction false} NthPrimeIncreasing(m: nat, n: nat)
    requires m < n
    ensures NthPrime(m) < NthPrime(n)
  {
    NthPrimeIsNext(n);
    if m < n - 1 { NthPrimeIncreasing(m, n - 1); }
  }

  /** Every prime is the n-th prime for some n, so the enumeration skips none. */
  lemma {:induction false} EveryPrimeIsNth(p: nat, bound: nat) returns (n: nat)
    requires IsPrime(p) && p <= NthPrime(bound)
    ensures NthPrime(n) == p
  {
    NthPrimeIsNext(bound);
    if p == NthPrime(bound) {
      n := bound;
    } else if bound > 0 && p <= NthPrime(bound - 1) {
      n := EveryPrimeIsNth(p, bound - 1);
    } else {
      assert false;
    }
  }
}
