/**
 * The segmented sieve of third-party/gmp/nextprime.c.
 *
 * The sieve keeps a window of SIEVESIZE odd numbers s0, s0 + 2, ...  A call scans the window from d on,
 * and when the window is exhausted it sieves the next one and calls itself.
 */
module NextPrime {
  import opened Arith
  import opened Primes
  import Wheel

  /** Table position j of the window that starts at s0 is struck out by p: a multiple of p other than p. */
  ghost predicate Hit(p: nat, s0: int, j: nat) {
    s0 + 2 * j >= 0 && Divides(p, s0 + 2 * j) && s0 + 2 * j != p
  }

  /** Two multiples of an odd p in the window are at least p positions apart. */
  lemma MultiplesApart(p: nat, s0: int, i: nat, j: nat)
    requires p % 2 == 1 && s0 >= 1 && i < j
    requires Divides(p, s0 + 2 * i) && Divides(p, s0 + 2 * j)
    ensures j >= i + p
  {
    DividesDiff(p, s0 + 2 * j, s0 + 2 * i);
    var k := DividesElim(p, 2 * (j - i));
    MulGe(p, k);
    MulGe(p, k - 2);
    assert k != 1;
    assert k >= 1;
  }

  lemma NextMultiple(p: nat, s0: int, i: nat)
    requires p > 0 && s0 >= 1 && Divides(p, s0 + 2 * i)
    ensures Divides(p, s0 + 2 * (i + p))
  {
    var k := DividesElim(p, s0 + 2 * i);
    DividesIntro(p, k + 2);
    assert s0 + 2 * (i + p) == p * (k + 2);
  }

  /** The position the marking loop starts from is a multiple of p. */
  lemma FirstMultiple(p: nat, s0: int, pi: nat)
    requires p % 2 == 1 && s0 >= 1 && s0 % 2 == 1
    requires var m := ((s0 + p) / 2) % p; pi == if m > 0 then p - m else m
    ensures pi < p && Divides(p, s0 + 2 * pi)
  {
    var c := (s0 + p) / 2;
    DivMod(c, p);
    FirstMultipleQuotient(p, s0, pi, c / p, c % p);
  }

  lemma FirstMultipleQuotient(p: nat, s0: int, pi: nat, q: int, m: nat)
    requires p % 2 == 1 && s0 >= 1
    requires s0 + p == 2 * (p * q + m) && 0 <= m < p
    requires pi == if m > 0 then p - m else m
    ensures Divides(p, s0 + 2 * pi)
  {
    var k := if m == 0 then 2 * q - 1 else 2 * q + 1;
    assert p * k == if m == 0 then 2 * (p * q) - p else 2 * (p * q) + p;
    MulGe(p, k);
    DividesIntro(p, k);
  }

  /** A composite table entry is struck out by 3, 5, 7 or a prime between 11 and the square root. */
  lemma CompositeIsHit(s0: int, j: nat, root: nat) returns (p: nat)
    requires s0 >= 3 && s0 % 2 == 1 && s0 + 2 * j < (root + 1) * (root + 1)
    requires !IsPrime(s0 + 2 * j)
    ensures IsPrime(p) && Hit(p, s0, j) && (p == 3 || p == 5 || p == 7 || 11 <= p <= root)
  {
    p := PrimeDivisor(s0 + 2 * j);
    if p > root { MulLe(root + 1, p, root + 1, p); }
    var k := DividesElim(p, s0 + 2 * j);
    assert p != 2;
    SmallPrimes(p);
  }

  lemma SmallPrimes(p: nat)
    requires IsPrime(p) && p != 2
    ensures p == 3 || p == 5 || p == 7 || p >= 11
  {
    assert Divides(2, 4) && Divides(2, 6) && Divides(2, 8) && Divides(3, 9) && Divides(2, 10);
  }

  lemma SmallFactorNotPrime(n: nat)
    requires Wheel.HasSmallFactor(n) && n > 7
    ensures !IsPrime(n)
  {
    assert Divides(2, n) || Divides(3, n) || Divides(5, n) || Divides(7, n);
  }

  /** A prime is never struck out, because it has no divisor other than itself. */
  lemma PrimeNotHit(p: nat, s0: int, j: nat)
    requires p >= 2 && s0 >= 3 && IsPrime(s0 + 2 * j)
    ensures !Hit(p, s0, j)
  {
    if Hit(p, s0, j) { DividesLe(p, s0 + 2 * j); }
  }

  /** An even number above 2 is not prime, so the odd table misses none. */
  lemma EvenNotPrime(k: nat)
    requires k > 2 && k % 2 == 0
    ensures !IsPrime(k)
  {
    assert Divides(2, k);
  }

  /** After so many calls, no prime between the last one returned and x is left. */
  ghost predicate Scanned(calls: nat, x: int) {
    calls > 0 && NthPrime(calls - 1) < x && forall k: nat :: NthPrime(calls - 1) < k < x ==> !IsPrime(k)
  }

  /** From the given position on, the zeros of the table that starts at s0 are the primes. */
  ghost predicate Sieved(s0: int, table: seq<nat>, from: nat) {
    s0 + 2 * from >= 0 && forall j :: from <= j < |table| ==> (table[j] == 0 <==> IsPrime(s0 + 2 * j))
  }

  lemma ScanOn(calls: nat, s0: int, table: seq<nat>, d: nat, sp: nat)
    requires Scanned(calls, s0 + 2 * d) && Sieved(s0, table, d) && s0 % 2 == 1
    requires d <= sp <= |table| && forall j :: d <= j < sp ==> table[j] != 0
    ensures Scanned(calls, s0 + 2 * sp)
  {
    NthPrimeIsNext(calls - 1);
    forall k: nat | NthPrime(calls - 1) < k < s0 + 2 * sp
      ensures !IsPrime(k)
    {
      if k >= s0 + 2 * d { MarkedNotPrime(s0, table, d, sp, k); }
    }
  }

  lemma MarkedNotPrime(s0: int, table: seq<nat>, d: nat, sp: nat, k: nat)
    requires Sieved(s0, table, d) && s0 % 2 == 1
    requires d <= sp <= |table| && forall j :: d <= j < sp ==> table[j] != 0
    requires s0 + 2 * d <= k < s0 + 2 * sp && k > 2
    ensures !IsPrime(k)
  {
    if k % 2 == 0 {
      EvenNotPrime(k);
    } else {
      OddPlace(s0, d, sp, k);
      MarkedAt(s0, table, d, (k - s0) / 2);
    }
  }

  lemma OddPlace(s0: int, d: nat, sp: nat, k: nat)
    requires s0 % 2 == 1 && k % 2 == 1 && s0 + 2 * d <= k < s0 + 2 * sp
    ensures var j := (k - s0) / 2; d <= j < sp && k == s0 + 2 * j
  {}

  lemma MarkedAt(s0: int, table: seq<nat>, d: nat, j: nat)
    requires Sieved(s0, table, d) && d <= j < |table| && table[j] != 0
    ensures !IsPrime(s0 + 2 * j)
  {}

  lemma ScanIsNext(calls: nat, x: nat)
    requires Scanned(calls, x) && IsPrime(x)
    ensures x == NthPrime(calls)
  {
    NextPrimeUnique(NthPrime(calls - 1), x);
  }

  lemma ScanPast(calls: nat, x: nat)
    requires x == NthPrime(calls) && x > 2 && x % 2 == 1
    ensures Scanned(calls + 1, x + 2)
  {
    EvenNotPrime(x + 1);
  }

  /** The prime at which the scan has stopped is the next one, and the scan goes on after it. */
  lemma FoundNext(calls: nat, p: nat)
    requires Scanned(calls, p) && IsPrime(p) && p % 2 == 1
    ensures p == NthPrime(calls) && Scanned(calls + 1, p + 2)
  {
    ScanIsNext(calls, p);
    ScanPast(calls, p);
  }

  lemma OddPlus(s0: int, sp: nat)
    requires s0 % 2 == 1
    ensures (s0 + 2 * sp) % 2 == 1
  {}

  lemma ZeroIsPrime(s0: int, table: seq<nat>, d: nat, sp: nat)
    requires Sieved(s0, table, d) && d <= sp < |table| && table[sp] == 0
    ensures s0 + 2 * sp >= 0 && IsPrime(s0 + 2 * sp)
  {}

  lemma StillSieved(s0: int, table: seq<nat>, d: nat, next: nat)
    requires Sieved(s0, table, d) && d <= next
    ensures Sieved(s0, table, next)
  {}

  lemma FirstIsTwo()
    ensures NthPrime(0) == 2 && Scanned(1, 3)
  {
    NextPrimeUnique(0, 2);
  }

  lemma PrimeAhead(calls: nat, x: int)
    requires Scanned(calls, x)
    ensures NthPrime(calls) >= x
  {
    NthPrimeIsNext(calls);
  }

  ghost predicate RootFits(root: nat, n: int) {
    root * root <= n
  }

  lemma RootStillFits(root: nat, m: int, n: int)
    requires RootFits(root, m) && m <= n
    ensures RootFits(root, n)
  {}

  /** A table of SIEVESIZE bytes with a sentinel, as gmp-impl.h declares it. */
  class PrimeSieve {
    const SIEVESIZE: nat
    var d: nat
    var s0: int  // negative when the unsigned field of the source has wrapped around
    var sqrtS0: nat
    const s: array<nat>
    ghost var calls: nat

    ghost predicate Table()
      reads this, s
    {
      SIEVESIZE >= 2 && s.Length == SIEVESIZE + 1 && s[SIEVESIZE] == 0
    }

    ghost predicate Valid()
      reads this, s
    {
      && Table()
      && d <= SIEVESIZE
      && RootFits(sqrtS0, if s0 < 3 then 0 else s0 + 2 * SIEVESIZE - 1)
      && if calls == 0 then s0 == 0 && d == SIEVESIZE
         else
           && s0 % 2 == 1 && (s0 >= 3 || (s0 == 3 - 2 * SIEVESIZE && d == SIEVESIZE))
           && Scanned(calls, s0 + 2 * d) && Sieved(s0, s[..SIEVESIZE], d)
    }

    constructor (size: nat)
      requires size >= 2
      ensures Valid() && calls == 0 && fresh(s) && SIEVESIZE == size
    {
      SIEVESIZE := size;
      s := new nat[size + 1];
      s0, sqrtS0, d, calls := 0, 0, size, 0;
      new;
      s[SIEVESIZE] := 0;
    }

    /** The first position in the window that is one of a multiple of p other than p. */
    method FirstHit(p: nat) returns (sp: nat)
      requires s0 >= 3 && s0 % 2 == 1 && p >= 3 && p % 2 == 1
      ensures Divides(p, s0 + 2 * sp) && s0 + 2 * sp > p && forall j: nat :: j < sp ==> !Hit(p, s0, j)
    {
      var pi := ((s0 + p) / 2) % p;
      if pi > 0 { pi := p - pi; }
      FirstMultiple(p, s0, pi);
      DividesLe(p, s0 + 2 * pi);
      sp := pi;
      if s0 + 2 * pi <= p {
        NextMultiple(p, s0, pi);
        sp := sp + p;
      }
      forall j: nat | j < sp
        ensures !Hit(p, s0, j)
      {
        if Divides(p, s0 + 2 * j) && j < pi { MultiplesApart(p, s0, j, pi); }
        if Divides(p, s0 + 2 * j) && pi < j { MultiplesApart(p, s0, pi, j); }
      }
    }

    lemma NoneBetween(p: nat, sp: nat)
      requires s0 >= 3 && s0 % 2 == 1 && p >= 3 && p % 2 == 1 && Divides(p, s0 + 2 * sp)
      ensures forall j: nat :: sp < j < sp + p ==> !Hit(p, s0, j)
      ensures Divides(p, s0 + 2 * (sp + p))
    {
      forall j: nat | sp < j < sp + p
        ensures !Hit(p, s0, j)
      {
        if Divides(p, s0 + 2 * j) { MultiplesApart(p, s0, sp, j); }
      }
      NextMultiple(p, s0, sp);
    }

    /** Strikes out the multiples of p in the window, and p itself only if it is struck out already. */
    method MarkMultiples(p: nat)
      requires Table() && s0 >= 3 && s0 % 2 == 1 && p >= 3 && p % 2 == 1
      modifies s
      ensures Table()
      ensures forall j :: 0 <= j < SIEVESIZE ==> (s[j] == 0 <==> old(s[j]) == 0 && !Hit(p, s0, j))
    {
      var sp := FirstHit(p);
      while sp < SIEVESIZE
        invariant Table() && Divides(p, s0 + 2 * sp) && s0 + 2 * sp > p
        invariant forall j :: 0 <= j < SIEVESIZE ==> (s[j] == 0 <==> old(s[j]) == 0 && !(j < sp && Hit(p, s0, j)))
      {
        NoneBetween(p, sp);
        s[sp] := 1;
        sp := sp + p;
      }
    }

    /** The loop that brings the root up to the end of the window. */
    method RaiseRoot()
      requires s0 >= 3 && RootFits(sqrtS0, s0 + 2 * SIEVESIZE - 1)
      modifies this`sqrtS0
      ensures RootFits(sqrtS0, s0 + 2 * SIEVESIZE - 1)
      ensures (sqrtS0 + 1) * (sqrtS0 + 1) > s0 + 2 * SIEVESIZE - 1
    {
      while (sqrtS0 + 1) * (sqrtS0 + 1) <= s0 + 2 * SIEVESIZE - 1
        invariant RootFits(sqrtS0, s0 + 2 * SIEVESIZE - 1)
        decreases s0 + 2 * SIEVESIZE - sqrtS0
      {
        assert sqrtS0 < (sqrtS0 + 1) * (sqrtS0 + 1);
        sqrtS0 := sqrtS0 + 1;
      }
    }

    /** The multiples of 3, 5, 7 and the primes from 11 on that are below p are struck out, and no prime is. */
    ghost predicate StruckBelow(p: nat)
      reads this, s
    {
      && Table() && s0 >= 3
      && (forall j :: 0 <= j < SIEVESIZE && IsPrime(s0 + 2 * j) ==> s[j] == 0)
      && (forall q, j ::
            0 <= j < SIEVESIZE && (q == 3 || q == 5 || q == 7 || (11 <= q < p && IsPrime(q))) && Hit(q, s0, j) ==>
            s[j] != 0)
    }

    lemma NoPrimeHit(q: nat)
      requires s0 >= 3 && q >= 2
      ensures forall j :: 0 <= j < SIEVESIZE && IsPrime(s0 + 2 * j) ==> !Hit(q, s0, j)
    {
      forall j | 0 <= j < SIEVESIZE && IsPrime(s0 + 2 * j) ensures !Hit(q, s0, j) { PrimeNotHit(q, s0, j); }
    }

    /** The smallest sieving numbers, for all windows. */
    method StrikeSmall()
      requires Table() && s0 >= 3 && s0 % 2 == 1 && forall i :: 0 <= i < SIEVESIZE ==> s[i] == 0
      modifies s
      ensures StruckBelow(11)
    {
      NoPrimeHit(3);
      NoPrimeHit(5);
      NoPrimeHit(7);
      MarkMultiples(3);
      MarkMultiples(5);
      MarkMultiples(7);
    }

    /** The next sieving number of the wheel. */
    method StrikeNext(p: nat)
      requires StruckBelow(p) && s0 % 2 == 1 && p >= 11 && p % 2 == 1
      modifies s
      ensures StruckBelow(p + 1)
    {
      NoPrimeHit(p);
      MarkMultiples(p);
    }

    /** The numbers that the wheel passes over are not prime. */
    lemma PassOver(p: nat, next: nat)
      requires StruckBelow(p + 1) && p < next && forall k: nat :: p < k < next ==> !IsPrime(k)
      ensures StruckBelow(next)
    {}

    /** When all primes up to the root have been struck out, exactly the primes are left. */
    lemma AllStruck(p: nat)
      requires StruckBelow(p) && p > sqrtS0 && s0 % 2 == 1
      requires (sqrtS0 + 1) * (sqrtS0 + 1) > s0 + 2 * SIEVESIZE - 1
      ensures Sieved(s0, s[..SIEVESIZE], 0)
    {
      forall j | 0 <= j < SIEVESIZE
        ensures s[j] == 0 <==> IsPrime(s0 + 2 * j)
      {
        if !IsPrime(s0 + 2 * j) { var q := CompositeIsHit(s0, j, sqrtS0); }
      }
    }

    /** Clears the table and strikes out the composite numbers of the window at s0. */
    method Resieve()
      requires Table() && s0 >= 3 && s0 % 2 == 1
      requires RootFits(sqrtS0, s0 + 2 * SIEVESIZE - 1)
      modifies s, this`sqrtS0
      ensures Table() && RootFits(sqrtS0, s0 + 2 * SIEVESIZE - 1)
      ensures Sieved(s0, s[..SIEVESIZE], 0)
    {
      forall i | 0 <= i < SIEVESIZE { s[i] := 0; }
      RaiseRoot();
      StrikeSmall();
      var p: nat, ai: nat := 11, 0;
      var addtab, pos := Wheel.AddTab();
      ghost var turns := 0;
      while p <= sqrtS0
        invariant StruckBelow(p) && p >= 11 && ai < 48 && Wheel.OnWheel(pos, p, ai, turns)
        decreases sqrtS0 + 1 - p
        modifies s
      {
        forall k: nat | p < k < p + addtab[ai]
          ensures !IsPrime(k)
        {
          Wheel.PassesOver(addtab, pos, p, ai, turns, k);
          SmallFactorNotPrime(k);
        }
        turns := Wheel.Turn(addtab, pos, p, ai, turns);
        StrikeNext(p);
        PassOver(p, p + addtab[ai]);
        p := p + addtab[ai];
        ai := (ai + 1) % 48;
      }
      AllStruck(p);
    }

    /** Looks for a prime in the rest of the window, up to the sentinel. */
    method Scan() returns (sp: nat)
      requires Valid()
      ensures d <= sp <= SIEVESIZE && s[sp] == 0
      ensures calls > 0 ==> Scanned(calls, s0 + 2 * sp)
    {
      sp := d;
      while s[sp] != 0
        invariant d <= sp <= SIEVESIZE
        invariant forall j :: d <= j < sp ==> s[j] != 0
        decreases SIEVESIZE - sp
      {
        sp := sp + 1;
      }
      if calls > 0 { ScanOn(calls, s0, s[..SIEVESIZE], d, sp); }
    }

    /** Hands out the prime the scan stopped at. */
    method Take(sp: nat) returns (p: nat)
      requires Valid() && calls > 0 && d <= sp < SIEVESIZE && s[sp] == 0 && Scanned(calls, s0 + 2 * sp)
      modifies this`d, this`calls
      ensures Valid() && calls == old(calls) + 1 && p == NthPrime(old(calls))
    {
      p := s0 + 2 * sp;
      OddPlus(s0, sp);
      ZeroIsPrime(s0, s[..SIEVESIZE], d, sp);
      StillSieved(s0, s[..SIEVESIZE], d, sp + 1);
      FoundNext(calls, p);
      d := sp + 1;
      calls := calls + 1;
    }

    /** Moves on to the next window and sieves it. */
    method NextWindow()
      requires Valid() && calls > 0 && Scanned(calls, s0 + 2 * SIEVESIZE)
      modifies this, s
      ensures Valid() && calls == old(calls) && s0 == old(s0) + 2 * SIEVESIZE
    {
      RootStillFits(sqrtS0, if s0 < 3 then 0 else s0 + 2 * SIEVESIZE - 1, s0 + 4 * SIEVESIZE - 1);
      s0 := s0 + 2 * SIEVESIZE;
      Resieve();
      d := 0;
    }

    /** The n-th call returns the n-th prime. */
    method Next() returns (p: nat)
      requires Valid()
      modifies this, s
      ensures Valid() && calls == old(calls) + 1
      ensures p == NthPrime(old(calls))
      decreases NthPrime(calls) - s0
    {
      var sp := Scan();
      if sp != SIEVESIZE {
        p := Take(sp);
        return;
      }
      if 0 <= s0 < 3 {
        FirstIsTwo();
        s0 := 3 - 2 * SIEVESIZE;
        calls := calls + 1;
        return 2;
      }
      PrimeAhead(calls, s0 + 2 * sp);
      NextWindow();
      p := Next();
    }
  }

  /** After gmp_init_primesieve, so many calls return so many primes, in order and without a gap. */
  method FirstPrimes(size: nat, count: nat) returns (primes: seq<nat>)
    requires size >= 2
    ensures |primes| == count && forall n {:trigger primes[n]} :: 0 <= n < count ==> primes[n] == NthPrime(n)
  {
    var ps := new PrimeSieve(size);
    primes := [];
    while |primes| < count
      invariant ps.Valid() && ps.calls == |primes| <= count && fresh(ps) && fresh(ps.s)
      invariant forall n {:trigger primes[n]} :: 0 <= n < |primes| ==> primes[n] == NthPrime(n)
    {
      var p := ps.Next();
      primes := primes + [p];
    }
  }
}
