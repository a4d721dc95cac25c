/**
 Primality facts that the sieve's correctness rests on: what a prime is, the
 least factor of a number, and the ascending list of primes below a ceiling.
 */
module Primality {

  /** n is prime: at least 2, and no d with 2 <= d < n divides it. */
  ghost predicate IsPrime(n: int)
  {
    2 <= n && forall d :: 2 <= d < n ==> n % d != 0
  }

  /** No number in [lo, hi) is prime. */
  ghost predicate NoPrimeIn(lo: int, hi: int)
  {
    forall q :: lo <= q < hi ==> !IsPrime(q)
  }

  /** The least divisor of n that is at least d. */
  function MinFactorFrom(n: nat, d: nat): (m: nat)
    requires 2 <= d <= n
    ensures d <= m <= n && n % m == 0
    ensures forall e :: d <= e < m ==> n % e != 0
    decreases n - d
  {
    if n % d == 0 then d else MinFactorFrom(n, d + 1)
  }

  /** The least factor of n that exceeds 1. */
  function MinFactor(n: nat): (m: nat)
    requires 2 <= n
    ensures 2 <= m <= n && n % m == 0
    ensures forall e :: 2 <= e < m ==> n % e != 0
  {
    MinFactorFrom(n, 2)
  }

  /** Divisibility is transitive. */
  lemma DividesTransitive(n: int, m: int, d: int)
    requires 1 <= d && 1 <= m
    requires n % m == 0 && m % d == 0
    ensures n % d == 0
  {
    var a, b := n / m, m / d;
    assert n == m * a;
    assert m == d * b;
    assert n == d * (b * a) by {
      calc {
        n;
        m * a;
        (d * b) * a;
        { MulAssociates(d, b, a); }
        d * (b * a);
      }
    }
    MultipleMod(d, b * a);
  }

  lemma MulAssociates(x: int, y: int, z: int)
    ensures (x * y) * z == x * (y * z)
  {
  }

  /** A multiple of d leaves no remainder modulo d. */
  lemma MultipleMod(d: int, k: int)
    requires 1 <= d
    ensures (d * k) % d == 0
  {
    var q, r := (d * k) / d, (d * k) % d;
    assert d * (k - q) == r by {
      assert d * k == d * q + r;
    }
    if k - q >= 1 {
      MulAtLeast(d, k - q);
    } else if k - q <= -1 {
      MulAtLeast(d, q - k);
    }
  }

  lemma MulAtLeast(d: int, t: int)
    requires 1 <= d && 1 <= t
    ensures d * t >= d
  {
  }

  /** The least factor of a number is prime. */
  lemma MinFactorIsPrime(n: nat)
    requires 2 <= n
    ensures IsPrime(MinFactor(n))
  {
    var m := MinFactor(n);
    forall d | 2 <= d < m
      ensures m % d != 0
    {
      if m % d == 0 {
        DividesTransitive(n, m, d);
      }
    }
  }

  /** A number of at least 2 is prime exactly when it is its own least factor. */
  lemma PrimeIffOwnMinFactor(n: nat)
    requires 2 <= n
    ensures IsPrime(n) <==> MinFactor(n) == n
  {
  }

  /** The primes p with 2 <= p < n, in ascending order. */
  ghost function PrimesBelow(n: nat): seq<int>
  {
    if n <= 2 then [] else PrimesBelow(n - 1) + (if IsPrime(n - 1) then [n - 1] else [])
  }

  /** PrimesBelow(n) holds exactly the primes in [2, n). */
  lemma {:induction false} PrimesBelowMembers(n: nat)
    ensures forall x :: x in PrimesBelow(n) <==> 2 <= x < n && IsPrime(x)
  {
    if n > 2 {
      PrimesBelowMembers(n - 1);
    }
  }

  /** PrimesBelow(n) is strictly ascending, hence free of duplicates. */
  lemma {:induction false} PrimesBelowAscending(n: nat)
    ensures forall i, j :: 0 <= i < j < |PrimesBelow(n)| ==> PrimesBelow(n)[i] < PrimesBelow(n)[j]
  {
    if n > 2 {
      PrimesBelowAscending(n - 1);
      PrimesBelowMembers(n - 1);
      var s := PrimesBelow(n - 1);
      assert forall i :: 0 <= i < |s| ==> s[i] in s;
    }
  }

  /** There are at most n - 2 primes below n. */
  lemma {:induction false} PrimesBelowLength(n: nat)
    ensures |PrimesBelow(n)| <= if n < 2 then 0 else n - 2
  {
    if n > 2 {
      PrimesBelowLength(n - 1);
    }
  }

  /** The primes below a smaller ceiling are a prefix of the primes below a larger one. */
  lemma {:induction false} PrimesBelowPrefix(m: nat, n: nat)
    requires m <= n
    ensures PrimesBelow(m) <= PrimesBelow(n)
    decreases n - m
  {
    if m < n {
      PrimesBelowPrefix(m, n - 1);
    }
  }

  /** A stretch free of primes adds nothing to the list. */
  lemma {:induction false} PrimesBelowGap(lo: nat, hi: nat)
    requires lo <= hi && NoPrimeIn(lo, hi)
    ensures PrimesBelow(hi) == PrimesBelow(lo)
    decreases hi - lo
  {
    if lo < hi && hi > 2 {
      assert !IsPrime(hi - 1);
      PrimesBelowGap(lo, hi - 1);
    }
  }

  /** If p is the first prime at or after lo, the primes up to p are those below lo, then p. */
  lemma PrimesBelowNext(lo: nat, p: nat)
    requires lo <= p && IsPrime(p) && NoPrimeIn(lo, p)
    ensures PrimesBelow(p + 1) == PrimesBelow(lo) + [p]
  {
    PrimesBelowGap(lo, p);
  }

  /**
   Striking out the multiples of p, the first prime at or after lo, turns the set
   of numbers whose least factor is below lo into the set whose least factor is at most p.
   */
  lemma MarkStep(j: nat, lo: nat, p: nat)
    requires 2 <= j && lo <= p && IsPrime(p) && NoPrimeIn(lo, p)
    ensures MinFactor(j) <= p <==> (MinFactor(j) < lo || j % p == 0)
  {
    var m := MinFactor(j);
    if m <= p && lo <= m {
      MinFactorIsPrime(j);
      assert m == p;
    }
  }

  /**
   The first number r >= 2 whose least factor exceeds p is prime, and no prime lies
   strictly between p and r.
   */
  lemma NextCandidate(p: nat, r: nat)
    requires 2 <= r && p < MinFactor(r)
    requires forall j :: 2 <= j < r ==> MinFactor(j) <= p
    ensures IsPrime(r) && NoPrimeIn(p + 1, r)
  {
    var m := MinFactor(r);
    if m < r {
      MinFactorIsPrime(r);
      PrimeIffOwnMinFactor(m);
      assert false;
    }
    PrimeIffOwnMinFactor(r);
    forall q | p + 1 <= q < r
      ensures !IsPrime(q)
    {
      if IsPrime(q) {
        PrimeIffOwnMinFactor(q);
      }
    }
  }

  /** When every number in [2, hi) has its least factor at most p, no prime lies in (p, hi). */
  lemma NoCandidate(p: nat, hi: nat)
    requires forall j :: 2 <= j < hi ==> MinFactor(j) <= p
    ensures NoPrimeIn(p + 1, hi)
  {
    forall q | p + 1 <= q < hi
      ensures !IsPrime(q)
    {
      if IsPrime(q) {
        PrimeIffOwnMinFactor(q);
      }
    }
  }

  /** The primes below the ceilings 3 and 10. */
  lemma SmallCeilings()
    ensures PrimesBelow(3) == [2]
    ensures PrimesBelow(10) == [2, 3, 5, 7]
  {
    PrimeIffOwnMinFactor(2); PrimeIffOwnMinFactor(3); PrimeIffOwnMinFactor(4); PrimeIffOwnMinFactor(5);
    PrimeIffOwnMinFactor(6); PrimeIffOwnMinFactor(7); PrimeIffOwnMinFactor(8); PrimeIffOwnMinFactor(9);
  }
}
