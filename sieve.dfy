/**
 The sieve engine: a marking buffer with one flag per number below the ceiling,
 the pass that strikes out the multiples of a prime, the scan for the next
 unmarked number, and the loop that alternates the two while filling the
 caller's output buffer with the primes found.
 */
module SieveEngine {
  import opened Primality

  /** The flag kept for each number; Prime is the zero value the buffer is cleared to. */
  datatype NumberType = Prime | MultipleOfPrime

  /**
   The marking buffer s after the multiples of p below size are struck out: every
   index j with 0 < j < size that p divides, that is every k * p with k >= 1 and
   k * p < size, becomes MultipleOfPrime; every other entry is kept.
   */
  function MultiplesMarked(s: seq<NumberType>, size: nat, p: nat): (r: seq<NumberType>)
    requires 1 <= p
    ensures |r| == |s|
  {
    seq(|s|, j requires 0 <= j < |s| => if 0 < j < size && j % p == 0 then MultipleOfPrime else s[j])
  }

  /** MultiplesMarked strikes out k * p for every k >= 1 with k * p < size. */
  lemma MultiplesMarkedHits(s: seq<NumberType>, size: nat, p: nat, k: nat)
    requires 1 <= p && 1 <= k && k * p < size <= |s|
    ensures MultiplesMarked(s, size, p)[k * p] == MultipleOfPrime
  {
    MultipleMod(p, k);
    assert k * p == p * k;
    MulAtLeast(p, k);
  }

  /** MultiplesMarked keeps every entry that is not some k * p with k >= 1 and k * p < size. */
  lemma MultiplesMarkedKeeps(s: seq<NumberType>, size: nat, p: nat, j: nat)
    requires 1 <= p && j < |s|
    requires forall k: nat :: 1 <= k && k * p < size ==> k * p != j
    ensures MultiplesMarked(s, size, p)[j] == s[j]
  {
    if 0 < j < size && j % p == 0 {
      DivExact(j, p);
      assert false;
    }
  }

  /** A number that p divides is p times its quotient. */
  lemma DivExact(j: nat, p: nat)
    requires 1 <= p && j % p == 0
    ensures (j / p) * p == j
  {
  }

  /** MultiplesMarked never clears a mark and never touches indices 0 and 1 when p >= 2. */
  lemma MultiplesMarkedMonotone(s: seq<NumberType>, size: nat, p: nat)
    requires 2 <= p && 2 <= |s|
    ensures MultiplesMarked(s, size, p)[0] == s[0] && MultiplesMarked(s, size, p)[1] == s[1]
    ensures forall j :: 0 <= j < |s| && s[j] == MultipleOfPrime ==> MultiplesMarked(s, size, p)[j] == MultipleOfPrime
  {
  }

  /** Facts about k * p that the marking loop needs at each step. */
  lemma MultipleFacts(k: nat, p: nat)
    requires 1 <= p && 1 <= k
    ensures (k * p) % p == 0 && k <= k * p && p <= k * p
    ensures (k + 1) * p == k * p + p
  {
    assert k * p == p * k;
    MultipleMod(p, k);
    MulAtLeast(p, k);
    MulAtLeast(k, p);
  }

  /** Between two consecutive multiples m and m + p of p lies no other multiple of p. */
  lemma MultiplesBetween(j: int, m: int, p: nat)
    requires 1 <= p && j % p == 0 && m % p == 0
    ensures j < m + p <==> j <= m
  {
    var a, b := j / p, m / p;
    assert j == a * p && m == b * p;
    if a <= b {
      MulMonotone(a, b, p);
    } else {
      MulMonotone(b + 1, a, p);
      assert (b + 1) * p == m + p;
    }
  }

  lemma MulMonotone(a: int, b: int, p: nat)
    requires a <= b
    ensures a * p <= b * p
  {
    assert b * p - a * p == (b - a) * p;
  }

  /** MultiplesMarked restricted to the indices below lim. */
  function MarkedBelow(s: seq<NumberType>, size: nat, p: nat, lim: int): (r: seq<NumberType>)
    requires 1 <= p
    ensures |r| == |s|
  {
    seq(|s|, j requires 0 <= j < |s| => if 0 < j < size && j < lim && j % p == 0 then MultipleOfPrime else s[j])
  }

  /** One pass of the marking loop, writing the multiple m, moves the limit from m to m + p. */
  lemma MarkedBelowStep(s: seq<NumberType>, size: nat, p: nat, m: nat)
    requires 1 <= p && m % p == 0 && 0 < m < size <= |s|
    ensures MarkedBelow(s, size, p, m)[m := MultipleOfPrime] == MarkedBelow(s, size, p, m + p)
  {
    var a := MarkedBelow(s, size, p, m)[m := MultipleOfPrime];
    var b := MarkedBelow(s, size, p, m + p);
    forall j | 0 <= j < |s|
      ensures a[j] == b[j]
    {
      if j % p == 0 {
        MultiplesBetween(j, m, p);
      }
    }
  }

  /**
   Strikes out the multiples of p in arr[0..size): arr[i * p] := MultipleOfPrime
   for i = 1, 2, ... while i * p < size, p itself included. Returns 1.
   */
  method MarkMultiples(arr: array<NumberType>, size: nat, p: nat) returns (r: int)
    requires 1 <= p && size <= arr.Length
    modifies arr
    ensures r == 1
    ensures arr[..] == MultiplesMarked(old(arr[..]), size, p)
  {
    var i: nat := 1;
    while i * p < size
      invariant 1 <= i
      invariant arr[..] == MarkedBelow(old(arr[..]), size, p, i * p)
      decreases size - i
    {
      MultipleFacts(i, p);
      MarkedBelowStep(old(arr[..]), size, p, i * p);
      arr[i * p] := MultipleOfPrime;
      i := i + 1;
    }
    assert MarkedBelow(old(arr[..]), size, p, i * p) == MultiplesMarked(old(arr[..]), size, p);
    return 1;
  }

  /**
   Scans arr from index 2 for the first entry still flagged Prime and returns its
   index; returns 0 when every entry of [2, size) is MultipleOfPrime. The result
   is never 1.
   */
  method FindNextPrime(arr: array<NumberType>, size: nat) returns (r: nat)
    requires size <= arr.Length
    ensures r == 0 <==> forall j :: 2 <= j < size ==> arr[j] == MultipleOfPrime
    ensures r != 0 ==> 2 <= r < size && arr[r] == Prime
    ensures forall j :: 2 <= j < r ==> arr[j] == MultipleOfPrime
  {
    var i: nat := 2;
    while i < size
      invariant 2 <= i && (i <= size || i == 2)
      invariant forall j :: 2 <= j < i ==> arr[j] == MultipleOfPrime
    {
      if arr[i] == Prime {
        return i;
      }
      i := i + 1;
    }
    return 0;
  }

  /** How many indices in [lo, hi) are still flagged Prime. */
  function Unmarked(s: seq<NumberType>, lo: nat, hi: nat): (n: nat)
    requires hi <= |s|
    ensures n <= if lo < hi then hi - lo else 0
    decreases hi - lo
  {
    if lo >= hi then 0 else (if s[lo] == Prime then 1 else 0) + Unmarked(s, lo + 1, hi)
  }

  /** Marking more entries never raises the unmarked count. */
  lemma {:induction false} UnmarkedMonotone(s: seq<NumberType>, t: seq<NumberType>, lo: nat, hi: nat)
    requires hi <= |s| && hi <= |t|
    requires forall j :: lo <= j < hi && s[j] == MultipleOfPrime ==> t[j] == MultipleOfPrime
    ensures Unmarked(t, lo, hi) <= Unmarked(s, lo, hi)
    decreases hi - lo
  {
    if lo < hi {
      UnmarkedMonotone(s, t, lo + 1, hi);
    }
  }

  /** Marking more entries, one of them previously unmarked, lowers the unmarked count. */
  lemma {:induction false} UnmarkedShrinks(s: seq<NumberType>, t: seq<NumberType>, lo: nat, hi: nat, p: nat)
    requires hi <= |s| && hi <= |t| && lo <= p < hi
    requires s[p] == Prime && t[p] == MultipleOfPrime
    requires forall j :: lo <= j < hi && s[j] == MultipleOfPrime ==> t[j] == MultipleOfPrime
    ensures Unmarked(t, lo, hi) < Unmarked(s, lo, hi)
    decreases hi - lo
  {
    if lo == p {
      UnmarkedMonotone(s, t, lo + 1, hi);
    } else {
      UnmarkedShrinks(s, t, lo + 1, hi, p);
    }
  }

  /** In marks, exactly the numbers j in [2, size) whose least factor is below bound are struck out. */
  ghost predicate MarksExact(marks: seq<NumberType>, size: nat, bound: nat)
  {
    size <= |marks| &&
    forall j :: 2 <= j < size ==> (marks[j] == MultipleOfPrime <==> MinFactor(j) < bound)
  }

  /** A least factor below bound is the same as a divisor among the primes emitted so far. */
  lemma MarksExactDivisible(j: nat, bound: nat)
    requires 2 <= j
    ensures MinFactor(j) < bound <==> exists q :: 2 <= q && q in PrimesBelow(bound) && j % q == 0
  {
    PrimesBelowMembers(bound);
    if MinFactor(j) < bound {
      MinFactorIsPrime(j);
      assert MinFactor(j) in PrimesBelow(bound);
    }
  }

  /**
   Striking out the multiples of p, the first prime at or after bound, moves the
   marking invariant from bound to p + 1.
   */
  lemma MarkPhase(marks: seq<NumberType>, size: nat, bound: nat, p: nat)
    requires bound <= p && IsPrime(p) && NoPrimeIn(bound, p)
    requires MarksExact(marks, size, bound)
    ensures MarksExact(MultiplesMarked(marks, size, p), size, p + 1)
  {
    var after := MultiplesMarked(marks, size, p);
    forall j | 2 <= j < size
      ensures after[j] == MultipleOfPrime <==> MinFactor(j) < p + 1
    {
      MarkStep(j, bound, p);
    }
  }

  /**
   The same pass strikes out p itself, which was unmarked, so the number of
   unmarked indices in [2, size) drops: the sieve loop's termination measure.
   */
  lemma MarkPhaseShrinks(marks: seq<NumberType>, size: nat, bound: nat, p: nat)
    requires bound <= p < size && IsPrime(p)
    requires MarksExact(marks, size, bound)
    ensures Unmarked(MultiplesMarked(marks, size, p), 2, size) < Unmarked(marks, 2, size)
  {
    PrimeIffOwnMinFactor(p);
    UnmarkedShrinks(marks, MultiplesMarked(marks, size, p), 2, size, p);
  }

  /**
   With exactly the numbers whose least factor is at most p struck out, the first
   unmarked index r found by the scan is the next prime after p, and a scan that
   finds none means no prime lies between p and size.
   */
  lemma ScanPhase(marks: seq<NumberType>, size: nat, p: nat, r: nat)
    requires MarksExact(marks, size, p + 1)
    requires r != 0 ==> 2 <= r < size && marks[r] == Prime
    requires forall j :: 2 <= j < size && (r == 0 || j < r) ==> marks[j] == MultipleOfPrime
    ensures r != 0 ==> p + 1 <= r && IsPrime(r) && NoPrimeIn(p + 1, r)
    ensures r == 0 ==> NoPrimeIn(p + 1, size)
  {
    if r != 0 {
      NextCandidate(p, r);
    } else {
      NoCandidate(p, size);
    }
  }

  /**
   Runs the sieve for a ceiling, writing the primes found to out and returning
   their count. scratchAvailable says whether the marking buffer could be
   allocated; when it could not, nothing is written and 0 is returned.
   Otherwise out[..count] is the ascending list of primes below the ceiling and
   out[count..] is zero.
   */
  method Sieve(ceiling: nat, out: array<int>, scratchAvailable: bool) returns (count: nat)
    requires 3 <= ceiling && out.Length == ceiling
    modifies out
    ensures count <= ceiling - 2
    ensures !scratchAvailable ==> count == 0 && out[..] == old(out[..])
    ensures scratchAvailable ==> count == |PrimesBelow(ceiling)| && out[..count] == PrimesBelow(ceiling)
    ensures scratchAvailable ==> forall i :: count <= i < out.Length ==> out[i] == 0
  {
    if !scratchAvailable {
      return 0;
    }
    var size := out.Length;
    var numbers := new NumberType[ceiling](_ => Prime);
    forall i | 0 <= i < out.Length {
      out[i] := 0;
    }

    var next: nat := 2;
    count := 0;
    // bound is one past the last prime emitted: the primes emitted are those below it,
    // and exactly the numbers whose least factor lies below it are marked.
    ghost var bound: nat := 2;
    // C's do-while loop in Sieve (main.c:135-141): its first test is skipped, but next starts at 2.
    while next > 0
      invariant 2 <= bound <= size
      invariant next != 0 ==> bound <= next < size && IsPrime(next) && NoPrimeIn(bound, next)
      invariant next == 0 ==> NoPrimeIn(bound, size)
      invariant next == 0 ==> forall j :: 2 <= j < size ==> numbers[j] == MultipleOfPrime
      invariant count <= bound - 2
      invariant out[..count] == PrimesBelow(bound)
      invariant forall i :: count <= i < size ==> out[i] == 0
      invariant MarksExact(numbers[..], size, bound)
      decreases Unmarked(numbers[..], 2, size)
    {
      ghost var p := next;
      ghost var before := numbers[..];
      PrimesBelowNext(bound, p);
      PrimesBelowLength(bound);
      out[count] := next;
      assert out[..count + 1] == PrimesBelow(p + 1);
      MarkPhase(numbers[..], size, bound, p);
      MarkPhaseShrinks(numbers[..], size, bound, p);
      var _ := MarkMultiples(numbers, size, next);
      next := FindNextPrime(numbers, size);
      ScanPhase(numbers[..], size, p, next);
      count := count + 1;
      bound := p + 1;
    }
    PrimesBelowGap(bound, size);
  }

  /**
   The caller's side of a run: an output buffer with room for one entry per number
   below the ceiling, filled by Sieve; the primes below the ceiling come back.
   */
  method SievePrimes(ceiling: nat) returns (count: nat, primes: seq<int>)
    requires 3 <= ceiling
    ensures primes == PrimesBelow(ceiling) && count == |primes|
    ensures count <= ceiling - 2
    ensures forall x :: x in primes <==> 2 <= x < ceiling && IsPrime(x)
    ensures forall i, j :: 0 <= i < j < |primes| ==> primes[i] < primes[j]
  {
    var out := new int[ceiling];
    count := Sieve(ceiling, out, true);
    primes := out[..count];
    PrimesBelowLength(ceiling);
    PrimesBelowMembers(ceiling);
    PrimesBelowAscending(ceiling);
  }

  /** The runs for the ceilings 3 and 10. */
  method SmallRuns() returns (three: seq<int>, ten: seq<int>)
    ensures three == [2] && ten == [2, 3, 5, 7]
  {
    var n3, n10;
    n3, three := SievePrimes(3);
    n10, ten := SievePrimes(10);
    SmallCeilings();
  }
}
