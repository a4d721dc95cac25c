# Sieve of Eratosthenes: a verified model of the sieve engine

The program asks for a ceiling greater than 2 and lists every prime below it.
The work is done by a sieve engine made of three routines:

- `MarkMultiples` writes `MultipleOfPrime` at every index `k * p` (`k >= 1`) below the buffer size.
- `FindNextPrime` scans from index 2 for the first entry still flagged `Prime`, and returns 0 when there is none.
- `Sieve` clears both buffers, then loops. Each pass appends the current prime to the output, strikes out its multiples and scans for the next one. The loop stops when the scan returns 0, and `Sieve` returns the count.

The model has two modules:

- `Primality` (`primality.dfy`) holds the mathematics: `IsPrime`, the least factor `MinFactor`, the ascending list `PrimesBelow(n)` of the primes in `[2, n)`, and the lemmas about them.
- `SieveEngine` (`sieve.dfy`) holds the engine as imperative Dafny. The flag enum `NumberTypes` (`SieveOfEratosthenes/main.c:21-25`) becomes the datatype `NumberType`, whose first constructor `Prime` plays the enum's zero value. The marking buffer is an `array<NumberType>` and the caller's output buffer an `array<int>`. `MarkMultiples` and `FindNextPrime` are loops over the array. `Sieve` is the main loop, carrying its invariant.

The central result is `Sieve`'s postcondition. For a ceiling of at least 3, the count is the number of primes below the ceiling. `out[..count]` is exactly `PrimesBelow(ceiling)`, which is strictly ascending and holds every prime in `[2, ceiling)`. Every later entry keeps the zero that the clearing wrote.

The loop invariant uses a ghost `bound`, one past the last prime emitted:

- the output so far is `PrimesBelow(bound)`;
- an index `j` in `[2, size)` is marked exactly when its least factor is below `bound`, which is the same as being divisible by an emitted prime (`MarksExactDivisible`);
- a nonzero `next` is the first prime at or after `bound`.

The loop terminates because each pass strikes out the prime it just emitted. So the number of unmarked indices in `[2, size)` strictly decreases, and that count is the loop's `decreases` measure.

Textbook statements of the sieve start striking at the first proper multiple `2p` and leave `p` unmarked. This code starts its counter at 1 (`SieveOfEratosthenes/main.c:163`), so it marks `p` too, and the model follows the code: `MultiplesMarked` strikes out every `j` with `0 < j < size` that `p` divides, `p` included. This is what keeps the next scan from returning `p` again, and it is what the termination measure rests on.

## Model

| member | source | states |
|---|---|---|
| `SieveEngine.MarkMultiples` | SieveOfEratosthenes/main.c:160-169 | Returns 1. Afterwards the buffer is the old buffer with every index `j`, `0 < j < size`, that `p` divides set to `MultipleOfPrime`, `p` itself included. Every other entry, including indices 0 and at and beyond `size`, is unchanged. |
| `SieveEngine.MultiplesMarkedHits` | SieveOfEratosthenes/main.c:163-165 | For every `k >= 1` with `k * p < size`, entry `k * p` of the marked buffer is `MultipleOfPrime`. |
| `SieveEngine.MultiplesMarkedKeeps` | SieveOfEratosthenes/main.c:163-165 | An index that is not `k * p` for any `k >= 1` with `k * p < size` keeps its old flag. |
| `SieveEngine.MultiplesMarkedMonotone` | SieveOfEratosthenes/main.c:160-166 | For `p >= 2`, indices 0 and 1 are never touched, and no mark is ever cleared. |
| `SieveEngine.MarkedBelowStep` | SieveOfEratosthenes/main.c:163-166 | One pass of the marking loop writes the multiple `m` and moves the marked region from the multiples below `m` to those below `m + p`. |
| `SieveEngine.FindNextPrime` | SieveOfEratosthenes/main.c:148-158 | Returns 0 exactly when every index in `[2, size)` is `MultipleOfPrime`. Otherwise the result lies in `[2, size)`, is flagged `Prime`, and every index in `[2, result)` is marked. So it is the least unmarked index, and never 1. |
| `SieveEngine.Sieve` | SieveOfEratosthenes/main.c:119-146 | For a ceiling of at least 3 and an output buffer of `ceiling` entries: the count equals the length of `PrimesBelow(ceiling)` and is at most `ceiling - 2`. `out[..count]` is `PrimesBelow(ceiling)`, and `out[count..]` is all zero. When the marking buffer cannot be allocated, it returns 0 and leaves `out` untouched. |
| `SieveEngine.MarksExactDivisible` | SieveOfEratosthenes/main.c:135-141 | For `j >= 2`, the least factor of `j` is below `bound` exactly when some prime in `PrimesBelow(bound)`, the primes emitted so far, divides `j`. So the marking invariant says: an index is marked exactly when an emitted prime divides it. |
| `SieveEngine.MarkPhase` | SieveOfEratosthenes/main.c:138 | Suppose exactly the numbers whose least factor is below `bound` are marked, and `p` is the first prime at or after `bound`. Then striking out the multiples of `p` leaves marked exactly the numbers whose least factor is at most `p`. |
| `SieveEngine.ScanPhase` | SieveOfEratosthenes/main.c:139-141 | Under that marking, a nonzero scan result is the next prime after `p`, with no prime in between. A zero result means no prime lies in `(p, size)`. |
| `SieveEngine.MarkPhaseShrinks` | SieveOfEratosthenes/main.c:138 | The marking pass for the prime `p` strikes out `p` itself, which was unmarked, so the count of unmarked indices in `[2, size)` strictly drops with each pass of the main loop. |
| `SieveEngine.UnmarkedShrinks` | SieveOfEratosthenes/main.c:135-141 | Marking more entries, one of them previously unmarked (the prime just emitted), strictly lowers the count of unmarked indices in `[2, size)`. This is the loop's termination measure. |
| `SieveEngine.UnmarkedMonotone` | SieveOfEratosthenes/main.c:163-166 | Marking more entries never raises the count of unmarked indices. |
| `SieveEngine.SievePrimes` | SieveOfEratosthenes/main.c:98-106 | The caller allocates one output entry per number below the ceiling and runs `Sieve`. It gets back `PrimesBelow(ceiling)` and its length. That list holds exactly the primes in `[2, ceiling)`, strictly ascending, and has at most `ceiling - 2` of them. The result is a function of the ceiling alone, so two runs agree. |
| `SieveEngine.SmallRuns` | SieveOfEratosthenes/main.c:119-146 | Running the engine on ceiling 3 gives `[2]`; on ceiling 10 it gives `[2, 3, 5, 7]`. |
| `Primality.PrimesBelowMembers` | SieveOfEratosthenes/main.c:39-40 | `x` is in `PrimesBelow(n)` if and only if `2 <= x < n` and `x` is prime. |
| `Primality.PrimesBelowAscending` | SieveOfEratosthenes/main.c:137 | `PrimesBelow(n)` is strictly ascending, so it has no duplicates. |
| `Primality.PrimesBelowLength` | SieveOfEratosthenes/main.c:34-36 | There are at most `n - 2` primes below `n`, so an output buffer of `n` entries has room for all of them. |
| `Primality.PrimesBelowPrefix` | SieveOfEratosthenes/main.c:119-146 | For `m <= n`, the primes below `m` are a prefix of the primes below `n`. |
| `Primality.PrimesBelowNext` | SieveOfEratosthenes/main.c:137-140 | If `p` is the first prime at or after `lo`, the primes below `p + 1` are the primes below `lo` followed by `p`. This is how `OutPrimesList` grows by one per pass. |
| `Primality.PrimesBelowGap` | SieveOfEratosthenes/main.c:141 | An interval with no primes adds nothing to the list. This closes the loop once the scan finds no candidate. |
| `Primality.MinFactorIsPrime` | SieveOfEratosthenes/main.c:151-153 | The least factor above 1 of any `n >= 2` is prime. It is why the least unmarked index is prime. |
| `Primality.PrimeIffOwnMinFactor` | SieveOfEratosthenes/main.c:151-153 | A number `n >= 2` is prime exactly when it is its own least factor. |
| `Primality.NextCandidate` | SieveOfEratosthenes/main.c:151-153 | Let `r` be the first number `>= 2` whose least factor exceeds `p`. Then `r` is prime and no prime lies strictly between `p` and `r`. |
| `Primality.NoCandidate` | SieveOfEratosthenes/main.c:155-157 | If every number in `[2, hi)` has its least factor at most `p`, no prime lies in `(p, hi)`. |
| `Primality.MarkStep` | SieveOfEratosthenes/main.c:138 | Let `p` be the first prime at or after `lo`. Then a number's least factor is at most `p` exactly when it is below `lo` or `p` divides the number. |
| `Primality.SmallCeilings` | SieveOfEratosthenes/main.c:119-146 | `PrimesBelow(3) == [2]` and `PrimesBelow(10) == [2, 3, 5, 7]`. |

## Left out

- `main` (SieveOfEratosthenes/main.c:80-117) is left out because it is console I/O. That covers the prompting with `scanf`/`printf`, the re-prompting for ceilings below 3, and the printing of the results. Its check on the ceiling survives as `Sieve`'s precondition `3 <= ceiling`.
- The percentage of primes (SieveOfEratosthenes/main.c:110-111) is left out: it is floating point and output formatting.
- `PrintIntArray` (SieveOfEratosthenes/main.c:171-178) is left out: it is console output only.
- `malloc` and `free` are not modelled as such. Both buffers are Dafny arrays: the caller's output buffer is passed in, and the marking buffer is a fresh array created with every entry `Prime`. That array stands for `malloc` followed by the clearing at line 133.
- Allocation failure of the marking buffer is the `scratchAvailable` parameter of `Sieve`. Its diagnostic `printf` is left out. The failure of the output allocation in `main` (lines 100-104) is left out with `main`.
- `Sieve`: the byte-size parameter and its division by `sizeof(uint32_t)` (line 123) are replaced by the output array's length. That length must equal the ceiling, which is how `main` calls it (line 106). With a different byte size the C code would scan a different range or index past the marking buffer; the model does not cover that.
- `MarkMultiples` requires `p >= 1`. With `p == 0` and `size > 0` the C loop never ends, and `Sieve` only ever passes primes.
- The 32-bit and `size_t` widths are not modelled. Integers are unbounded, so neither the overflow of `i * Prime` for ceilings near 2^32 nor the truncation of `FindNextPrime`'s `size_t` index to `uint32_t` is covered.
- Concrete runs are proved only for the ceilings 3 and 10; others, such as 20, rest on `Sieve`'s general postcondition.
