# python_primes_package in Dafny

This project models the number-theory core of the `primes` package:
- the smallest-prime-factor sieve `PrimeSieve`;
- the sieve-backed utilities `check_prime`, `prime_list`, `next_prime` and `nth_prime`;
- prime factorisation, both with the sieve and by trial division;
- the prime-counting functions: brute force, bisection in a prime list, Legendre's formula, Meissel's formula (with `P`, `pi_generic` and the cache), and the Lucy_Hedgehog dynamic program;
- sums of primes: the brute-force sum and the Lucy_Hedgehog variant with its `S_ref` reference table and its checked invariant.

The model is proved against a few reference definitions in `primality.dfy`:
- `IsPrime`;
- `Spf`, the smallest prime factor, which is n itself for n < 2 as the package uses it;
- `Pi`, the prime-counting function;
- `PrimeSum`;
- `PrimesUpTo`.

The model is laid out as follows:
- **Errors.** Every Python exception becomes an `Err` of one `Error` datatype (`wrappers.dfy`):
  - the sieve bound (`SieveBound`);
  - a negative argument to `check_prime` (`NegativeArgument`);
  - the `upto`/`n` mismatch (`ArgumentMismatch`);
  - `None` compared with an int (`TypeMismatch`);
  - `[][-1]` (`IndexOutOfRange`);
  - `math.isqrt` of a negative number (`MathDomain`);
  - a dictionary `KeyError` (`MissingKey`);
  - a failing `assert` (`AssertionFailed`);
  - `P` for k > 2 (`NotImplemented`).
- **The sieve.** `PrimeSieve` is a class whose table is an `array<int>`. `MakeSieve` fills it in place with the two nested loops of the source.
- **Loops and dictionaries.** Loops in the source are methods with loop invariants, proved against the reference functions. The dictionary `S` of the Lucy_Hedgehog programs is a local `map<int, int>` that the loops update.
- **Pure code.** `S`, `P`, `pi_meissel`, `pi_generic` and the other pure functions are Dafny functions.
  - `pi_meissel`, `pi_generic` and `P` are mutually recursive. Not every call shrinks N: `pi_generic(N)` calls `pi_meissel(N)`, and `pi_meissel(N)` calls `P(2, N, ...)`. N gets smaller on every cycle of calls, since the nested `pi_generic(N div p_i)` has a smaller argument. Within one N, a rank goes down along `pi_generic`, `pi_meissel`, `P` and the sum over the quotients, and the `decreases` clauses are the pair (N, rank).
  - These pure functions do not build a sieve. They see it through its size, and the list it would produce is described by `PrimeListUpTo`, the function the `prime_list` method is proved to compute.

Several places where the documentation and the code disagree follow the code:
- `make_sieve` stores the smallest prime factor, although its docstring says the biggest.
- `smallest_prime_factor` fails for every x above the sieve size, although the tests expect the sieve to reach size squared.
- `check_prime(0)` is true.
- `next_prime(p)` returns p itself when p is an odd prime.
- `pi_lucy_hedgehog` and `lucy_Hedgehog_method` only work when N div isqrt(N) == isqrt(N). For other N they raise a KeyError or fail an assertion, for instance at N = 1000.

## Model

| member | source | states |
|---|---|---|
| Sieve.PrimeSieve.constructor | primes/primeSieve.py:7-11 | the sieve keeps its size and its table is make_sieve(size) |
| Sieve.PrimeSieve.MakeSieve | primes/primeSieve.py:15-27 | a fresh table of upto + 1 entries: 0 for 0, 1 and every prime, the smallest (not the biggest) prime factor for every composite |
| Sieve.MarkedBelowComplete | primes/primeSieve.py:20-26 | running the outer loop only while d <= isqrt(upto) already marks every composite up to upto |
| Sieve.MarkStep | primes/primeSieve.py:24-26 | one inner pass over the multiples of d marks exactly the unmarked numbers whose smallest prime factor is d, so the first (smallest) marker wins |
| Sieve.MarkMultiples | primes/primeSieve.py:24-26 | the inner loop over 2d, 3d, ... <= upto turns the table marked by the primes below d into the table marked by the primes up to d |
| Sieve.SkipComposite | primes/primeSieve.py:21-22 | skipping an already marked d loses nothing: no number has a composite smallest factor |
| Sieve.VisitMultiple | primes/primeSieve.py:25-26 | visiting a multiple writes that cell only, and only when it is still unmarked |
| Sieve.UnmarkedMultiple | primes/primeSieve.py:24-26 | a multiple of d still unmarked when d is reached has d as its smallest prime factor |
| Sieve.PrimeSieve.SmallestPrimeFactor | primes/primeSieve.py:29-33 | an error above the size; spf(x) (x itself for 0 and 1) within the sieve; Python's negative indexing below 0 |
| Sieve.SmallestPrimeFactorSpec | primes/primeSieve.py:29-33 | for 2 <= x <= size the answer is a prime divisor of x, equal to x exactly when x is prime |
| PrimesUtils.CheckPrime | primes/primes_utils.py:20-29 | errors above the sieve size and below 0; false for 1; otherwise true exactly for 0 and the primes |
| PrimesUtils.PrimeList | primes/primes_utils.py:31-58 | an error unless exactly one of upto and n is given; otherwise the upto result or the count result |
| PrimesUtils.CollectUpTo | primes/primes_utils.py:42-47 | the primes <= upto in increasing order, or the sieve-bound error when an odd candidate exceeds the sieve |
| PrimesUtils.PrimeListUpTo | primes/primes_utils.py:42-47 | a type error for upto == 0; on a sieve reaching upto the primes <= upto; any other failure is the sieve-bound error and happens only for upto >= 3 beyond the sieve; every success is exactly the primes <= upto |
| PrimesUtils.CollectCount | primes/primes_utils.py:48-56 | the first k primes ([] for k <= 0 and [2] for k == 1 whatever the sieve); for k >= 2 the sieve-bound error exactly when the k-th prime lies beyond the sieve |
| PrimesUtils.PrimeListCount | primes/primes_utils.py:48-56 | fails, with the sieve-bound error, exactly when k >= 2 and the sieve holds fewer than k primes; otherwise k elements (none for k <= 0), strictly increasing, all the primes up to the last one, which is prime |
| PrimesUtils.NextPrime | primes/primes_utils.py:8-18 | 3 for 2; otherwise the least odd prime >= p, failing exactly when none lies in the sieve or p < 0 |
| PrimesUtils.NextOddFrom | primes/primes_utils.py:15-18 | the search loop returns an odd prime >= p with no odd prime between p and it, and fails exactly for p < 0 (negative-argument error) or when no odd prime >= p lies in the sieve (sieve-bound error) |
| PrimesUtils.NthPrime | primes/primes_utils.py:84-94 | the n-th prime, succeeding exactly for n == 1 or when the sieve holds at least n >= 2 primes |
| PrimesUtils.NthPrimeInPrimeList | primes/test_primes.py:133-134 | nth_prime(n) is entry n - 1 of prime_list(n=k) for 1 <= n <= k |
| Factorization.CofactorProduct | primes/factorization.py:28-31 | dividing out p leaves a cofactor free of p, and n is the cofactor times p to the multiplicity |
| Factorization.DivideOut | primes/factorization.py:28-31 | the inner division loop returns the multiplicity of d and the cofactor |
| Factorization.DivideStep | primes/factorization.py:55-60 | the divide-and-append step of both loops of the sieve-free factorisation (also lines 63-68 and, after the primality test, 28-32): dividing d out of n contributes the pair (d, multiplicity) exactly when d divides n, and leaves a cofactor whose own factorisation completes n's and whose prime factors exceed d |
| Factorization.FactorizationWellFormed | primes/factorization.py:35-45 | the factorisation lists primes in strictly increasing order with exponents >= 1, starting at the smallest prime factor |
| Factorization.FactorizationProduct | primes/test_primes.py:106-111 | multiplying the factorisation back out gives n |
| Factorization.FactorizationExponent | primes/test_primes.py:96-103 | the exponent recorded for a prime q is the multiplicity of q in n (the factorisation is unique) |
| Factorization.ExponentsAddOnMultiplication | primes/test_primes.py:96-103 | the exponents of a * b are the sums of those of a and of b |
| Factorization.PrimeFactorization | primes/test_primes.py:69-72 | a prime factors as itself to the first power |
| Factorization.TotalPowerOne | primes/test_primes.py:69-72 | for n >= 2 the exponents sum to 1 exactly when n is prime |
| Factorization.CompositeTotalPower | primes/test_primes.py:74-80 | a product of two numbers >= 2 has total power > 1 |
| Factorization.RoughPartSpec | primes/factorization.py:21-32 | what trial division leaves divides n and has no prime factor <= the bound |
| Factorization.TrialDivision | primes/factorization.py:21-32 | trial division by 2, 3, 5, ... while the cofactor exceeds the sieve yields the first pairs of the factorisation and fails exactly when a trial divisor would leave the sieve first |
| Factorization.TrialStep | primes/factorization.py:25-32 | one iteration of the trial loop, for any candidate d, keeps the loop invariant: x keeps num's rough part and the pairs so far complete x's factorisation to num's, for the next candidate |
| Factorization.FactorBySpf | primes/factorization.py:35-45 | grouping the smallest prime factors read off the sieve yields the factorisation of the cofactor |
| Factorization.GroupSpf | primes/factorization.py:37-43 | the inner loop returns the cofactor of x free of its smallest prime factor, that factor's multiplicity, and the sieve entry of the cofactor |
| Factorization.PrimeFactorsGenerator | primes/factorization.py:16-45 | everything the generator yields is the factorisation of num; it fails exactly in the sieve-bound and negative-index cases |
| Factorization.GetPrimeFactorizationNoSieve | primes/factorization.py:48-71 | the factorisation of num, [] for num < 2, with any cofactor left after the trial divisors appended as a prime |
| Factorization.GetPrimeFactors | primes/factorization.py:9-13 | the generator's result with a sieve, the trial-division result without, both the factorisation of num |
| InclusionExclusion.Product | primes/pi_computations.py:14-15 | the product of a list of positive numbers is at least 1 |
| InclusionExclusion.ProductAppend | primes/pi_computations.py:14-15 | the product of a concatenation is the product of the products |
| InclusionExclusion.CombinationsLength | primes/pi_computations.py:19 | combinations(L, k) has len(L) choose k elements of k entries each |
| InclusionExclusion.SIsSumOverCombinations | primes/pi_computations.py:17-19 | the recursive S(N, k, L) is the sum of N div product(c) over the k-combinations c of L |
| InclusionExclusion.SBeyond | primes/pi_computations.py:17-19 | S vanishes once k exceeds the length of L |
| InclusionExclusion.SNonNegative | primes/pi_computations.py:17-19 | for N >= 0 and positive L, S(N, k, L) is non-negative, and 0 for N == 0 |
| InclusionExclusion.SZeroPersists | primes/pi_computations.py:48-52 | once S is 0 at k it is 0 at every larger k |
| InclusionExclusion.SBruteForce | primes/pi_computations.py:21-28 | counting the pairs (c, x <= N) with product(c) dividing x gives S(N, k, L) |
| InclusionExclusion.CountMultiples | primes/pi_computations.py:25-27 | the counting loop over x = 1..N returns the number of multiples of prod in 1..N, N div prod, and 0 for N < 0 |
| InclusionExclusion.AlternatingSumStops | primes/pi_computations.py:44-53 | stopping the alternating sum at the first zero term loses nothing |
| InclusionExclusion.PhiStep | primes/pi_computations.py:31-42 | sieving out one more prime p removes exactly the p * y with y free of the others |
| InclusionExclusion.AlternatingSumIsPhi | primes/pi_computations.py:31-42 | for distinct primes the full alternating sum counts the x <= N divisible by none of them |
| InclusionExclusion.LegendreSumCounts | primes/pi_computations.py:31-53 | legendre_sum(N, a, L) counts the x in 1..N divisible by none of the first a primes of L |
| InclusionExclusion.LegendreSum | primes/pi_computations.py:31-53 | the loop fails the assertion when a > len(L) and otherwise adds the signed terms while they stay positive and i <= a |
| RoughNumbers.PhiOfPrimesUpTo | primes/pi_computations.py:31-42 | sieving 1..N by the primes <= c leaves 1 and the numbers with no prime factor <= c |
| RoughNumbers.RoughAboveRoot | primes/pi_computations.py:65-72 | above isqrt(N) the numbers with no small prime factor are the primes |
| RoughNumbers.LegendreIdentity | primes/pi_computations.py:65-72 | Legendre's formula: pi(N) = a + phi(N, a) - 1 with a = pi(isqrt(N)) |
| RoughNumbers.RoughBelowCube | primes/pi_computations.py:118-124 | below (c + 1)^3, a number with no prime factor <= c is a prime or a product of two such primes |
| RoughNumbers.MeisselIdentity | primes/pi_computations.py:118-124 | Meissel's formula: pi(N) = phi(N, c) - P2(N, c) + c - 1 with c = pi(icbrt(N)) |
| RoughNumbers.SemiprimeCountVanishes | primes/pi_computations.py:94-95 | no product of two primes p_i * p_j <= N has a >= pi(isqrt(N)) and i > a |
| RoughNumbers.SemiprimeGroupStep | primes/pi_computations.py:97-99 | the products with smaller factor the (a+1)-th prime p number pi(N div p) - a |
| RoughNumbers.SemiprimeGroups | primes/pi_computations.py:93-99 | the products p_i * p_j <= N with a < i <= j are the sum of pi(N div p_i) over a < i <= b minus (b - a)(b + a - 1)/2 |
| PiComputations.PiFromList | primes/pi_computations.py:78-79 | the bisect insertion point: every element before it is <= x, every element after it is > x |
| PiComputations.PiFromListPrimes | primes/pi_computations.py:78-79 | in the primes up to a bound >= x, the insertion point of x is pi(x) |
| PiComputations.PiBrute | primes/pi_computations.py:74-76 | pi(N) for N >= 1; the math-domain error for N < 0 and the type error for N == 0 |
| PiComputations.PiLegendre | primes/pi_computations.py:55-72 | pi(N) for N >= 1 whenever prime_list(upto=isqrt(N)) succeeds on the given sieve, and always on a fresh one; the sieve-bound error otherwise; the math-domain error for N < 0 and the type error for N == 0 |
| PiComputations.PiCacheSound | primes/pi_computations.py:126 | every value in the cache is the prime count of its key |
| PiComputations.PiGeneric | primes/pi_computations.py:126-134 | pi(N) from the cache, from bisection when N is within the list, or from Meissel, with the source's error and value for N <= 0 and for an empty list |
| PiComputations.MeisselBounds | primes/pi_computations.py:109-118 | the prime list reaches both roots, and both roots of N >= 2 are below N, so the recursion is well founded |
| PiComputations.PiMeissel | primes/pi_computations.py:103-124 | pi(N) for N >= 1 whenever the list it builds fits the sieve; the source's values and errors for N <= 0 |
| PiComputations.MeisselFromList | primes/pi_computations.py:118-124 | given the primes up to isqrt(N), legendre_sum - P2 + c - 1 is pi(N) |
| PiComputations.MeisselCombines | primes/pi_computations.py:118-124 | the three parts of Meissel's formula combine to pi(N), and to -1 for N == 0 |
| PiComputations.P | primes/pi_computations.py:81-101 | 0 for k == 1; for k == 2 the number of products p_i * p_j <= N with a < i <= j; not implemented otherwise |
| PiComputations.SemiprimeTerm | primes/pi_computations.py:92-99 | for N >= 1 the count of semiprimes p_i * p_j <= N with a < i <= j, from b = pi(isqrt(N)) and the sum of pi(N div p_i) - (i - 1); for N == 0 an index error on an empty list and 0 otherwise |
| PiComputations.QuotientTermBounds | primes/pi_computations.py:98 | each nested pi_generic(N div p_i) has an argument in [1, N) that the list still covers |
| PiComputations.QuotientTerms | primes/pi_computations.py:98 | the sum of pi_generic(N div p_i) over a < i <= b is the sum of pi(N div p_i) |
| PiComputations.PiLucyHedgehog | primes/pi_computations.py:136-151 | pi(N) exactly when N div isqrt(N) == isqrt(N); a KeyError for every other N >= 0 and a math-domain error for N < 0 |
| LucySieve.LucyInitial | primes/pi_computations.py:141-142 | the seeds v - 1 and v(v + 1)/2 - 1 are the table values before any pass |
| LucySieve.LucyStepComposite | primes/pi_computations.py:145 | a pass with a composite p changes no entry |
| LucySieve.LucyStepSmall | primes/pi_computations.py:146 | entries v < p * p are unchanged by the pass with p |
| LucySieve.LucyStepLarge | primes/pi_computations.py:146-150 | for a prime p and v >= p * p, the update S[v] -= p^k * (S[v div p] - S[p - 1]) gives the table after p |
| LucySieve.LucyDetects | primes/pi_computations.py:145 | before the pass with p, S[p] > S[p - 1] exactly when p is prime |
| LucySieve.LucyComplete | primes/pi_computations.py:144-151 | once every prime up to isqrt(v) has sieved, the entry for v sums exactly the primes <= v |
| LucySieve.LucyCountsPrimes | primes/pi_computations.py:151 | the completed counting entry for v is pi(v) |
| LucySieve.LucySumsPrimes | primes/prime_sums.py:79 | the completed summing entry for v is the sum of the primes <= v |
| LucySieve.PiKeysDescending | primes/pi_computations.py:138-139 | V is strictly decreasing and positive whenever N >= 1 |
| LucySieve.KeysAgree | primes/prime_sums.py:26-29 | when N div isqrt(N) == isqrt(N), the two programs build the same V |
| LucySieve.KeysClosed | primes/pi_computations.py:146-149 | when N div isqrt(N) == isqrt(N), N is a key and every quotient v div p with v >= p * p is a key |
| LucySieve.KeysMissing | primes/pi_computations.py:149 | otherwise the pass with the smallest prime factor of isqrt(N) looks up a quotient that is not a key |
| LucySieve.KeysPassesSucceed | primes/pi_computations.py:144-150 | when N div isqrt(N) == isqrt(N), every pass finds all its keys |
| LucySieve.KeysPassFails | primes/pi_computations.py:144-150 | otherwise, for isqrt(N) >= 2, some pass misses a key |
| LucySieve.KeysLackN | primes/pi_computations.py:151 | otherwise, for isqrt(N) < 2, S[N] itself is missing |
| LucySieve.SievePass | primes/pi_computations.py:146-150 | the inner loop over v >= p * p in descending V succeeds exactly when every looked-up key exists, and then turns the table for p - 1 into the table for p |
| LucySieve.PassStep | primes/pi_computations.py:146-150 | in descending V, the keys v div p and p - 1 are not yet updated when v is |
| LucySieve.SieveRound | primes/pi_computations.py:145-150 | one round succeeds exactly when p is composite or its pass finds every key, and then advances the table from p - 1 to p |
| LucySieve.SieveRounds | primes/pi_computations.py:144-150 | the rounds p = 2..r succeed exactly when every prime pass does, and leave the table for r |
| LucySieve.InitialCounts | primes/pi_computations.py:141-142 | the seeded table holds the counts before any pass |
| PrimeSums.Brute | primes/prime_sums.py:9-16 | the sum of the primes <= N, on a fresh sieve when none is given or it is too small; the source's errors and values for N <= 0 |
| PrimeSums.SumFromTwo | primes/prime_sums.py:35-37 | T(i) is the sum of 2..i, the table entry before any pass |
| PrimeSums.SRefIsPrimeSum | primes/prime_sums.py:18 | every entry of S_ref is the sum of the primes up to its key |
| PrimeSums.KeysOfHundred | primes/prime_sums.py:18 | for N = 100 every key of V is a key of S_ref |
| PrimeSums.TableMatchesReference | primes/prime_sums.py:46-53 | after the passes with primes <= p, invariant(p) holds: for N = 100 every key <= p * p matches S_ref |
| PrimeSums.TailCheck | primes/prime_sums.py:31 | V[r - 1:] == range(r, 0, -1) exactly when N == 0 or N div isqrt(N) == isqrt(N) |
| PrimeSums.AdjacentDecreasingIff | primes/prime_sums.py:32 | comparing every adjacent pair is the same as V being strictly decreasing |
| PrimeSums.AsWrittenAcceptsRepeat | primes/prime_sums.py:32 | the check as written accepts [3, 2, 2], which is not strictly decreasing |
| PrimeSums.HedgehogKeys | primes/prime_sums.py:55-58 | when N div isqrt(N) == isqrt(N), V is decreasing, holds 1..r and N, and every pass finds its keys |
| PrimeSums.LucyHedgehogMethod | primes/prime_sums.py:22-79 | the sum of the primes <= N exactly when N div isqrt(N) == isqrt(N); the assertion error for the other N >= 1, a KeyError for N == 0, the math-domain error for N < 0 |
| PrimeSums.SumTable | primes/prime_sums.py:39-53 | the seeded and sieved table has exactly the keys of V and holds, for every key v, the sum of the primes <= v; the checks on V and invariant(1) are proved in its body |
| PrimeSums.SumRounds | primes/prime_sums.py:56-77 | the rounds p = 2..r leave exactly the keys of V, each holding the sum of the x in 2..v that are prime or have no prime factor <= r (for v <= N, just the primes <= v); that no round misses a key and that invariant(p) holds after each is proved in its body |
| PrimeSums.SumRound | primes/prime_sums.py:64-77 | one round with 2 <= p <= isqrt(N), on a table whose keys are exactly V and whose entry for v sums the x in 2..v with no prime factor < p, leaves the same keys with each entry summing the x with no prime factor <= p |

## Left out

- Floating-point roots: `N**(1/3)` in `pi_meissel` and `math.sqrt` in `get_prime_factorization_no_sieve` are modelled as the exact integer roots `Icbrt` and `Isqrt`. The float cube root can round down at perfect cubes (125 gives 4), which the model does not reproduce.
- `psieve`, the `__main__` blocks, the test modules, `setup.py`, `__init__.py` and `consecutive_prime_generation.py` are not part of this model. They are a generator used nowhere, printing and timing code, test harnesses, packaging and a stand-alone script.
- `PrimeSieve.verbose`, `list` and `list_upto` are never read, so the class has no such fields.
- Sieve.PrimeSieve.constructor: takes a `nat` size; a negative size (where `math.isqrt` raises) is only reached through the callers, which report it as the math-domain error.
- PiComputations.PiGeneric: the sieve reaches the pure functions only through its size (`SieveSizeFor`), since a function cannot allocate the table; the list it would yield is `PrimeListUpTo`, which `PrimeList` is proved to compute.
- PiComputations.PiGeneric: a caller-supplied prime list is required to be the primes up to a bound reaching isqrt(N) (`ListSound`); arbitrary lists are not modelled.
- PiComputations.PiMeissel: the same `ListSound` requirement on a caller-supplied list; behaviour on any other list is not modelled.
- PiComputations.MeisselFromList: requires the list to be the primes up to a bound reaching isqrt(N); on other lists the source computes a wrong count, which is not modelled.
- PiComputations.P: `P` is public in the source and accepts any list; the model requires the primes up to a bound reaching isqrt(N) and says nothing about other lists.
- PiComputations.SemiprimeTerm: the same list requirement as `P`, plus N >= 0.
- PiComputations.QuotientTerms: the same list requirement as `P`, plus N >= 1 and b <= pi(isqrt(N)), which is how `P` calls it.
- `pi_cache` is the constant map {1: 0}: the source never writes to it, so the global mutable state is left out.
- PiComputations.P: requires a >= 0; with a negative `a` the source would index the list from its end.
- InclusionExclusion.S: requires positive list entries and a natural k; the source is only called that way.
- Factorization.PrimeFactorsGenerator: the generator is modelled by the list of everything it yields, not by lazy evaluation.
- PiComputations.PiFromList: `bisect` is modelled as the insertion point of a strictly increasing list, which is how every caller uses it.
- `assert` statements that always hold (`prime_sums.py` lines 24, 32, 53 and 77) are verified Dafny assertions, not run-time checks.

## Findings

| source | as written | input that shows it | evidently intended | confidence | as-written member | corrected member |
|---|---|---|---|---|---|---|
| primes/prime_sums.py:32 | `range(0, len(V) - 2)` compares the pairs (V[i], V[i+1]) for i up to len(V) - 3, so the last pair is never compared | [3, 2, 2] passes the check but is not strictly decreasing; the defect cannot be observed, because the assertion on line 31 already fixes the tail of V as r..1, so the one pair line 32 skips is always (2, 1), or V has fewer than two entries | `range(0, len(V) - 1)`, comparing every adjacent pair, as the comment "V is strictly decreasing" says | high (not executed) | PrimeSums.AsWrittenAcceptsRepeat | PrimeSums.AdjacentDecreasingIff |
