/** The prime-counting functions of primes/pi_computations.py: by brute force, by
    bisection in a prime list, by Legendre's and Meissel's formulas, and the
    dispatcher pi_generic. */
module PiComputations {
  import opened Wrappers
  import opened Arith
  import opened Primality
  import opened Sieve
  import opened PrimesUtils
  import opened InclusionExclusion
  import opened RoughNumbers
  import opened LucySieve

  /** bisect(prime_list, x) on a sorted list: the insertion point after every
      element <= x. */
  function PiFromList(x: int, l: seq<int>): (r: nat)
    requires StrictlyIncreasing(l)
    ensures r <= |l|
    ensures forall i :: 0 <= i < r ==> l[i] <= x
    ensures forall i :: r <= i < |l| ==> l[i] > x
    decreases |l|
  {
    if l == [] || l[|l| - 1] <= x then |l| else PiFromList(x, l[..|l| - 1])
  }

  /** In the primes up to a bound >= x, the insertion point of x is pi(x). */
  lemma PiFromListPrimes(x: int, bound: int)
    requires x <= bound
    ensures StrictlyIncreasing(PrimesUpTo(bound)) && PiFromList(x, PrimesUpTo(bound)) == Pi(x)
  {
    var l := PrimesUpTo(bound);
    PrimesUpToSpec(bound);
    PrimesUpToPrefix(x, bound);
    PrimesUpToMembers(x);
    var r := PiFromList(x, l);
    var k := Pi(x);
    if r > k {
      PrimeIndex(bound, k);
      PiExceeds(l[k], x);
    }
  }

  /** pi_brute(N): the length of prime_list(PrimeSieve(N), upto=N). A negative N fails in
      the sieve's math.isqrt, N == 0 in prime_list. */
  method PiBrute(n: int) returns (res: Result<int>)
    ensures n < 0 ==> res == Err(MathDomain)
    ensures n == 0 ==> res == Err(TypeMismatch)
    ensures n >= 1 ==> res == Ok(Pi(n))
  {
    if n < 0 {
      return Err(MathDomain);
    }
    var ps := new PrimeSieve(n);
    var listed := PrimeList(ps, Some(n), None);
    if listed.Err? {
      return Err(listed.error);
    }
    PrimesUpToLength(n);
    return Ok(|listed.value|);
  }

  /** pi_legendre(N, sieve): a + legendre_sum(N, a, primes <= isqrt(N)) - 1 with
      a = pi(isqrt(N)), on a fresh sieve of size isqrt(N) when none is given. */
  method PiLegendre(n: int, sieve: PrimeSieve?) returns (res: Result<int>)
    requires sieve != null ==> sieve.Valid()
    ensures n < 0 ==> res == Err(MathDomain)
    ensures n == 0 ==> res == Err(TypeMismatch)
    ensures n >= 1 && (sieve == null || PrimeListUpTo(sieve.size, Isqrt(n)).Ok?) ==>
      res == Ok(Pi(n))
    ensures n >= 1 && sieve != null && PrimeListUpTo(sieve.size, Isqrt(n)).Err? ==>
      res == Err(SieveBound)
  {
    if n < 0 {
      return Err(MathDomain);
    }
    var r := Isqrt(n);
    var ps := sieve;
    if ps == null {
      ps := new PrimeSieve(r);
    }
    var listed := PrimeList(ps, Some(r), None);
    if listed.Err? {
      return Err(listed.error);
    }
    var l := listed.value;
    PrimesUpToDistinctPrimes(r);
    PiFromListPrimes(r, r);
    var a := PiFromList(r, l);
    PrimesUpToLength(r);
    var sum := LegendreSum(n, a, l);
    LegendreOfRoot(n);
    return Ok(a + sum.value - 1);
  }

  /** Legendre's formula with the a = pi(isqrt(N)) primes up to isqrt(N): the sum counts
      the x <= N free of them, which with a - 1 gives pi(N). */
  lemma LegendreOfRoot(n: int)
    requires n >= 1
    ensures var r := Isqrt(n); var l := PrimesUpTo(r);
      Positive(l) && LegendreSumValue(n, Pi(r), l) == Ok(Pi(n) - Pi(r) + 1)
  {
    var r := Isqrt(n);
    var l := PrimesUpTo(r);
    PrimesUpToDistinctPrimes(r);
    PrimesUpToLength(r);
    LegendreSumCounts(n, Pi(r), l);
    assert l[..Pi(r)] == l;
    LegendreIdentity(n);
  }

  /** pi_cache: seeded with pi(1) = 0 and never written. */
  const PiCache: map<int, int> := map[1 := 0]

  /** Every cached value is the prime count of its key. */
  lemma PiCacheSound()
    ensures forall v :: v in PiCache ==> PiCache[v] == Pi(v)
  {
    assert Pi(1) == 0;
  }

  /** The prime list handed down the recursion is the primes up to a bound that reaches
      isqrt of the argument. */
  predicate ListSound(n: int, list: Option<seq<int>>, bound: int)
  {
    list.Some? ==> list.value == PrimesUpTo(bound) && (n >= 0 ==> Isqrt(n) <= bound)
  }

  /** pi_generic hands its argument on to pi_meissel. */
  predicate Defers(n: int, list: Option<seq<int>>)
  {
    n !in PiCache && (list.None? || (list.value != [] && n > list.value[|list.value| - 1]))
  }

  /** The sieve to build the prime list from, when there is no list: the caller's, or a
      fresh one of size isqrt(N). */
  function SieveSizeFor(n: int, sieveSize: Option<int>): int
    requires n >= 0
  {
    if sieveSize.Some? then sieveSize.value else Isqrt(n)
  }

  /** pi_generic(N, sieve, list): the cached value, else bisection in the list when N is
      at most its last element, else pi_meissel. */
  function PiGeneric(n: int, sieveSize: Option<int>, list: Option<seq<int>>, bound: int): (r: Result<int>)
    requires ListSound(n, list, bound)
    ensures n >= 1 && (list.Some? ==> list.value != [] || n == 1) &&
            (list.None? && n >= 2 ==> PrimeListUpTo(SieveSizeFor(n, sieveSize), Isqrt(n)).Ok?) ==>
              r == Ok(Pi(n))
    ensures n != 1 && list == Some([]) ==> r == Err(IndexOutOfRange)
    ensures n <= 0 && list.Some? && list.value != [] ==> r == Ok(0)
    ensures n == 0 && list.None? ==> r == Err(TypeMismatch)
    ensures n < 0 && list.None? ==> r == Err(MathDomain)
    ensures n >= 2 && list.None? && PrimeListUpTo(SieveSizeFor(n, sieveSize), Isqrt(n)).Err? ==>
      r == Err(SieveBound)
    decreases n, if Defers(n, list) then 4 else 0, 0
  {
    PrimesUpToDistinctPrimes(bound);
    if n in PiCache then Ok(PiCache[n])
    else if list.Some? && list.value == [] then Err(IndexOutOfRange)
    else if list.Some? && n <= list.value[|list.value| - 1] then
      PrimesUpToSpec(bound);
      assert list.value[|list.value| - 1] in list.value;
      PiFromListPrimes(n, bound);
      Ok(PiFromList(n, list.value))
    else
      PiMeissel(n, sieveSize, list, bound)
  }

  /** The roots pi_meissel takes stay within a list reaching isqrt(N). */
  lemma RootsWithinBound(n: int, bound: int)
    requires n >= 0 && Isqrt(n) <= bound
    ensures Icbrt(n) <= bound && Isqrt(Icbrt(n)) <= bound && Isqrt(Isqrt(n)) <= bound
  {
    CbrtBelowSqrt(n);
    IsqrtAtMost(n);
    IsqrtMonotone(Icbrt(n), n);
    IsqrtMonotone(Isqrt(n), n);
  }

  /** Both roots of N >= 2 are below N, so the recursion on them is well founded. */
  lemma RootsBelow(n: int)
    requires n >= 2
    ensures Icbrt(n) < n && Isqrt(n) < n
  {
    IcbrtBelow(n);
    IsqrtBelow(n);
  }

  /** Facts about the prime list that keep pi_meissel's recursion well founded. */
  lemma MeisselBounds(n: int, l: seq<int>, bound: int)
    requires n >= 0 && l == PrimesUpTo(bound) && Isqrt(n) <= bound
    ensures Positive(l) && DistinctPrimes(l) && (bound >= 2 <==> l != [])
    ensures Icbrt(n) <= bound && Isqrt(Icbrt(n)) <= bound && Isqrt(Isqrt(n)) <= bound
    ensures Pi(Icbrt(n)) <= |l| && l[..Pi(Icbrt(n))] == PrimesUpTo(Icbrt(n))
    ensures Icbrt(n) >= 2 ==> l != []
    ensures n >= 2 ==> Icbrt(n) < n && Isqrt(n) < n
  {
    PrimesUpToDistinctPrimes(bound);
    RootsWithinBound(n, bound);
    var c := Icbrt(n);
    PrimesUpToPrefix(c, bound);
    if n >= 2 {
      RootsBelow(n);
    }
  }

  /** pi_meissel(N, sieve, list): 0 for N == 1; otherwise legendre_sum(N, c) - P(2, N, c)
      + c - 1 with c = pi(icbrt(N)), building the list of primes <= isqrt(N) first when
      none is given. */
  function PiMeissel(n: int, sieveSize: Option<int>, list: Option<seq<int>>, bound: int): (r: Result<int>)
    requires ListSound(n, list, bound)
    ensures n >= 1 && (list.None? && n >= 2 ==> PrimeListUpTo(SieveSizeFor(n, sieveSize), Isqrt(n)).Ok?) ==>
      r == Ok(Pi(n))
    ensures n < 0 ==> r == Err(MathDomain)
    ensures n == 0 ==>
      r == if list.None? then Err(TypeMismatch) else if list.value == [] then Err(IndexOutOfRange) else Ok(-1)
    ensures n >= 2 && list.None? && PrimeListUpTo(SieveSizeFor(n, sieveSize), Isqrt(n)).Err? ==>
      r == Err(SieveBound)
    decreases n, 3, 1
  {
    if n == 1 then Ok(0)
    else if n < 0 then Err(MathDomain)
    else
      var size := SieveSizeFor(n, sieveSize);
      if list.Some? then MeisselFromList(n, size, list.value, bound)
      else
        var listed := PrimeListUpTo(size, Isqrt(n));
        if listed.Err? then Err(listed.error)
        else MeisselFromList(n, size, listed.value, Isqrt(n))
  }

  /** The Meissel formula once the list of primes up to (at least) isqrt(N) is known. */
  function MeisselFromList(n: int, size: int, l: seq<int>, bound: int): (r: Result<int>)
    requires n >= 0 && l == PrimesUpTo(bound) && Isqrt(n) <= bound
    ensures n >= 1 ==> r == Ok(Pi(n))
    ensures n == 0 ==> r == if l == [] then Err(IndexOutOfRange) else Ok(-1)
    decreases n, 3, 0
  {
    MeisselBounds(n, l, bound);
    var cr := PiGeneric(Icbrt(n), Some(size), Some(l), bound);
    if cr.Err? then Err(cr.error)
    else
      var c := cr.value;
      LegendreSumCounts(n, c, l);
      var lgsum := LegendreSumValue(n, c, l).value;
      var p2 := P(2, n, c, Some(size), l, bound).value;
      MeisselCombines(n, l, bound, c, lgsum, p2);
      Ok(lgsum - p2 + c - 1)
  }

  /** Legendre's sum, P2 and c = pi(icbrt(N)) combine to pi(N) (and to -1 for N == 0). */
  lemma MeisselCombines(n: int, l: seq<int>, bound: int, c: int, lgsum: int, p2: int)
    requires n >= 0 && l == PrimesUpTo(bound) && Isqrt(n) <= bound
    requires c == Pi(Icbrt(n)) && c <= |l| && l[..c] == PrimesUpTo(Icbrt(n))
    requires lgsum == Phi(n, l[..c])
    requires n >= 1 ==> p2 == SemiprimeCount(n, c)
    requires n == 0 ==> p2 == 0
    ensures n >= 1 ==> lgsum - p2 + c - 1 == Pi(n)
    ensures n == 0 ==> lgsum - p2 + c - 1 == -1
  {
    if n >= 1 {
      MeisselIdentity(n);
    }
  }

  /** P(k, N, a, sieve, list): the number of x <= N that are products of exactly k primes
      p_i with i > a; 0 for k == 1 and not implemented beyond k == 2. */
  function P(k: int, n: int, a: int, sieveSize: Option<int>, l: seq<int>, bound: int): (r: Result<int>)
    requires l == PrimesUpTo(bound) && (n >= 0 ==> Isqrt(n) <= bound) && a >= 0
    ensures k == 1 ==> r == Ok(0)
    ensures k != 1 && k != 2 ==> r == Err(NotImplemented)
    ensures k == 2 && n >= 1 ==> r == Ok(SemiprimeCount(n, a))
    ensures k == 2 && n == 0 ==> r == if l == [] then Err(IndexOutOfRange) else Ok(0)
    ensures k == 2 && n < 0 ==> r == Err(MathDomain)
    decreases n, 2, 1
  {
    if k == 1 then Ok(0)
    else if k != 2 then Err(NotImplemented)
    else if n < 0 then Err(MathDomain)
    else SemiprimeTerm(n, a, sieveSize, l, bound)
  }

  /** The k == 2 branch of P for N >= 0: pi(isqrt(N)) from pi_generic, then the sum of
      pi(N div p_i) - i over a <= i < pi(isqrt(N)). */
  function SemiprimeTerm(n: int, a: int, sieveSize: Option<int>, l: seq<int>, bound: int): (r: Result<int>)
    requires l == PrimesUpTo(bound) && n >= 0 && Isqrt(n) <= bound && a >= 0
    ensures n >= 1 ==> r == Ok(SemiprimeCount(n, a))
    ensures n == 0 ==> r == if l == [] then Err(IndexOutOfRange) else Ok(0)
    decreases n, 2, 0
  {
    MeisselBounds(n, l, bound);
    assert n >= 1 ==> Isqrt(n) >= 1 && (l != [] || Isqrt(n) == 1);
    var br := PiGeneric(Isqrt(n), sieveSize, Some(l), bound);
    assert br == if n >= 1 then Ok(Pi(Isqrt(n))) else if l == [] then Err(IndexOutOfRange) else Ok(0);
    if br.Err? then Err(br.error)
    else
      var b := br.value;
      if a >= b then
        SemiprimeCountVanishes(n, a);
        Ok(0)
      else
        var pn := (b - a) * (b + a - 1) / 2;
        SemiprimeGroups(n, a, b, l, bound);
        var s := QuotientTerms(n, a, b, sieveSize, l, bound).value;
        Ok(s - pn)
  }

  /** The term pi(N div l[a]) of P(2, N, ...) for a < pi(isqrt(N)): its argument is at
      least 1, below N, and the list still reaches its square root. */
  lemma QuotientTermBounds(n: int, a: int, l: seq<int>, bound: int)
    requires n >= 1 && l == PrimesUpTo(bound) && Isqrt(n) <= bound
    requires 0 <= a < Pi(Isqrt(n))
    ensures a < |l| && l[a] >= 2
    ensures 1 <= n / l[a] < n && Isqrt(n / l[a]) <= bound
  {
    var r := Isqrt(n);
    PrimesUpToLength(bound);
    PiMonotone(r, bound);
    PrimeIndex(bound, a);
    var p := l[a];
    PiExceeds(p, r);
    assert p <= r;
    IsqrtAtMost(n);
    QuotientBounds(n, p, r);
    IsqrtMonotone(n / p, n);
  }

  /** For a divisor candidate 2 <= p <= isqrt(N), N div p lies in [1, N). */
  lemma QuotientBounds(n: int, p: int, r: int)
    requires n >= 1 && r == Isqrt(n) && 2 <= p <= r
    ensures 1 <= n / p < n
  {
    MulMonotone(p, r);
    assert p * p <= n;
    assert p <= n;
    MulDivExact(p, 1);
    DivMonotone(p, n, p);
    DivBelow(n, p);
  }

  /** sum(pi_generic(N // l[i-1]) for i in range(a+1, b+1)). */
  function QuotientTerms(n: int, a: int, b: int, sieveSize: Option<int>, l: seq<int>, bound: int): (r: Result<int>)
    requires n >= 1 && l == PrimesUpTo(bound) && Isqrt(n) <= bound
    requires 0 <= a && b <= Pi(Isqrt(n))
    ensures Positive(l) && b <= |l|
    ensures r == Ok(PrimeQuotientCount(n, a, b, l))
    decreases n, 1, b - a
  {
    PrimesUpToDistinctPrimes(bound);
    PrimesUpToLength(bound);
    PiMonotone(Isqrt(n), bound);
    if a >= b then Ok(0)
    else
      QuotientTermBounds(n, a, l, bound);
      var t := PiGeneric(n / l[a], sieveSize, Some(l), bound).value;
      var rest := QuotientTerms(n, a + 1, b, sieveSize, l, bound).value;
      Ok(t + rest)
  }

  /** pi_lucy_hedgehog(N): the table S over V starts at v - 1; for p = 2..isqrt(N), when
      S[p] > S[p - 1] (p is prime), each v >= p * p loses S[v div p] - S[p - 1]; the answer
      is S[N]. Every lookup of a key outside V is a KeyError, which happens exactly when
      N div isqrt(N) != isqrt(N) (and for N == 0). */
  method PiLucyHedgehog(n: int) returns (res: Result<int>)
    ensures n < 0 ==> res == Err(MathDomain)
    ensures n >= 0 ==> (res.Ok? <==> LucyApplies(n))
    ensures res.Ok? ==> res.value == Pi(n)
    ensures n >= 0 && res.Err? ==> res.error == MissingKey
  {
    if n < 0 {
      return Err(MathDomain);
    }
    var r := Isqrt(n);
    var keys := PiKeys(n);
    var s := map v | v in keys :: v - 1;
    assert r >= 1 ==> n >= 1 by {
      if r >= 1 {
        MulAtLeast(r, r);
      }
    }
    PiKeysSmall(n);
    if n >= 1 {
      PiKeysDescending(n);
      InitialCounts(s, keys);
      if LucyApplies(n) {
        KeysPassesSucceed(n);
      } else if r >= 2 {
        KeysPassFails(n);
      } else {
        KeysLackN(n);
      }
    }
    var ok;
    s, ok := SieveRounds(s, keys, r, 0);
    if !ok {
      return Err(MissingKey);
    }
    if n !in s {
      return Err(MissingKey);
    }
    LucyCountsPrimes(n, if r >= 1 then r else 1);
    return Ok(s[n]);
  }
}
