/** Sieve-backed prime utilities (primes/primes_utils.py). */
module PrimesUtils {
  import opened Wrappers
  import opened Arith
  import opened Primality
  import opened Sieve

  /** check_prime(num): fails above the sieve size and below 0; 1 is not prime; otherwise
      the answer is smallest_prime_factor(num) == num, which also makes 0 "prime". */
  function CheckPrime(num: int, ps: PrimeSieve): (r: Result<bool>)
    reads ps.sieve
    requires ps.Valid()
    ensures num > ps.size ==> r == Err(SieveBound)
    ensures num < 0 ==> r == Err(NegativeArgument)
    ensures 0 <= num <= ps.size ==> r == Ok(num == 0 || IsPrime(num))
  {
    if num > ps.size then Err(SieveBound)
    else if num < 0 then Err(NegativeArgument)
    else if num == 1 then Ok(false)
    else
      PrimeIffSpf(num);
      Ok(ps.SmallestPrimeFactor(num).value == num)
  }

  lemma EvenNotPrime(x: int)
    requires x > 2 && x % 2 == 0
    ensures !IsPrime(x)
  {}

  /** Passing an odd i >= 3 adds i to the primes seen, if it is prime, and nothing for i + 1. */
  lemma PrimesUpToOddStep(i: int)
    requires i >= 3 && i % 2 == 1
    ensures PrimesUpTo(i + 1) == PrimesUpTo(i - 1) + (if IsPrime(i) then [i] else [])
  {
    EvenNotPrime(i + 1);
  }

  /** The largest odd number <= x. */
  function OddAtMost(x: int): int
  {
    if x % 2 == 1 then x else x - 1
  }

  /** What prime_list(upto=x) returns on a sieve of the given size: x == 0 is falsy and falls
      into the count branch with no count (TypeError); otherwise the primes <= x, unless
      some odd candidate 3 <= i <= x lies above the sieve size. */
  function PrimeListUpTo(size: int, x: int): (r: Result<seq<int>>)
    ensures x == 0 ==> r == Err(TypeMismatch)
    ensures x != 0 && x <= size ==> r == Ok(PrimesUpTo(x))
    ensures r.Err? && x != 0 ==> r.error == SieveBound && 3 <= x && size < x
    ensures r.Ok? ==> r.value == PrimesUpTo(x)
  {
    if x == 0 then Err(TypeMismatch)
    else if OddAtMost(x) >= 3 && OddAtMost(x) > size then Err(SieveBound)
    else Ok(PrimesUpTo(x))
  }

  /** What prime_list(n=k) returns on a sieve of the given size: the first k primes,
      provided the k-th prime (k >= 2) lies within the sieve. */
  function PrimeListCount(size: int, k: int): (r: Result<seq<int>>)
    ensures r.Err? <==> k >= 2 && Pi(size) < k
    ensures r.Err? ==> r.error == SieveBound
    ensures r.Ok? ==> |r.value| == (if k < 0 then 0 else k) && StrictlyIncreasing(r.value)
    ensures r.Ok? && k >= 1 ==> r.value == PrimesUpTo(r.value[k - 1]) && IsPrime(r.value[k - 1])
  {
    if k <= 0 then Ok([])
    else if k == 1 then
      assert PrimesUpTo(1) == [] && PrimesUpTo(2) == [2];
      Ok([2])
    else if Pi(size) >= k then
      FirstPrimes(size, k);
      Ok(PrimesUpTo(size)[..k])
    else Err(SieveBound)
  }

  /** With at least k >= 2 primes up to size, the first k of them are k increasing primes
      with none skipped. */
  lemma FirstPrimes(size: int, k: int)
    requires k >= 2 && Pi(size) >= k
    ensures |PrimesUpTo(size)| >= k
    ensures var s := PrimesUpTo(size)[..k];
      StrictlyIncreasing(s) && s == PrimesUpTo(s[k - 1]) && IsPrime(s[k - 1])
  {
    var all := PrimesUpTo(size);
    PrimesUpToSpec(size);
    PrimeIndex(size, k - 1);
    var q := all[k - 1];
    assert q <= size by { assert q in all; }
    PrimesUpToPrefix(q, size);
    PrimesUpToLength(q);
  }

  /** prime_list(upto=..., n=...): precisely one of the two must be supplied. */
  method PrimeList(ps: PrimeSieve, upto: Option<int>, n: Option<int>) returns (res: Result<seq<int>>)
    requires ps.Valid()
    ensures upto.Some? == n.Some? ==> res == Err(ArgumentMismatch)
    ensures upto.Some? && n.None? ==> res == PrimeListUpTo(ps.size, upto.value)
    ensures upto.None? && n.Some? ==> res == PrimeListCount(ps.size, n.value)
  {
    if upto.Some? == n.Some? {
      return Err(ArgumentMismatch);
    }
    if upto.Some? && upto.value != 0 {
      res := CollectUpTo(ps, upto.value);
    } else if n.None? {
      res := Err(TypeMismatch);
    } else {
      res := CollectCount(ps, n.value);
    }
  }

  /** The upto branch of prime_list: 2, then every odd prime up to x. */
  method CollectUpTo(ps: PrimeSieve, x: int) returns (res: Result<seq<int>>)
    requires ps.Valid() && x != 0
    ensures res == PrimeListUpTo(ps.size, x)
  {
    var list: seq<int> := [];
    if x >= 2 {
      list := list + [2];
    }
    var i := 3;
    while i <= x
      invariant UpToLoop(x, ps.size, i, list)
    {
      var c := CheckPrime(i, ps);
      if c.Err? {
        UpToFails(x, ps.size, i, list);
        return Err(c.error);
      }
      UpToStep(x, ps.size, i, list);
      if c.value {
        list := list + [i];
      }
      i := i + 2;
    }
    UpToDone(x, ps.size, i, list);
    return Ok(list);
  }

  /** The invariant of the upto loop: i runs over the odd numbers from 3, the candidates
      so far were within the sieve, and the list holds the primes below i. */
  predicate UpToLoop(x: int, size: int, i: int, list: seq<int>)
  {
    i >= 3 && i % 2 == 1 && (i == 3 || i - 2 <= size) && (i <= x + 2 || i == 3) &&
    (x >= 2 ==> list == PrimesUpTo(i - 1)) && (x < 2 ==> list == [] && i == 3)
  }

  lemma UpToStep(x: int, size: int, i: int, list: seq<int>)
    requires UpToLoop(x, size, i, list) && i <= x && i <= size
    ensures UpToLoop(x, size, i + 2, list + if IsPrime(i) then [i] else [])
  {
    PrimesUpToOddStep(i);
  }

  /** A candidate beyond the sieve: some odd 3 <= i <= x exceeds the size. */
  lemma UpToFails(x: int, size: int, i: int, list: seq<int>)
    requires UpToLoop(x, size, i, list) && i <= x && i > size
    ensures PrimeListUpTo(size, x) == Err(SieveBound)
  {}

  lemma UpToDone(x: int, size: int, i: int, list: seq<int>)
    requires UpToLoop(x, size, i, list) && i > x && x != 0
    ensures PrimeListUpTo(size, x) == Ok(list)
  {
    if x >= 2 && i - 1 > x {
      EvenNotPrime(x + 1);
      assert PrimesUpTo(x + 1) == PrimesUpTo(x);
    }
    if x < 2 {
      assert PrimesUpTo(x) == [];
    }
    assert OddAtMost(x) >= 3 ==> OddAtMost(x) == i - 2;
  }

  /** The count branch of prime_list: 2, then odd primes until k have been collected. */
  method CollectCount(ps: PrimeSieve, k: int) returns (res: Result<seq<int>>)
    requires ps.Valid()
    ensures res == PrimeListCount(ps.size, k)
  {
    var list: seq<int> := [];
    if k >= 1 {
      list := [2];
    }
    var i := 3;
    while |list| < k
      invariant CountLoop(k, ps.size, i, list)
      decreases ps.size + 3 - i
    {
      var c := CheckPrime(i, ps);
      if c.Err? {
        CountFails(k, ps.size, i, list);
        return Err(c.error);
      }
      CountStep(k, ps.size, i, list);
      if c.value {
        list := list + [i];
      }
      i := i + 2;
    }
    CountDone(k, ps.size, i, list);
    return Ok(list);
  }

  /** The invariant of the count loop: i runs over the odd numbers from 3 within reach of
      the sieve, and the list holds the primes below i, at most k of them. */
  predicate CountLoop(k: int, size: int, i: int, list: seq<int>)
  {
    i >= 3 && i % 2 == 1 && (i == 3 || i - 2 <= size) &&
    (k >= 1 ==> list == PrimesUpTo(i - 1) && |list| <= k) &&
    (k < 1 ==> list == []) && (k == 1 ==> i == 3)
  }

  lemma CountStep(k: int, size: int, i: int, list: seq<int>)
    requires CountLoop(k, size, i, list) && |list| < k && i <= size
    ensures CountLoop(k, size, i + 2, list + if IsPrime(i) then [i] else [])
  {
    PrimesUpToOddStep(i);
    PrimesUpToLength(i - 1);
    PrimesUpToLength(i + 1);
  }

  /** A candidate beyond the sieve before k primes are found: the sieve holds fewer. */
  lemma CountFails(k: int, size: int, i: int, list: seq<int>)
    requires CountLoop(k, size, i, list) && |list| < k && i > size
    ensures PrimeListCount(size, k) == Err(SieveBound)
  {
    PrimesUpToLength(i - 1);
    PiMonotone(size, i - 1);
  }

  lemma CountDone(k: int, size: int, i: int, list: seq<int>)
    requires CountLoop(k, size, i, list) && |list| >= k
    ensures PrimeListCount(size, k) == Ok(list)
  {
    if k >= 2 {
      PrimesUpToLength(i - 1);
      assert Pi(i - 1) == k;
      if i - 1 <= size {
        PiMonotone(i - 1, size);
        PrimesUpToPrefix(i - 1, size);
      } else {
        assert i > 3 by { assert PrimesUpTo(2) == [2]; }
        EvenNotPrime(i - 1);
        assert PrimesUpTo(i - 1) == PrimesUpTo(size);
        PrimesUpToLength(size);
      }
      assert Pi(size) >= k && PrimesUpTo(size)[..k] == list;
    } else if k == 1 {
      assert PrimesUpTo(2) == [2];
    }
  }

  /** next_prime(p): 3 for p == 2; otherwise the least odd prime >= p (p itself when it is an
      odd prime), failing once the odd candidates leave the sieve or start below 0. */
  method NextPrime(p: int, ps: PrimeSieve) returns (res: Result<int>)
    requires ps.Valid()
    ensures p == 2 ==> res == Ok(3)
    ensures res.Ok? ==> IsPrime(res.value) && res.value % 2 == 1 && res.value >= p
    ensures res.Ok? && p != 2 ==> forall q :: p <= q < res.value && q % 2 == 1 ==> !IsPrime(q)
    ensures res.Err? <==> p != 2 && (p < 0 || NoOddPrimeIn(p, ps.size))
    ensures res.Err? ==> res.error == (if p < 0 then NegativeArgument else SieveBound)
  {
    if p == 2 {
      assert IsPrime(3);
      return Ok(3);
    }
    var q := if p % 2 == 0 then p + 1 else p;
    res := NextOddFrom(p, q, ps);
  }

  /** The search loop of next_prime, from the odd start candidate q0 on. */
  method NextOddFrom(p: int, q0: int, ps: PrimeSieve) returns (res: Result<int>)
    requires ps.Valid() && NextLoop(p, q0)
    ensures res.Ok? ==> IsPrime(res.value) && res.value % 2 == 1 && res.value >= p
    ensures res.Ok? ==> forall q :: p <= q < res.value && q % 2 == 1 ==> !IsPrime(q)
    ensures res.Err? <==> p < 0 || NoOddPrimeIn(p, ps.size)
    ensures res.Err? ==> res.error == (if p < 0 then NegativeArgument else SieveBound)
  {
    var q := q0;
    while true
      invariant NextLoop(p, q)
      decreases ps.size + 2 - q
    {
      var c := CheckPrime(q, ps);
      if c.Err? {
        if p >= 0 {
          NextFails(p, ps.size, q);
        }
        return Err(c.error);
      }
      if c.value {
        NextFound(p, ps.size, q);
        return Ok(q);
      }
      NextStep(p, q);
      q := q + 2;
    }
  }

  /** No odd prime lies in [p, size]. */
  predicate NoOddPrimeIn(p: int, size: int)
  {
    forall q :: p <= q <= size && q % 2 == 1 ==> !IsPrime(q)
  }

  /** The invariant of next_prime's loop: q is odd, on the same side of 0 as p, and no
      odd number in [p, q) is prime. */
  predicate NextLoop(p: int, q: int)
  {
    q % 2 == 1 && p <= q && (p >= 0 ==> q >= 0) && (p < 0 ==> q < 0) &&
    forall t :: p <= t < q && t % 2 == 1 ==> !IsPrime(t)
  }

  lemma NextFails(p: int, size: int, q: int)
    requires NextLoop(p, q) && p >= 0 && q > size
    ensures NoOddPrimeIn(p, size)
  {}

  lemma NextFound(p: int, size: int, q: int)
    requires NextLoop(p, q) && (q == 0 || IsPrime(q)) && q <= size
    ensures IsPrime(q) && !NoOddPrimeIn(p, size)
  {}

  lemma NextStep(p: int, q: int)
    requires NextLoop(p, q) && q >= 0 && !IsPrime(q)
    ensures NextLoop(p, q + 2)
  {}

  /** nth_prime(n): the n-th prime, found by counting odd primes from 3 upwards; any n other
      than 1 whose prime is not within the sieve fails (n <= 0 never stops counting). */
  method NthPrime(n: int, ps: PrimeSieve) returns (res: Result<int>)
    requires ps.Valid()
    ensures res.Ok? <==> n == 1 || (n >= 2 && Pi(ps.size) >= n)
    ensures res.Ok? ==> IsPrime(res.value) && Pi(res.value) == n
    ensures res.Ok? && n >= 2 ==> res.value <= ps.size
    ensures res.Err? ==> res.error == SieveBound
  {
    if n == 1 {
      assert IsPrime(2);
      return Ok(2);
    }
    var i := 1;
    var d := 3;
    while true
      invariant NthLoop(n, ps.size, i, d)
      decreases ps.size + 3 - d
    {
      var c := CheckPrime(d, ps);
      if c.Err? {
        NthFails(n, ps.size, i, d);
        return Err(c.error);
      }
      NthStep(n, ps.size, i, d);
      if c.value {
        i := i + 1;
        if i == n {
          PiMonotone(d, ps.size);
          return Ok(d);
        }
      }
      d := d + 2;
    }
  }

  /** The invariant of nth_prime's loop: d runs over the odd numbers from 3 within reach of
      the sieve and i counts the primes below d, fewer than n. */
  predicate NthLoop(n: int, size: int, i: int, d: int)
  {
    d >= 3 && d % 2 == 1 && (d == 3 || d - 2 <= size) && i == Pi(d - 1) && (n >= 2 ==> i < n)
  }

  lemma NthStep(n: int, size: int, i: int, d: int)
    requires NthLoop(n, size, i, d) && d <= size
    ensures Pi(d) == (if IsPrime(d) then i + 1 else i)
    ensures (IsPrime(d) ==> i + 1 != n) ==> NthLoop(n, size, if IsPrime(d) then i + 1 else i, d + 2)
  {
    var j := if IsPrime(d) then i + 1 else i;
    assert Pi(d) == j;
    EvenNotPrime(d + 1);
    assert Pi(d + 1) == j;
    assert (d + 2) % 2 == 1;
  }

  lemma NthFails(n: int, size: int, i: int, d: int)
    requires NthLoop(n, size, i, d) && d > size && n != 1
    ensures !(n >= 2 && Pi(size) >= n)
  {
    PiMonotone(size, d - 1);
  }

  /** nth_prime agrees with prime_list: the n-th prime is entry n - 1 of the first k primes. */
  lemma NthPrimeInPrimeList(size: int, k: int, n: int, q: int)
    requires PrimeListCount(size, k).Ok? && 1 <= n <= k
    requires IsPrime(q) && Pi(q) == n
    ensures var s := PrimeListCount(size, k).value; n - 1 < |s| && s[n - 1] == q
  {
    var s := PrimeListCount(size, k).value;
    var m := s[k - 1];
    PrimesUpToSpec(m);
    PrimeIndex(m, n - 1);
    PiInjective(s[n - 1], q);
  }
}
