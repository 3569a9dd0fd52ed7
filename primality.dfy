/** Primes, smallest prime factors and the prime-counting function: the
    reference definitions every algorithm of the package is proved against. */
module Primality {
  import opened Arith

  /** n is prime: n >= 2 and no d with 2 <= d < n divides n. */
  predicate IsPrime(n: int)
  {
    n >= 2 && forall d :: 2 <= d < n ==> n % d != 0
  }

  predicate StrictlyIncreasing(s: seq<int>)
  {
    forall i, j :: 0 <= i < j < |s| ==> s[i] < s[j]
  }

  /** The least divisor of n that is at least d. */
  function SpfFrom(n: int, d: int): (r: int)
    requires 2 <= d <= n
    ensures d <= r <= n && n % r == 0
    ensures forall e :: d <= e < r ==> n % e != 0
    decreases n - d
  {
    if n % d == 0 then d else SpfFrom(n, d + 1)
  }

  /** Smallest prime factor of n; for n < 2, by the package's convention, n itself. */
  function Spf(n: int): (r: int)
    ensures n < 2 ==> r == n
    ensures n >= 2 ==> 2 <= r <= n && n % r == 0 && forall e :: 2 <= e < r ==> n % e != 0
  {
    if n < 2 then n else SpfFrom(n, 2)
  }

  lemma SpfLeast(n: int, d: int)
    requires n >= 2 && d >= 2 && n % d == 0
    ensures Spf(n) <= d
  {}

  /** The smallest prime factor is prime. */
  lemma SpfIsPrime(n: int)
    requires n >= 2
    ensures IsPrime(Spf(n))
  {
    var s := Spf(n);
    forall e | 2 <= e < s
      ensures s % e != 0
    {
      if s % e == 0 {
        DividesTrans(e, s, n);
      }
    }
  }

  lemma PrimeIffSpf(n: int)
    ensures IsPrime(n) <==> n >= 2 && Spf(n) == n
  {
    if n >= 2 && !IsPrime(n) {
      var d :| 2 <= d < n && n % d == 0;
      SpfLeast(n, d);
    }
  }

  /** A divisor m >= 2 of a prime is the prime itself. */
  lemma PrimeDivisor(p: int, m: int)
    requires IsPrime(p) && m >= 2 && p % m == 0
    ensures m == p
  {}

  /** No number >= 2 other than p itself divides a prime p. */
  lemma PrimeNotDivisible(p: int, q: int)
    requires IsPrime(p) && q >= 2 && q != p
    ensures p % q != 0
  {
    if p % q == 0 {
      PrimeDivisor(p, q);
    }
  }

  /** A composite n has its smallest prime factor at most sqrt(n). */
  lemma CompositeSpf(n: int)
    requires n >= 2 && !IsPrime(n)
    ensures Spf(n) < n && Spf(n) * Spf(n) <= n
  {
    PrimeIffSpf(n);
    var s := Spf(n);
    var m := n / s;
    DivExact(n, s);
    MulDivExact(m, s);
    assert n % m == 0;
    assert m >= 2;
    SpfLeast(n, m);
    assert s * s <= s * m;
  }

  /** Replacing a by a mod q keeps q | a*b. */
  lemma ReduceMod(q: int, a: int, b: int)
    requires q >= 1 && (a * b) % q == 0
    ensures ((a % q) * b) % q == 0
  {
    var a', t := a % q, a / q;
    assert a == q * t + a';
    assert a * b == a' * b + q * (t * b);
    ModAddMultiple(a' * b, q, t * b);
  }

  /** Replacing a by q mod a keeps q | a*b. */
  lemma ReduceQuotient(q: int, a: int, b: int)
    requires q >= 1 && a >= 1 && (a * b) % q == 0
    ensures ((q % a) * b) % q == 0
  {
    var t, s := q / a, q % a;
    var k := (a * b) / q;
    assert a * b == q * k;
    assert q == a * t + s;
    calc {
      s * b;
      (q - a * t) * b;
      q * b - t * (a * b);
      q * b - t * (q * k);
      q * (b - t * k);
    }
    MulDivExact(q, b - t * k);
  }

  lemma SmallMod(x: int, q: int)
    requires 0 <= x < q
    ensures x % q == x
  {
    DivModUnique(x, q, 0, x);
  }

  /** For a prime q not dividing a >= 1: q divides a*b only if q divides b. */
  lemma {:induction false} EuclidAux(q: int, a: int, b: int)
    requires IsPrime(q) && a >= 1 && a % q != 0 && (a * b) % q == 0
    ensures b % q == 0
    decreases a
  {
    if a == 1 {
      assert a * b == b;
    } else if a > q {
      ReduceMod(q, a, b);
      SmallMod(a % q, q);
      EuclidAux(q, a % q, b);
    } else {
      assert 2 <= a < q;
      ReduceQuotient(q, a, b);
      assert q % a != 0;
      SmallMod(q % a, q);
      EuclidAux(q, q % a, b);
    }
  }

  /** Euclid's lemma: a prime dividing a product divides a factor. */
  lemma Euclid(q: int, a: int, b: int)
    requires IsPrime(q) && a >= 0 && b >= 0 && (a * b) % q == 0
    ensures a % q == 0 || b % q == 0
  {
    if a != 0 && a % q != 0 {
      EuclidAux(q, a, b);
    }
  }

  /** Multiplying by a prime p keeps p as the smallest prime factor exactly when
      every prime factor of y is at least p. */
  lemma SpfOfMultiple(p: int, y: int)
    requires IsPrime(p) && y >= 2
    ensures Spf(p * y) == p <==> Spf(y) >= p
  {
    var x := p * y;
    var s := Spf(x);
    MulDivExact(p, y);
    MulDivExact(y, p);
    assert x % p == 0 && x % y == 0;
    SpfLeast(x, p);
    if Spf(y) >= p {
      SpfIsPrime(x);
      Euclid(s, p, y);
      if p % s == 0 {
        PrimeDivisor(p, s);
      } else {
        assert y % s == 0;
        SpfLeast(y, s);
      }
    } else {
      DividesTrans(Spf(y), y, x);
      SpfLeast(x, Spf(y));
    }
  }

  /** pi(n): the number of primes <= n. */
  function Pi(n: int): nat
    decreases n
  {
    if n < 2 then 0 else Pi(n - 1) + (if IsPrime(n) then 1 else 0)
  }

  /** The sum of the primes <= n. */
  function PrimeSum(n: int): int
    decreases n
  {
    if n < 2 then 0 else PrimeSum(n - 1) + (if IsPrime(n) then n else 0)
  }

  /** The primes <= n, in increasing order. */
  function PrimesUpTo(n: int): seq<int>
    decreases n
  {
    if n < 2 then [] else PrimesUpTo(n - 1) + (if IsPrime(n) then [n] else [])
  }

  function SeqSum(s: seq<int>): int
  {
    if s == [] then 0 else SeqSum(s[..|s| - 1]) + s[|s| - 1]
  }

  /** PrimesUpTo(n) holds pi(n) primes. */
  lemma {:induction false} PrimesUpToLength(n: int)
    ensures |PrimesUpTo(n)| == Pi(n)
    decreases n
  {
    if n >= 2 { PrimesUpToLength(n - 1); }
  }

  /** PrimesUpTo(n) holds exactly the primes <= n. */
  lemma {:induction false} PrimesUpToMembers(n: int)
    ensures forall x :: x in PrimesUpTo(n) <==> IsPrime(x) && x <= n
    decreases n
  {
    if n >= 2 {
      PrimesUpToMembers(n - 1);
      assert forall x :: x in PrimesUpTo(n) <==> x in PrimesUpTo(n - 1) || (x == n && IsPrime(n));
    }
  }

  /** PrimesUpTo(n) is strictly increasing. */
  lemma {:induction false} PrimesUpToIncreasing(n: int)
    ensures StrictlyIncreasing(PrimesUpTo(n))
    decreases n
  {
    if n >= 2 {
      PrimesUpToIncreasing(n - 1);
      if IsPrime(n) {
        var t := PrimesUpTo(n - 1);
        PrimesUpToMembers(n - 1);
        forall i | 0 <= i < |t|
          ensures t[i] < n
        {
          assert t[i] in t;
        }
      }
    }
  }

  /** The elements of PrimesUpTo(n) add up to PrimeSum(n). */
  lemma {:induction false} PrimesUpToSum(n: int)
    ensures SeqSum(PrimesUpTo(n)) == PrimeSum(n)
    decreases n
  {
    if n >= 2 {
      PrimesUpToSum(n - 1);
      if IsPrime(n) {
        var s := PrimesUpTo(n);
        assert s[..|s| - 1] == PrimesUpTo(n - 1);
      } else {
        assert PrimesUpTo(n) == PrimesUpTo(n - 1);
      }
    }
  }

  lemma PrimesUpToSpec(n: int)
    ensures |PrimesUpTo(n)| == Pi(n)
    ensures StrictlyIncreasing(PrimesUpTo(n))
    ensures forall x :: x in PrimesUpTo(n) <==> IsPrime(x) && x <= n
  {
    PrimesUpToLength(n);
    PrimesUpToMembers(n);
    PrimesUpToIncreasing(n);
  }

  lemma {:induction false} PiMonotone(m: int, n: int)
    requires m <= n
    ensures Pi(m) <= Pi(n)
    decreases n - m
  {
    if m < n { PiMonotone(m, n - 1); }
  }

  /** Distinct primes have distinct prime counts. */
  lemma PiInjective(a: int, b: int)
    requires IsPrime(a) && IsPrime(b) && Pi(a) == Pi(b)
    ensures a == b
  {
    if a < b {
      PiMonotone(a, b - 1);
    } else if b < a {
      PiMonotone(b, a - 1);
    }
  }

  lemma PrimesUpToStep(n: int)
    requires n >= 2
    ensures PrimesUpTo(n)[..|PrimesUpTo(n - 1)|] == PrimesUpTo(n - 1)
  {}

  /** The primes up to m are the first pi(m) primes up to n. */
  lemma {:induction false} PrimesUpToPrefix(m: int, n: int)
    requires m <= n
    ensures Pi(m) <= |PrimesUpTo(n)| && PrimesUpTo(n)[..Pi(m)] == PrimesUpTo(m)
    decreases n - m
  {
    PrimesUpToLength(n);
    PrimesUpToLength(m);
    if m < n {
      PrimesUpToPrefix(m, n - 1);
      PrimesUpToLength(n - 1);
      if n >= 2 {
        PrimesUpToStep(n);
        var k := Pi(m);
        var t := PrimesUpTo(n - 1);
        assert k <= |t|;
        assert PrimesUpTo(n)[..k] == PrimesUpTo(n)[..|t|][..k];
      }
    }
  }

  /** The i-th prime (0-based) in PrimesUpTo(n) has exactly i primes below it. */
  lemma {:induction false} PrimeIndex(n: int, i: int)
    requires 0 <= i < |PrimesUpTo(n)|
    ensures IsPrime(PrimesUpTo(n)[i]) && Pi(PrimesUpTo(n)[i]) == i + 1
    ensures Pi(PrimesUpTo(n)[i] - 1) == i
    decreases n
  {
    PrimesUpToSpec(n);
    var s := PrimesUpTo(n);
    assert s[i] in s;
    if n >= 2 {
      PrimesUpToSpec(n - 1);
      if i < |PrimesUpTo(n - 1)| {
        assert s[i] == PrimesUpTo(n - 1)[i];
        PrimeIndex(n - 1, i);
      } else {
        assert s[i] == n && IsPrime(n);
        assert Pi(n - 1) == i;
      }
    }
  }

  /** A prime p lies above c exactly when it adds to the count beyond pi(c). */
  lemma PiExceeds(p: int, c: int)
    requires IsPrime(p)
    ensures Pi(p) > Pi(c) <==> p > c
  {
    if p > c {
      PiMonotone(c, p - 1);
    } else {
      PiMonotone(p, c);
    }
  }
}
