/** Rough numbers (no prime factor <= c) and semiprimes: what the sums of
    primes/pi_computations.py count, and the identities behind the formulas of
    Legendre and Meissel. */
module RoughNumbers {
  import opened Arith
  import opened Primality
  import opened InclusionExclusion

  function PrimeIndicator(): int -> int
  {
    x => if IsPrime(x) then 1 else 0
  }

  lemma {:induction false} PiIsSum(n: int)
    ensures Pi(n) == Sum(n, PrimeIndicator())
    decreases n
  {
    if n >= 1 {
      PiIsSum(n - 1);
    }
  }

  /** Counting the primes in (m, n]: pi(n) - pi(m). */
  lemma PrimesAbove(m: int, n: int, f: int -> int)
    requires m <= n
    requires forall x :: 1 <= x <= n ==> f(x) == if IsPrime(x) && x > m then 1 else 0
    ensures Sum(n, f) == Pi(n) - Pi(m)
  {
    SumTail(m, n, PrimeIndicator(), f);
    PiIsSum(n);
    PiIsSum(m);
  }

  /** x >= 2 has no prime factor <= c. */
  predicate Rough(x: int, c: int)
  {
    x >= 2 && Spf(x) > c
  }

  function RoughIndicator(c: int): int -> int
  {
    x => if Rough(x, c) then 1 else 0
  }

  /** The number of x in 2..n with no prime factor <= c. */
  function RoughCount(n: int, c: int): int
  {
    Sum(n, RoughIndicator(c))
  }

  /** x >= 1 is divisible by no prime <= c exactly when it is 1 or rough. */
  lemma FreeOfPrimesUpTo(x: int, c: int)
    requires x >= 1
    ensures FreeOf(x, PrimesUpTo(c)) <==> x == 1 || Rough(x, c)
  {
    var l := PrimesUpTo(c);
    PrimesUpToMembers(c);
    if x >= 2 && Spf(x) <= c {
      SpfIsPrime(x);
      assert Spf(x) in l;
      var i :| 0 <= i < |l| && l[i] == Spf(x);
      assert x % l[i] == 0;
    } else {
      forall i | 0 <= i < |l| && l[i] != 0
        ensures x % l[i] != 0
      {
        assert l[i] in l;
      }
    }
  }

  /** Sieving 1..n by the primes <= c leaves 1 and the rough numbers. */
  lemma PhiOfPrimesUpTo(n: int, c: int)
    requires n >= 1
    ensures Phi(n, PrimesUpTo(c)) == 1 + RoughCount(n, c)
  {
    var one := (x: int) => if x == 1 then 1 else 0;
    forall x | 1 <= x <= n
      ensures FreeIndicator(PrimesUpTo(c))(x) == one(x) + RoughIndicator(c)(x)
    {
      FreeOfPrimesUpTo(x, c);
    }
    SumAdd(n, one, RoughIndicator(c), FreeIndicator(PrimesUpTo(c)));
    SumConstantAbove(1, n, one);
  }

  /** A composite x <= n has a prime factor <= isqrt(n). */
  lemma CompositeSpfBelowRoot(x: int, n: int)
    requires 2 <= x <= n && !IsPrime(x)
    ensures Spf(x) <= Isqrt(n)
  {
    CompositeSpf(x);
    SquareAtMostIsqrt(Spf(x), n);
  }

  /** Above the square root the rough numbers are the primes. */
  lemma RoughAboveRoot(n: int, c: int)
    requires 0 <= n && Isqrt(n) <= c <= n
    ensures RoughCount(n, c) == Pi(n) - Pi(c)
  {
    forall x | 1 <= x <= n
      ensures RoughIndicator(c)(x) == if IsPrime(x) && x > c then 1 else 0
    {
      PrimeIffSpf(x);
      if x >= 2 && !IsPrime(x) {
        CompositeSpfBelowRoot(x, n);
      }
    }
    PrimesAbove(c, n, RoughIndicator(c));
  }

  /** Legendre's formula: pi(n) = a + phi(n, a) - 1 with a = pi(isqrt(n)), where phi(n, a)
      counts the x in 1..n divisible by none of the first a primes. */
  lemma LegendreIdentity(n: int)
    requires n >= 1
    ensures Pi(Isqrt(n)) + Phi(n, PrimesUpTo(Isqrt(n))) - 1 == Pi(n)
  {
    var r := Isqrt(n);
    if n >= 2 {
      IsqrtBelow(n);
    }
    PhiOfPrimesUpTo(n, r);
    RoughAboveRoot(n, r);
  }

  /** x is the product of exactly two primes (possibly equal). */
  predicate Semiprime(x: int)
  {
    x >= 2 && !IsPrime(x) && IsPrime(x / Spf(x))
  }

  function SemiprimeIndicator(a: int): int -> int
  {
    x => if Semiprime(x) && Pi(Spf(x)) > a then 1 else 0
  }

  /** The number of x <= n that are products p_i * p_j of two primes with a < i <= j,
      the quantity P(2, n, a) stands for. */
  function SemiprimeCount(n: int, a: int): int
  {
    Sum(n, SemiprimeIndicator(a))
  }

  /** A divisor y >= 2 of x has no prime factor below spf(x). */
  lemma SpfOfDivisor(x: int, y: int)
    requires x >= 2 && y >= 2 && x % y == 0
    ensures Spf(y) >= Spf(x)
  {
    DividesTrans(Spf(y), y, x);
    SpfLeast(x, Spf(y));
  }

  /** The cofactor of a composite x is at least spf(x). */
  lemma CofactorAtLeastSpf(x: int)
    requires x >= 2 && !IsPrime(x)
    ensures x == Spf(x) * (x / Spf(x)) && x / Spf(x) >= Spf(x) && x % (x / Spf(x)) == 0
  {
    var p := Spf(x);
    var y := x / p;
    CompositeSpf(x);
    if y < p {
      MulCancel(p, y, p);
    }
    MulDivExact(y, p);
  }

  lemma CubeBelow(p: int, y: int)
    requires p >= 0 && p * p <= y
    ensures p * p * p <= p * y
  {
    MulAssociate(p, p, p);
  }

  /** x = p * y with p = spf(x) > c and x <= n < (c+1)^3: the cofactor y is prime. */
  lemma CofactorPrime(x: int, n: int, c: int)
    requires 2 <= x <= n < (c + 1) * (c + 1) * (c + 1) && c >= 0
    requires !IsPrime(x) && Spf(x) > c
    ensures IsPrime(x / Spf(x))
  {
    var p := Spf(x);
    var y := x / p;
    CofactorAtLeastSpf(x);
    if !IsPrime(y) {
      var q := Spf(y);
      CompositeSpf(y);
      SpfOfDivisor(x, y);
      MulMonotone(p, q);
      CubeBelow(p, y);
      CubeMonotone(c + 1, p);
    }
  }

  /** Below the cube, a rough number is a prime or a semiprime. */
  lemma RoughBelowCube(n: int, c: int)
    requires 0 <= c <= n < (c + 1) * (c + 1) * (c + 1)
    ensures RoughCount(n, c) == Pi(n) - Pi(c) + SemiprimeCount(n, Pi(c))
  {
    var primes := (x: int) => if IsPrime(x) && x > c then 1 else 0;
    var semi := SemiprimeIndicator(Pi(c));
    forall x | 1 <= x <= n
      ensures RoughIndicator(c)(x) == primes(x) + semi(x)
    {
      PrimeIffSpf(x);
      if x >= 2 {
        SpfIsPrime(x);
        PiExceeds(Spf(x), c);
        if !IsPrime(x) && Spf(x) > c {
          CofactorPrime(x, n, c);
        }
      }
    }
    SumAdd(n, primes, semi, RoughIndicator(c));
    PrimesAbove(c, n, primes);
  }

  /** Meissel's formula: pi(n) = phi(n, c) - P2(n, c) + c - 1 with c = pi(icbrt(n)). */
  lemma MeisselIdentity(n: int)
    requires n >= 1
    ensures Phi(n, PrimesUpTo(Icbrt(n))) - SemiprimeCount(n, Pi(Icbrt(n))) + Pi(Icbrt(n)) - 1 == Pi(n)
  {
    var c := Icbrt(n);
    if n >= 2 {
      IcbrtBelow(n);
    }
    PhiOfPrimesUpTo(n, c);
    RoughBelowCube(n, c);
  }

  /** The smaller factor of a semiprime <= n is at most isqrt(n), so past pi(isqrt(n))
      there is nothing to count. */
  lemma SemiprimeCountVanishes(n: int, a: int)
    requires n >= 0 && a >= Pi(Isqrt(n))
    ensures SemiprimeCount(n, a) == 0
  {
    forall x | 1 <= x <= n
      ensures SemiprimeIndicator(a)(x) == 0
    {
      if Semiprime(x) {
        CompositeSpfBelowRoot(x, n);
        PiMonotone(Spf(x), Isqrt(n));
      }
    }
    SumZero(n, SemiprimeIndicator(a));
  }

  function SmallFactorIndicator(p: int): int -> int
  {
    x => if Semiprime(x) && Spf(x) == p then 1 else 0
  }

  /** Raising the index bound from a to a+1 drops the semiprimes whose smaller factor is
      the (a+1)-th prime p. */
  lemma SemiprimeSplit(n: int, a: int, p: int)
    requires IsPrime(p) && Pi(p) == a + 1
    ensures SemiprimeCount(n, a) == SemiprimeCount(n, a + 1) + Sum(n, SmallFactorIndicator(p))
  {
    forall x | 1 <= x <= n
      ensures SemiprimeIndicator(a)(x) ==
        SemiprimeIndicator(a + 1)(x) + SmallFactorIndicator(p)(x)
    {
      if Semiprime(x) {
        SpfIsPrime(x);
        if Pi(Spf(x)) == a + 1 {
          PiInjective(Spf(x), p);
        }
      }
    }
    SumAdd(n, SemiprimeIndicator(a + 1), SmallFactorIndicator(p), SemiprimeIndicator(a));
  }

  /** x = p * y is a semiprime with smaller factor p exactly when y is a prime >= p. */
  lemma SmallFactorOfMultiple(p: int, y: int)
    requires IsPrime(p) && y >= 1
    ensures SmallFactorIndicator(p)(p * y) == if IsPrime(y) && y > p - 1 then 1 else 0
  {
    var x := p * y;
    if y == 1 {
      assert x == p;
    } else {
      SpfOfMultiple(p, y);
      MulDivExact(p, y);
      assert x % p == 0 && p < x by { MulAtLeast(p, y - 1); MulDistributes(p, y - 1, 1); }
      assert !IsPrime(x);
      PrimeIffSpf(y);
      if Spf(y) >= p {
        assert Spf(x) == p && x / Spf(x) == y;
      } else {
        assert Spf(x) != p && !(IsPrime(y) && y > p - 1);
      }
    }
  }

  /** The semiprimes <= n with smaller factor p are p * q for the primes p <= q <= n div p. */
  lemma SmallFactorCount(n: int, p: int)
    requires IsPrime(p) && p * p <= n
    ensures Sum(n, SmallFactorIndicator(p)) == Pi(n / p) - Pi(p - 1)
  {
    var g := (y: int) => if IsPrime(y) && y > p - 1 then 1 else 0;
    forall x | 1 <= x <= n
      ensures SmallFactorIndicator(p)(x) == if x % p == 0 then g(x / p) else 0
    {
      if x % p == 0 {
        var y := x / p;
        DivExact(x, p);
        assert y >= 1 by {
          if y < 1 {
            MulCancel(p, y, 1);
          }
        }
        SmallFactorOfMultiple(p, y);
      }
    }
    SumMultiples(n, p, SmallFactorIndicator(p), g);
    MulDivExact(p, p);
    DivMonotone(p * p, n, p);
    PrimesAbove(p - 1, n / p, g);
  }

  /** The sum of pi(n div l[i-1]) over a < i <= b. */
  function PrimeQuotientCount(n: int, a: int, b: int, l: seq<int>): int
    requires 0 <= a && b <= |l| && Positive(l)
    decreases b - a
  {
    if a >= b then 0 else Pi(n / l[a]) + PrimeQuotientCount(n, a + 1, b, l)
  }

  /** Lowering the index bound from a + 1 to a adds the semiprimes p * q, p <= q, with p
      the (a+1)-th prime: pi(n div p) - a of them. */
  lemma SemiprimeGroupStep(n: int, a: int, p: int)
    requires IsPrime(p) && Pi(p) == a + 1 && p * p <= n
    ensures SemiprimeCount(n, a) == SemiprimeCount(n, a + 1) + Pi(n / p) - a
  {
    SemiprimeSplit(n, a, p);
    SmallFactorCount(n, p);
    PrimeIffSpf(p);
    assert Pi(p - 1) == a;
  }

  /** With b = pi(isqrt(n)) and l the primes up to a bound >= isqrt(n): the semiprimes
      p_i * p_j with a < i <= j are counted by summing pi(n div p_i) - (i - 1) over a < i <= b. */
  lemma {:induction false} SemiprimeGroups(n: int, a: int, b: int, l: seq<int>, bound: int)
    requires n >= 1 && Isqrt(n) <= bound && l == PrimesUpTo(bound)
    requires b == Pi(Isqrt(n)) && 0 <= a <= b
    ensures Positive(l) && b <= |l|
    ensures SemiprimeCount(n, a) == PrimeQuotientCount(n, a, b, l) - (b - a) * (b + a - 1) / 2
    decreases b - a
  {
    PrimesUpToDistinctPrimes(bound);
    PrimesUpToLength(bound);
    PiMonotone(Isqrt(n), bound);
    if a == b {
      SemiprimeCountVanishes(n, a);
      assert (b - a) * (b + a - 1) == 0;
    } else {
      PrimeIndex(bound, a);
      var p := l[a];
      PiExceeds(p, Isqrt(n));
      MulMonotone(p, Isqrt(n));
      SemiprimeGroupStep(n, a, p);
      SemiprimeGroups(n, a + 1, b, l, bound);
      TriangleStep(a, b);
      var t0 := (b - a) * (b + a - 1) / 2;
      var t1 := (b - (a + 1)) * (b + (a + 1) - 1) / 2;
      var q1 := PrimeQuotientCount(n, a + 1, b, l);
      assert PrimeQuotientCount(n, a, b, l) == Pi(n / p) + q1;
      assert SemiprimeCount(n, a + 1) == q1 - t1;
      assert t0 == t1 + a;
    }
  }
}
