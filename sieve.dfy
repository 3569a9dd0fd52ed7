/** The smallest-prime-factor sieve (primes/primeSieve.py). */
module Sieve {
  import opened Wrappers
  import opened Arith
  import opened Primality

  /** What make_sieve stores for x: 0 for 0, 1 and the primes, otherwise the
      smallest prime factor of x. */
  function SieveEntry(x: int): int
  {
    if x < 2 || IsPrime(x) then 0 else Spf(x)
  }

  /** The table after the outer loop has handled every d < bound: composites whose
      smallest prime factor is below bound are marked with it. */
  function MarkedBelow(x: int, bound: int): int
  {
    if x >= 2 && Spf(x) < bound && Spf(x) != x then Spf(x) else 0
  }

  /** The table during the inner loop for d, with the multiples of d below m visited. */
  function MarkedDuring(x: int, d: int, m: int): int
    requires d >= 1
  {
    if x % d == 0 && 2 * d <= x < m && MarkedBelow(x, d) == 0 then d else MarkedBelow(x, d)
  }

  /** Visiting the multiple m of d changes the inner-loop table at m only. */
  lemma VisitMultiple(d: int, m: int)
    requires d >= 2 && m % d == 0 && 2 * d <= m
    ensures forall x :: x != m ==> MarkedDuring(x, d, m + d) == MarkedDuring(x, d, m)
    ensures MarkedDuring(m, d, m) == MarkedBelow(m, d)
    ensures MarkedDuring(m, d, m + d) == if MarkedBelow(m, d) == 0 then d else MarkedBelow(m, d)
  {
    forall x | x != m
      ensures MarkedDuring(x, d, m + d) == MarkedDuring(x, d, m)
    {
      if m < x < m + d {
        DivModUnique(x, d, m / d, x - m);
      }
    }
  }

  lemma MarkedBelowComplete(x: int, upto: int)
    requires 0 <= x <= upto
    ensures MarkedBelow(x, Isqrt(upto) + 1) == SieveEntry(x)
  {
    PrimeIffSpf(x);
    if x >= 2 && !IsPrime(x) {
      CompositeSpf(x);
      SquareAtMostIsqrt(Spf(x), x);
      IsqrtMonotone(x, upto);
    }
  }

  class PrimeSieve {
    const size: nat
    const sieve: array<int>

    /** The table holds make_sieve(size). */
    ghost predicate Valid()
      reads sieve
    {
      sieve.Length == size + 1 && forall x :: 0 <= x <= size ==> sieve[x] == SieveEntry(x)
    }

    /** PrimeSieve(size): builds the table for 0..size. */
    constructor (size: nat)
      ensures this.size == size && Valid()
    {
      this.size := size;
      var table := MakeSieve(size);
      this.sieve := table;
    }

    /** make_sieve: a list of upto+1 entries, entry x is 0 when x is 0, 1 or prime, and
        the smallest prime factor of x otherwise. */
    static method MakeSieve(upto: nat) returns (table: array<int>)
      ensures fresh(table) && table.Length == upto + 1
      ensures forall x :: 0 <= x <= upto ==> table[x] == SieveEntry(x)
    {
      table := new int[upto + 1](_ => 0);
      var r := Isqrt(upto);
      IsqrtAtMost(upto);
      var d := 2;
      while d <= r
        invariant 2 <= d && (d <= r + 1 || d == 2)
        invariant table.Length == upto + 1
        invariant forall x :: 0 <= x <= upto ==> table[x] == MarkedBelow(x, d)
      {
        if table[d] != 0 {
          // d is composite (already marked): no number has it as smallest prime factor
          SkipRound(table[..], d);
        } else {
          MarkMultiples(table, d);
        }
        d := d + 1;
      }
      forall x | 0 <= x <= upto
        ensures table[x] == SieveEntry(x)
      {
        MarkedBelowComplete(x, upto);
      }
    }

    /** smallest_prime_factor(x): fails for x > size (x >= len(sieve)); returns the entry,
        or x itself when the entry is 0. Negative x indexes from the end, as Python does. */
    function SmallestPrimeFactor(x: int): (r: Result<int>)
      reads sieve
      requires Valid()
      ensures x > size ==> r == Err(SieveBound)
      ensures 0 <= x <= size ==> r == Ok(Spf(x))
      ensures x < -(size + 1) ==> r == Err(IndexOutOfRange)
      ensures -(size + 1) <= x < 0 ==>
        r == Ok(if SieveEntry(x + size + 1) == 0 then x else SieveEntry(x + size + 1))
    {
      if x >= sieve.Length then Err(SieveBound)
      else if x < -sieve.Length then Err(IndexOutOfRange)
      else
        var a := if x >= 0 then sieve[x] else sieve[sieve.Length + x];
        PrimeIffSpf(x);
        Ok(if a == 0 then x else a)
    }
  }

  /** A marked d is composite, so no number has it as its smallest prime factor. */
  lemma SkipComposite(x: int, d: int)
    requires 2 <= d && MarkedBelow(d, d) != 0
    ensures MarkedBelow(x, d + 1) == MarkedBelow(x, d)
  {
    if x >= 2 && Spf(x) == d {
      SpfIsPrime(x);
      PrimeIffSpf(d);
    }
  }

  /** A number whose smallest prime factor is d but which is not d itself is a
      multiple of d of at least 2d. */
  lemma ProperMultiple(x: int, d: int)
    requires x >= 2 && Spf(x) == d && x != d
    ensures x % d == 0 && 2 * d <= x
  {
    var k := x / d;
    DivExact(x, d);
    assert k >= 2 by {
      MulBounds(d, k);
    }
    MulNonNegative(d, k - 2);
    MulDistributes(d, k - 2, 2);
  }

  /** A multiple x >= 2d of d that is still unmarked has smallest prime factor d. */
  lemma UnmarkedMultiple(x: int, d: int)
    requires d >= 2 && x % d == 0 && 2 * d <= x && MarkedBelow(x, d) == 0
    ensures Spf(x) == d && Spf(x) != x
  {
    SpfLeast(x, d);
  }

  /** A round with a composite d leaves the table as it is. */
  lemma SkipRound(t: seq<int>, d: int)
    requires 2 <= d < |t| && t[d] != 0
    requires forall x :: 0 <= x < |t| ==> t[x] == MarkedBelow(x, d)
    ensures forall x :: 0 <= x < |t| ==> t[x] == MarkedBelow(x, d + 1)
  {
    forall x | 0 <= x < |t|
      ensures MarkedBelow(x, d + 1) == MarkedBelow(x, d)
    {
      SkipComposite(x, d);
    }
  }

  /** The inner loop for a prime d: for m in range(2d, upto + 1, d), an unmarked m gets d.
      One pass turns MarkedBelow(., d) into MarkedBelow(., d + 1). */
  method MarkMultiples(table: array<int>, d: int)
    modifies table
    requires 2 <= d < table.Length
    requires forall x :: 0 <= x < table.Length ==> table[x] == MarkedBelow(x, d)
    ensures forall x :: 0 <= x < table.Length ==> table[x] == MarkedBelow(x, d + 1)
  {
    var m := 2 * d;
    MulDivExact(d, 2);
    while m < table.Length
      invariant d <= m && m % d == 0 && 2 * d <= m
      invariant forall x :: 0 <= x < table.Length ==> table[x] == MarkedDuring(x, d, m)
    {
      VisitMultiple(d, m);
      if table[m] == 0 {
        table[m] := d;
      }
      ModAddMultiple(m, d, 1);
      m := m + d;
    }
    forall x | 0 <= x < table.Length
      ensures table[x] == MarkedBelow(x, d + 1)
    {
      MarkStep(x, d, m);
    }
  }

  lemma MarkStep(x: int, d: int, m: int)
    requires 2 <= d && 0 <= x < m
    ensures MarkedDuring(x, d, m) == MarkedBelow(x, d + 1)
  {
    if x >= 2 && Spf(x) == d && Spf(x) != x {
      ProperMultiple(x, d);
    } else if x % d == 0 && 2 * d <= x && MarkedBelow(x, d) == 0 {
      UnmarkedMultiple(x, d);
    }
  }

  /** For 2 <= x <= size the sieve answers with a prime divisor of x, and with x itself
      exactly when x is prime. */
  lemma SmallestPrimeFactorSpec(ps: PrimeSieve, x: int)
    requires ps.Valid() && 2 <= x <= ps.size
    ensures ps.SmallestPrimeFactor(x).Ok?
    ensures var f := ps.SmallestPrimeFactor(x).value;
      IsPrime(f) && x % f == 0 && (f == x <==> IsPrime(x))
  {
    SpfIsPrime(x);
    PrimeIffSpf(x);
  }
}
