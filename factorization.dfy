/** Prime factorisation (primes/factorization.py): a factorisation is a list of
    (prime, exponent) pairs in increasing order of the prime. */
module Factorization {
  import opened Wrappers
  import opened Arith
  import opened Primality
  import opened Sieve
  import opened PrimesUtils

  type Factors = seq<(int, nat)>

  lemma QuotientPositive(n: int, p: int)
    requires n >= 1 && p >= 2 && n % p == 0
    ensures 1 <= n / p < n
  {
    DivExact(n, p);
    MulCancel(p, 0, n / p);
    DivBelow(n, p);
  }

  /** How many times p divides n. */
  function Multiplicity(n: int, p: int): nat
    requires n >= 1 && p >= 2
    decreases n
  {
    if n % p == 0 then QuotientPositive(n, p); 1 + Multiplicity(n / p, p) else 0
  }

  /** What is left of n once every factor p is divided out. */
  function Cofactor(n: int, p: int): (r: int)
    requires n >= 1 && p >= 2
    ensures 1 <= r <= n && (n % p == 0 ==> r <= n / p)
    decreases n
  {
    if n % p == 0 then QuotientPositive(n, p); Cofactor(n / p, p) else n
  }

  /** n is the cofactor times p to the multiplicity, and the cofactor is free of p. */
  lemma {:induction false} CofactorProduct(n: int, p: int)
    requires n >= 1 && p >= 2
    ensures n == Cofactor(n, p) * Pow(p, Multiplicity(n, p))
    ensures Cofactor(n, p) % p != 0
    decreases n
  {
    if n % p == 0 {
      QuotientPositive(n, p);
      var q := n / p;
      CofactorProduct(q, p);
      var c := Cofactor(q, p);
      var k := Multiplicity(q, p);
      DivExact(n, p);
      assert Pow(p, k + 1) == p * Pow(p, k);
      MulSwap(p, c, Pow(p, k));
    }
  }

  /** Dividing out the smallest prime factor leaves something smaller. */
  lemma CofactorBelow(n: int)
    requires n >= 2
    ensures 1 <= Cofactor(n, Spf(n)) < n
  {
    QuotientPositive(n, Spf(n));
  }

  /** The reference factorisation: the smallest prime factor with its exponent, then the
      factorisation of the cofactor. Numbers below 2 have none. */
  function Factorization(n: int): Factors
    decreases n
  {
    if n < 2 then []
    else
      var p := Spf(n);
      CofactorBelow(n);
      [(p, Multiplicity(n, p))] + Factorization(Cofactor(n, p))
  }

  /** The product of p^e over the pairs (revert_factorization in the tests). */
  function Expand(f: Factors): int
  {
    if f == [] then 1 else Pow(f[0].0, f[0].1) * Expand(f[1..])
  }

  /** The sum of the exponents. */
  function TotalPower(f: Factors): nat
  {
    if f == [] then 0 else f[0].1 + TotalPower(f[1..])
  }

  /** The exponent recorded for q (0 when q does not occur). */
  function Exponent(f: Factors, q: int): nat
  {
    if f == [] then 0 else (if f[0].0 == q then f[0].1 else 0) + Exponent(f[1..], q)
  }

  /** Prime bases with positive exponents, strictly increasing. */
  predicate IsPrimeFactorization(f: Factors)
  {
    (forall i :: 0 <= i < |f| ==> IsPrime(f[i].0) && f[i].1 >= 1) &&
    (forall i, j :: 0 <= i < j < |f| ==> f[i].0 < f[j].0)
  }

  /** Every prime factor of the cofactor exceeds the smallest prime factor of n. */
  lemma CofactorSpf(n: int)
    requires n >= 2
    ensures var r := Cofactor(n, Spf(n)); r >= 2 ==> Spf(r) > Spf(n)
  {
    var p := Spf(n);
    var r := Cofactor(n, p);
    CofactorProduct(n, p);
    if r >= 2 {
      var k := Pow(p, Multiplicity(n, p));
      PowPositive(p, Multiplicity(n, p));
      MulDivExact(r, k);
      DividesTrans(Spf(r), r, n);
      SpfLeast(n, Spf(r));
    }
  }

  lemma ConsFactorization(p: int, m: nat, g: Factors)
    requires IsPrime(p) && m >= 1 && IsPrimeFactorization(g)
    requires g != [] ==> g[0].0 > p
    ensures IsPrimeFactorization([(p, m)] + g)
  {
    var f := [(p, m)] + g;
    forall i, j | 0 <= i < j < |f|
      ensures f[i].0 < f[j].0
    {
      if i == 0 && j > 1 {
        assert g[0].0 < g[j - 1].0;
      }
    }
  }

  /** The factorisation consists of primes with exponents >= 1 in increasing order,
      starting from the smallest prime factor. */
  lemma {:induction false} FactorizationWellFormed(n: int)
    ensures IsPrimeFactorization(Factorization(n))
    ensures n >= 2 ==> Factorization(n) != [] && Factorization(n)[0].0 == Spf(n)
    decreases n
  {
    if n >= 2 {
      var p := Spf(n);
      var r := Cofactor(n, p);
      CofactorBelow(n);
      FactorizationWellFormed(r);
      CofactorSpf(n);
      SpfIsPrime(n);
      ConsFactorization(p, Multiplicity(n, p), Factorization(r));
    }
  }

  lemma ExpandCons(p: int, m: nat, g: Factors)
    ensures Expand([(p, m)] + g) == Pow(p, m) * Expand(g)
  {
    assert ([(p, m)] + g)[1..] == g;
  }

  /** Multiplying the factorisation back out gives n. */
  lemma {:induction false} FactorizationProduct(n: int)
    requires n >= 1
    ensures Expand(Factorization(n)) == n
    decreases n
  {
    if n >= 2 {
      var p := Spf(n);
      var m := Multiplicity(n, p);
      var r := Cofactor(n, p);
      CofactorBelow(n);
      FactorizationProduct(r);
      CofactorProduct(n, p);
      ExpandCons(p, m, Factorization(r));
      MulCommutes(r, Pow(p, m));
    }
  }

  /** Multiplicities add up on multiplication. */
  lemma {:induction false} MultiplicityProduct(a: int, b: int, q: int)
    requires a >= 1 && b >= 1 && IsPrime(q)
    ensures a * b >= 1 && Multiplicity(a * b, q) == Multiplicity(a, q) + Multiplicity(b, q)
    decreases a + b
  {
    MulAtLeast(a, b);
    if a % q == 0 {
      QuotientPositive(a, q);
      var c := a / q;
      DivExact(a, q);
      assert a * b == q * (c * b);
      MulDivExact(q, c * b);
      MultiplicityProduct(c, b, q);
    } else if b % q == 0 {
      QuotientPositive(b, q);
      var c := b / q;
      DivExact(b, q);
      assert a * b == q * (a * c);
      MulDivExact(q, a * c);
      MultiplicityProduct(a, c, q);
    } else if (a * b) % q == 0 {
      Euclid(q, a, b);
    }
  }

  lemma {:induction false} MultiplicityOfPower(p: int, m: nat)
    requires p >= 2
    ensures Pow(p, m) >= 1 && Multiplicity(Pow(p, m), p) == m
  {
    PowPositive(p, m);
    if m > 0 {
      MultiplicityOfPower(p, m - 1);
      MulDivExact(p, Pow(p, m - 1));
    }
  }

  lemma {:induction false} MultiplicityOfOtherPrime(p: int, m: nat, q: int)
    requires IsPrime(p) && IsPrime(q) && p != q
    ensures Pow(p, m) >= 1 && Multiplicity(Pow(p, m), q) == 0
  {
    PowPositive(p, m);
    if m > 0 {
      MultiplicityOfOtherPrime(p, m - 1, q);
      PrimeNotDivisible(p, q);
      if Pow(p, m) % q == 0 {
        Euclid(q, p, Pow(p, m - 1));
      }
    }
  }

  /** The exponent the factorisation records for a prime q is the multiplicity of q in n;
      so the factorisation is the unique one. */
  lemma {:induction false} FactorizationExponent(n: int, q: int)
    requires n >= 1 && IsPrime(q)
    ensures Exponent(Factorization(n), q) == Multiplicity(n, q)
    decreases n
  {
    if n >= 2 {
      var p := Spf(n);
      var m := Multiplicity(n, p);
      var r := Cofactor(n, p);
      CofactorBelow(n);
      var f := Factorization(n);
      assert f[1..] == Factorization(r);
      FactorizationExponent(r, q);
      CofactorProduct(n, p);
      PowPositive(p, m);
      MultiplicityProduct(r, Pow(p, m), q);
      if p == q {
        MultiplicityOfPower(p, m);
      } else {
        SpfIsPrime(n);
        MultiplicityOfOtherPrime(p, m, q);
      }
    }
  }

  /** The exponents of a * b are the sums of those of a and of b. */
  lemma ExponentsAddOnMultiplication(a: int, b: int, q: int)
    requires a >= 1 && b >= 1 && IsPrime(q)
    ensures Exponent(Factorization(a * b), q) ==
      Exponent(Factorization(a), q) + Exponent(Factorization(b), q)
  {
    MultiplicityProduct(a, b, q);
    FactorizationExponent(a, q);
    FactorizationExponent(b, q);
    FactorizationExponent(a * b, q);
  }

  /** A prime factors as itself to the first power. */
  lemma PrimeFactorization(p: int)
    requires IsPrime(p)
    ensures Factorization(p) == [(p, 1)]
  {
    PrimeIffSpf(p);
    MulDivExact(p, 1);
    assert Multiplicity(p, p) == 1 + Multiplicity(1, p);
    assert Cofactor(p, p) == Cofactor(1, p);
  }

  /** For n >= 2 the exponents sum to 1 exactly when n is prime, and to at least 1 always. */
  lemma TotalPowerOne(n: int)
    requires n >= 2
    ensures TotalPower(Factorization(n)) >= 1
    ensures TotalPower(Factorization(n)) == 1 <==> IsPrime(n)
  {
    var p := Spf(n);
    var r := Cofactor(n, p);
    var f := Factorization(n);
    assert f[1..] == Factorization(r);
    if IsPrime(n) {
      PrimeFactorization(n);
    } else if TotalPower(f) == 1 {
      CofactorProduct(n, p);
      SpfIsPrime(n);
    }
  }

  /** A product of two numbers >= 2 has total power > 1. */
  lemma CompositeTotalPower(a: int, b: int)
    requires a >= 2 && b >= 2
    ensures TotalPower(Factorization(a * b)) > 1
  {
    MulAtLeast(a, b);
    MulDivExact(a, b);
    assert a * b > a by { MulCancel(a, 1, b); }
    assert !IsPrime(a * b);
    TotalPowerOne(a * b);
  }

  /** What is left of n after dividing out every prime factor <= bound. */
  function RoughPart(n: int, bound: int): int
    decreases n
  {
    if n < 2 || Spf(n) > bound then n else CofactorBelow(n); RoughPart(Cofactor(n, Spf(n)), bound)
  }

  /** The rough part divides n and has no prime factor <= bound. */
  lemma {:induction false} RoughPartSpec(n: int, bound: int)
    requires n >= 1
    ensures var r := RoughPart(n, bound);
      1 <= r <= n && n % r == 0 && (r >= 2 ==> Spf(r) > bound)
    decreases n
  {
    if n >= 2 && Spf(n) <= bound {
      var p := Spf(n);
      var c := Cofactor(n, p);
      CofactorBelow(n);
      RoughPartSpec(c, bound);
      var r := RoughPart(c, bound);
      CofactorProduct(n, p);
      PowPositive(p, Multiplicity(n, p));
      MulDivExact(c, Pow(p, Multiplicity(n, p)));
      DividesTrans(r, c, n);
    } else {
      MulDivExact(n, 1);
    }
  }

  /** Dividing out every factor d of x (the inner while loops of both paths). */
  method DivideOut(x: int, d: int) returns (rest: int, power: nat)
    requires x >= 1 && d >= 2
    ensures rest == Cofactor(x, d) && power == Multiplicity(x, d)
  {
    rest := x;
    power := 0;
    while rest % d == 0
      invariant rest >= 1
      invariant Cofactor(rest, d) == Cofactor(x, d)
      invariant power + Multiplicity(rest, d) == Multiplicity(x, d)
      decreases rest
    {
      QuotientPositive(rest, d);
      rest := rest / d;
      power := power + 1;
    }
  }

  /** When d divides x and no prime below d does, d is the smallest prime factor and
      the factorisation of x starts with d. */
  lemma FactorizationSplit(x: int, d: int)
    requires x >= 2 && d >= 2 && x % d == 0 && Spf(x) >= d
    ensures Spf(x) == d && IsPrime(d)
    ensures Factorization(x) == [(d, Multiplicity(x, d))] + Factorization(Cofactor(x, d))
    ensures Cofactor(x, d) >= 2 ==> Spf(Cofactor(x, d)) > d
  {
    SpfLeast(x, d);
    SpfIsPrime(x);
    CofactorSpf(x);
  }

  /** The next trial divisor after d in 2, 3, 5, 7, ... */
  function NextCandidate(d: int): (r: int)
    ensures d >= 2 && (d == 2 || d % 2 == 1) ==> r > d && r >= 3 && r % 2 == 1
  {
    if d == 2 then 3 else ModAddMultiple(d, 2, 1); d + 2
  }

  /** A smallest prime factor above d is at least the next trial divisor. */
  lemma SkipToNextCandidate(x: int, d: int)
    requires x >= 2 && d >= 2 && (d == 2 || d % 2 == 1) && Spf(x) > d
    ensures Spf(x) >= NextCandidate(d)
  {
    SpfIsPrime(x);
    if d > 2 {
      EvenNotPrime(d + 1);
    }
  }

  /** Dividing the trial divisor d out of n, whose prime factors are all >= d: the pair it
      contributes to the factorisation, and a cofactor whose prime factors exceed d. */
  method DivideStep(n: int, d: int) returns (rest: int, found: Factors)
    requires n >= 1 && d >= 2 && (n == 1 || Spf(n) >= d)
    ensures rest == Cofactor(n, d) && found + Factorization(rest) == Factorization(n)
    ensures rest == 1 || Spf(rest) > d
    ensures found == if n % d == 0 then [(d, Multiplicity(n, d))] else []
  {
    var power;
    rest, power := DivideOut(n, d);
    if power > 0 {
      FactorizationSplit(n, d);
      found := [(d, power)];
    } else {
      found := [];
    }
  }

  /** Appending the pairs found for n to the pairs so far keeps them a prefix of num's
      factorisation (with a, b, c the factorisations of the cofactor, n and num). */
  lemma FactorsExtend(pf: Factors, found: Factors, a: Factors, b: Factors, c: Factors)
    requires pf + b == c && found + a == b
    ensures (pf + found) + a == c
  {
    assert (pf + found) + a == pf + (found + a);
  }

  lemma SpfSquareOrPrime(n: int)
    requires n >= 2
    ensures IsPrime(n) || Spf(n) * Spf(n) <= n
  {
    if !IsPrime(n) {
      CompositeSpf(n);
    }
  }

  lemma RootBound(s: int, m: int)
    requires s >= 0 && m >= 0
    ensures s * s <= m ==> s <= Isqrt(m)
  {
    if s * s <= m {
      SquareAtMostIsqrt(s, m);
    }
  }

  /** A number whose smallest prime factor exceeds isqrt(m), for some m >= it, is prime. */
  lemma PrimeAboveRoot(n: int, m: int)
    requires 2 <= n <= m && Spf(n) > Isqrt(m)
    ensures IsPrime(n) && Factorization(n) == [(n, 1)]
  {
    SpfSquareOrPrime(n);
    RootBound(Spf(n), m);
    PrimeFactorization(n);
  }

  /** get_prime_factorization_no_sieve(num): strip 2, then trial-divide by the odd numbers
      up to the square root of what is left after the 2s, and append any remaining cofactor
      as a prime. */
  method GetPrimeFactorizationNoSieve(num: int) returns (pf: Factors)
    ensures pf == Factorization(num)
  {
    if num < 2 {
      return [];
    }
    var n;
    n, pf := DivideStep(num, 2);
    if n >= 2 {
      SkipToNextCandidate(n, 2);
    }
    var m := n;
    var bound := Isqrt(m);
    var d := 3;
    while d <= bound
      invariant d >= 3 && d % 2 == 1
      invariant 1 <= n <= m
      invariant n == 1 || Spf(n) >= d
      invariant pf + Factorization(n) == Factorization(num)
    {
      var rest, found := DivideStep(n, d);
      FactorsExtend(pf, found, Factorization(rest), Factorization(n), Factorization(num));
      if rest >= 2 {
        SkipToNextCandidate(rest, d);
      }
      pf := pf + found;
      n := rest;
      d := d + 2;
    }
    if n != 1 {
      PrimeAboveRoot(n, m);
      pf := pf + [(n, 1)];
    }
  }

  /** prime_factors_generator(num, sieve) fails when trial division reaches a divisor beyond
      the sieve while the cofactor is still above the sieve size, or when num indexes below
      the start of the sieve. */
  predicate GeneratorFails(num: int, size: int)
  {
    (num > size && RoughPart(num, size) > size) || num < -(size + 1)
  }

  /** prime_factors_generator(num, sieve), with everything it yields collected. */
  method PrimeFactorsGenerator(num: int, ps: PrimeSieve) returns (res: Result<Factors>)
    requires ps.Valid()
    ensures res.Err? <==> GeneratorFails(num, ps.size)
    ensures res.Err? ==> res.error == (if num < 0 then IndexOutOfRange else SieveBound)
    ensures res.Ok? ==> res.value == Factorization(num)
  {
    var trial := TrialDivision(num, ps);
    if trial.Err? {
      return Err(trial.error);
    }
    var (x, out) := trial.value;
    var first := ps.SmallestPrimeFactor(x);
    if first.Err? {
      return Err(first.error);
    }
    var rest := FactorBySpf(x, first.value, ps);
    return Ok(out + rest);
  }

  /** The first loop of prime_factors_generator: trial division by 2, 3, 5, 7, ... while the
      cofactor exceeds the sieve size; every trial divisor is checked against the sieve. */
  method TrialDivision(num: int, ps: PrimeSieve) returns (res: Result<(int, Factors)>)
    requires ps.Valid()
    ensures res.Err? <==> num > ps.size && RoughPart(num, ps.size) > ps.size
    ensures res.Err? ==> res.error == SieveBound
    ensures res.Ok? ==> var (x, out) := res.value;
      x <= ps.size && out + Factorization(x) == Factorization(num) &&
      (num <= ps.size ==> x == num) && (num > ps.size ==> x >= 1)
  {
    var x := num;
    var out: Factors := [];
    var d := 2;
    while true
      invariant TrialLoop(num, ps.size, x, out, d)
      decreases ps.size + 2 - d
    {
      if x <= ps.size {
        break;
      }
      var c := CheckPrime(d, ps);
      if c.Err? {
        TrialFails(num, ps.size, x, out, d);
        return Err(c.error);
      }
      x, out := TrialStep(num, ps.size, x, out, d, c.value);
      d := NextCandidate(d);
    }
    TrialDone(num, ps.size, x, out, d);
    return Ok((x, out));
  }

  /** The invariant of the trial-division loop: d runs over 2, 3, 5, 7, ... within reach of
      the sieve, x keeps num's rough part and the pairs so far complete x's factorisation
      to num's. */
  predicate TrialLoop(num: int, size: int, x: int, out: Factors, d: int)
  {
    (d == 2 || (d >= 3 && d % 2 == 1)) && (d == 2 || d - 2 <= size) &&
    (num > size ==> x >= 1 && RoughPart(x, size) == RoughPart(num, size)) &&
    (num <= size ==> x == num && d == 2) &&
    (x < 2 || Spf(x) >= d) &&
    out + Factorization(x) == Factorization(num)
  }

  /** One trial divisor d <= size, with the sieve's verdict on it: a prime dividing x is
      divided out and recorded. */
  method TrialStep(num: int, size: int, x: int, out: Factors, d: int, prime: bool)
    returns (x': int, out': Factors)
    requires TrialLoop(num, size, x, out, d) && size >= 0 && x > size && d <= size
    requires prime == IsPrime(d)
    ensures TrialLoop(num, size, x', out', NextCandidate(d))
  {
    if prime && x % d == 0 {
      SpfLeast(x, d);
      var rest, found := DivideStep(x, d);
      FactorsExtend(out, found, Factorization(rest), Factorization(x), Factorization(num));
      if rest >= 2 {
        SkipToNextCandidate(rest, d);
      }
      x', out' := rest, out + found;
    } else {
      if x >= 2 {
        SpfIsPrime(x);
        SkipToNextCandidate(x, d);
      }
      x', out' := x, out;
    }
  }

  /** A trial divisor beyond the sieve while x is still above it: num's rough part is above
      the sieve too. */
  lemma TrialFails(num: int, size: int, x: int, out: Factors, d: int)
    requires TrialLoop(num, size, x, out, d) && size >= 0 && x > size && d > size
    ensures num > size && RoughPart(num, size) > size
  {}

  lemma TrialDone(num: int, size: int, x: int, out: Factors, d: int)
    requires TrialLoop(num, size, x, out, d) && size >= 0 && x <= size
    ensures !(num > size && RoughPart(num, size) > size)
    ensures (num <= size ==> x == num) && (num > size ==> x >= 1)
  {
    if num > size {
      RoughPartSpec(x, size);
    }
  }

  /** The second loop of prime_factors_generator: group the cofactor's smallest prime
      factors, read off the sieve, until it reaches 1. */
  method FactorBySpf(x0: int, spf0: int, ps: PrimeSieve) returns (out: Factors)
    requires ps.Valid() && x0 <= ps.size && (x0 > 1 ==> spf0 == Spf(x0))
    ensures out == Factorization(x0)
  {
    var x := x0;
    var spf := spf0;
    out := [];
    while x > 1
      invariant x <= ps.size
      invariant x > 1 ==> spf == Spf(x)
      invariant out + Factorization(x) == Factorization(x0)
      decreases x
    {
      var factorPrime := spf;
      var rest, factorPower;
      rest, factorPower, spf := GroupSpf(x, spf, ps);
      CofactorBelow(x);
      FactorsExtend(out, [(factorPrime, factorPower)], Factorization(rest), Factorization(x), Factorization(x0));
      out := out + [(factorPrime, factorPower)];
      x := rest;
    }
  }

  /** The inner loop: divide x by its smallest prime factor while the sieve still reports
      that factor, counting the divisions; it stops with the cofactor and its own entry. */
  method GroupSpf(x0: int, spf0: int, ps: PrimeSieve) returns (x: int, power: nat, spf: int)
    requires ps.Valid() && 2 <= x0 <= ps.size && spf0 == Spf(x0)
    ensures x == Cofactor(x0, spf0) && power == Multiplicity(x0, spf0)
    ensures x > 1 ==> spf == Spf(x)
  {
    var p := spf0;
    x, power, spf := x0, 0, spf0;
    while spf == p
      invariant 1 <= x <= x0
      invariant spf == Spf(x)
      invariant x == 1 || Spf(x) >= p
      invariant Cofactor(x, p) == Cofactor(x0, p)
      invariant power + Multiplicity(x, p) == Multiplicity(x0, p)
      decreases x
    {
      SpfDividesCofactor(x, p);
      QuotientPositive(x, p);
      x := x / p;
      power := power + 1;
      spf := ps.SmallestPrimeFactor(x).value;
    }
    if x >= 2 {
      SpfDividedBy(x, p);
    }
  }

  lemma SpfDividedBy(n: int, d: int)
    requires n >= 2 && d >= 2
    ensures n % d == 0 ==> Spf(n) <= d
  {
    if n % d == 0 {
      SpfLeast(n, d);
    }
  }

  lemma SpfDividesCofactor(x: int, p: int)
    requires x >= 1 && p >= 2 && Spf(x) == p
    ensures x >= 2 && x % p == 0
    ensures x / p >= 2 ==> Spf(x / p) >= p
  {
    if x / p >= 2 {
      var y := x / p;
      DivExact(x, p);
      MulDivExact(y, p);
      DividesTrans(Spf(y), y, x);
      SpfLeast(x, Spf(y));
    }
  }

  /** get_prime_factors(num, sieve): the sieve-backed generator when a sieve is given,
      trial division otherwise. */
  method GetPrimeFactors(num: int, ps: PrimeSieve?) returns (res: Result<Factors>)
    requires ps != null ==> ps.Valid()
    ensures ps == null ==> res == Ok(Factorization(num))
    ensures ps != null ==> (res.Err? <==> GeneratorFails(num, ps.size))
    ensures res.Ok? ==> res.value == Factorization(num)
  {
    if ps != null {
      res := PrimeFactorsGenerator(num, ps);
    } else {
      var pf := GetPrimeFactorizationNoSieve(num);
      res := Ok(pf);
    }
  }
}
