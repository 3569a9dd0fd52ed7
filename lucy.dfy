/** The sieve of Lucy_Hedgehog, shared by pi_lucy_hedgehog (primes/pi_computations.py,
    counting primes, k = 0) and lucy_Hedgehog_method (primes/prime_sums.py, summing
    primes, k = 1). Its table S maps every key v in V = {N div i} to a running sum
    over 2..v; sieving with the prime p removes the x whose smallest prime factor is p. */
module LucySieve {
  import opened Arith
  import opened Primality
  import opened RoughNumbers

  /** x is still counted after sieving with the primes <= p: x >= 2 is a prime or has no
      prime factor <= p. */
  predicate Survives(x: int, p: int)
  {
    x >= 2 && (IsPrime(x) || Spf(x) > p)
  }

  function SurvivorTerm(p: int, k: nat): int -> int
  {
    x => if Survives(x, p) then Pow(x, k) else 0
  }

  /** The value the table holds at v after the pass with p: the sum of x^k over the
      x in 2..v that survive the primes <= p. */
  function LucySum(v: int, p: int, k: nat): int
  {
    Sum(v, SurvivorTerm(p, k))
  }

  function PrimeTerm(k: nat): int -> int
  {
    x => if IsPrime(x) then Pow(x, k) else 0
  }

  /** Before any pass (p = 1) everything in 2..v survives: the table starts at T(v),
      v - 1 for counting and v(v + 1)/2 - 1 for summing. */
  lemma LucyInitial(v: int)
    requires v >= 1
    ensures LucySum(v, 1, 0) == v - 1
    ensures LucySum(v, 1, 1) == v * (v + 1) / 2 - 1
  {
    var ones: int -> int := x => 1;
    var ids: int -> int := x => x;
    SumTail(1, v, ones, SurvivorTerm(1, 0));
    SumOfOnes(v, ones);
    forall x | 1 <= x <= v
      ensures SurvivorTerm(1, 1)(x) == if x > 1 then ids(x) else 0
    {
      assert Pow(x, 1) == x;
    }
    SumTail(1, v, ids, SurvivorTerm(1, 1));
    SumOfNaturals(v, ids);
  }

  /** A pass with a composite p removes nothing: no smallest prime factor is composite. */
  lemma LucyStepComposite(v: int, p: int, k: nat)
    requires p >= 2 && !IsPrime(p)
    ensures LucySum(v, p, k) == LucySum(v, p - 1, k)
  {
    forall x | 1 <= x <= v
      ensures SurvivorTerm(p, k)(x) == SurvivorTerm(p - 1, k)(x)
    {
      if x >= 2 {
        SpfIsPrime(x);
      }
    }
    SumExt(v, SurvivorTerm(p, k), SurvivorTerm(p - 1, k));
  }

  /** Below p * p a pass with p removes nothing: a composite x < p * p has a prime factor < p. */
  lemma LucyStepSmall(v: int, p: int, k: nat)
    requires p >= 2 && v < p * p
    ensures LucySum(v, p, k) == LucySum(v, p - 1, k)
  {
    forall x | 1 <= x <= v
      ensures SurvivorTerm(p, k)(x) == SurvivorTerm(p - 1, k)(x)
    {
      if x >= 2 && !IsPrime(x) {
        CompositeSpf(x);
        SquareBelow(Spf(x), p);
      }
    }
    SumExt(v, SurvivorTerm(p, k), SurvivorTerm(p - 1, k));
  }

  /** The pass with the prime p removes exactly the x = p * y with y >= p surviving p - 1. */
  lemma SurvivorDrop(x: int, p: int)
    requires IsPrime(p)
    ensures Survives(x, p) ==> Survives(x, p - 1)
    ensures Survives(x, p - 1) && !Survives(x, p) <==>
      x % p == 0 && x / p >= p && Survives(x / p, p - 1)
  {
    if x % p == 0 && x / p >= p && Survives(x / p, p - 1) {
      DroppedMultiple(x, p);
    }
    if Survives(x, p - 1) && !Survives(x, p) {
      DroppedIsMultiple(x, p);
    }
  }

  lemma DroppedMultiple(x: int, p: int)
    requires IsPrime(p) && x % p == 0 && x / p >= p && Survives(x / p, p - 1)
    ensures Survives(x, p - 1) && !Survives(x, p)
  {
    var y := x / p;
    DivExact(x, p);
    PrimeIffSpf(y);
    SpfOfMultiple(p, y);
    PrimeIffSpf(x);
  }

  lemma DroppedIsMultiple(x: int, p: int)
    requires IsPrime(p) && Survives(x, p - 1) && !Survives(x, p)
    ensures x % p == 0 && x / p >= p && Survives(x / p, p - 1)
  {
    var y := x / p;
    assert Spf(x) == p && !IsPrime(x);
    assert x == p * y;
    MulDivExact(p, 1);
    DivMonotone(p, x, p);
    assert y != 1;
    SpfOfMultiple(p, y);
  }

  /** y stands for the removed x = p * y: y > p - 1 survives p - 1. */
  function DroppedTerm(p: int, k: nat): int -> int
  {
    y => if y > p - 1 && Survives(y, p - 1) then Pow(p * y, k) else 0
  }

  /** The removed terms, re-indexed by their cofactor y = x div p. */
  lemma RemovedByCofactor(v: int, p: int, k: nat, d: int -> int)
    requires IsPrime(p)
    requires forall x :: 1 <= x <= v ==>
      d(x) == SurvivorTerm(p - 1, k)(x) - SurvivorTerm(p, k)(x)
    ensures Sum(v, d) == Sum(v / p, DroppedTerm(p, k))
  {
    forall x | 1 <= x <= v
      ensures d(x) == if x % p == 0 then DroppedTerm(p, k)(x / p) else 0
    {
      DroppedAt(x, p, k);
    }
    SumMultiples(v, p, d, DroppedTerm(p, k));
  }

  lemma DroppedAt(x: int, p: int, k: nat)
    requires IsPrime(p)
    ensures SurvivorTerm(p - 1, k)(x) - SurvivorTerm(p, k)(x) ==
      if x % p == 0 then DroppedTerm(p, k)(x / p) else 0
  {
    SurvivorDrop(x, p);
    if x % p == 0 {
      DroppedMultipleAt(x, p, k);
    }
  }

  lemma DroppedMultipleAt(x: int, p: int, k: nat)
    requires IsPrime(p) && x % p == 0
    requires Survives(x, p) ==> Survives(x, p - 1)
    requires Survives(x, p - 1) && !Survives(x, p) <==>
      x / p >= p && Survives(x / p, p - 1)
    ensures SurvivorTerm(p - 1, k)(x) - SurvivorTerm(p, k)(x) == DroppedTerm(p, k)(x / p)
  {
    var y := x / p;
    DivExact(x, p);
  }

  /** The survivors of p - 1 above p - 1. */
  function TailTerm(p: int, k: nat): int -> int
  {
    y => if y > p - 1 && Survives(y, p - 1) then Pow(y, k) else 0
  }

  /** The cofactor sum is p^k times the survivors of p - 1 in (p - 1, m]. */
  lemma CofactorSum(m: int, p: int, k: nat)
    requires IsPrime(p) && m >= p
    ensures Sum(m, DroppedTerm(p, k)) == Pow(p, k) * (LucySum(m, p - 1, k) - LucySum(p - 1, p - 1, k))
  {
    forall y | 1 <= y <= m
      ensures DroppedTerm(p, k)(y) == Pow(p, k) * TailTerm(p, k)(y)
    {
      PowMul(p, y, k);
    }
    SumScale(m, Pow(p, k), TailTerm(p, k), DroppedTerm(p, k));
    SumTail(p - 1, m, SurvivorTerm(p - 1, k), TailTerm(p, k));
  }

  /** The removed terms sum to p^k times the survivors of p - 1 in (p - 1, v div p]. */
  lemma RemovedSum(v: int, p: int, k: nat, d: int -> int)
    requires IsPrime(p) && v >= p * p
    requires forall x :: 1 <= x <= v ==>
      d(x) == SurvivorTerm(p - 1, k)(x) - SurvivorTerm(p, k)(x)
    ensures Sum(v, d) == Pow(p, k) * (LucySum(v / p, p - 1, k) - LucySum(p - 1, p - 1, k))
  {
    RemovedByCofactor(v, p, k, d);
    MulDivExact(p, p);
    DivMonotone(p * p, v, p);
    CofactorSum(v / p, p, k);
  }

  /** The update of the pass with the prime p at a key v >= p * p:
      S[v] -= p^k * (S[v div p] - S[p - 1]). */
  lemma LucyStepLarge(v: int, p: int, k: nat)
    requires IsPrime(p) && v >= p * p
    ensures LucySum(v, p, k) ==
      LucySum(v, p - 1, k) - Pow(p, k) * (LucySum(v / p, p - 1, k) - LucySum(p - 1, p - 1, k))
  {
    var d: int -> int := x => SurvivorTerm(p - 1, k)(x) - SurvivorTerm(p, k)(x);
    SumAdd(v, SurvivorTerm(p, k), d, SurvivorTerm(p - 1, k));
    RemovedSum(v, p, k, d);
  }

  /** The test S[p] > S[p - 1] made before the pass with p holds exactly when p is prime. */
  lemma LucyDetects(p: int, k: nat)
    requires p >= 2
    ensures LucySum(p, p - 1, k) > LucySum(p - 1, p - 1, k) <==> IsPrime(p)
  {
    PowPositive(p, k);
    if !IsPrime(p) {
      CompositeSpf(p);
    }
  }

  /** Once every prime up to isqrt(v) has sieved, the survivors up to v are the primes. */
  lemma LucyComplete(v: int, p: int, k: nat)
    requires v >= 0 && Isqrt(v) <= p
    ensures LucySum(v, p, k) == Sum(v, PrimeTerm(k))
  {
    forall x | 1 <= x <= v
      ensures SurvivorTerm(p, k)(x) == PrimeTerm(k)(x)
    {
      if x >= 2 && !IsPrime(x) {
        CompositeSpfBelowRoot(x, v);
      }
    }
    SumExt(v, SurvivorTerm(p, k), PrimeTerm(k));
  }

  /** Counting: the completed table entry is pi(v). */
  lemma LucyCountsPrimes(v: int, p: int)
    requires v >= 0 && Isqrt(v) <= p
    ensures LucySum(v, p, 0) == Pi(v)
  {
    LucyComplete(v, p, 0);
    SumExt(v, PrimeTerm(0), PrimeIndicator());
    PiIsSum(v);
  }

  lemma {:induction false} PrimeSumIsSum(n: int)
    ensures PrimeSum(n) == Sum(n, PrimeTerm(1))
    decreases n
  {
    if n >= 1 {
      PrimeSumIsSum(n - 1);
      assert Pow(n, 1) == n;
    }
  }

  /** Summing: the completed table entry is the sum of the primes <= v. */
  lemma LucySumsPrimes(v: int, p: int)
    requires v >= 0 && Isqrt(v) <= p
    ensures LucySum(v, p, 1) == PrimeSum(v)
  {
    LucyComplete(v, p, 1);
    PrimeSumIsSum(v);
  }

  /** The keys of the table, in the order the source lists them: N div i for
      i = 1..d, then t, t - 1, ..., 1. */
  function LucyKeys(n: int, d: nat, t: nat): (keys: seq<int>)
    ensures |keys| == d + t
    ensures forall i :: 0 <= i < d ==> keys[i] == n / (i + 1)
    ensures forall i :: d <= i < d + t ==> keys[i] == d + t - i
  {
    seq(d, (i: nat) => n / (i + 1)) + Countdown(t)
  }

  /** list(range(t, 0, -1)). */
  function Countdown(t: nat): seq<int>
  {
    seq(t, (i: nat) => t - i)
  }

  /** isqrt(N) - 1, or 0 when isqrt(N) == 0. */
  function RootPred(n: int): nat
    requires n >= 0
  {
    if Isqrt(n) >= 1 then Isqrt(n) - 1 else 0
  }

  /** V of pi_lucy_hedgehog: N div v for v in 1..r - 1, then r down to 1. */
  function PiKeys(n: int): seq<int>
    requires n >= 0
  {
    LucyKeys(n, RootPred(n), Isqrt(n))
  }

  /** V of lucy_Hedgehog_method: N div i for i in 1..r, then r - 1 down to 1. */
  function SumKeys(n: int): seq<int>
    requires n >= 0
  {
    LucyKeys(n, Isqrt(n), RootPred(n))
  }

  predicate Descending(s: seq<int>)
  {
    forall i, j :: 0 <= i < j < |s| ==> s[i] > s[j]
  }

  /** The sieve works precisely when N div isqrt(N) is isqrt(N) itself, i.e. when
      N < isqrt(N) * (isqrt(N) + 1): then every quotient v div p it needs is a key. */
  predicate LucyApplies(n: int)
  {
    n >= 1 && n / Isqrt(n) == Isqrt(n)
  }

  lemma ProductBelowSquare(a: int, r: int)
    requires 1 <= a < r
    ensures a * (a + 1) <= r * r
  {
    MulMonotone(a + 1, r);
  }

  /** The quotient keys all lie above N div r >= r. */
  lemma LargeKeys(n: int, i: int)
    requires n >= 1 && 0 <= i < Isqrt(n) - 1
    ensures n / (i + 1) > n / Isqrt(n) >= Isqrt(n)
  {
    var r := Isqrt(n);
    DivAntitone(n, i + 1, r - 1);
    ProductBelowSquare(r - 1, r);
    DivStrictDescent(n, r - 1);
    MulDivExact(r, r);
    DivMonotone(r * r, n, r);
  }

  /** The quotient keys strictly decrease. */
  lemma LargeKeysDescend(n: int, i: int, j: int)
    requires n >= 1 && 0 <= i < j < Isqrt(n) - 1
    ensures n / (i + 1) > n / (j + 1)
  {
    ProductBelowSquare(i + 1, Isqrt(n));
    DivStrictDescent(n, i + 1);
    DivAntitone(n, i + 2, j + 1);
  }

  /** V of pi_lucy_hedgehog is strictly decreasing and positive. */
  lemma PiKeysDescending(n: int)
    requires n >= 1
    ensures Descending(PiKeys(n))
    ensures forall i :: 0 <= i < |PiKeys(n)| ==> PiKeys(n)[i] >= 1
  {
    var keys := PiKeys(n);
    var d := RootPred(n);
    forall i, j | 0 <= i < j < |keys|
      ensures keys[i] > keys[j]
    {
      if j < d {
        LargeKeysDescend(n, i, j);
      } else if i < d {
        LargeKeys(n, i);
      }
    }
    forall i | 0 <= i < d
      ensures keys[i] >= 1
    {
      LargeKeys(n, i);
    }
  }

  /** 1..t are keys. */
  lemma SmallKeys(n: int, d: nat, t: nat, w: int)
    requires 1 <= w <= t
    ensures w in LucyKeys(n, d, t)
  {
    assert LucyKeys(n, d, t)[d + t - w] == w;
  }

  /** When the sieve applies, the two lists of keys coincide: N div r is r. */
  lemma KeysAgree(n: int)
    requires LucyApplies(n)
    ensures SumKeys(n) == PiKeys(n)
  {
    var a, b := SumKeys(n), PiKeys(n);
    assert |a| == |b|;
    forall i | 0 <= i < |a|
      ensures a[i] == b[i]
    {
    }
  }

  /** When the sieve applies N is a key, and with every key v >= p * p so is v div p. */
  lemma KeysClosed(n: int, p: int)
    requires LucyApplies(n) && p >= 2
    ensures n in PiKeys(n)
    ensures forall i :: 0 <= i < |PiKeys(n)| && PiKeys(n)[i] >= p * p ==> PiKeys(n)[i] / p in PiKeys(n)
  {
    var keys := PiKeys(n);
    var r := Isqrt(n);
    var d := RootPred(n);
    if r >= 2 {
      assert keys[0] == n;
    } else {
      assert keys[0] == 1 == n;
    }
    forall i | 0 <= i < |keys| && keys[i] >= p * p
      ensures keys[i] / p in keys
    {
      var v := keys[i];
      MulDivExact(p, p);
      DivMonotone(p * p, v, p);
      if i < d {
        QuotientKeyClosed(n, i + 1, p);
      } else {
        DivBelow(v, p);
        SmallKeys(n, d, r, v / p);
      }
    }
  }

  lemma QuotientKeyClosed(n: int, j: int, p: int)
    requires LucyApplies(n) && p >= 2 && 1 <= j < Isqrt(n) && n / j / p >= p
    ensures n / j / p in PiKeys(n)
  {
    var r := Isqrt(n);
    var keys := PiKeys(n);
    DivDiv(n, j, p);
    MulAtLeast(j, p);
    if j * p <= r - 1 {
      assert keys[j * p - 1] == n / (j * p);
    } else {
      DivAntitone(n, r, j * p);
      SmallKeys(n, RootPred(n), r, n / j / p);
    }
  }

  /** When the sieve does not apply (and r >= 2), the pass with p = spf(r) reaches the key
      v = N div (r div p) >= p * p, whose quotient v div p = N div r is not a key. */
  lemma KeysMissing(n: int)
    requires n >= 1 && !LucyApplies(n) && Isqrt(n) >= 2
    ensures IsPrime(Spf(Isqrt(n))) && Spf(Isqrt(n)) <= Isqrt(n)
    ensures exists i :: 0 <= i < |PiKeys(n)| && PiKeys(n)[i] >= Spf(Isqrt(n)) * Spf(Isqrt(n)) &&
                        PiKeys(n)[i] / Spf(Isqrt(n)) !in PiKeys(n)
  {
    var r := Isqrt(n);
    var p := Spf(r);
    SpfIsPrime(r);
    var j := r / p;
    ProperQuotient(r, p);
    MissingWitness(n, r, p, j);
    QuotientNotKey(n);
    assert PiKeys(n)[j - 1] / p !in PiKeys(n);
  }

  /** A divisor p >= 2 of r leaves a quotient between 1 and r. */
  lemma ProperQuotient(r: int, p: int)
    requires r >= 2 && p >= 2 && r % p == 0
    ensures r == p * (r / p) && 1 <= r / p < r
  {
    MulDivExact(p, 1);
    DivMonotone(p, r, p);
    DivBelow(r, p);
  }

  lemma MissingWitness(n: int, r: int, p: int, j: int)
    requires n >= 1 && r == Isqrt(n) && p >= 2 && 1 <= j < r && r == p * j
    ensures j - 1 < RootPred(n) && PiKeys(n)[j - 1] == n / j
    ensures n / j >= p * p && n / j / p == n / r
  {
    SquareQuotient(n, p, j);
    DivDiv(n, j, p);
  }

  lemma SquareQuotient(n: int, p: int, j: int)
    requires p >= 1 && j >= 1 && (p * j) * (p * j) <= n
    ensures n / j >= p * p
  {
    var q := p * p;
    var m := j * q;
    assert (p * j) * (p * j) == j * m;
    MulDivExact(j, m);
    DivMonotone(j * m, n, j);
    MulAtLeast(q, j);
  }

  /** When the sieve does not apply, N div r (> r) is not a key. */
  lemma QuotientNotKey(n: int)
    requires n >= 1 && !LucyApplies(n) && Isqrt(n) >= 2
    ensures n / Isqrt(n) !in PiKeys(n)
  {
    var keys := PiKeys(n);
    forall m | 0 <= m < |keys|
      ensures keys[m] != n / Isqrt(n)
    {
      if m < RootPred(n) {
        LargeKeys(n, m);
      } else {
        LargeKeys(n, 0);
      }
    }
  }

  /** 1..isqrt(N) are keys of V. */
  lemma PiKeysSmall(n: int)
    requires n >= 0
    ensures forall w :: 1 <= w <= Isqrt(n) ==> w in PiKeys(n)
  {
    forall w | 1 <= w <= Isqrt(n)
      ensures w in PiKeys(n)
    {
      SmallKeys(n, RootPred(n), Isqrt(n), w);
    }
  }

  /** When the sieve applies every pass succeeds. */
  lemma KeysPassesSucceed(n: int)
    requires LucyApplies(n)
    ensures n in PiKeys(n) && PassesSucceed(PiKeys(n), Isqrt(n))
  {
    KeysClosed(n, 2);
    forall p | 2 <= p <= Isqrt(n) && IsPrime(p)
      ensures PassSucceeds(PiKeys(n), p)
    {
      KeysClosed(n, p);
    }
  }

  /** When it does not (and r >= 2) the pass with spf(r) fails. */
  lemma KeysPassFails(n: int)
    requires n >= 1 && !LucyApplies(n) && Isqrt(n) >= 2
    ensures !PassesSucceed(PiKeys(n), Isqrt(n))
  {
    KeysMissing(n);
    assert !PassSucceeds(PiKeys(n), Spf(Isqrt(n)));
  }

  /** When the sieve does not apply and r < 2 (N = 2, 3), N is not a key. */
  lemma KeysLackN(n: int)
    requires n >= 1 && !LucyApplies(n) && Isqrt(n) < 2
    ensures n !in PiKeys(n)
  {
    assert PiKeys(n) == [1];
  }

  /** One pass of the sieve with the prime p over the keys v >= p * p, in V's decreasing
      order: S[v] -= p^k * (S[v div p] - S[p - 1]). Looking up a key v div p or p - 1 that
      the table lacks is a KeyError (ok == false). */
  method SievePass(s: map<int, int>, keys: seq<int>, p: int, k: nat) returns (s': map<int, int>, ok: bool)
    requires IsPrime(p) && Descending(keys) && SievedTo(keys, s, p - 1, k)
    ensures ok <==> forall i :: 0 <= i < |keys| && keys[i] >= p * p ==> keys[i] / p in s && p - 1 in s
    ensures ok ==> s'.Keys == s.Keys && forall v :: v in s' ==> s'[v] == LucySum(v, p, k)
  {
    s' := s;
    var j := 0;
    while j < |keys| && keys[j] >= p * p
      invariant PassInv(s, s', keys, j, p, k)
    {
      var v := keys[j];
      if v / p !in s' || p - 1 !in s' {
        PassMisses(s, s', keys, j, p, k);
        return s', false;
      }
      s' := PassWrite(s, s', keys, j, p, k);
      j := j + 1;
    }
    PassComplete(s, s', keys, j, p, k);
    PassCovered(s, s', keys, j, p, k);
    ok := true;
  }

  /** The write at key j: S[v] -= p^k * (S[v div p] - S[p - 1]). */
  method PassWrite(s: map<int, int>, s': map<int, int>, keys: seq<int>, j: int, p: int, k: nat)
    returns (next: map<int, int>)
    requires IsPrime(p) && Descending(keys) && PassInv(s, s', keys, j, p, k)
    requires j < |keys| && keys[j] >= p * p && keys[j] / p in s' && p - 1 in s'
    requires SievedTo(keys, s, p - 1, k)
    ensures PassInv(s, next, keys, j + 1, p, k)
  {
    PassReads(s, s', keys, j, p, k);
    next := PassStore(s, s', keys, j, p, k);
  }

  /** The table holds exactly the keys, each with its sum after sieving by the primes up
      to j. */
  ghost predicate SievedTo(keys: seq<int>, s: map<int, int>, j: int, k: nat)
  {
    (forall v :: v in s <==> v in keys) && forall v :: v in s ==> s[v] == LucySum(v, j, k)
  }

  /** The invariant of the pass after j keys: those keys were >= p * p and their lookups
      existed, they hold their sums for p, and every other entry is unchanged. */
  predicate PassInv(s: map<int, int>, s': map<int, int>, keys: seq<int>, j: int, p: int, k: nat)
  {
    p >= 2 && 0 <= j <= |keys| && s'.Keys == s.Keys &&
    (forall i :: 0 <= i < j ==> keys[i] >= p * p && keys[i] / p in s && p - 1 in s) &&
    forall v :: v in s' ==> s'[v] == if v in keys[..j] then LucySum(v, p, k) else s[v]
  }

  /** A lookup missing at key j is one the pass needs. */
  lemma PassMisses(s: map<int, int>, s': map<int, int>, keys: seq<int>, j: int, p: int, k: nat)
    requires PassInv(s, s', keys, j, p, k) && j < |keys| && keys[j] >= p * p
    requires keys[j] / p !in s' || p - 1 !in s'
    ensures !forall i :: 0 <= i < |keys| && keys[i] >= p * p ==> keys[i] / p in s && p - 1 in s
  {
    assert keys[j] >= p * p;
  }

  /** The write at key j, given the values it reads: key j then holds its sum for p. */
  method PassStore(s: map<int, int>, s': map<int, int>, keys: seq<int>, j: int, p: int, k: nat)
    returns (next: map<int, int>)
    requires IsPrime(p) && PassInv(s, s', keys, j, p, k) && j < |keys| && keys[j] >= p * p
    requires keys[j] / p in s' && p - 1 in s' && keys[j] in s'
    requires s'[keys[j]] == LucySum(keys[j], p - 1, k) && s'[keys[j] / p] == LucySum(keys[j] / p, p - 1, k)
    requires s'[p - 1] == LucySum(p - 1, p - 1, k)
    ensures next == s'[keys[j] := LucySum(keys[j], p, k)]
    ensures PassInv(s, next, keys, j + 1, p, k)
  {
    var v := keys[j];
    LucyUpdate(s'[v], s'[v / p], s'[p - 1], v, p, k);
    next := s'[v := s'[v] - Pow(p, k) * (s'[v / p] - s'[p - 1])];
    PassFrame(s, s', keys, j, LucySum(v, p, k), p, k);
  }

  /** The entries the pass reads at key j, v, v div p and p - 1, have not been written yet. */
  lemma PassReads(s: map<int, int>, s': map<int, int>, keys: seq<int>, j: int, p: int, k: nat)
    requires Descending(keys) && PassInv(s, s', keys, j, p, k) && j < |keys| && keys[j] >= p * p
    requires forall v :: v in s <==> v in keys
    requires forall v :: v in s ==> s[v] == LucySum(v, p - 1, k)
    requires keys[j] / p in s' && p - 1 in s'
    ensures keys[j] in s'
    ensures s'[keys[j]] == LucySum(keys[j], p - 1, k) && s'[keys[j] / p] == LucySum(keys[j] / p, p - 1, k)
    ensures s'[p - 1] == LucySum(p - 1, p - 1, k)
  {
    var v := keys[j];
    PassStep(keys, j, p);
    assert v in s;
  }

  /** The step of LucyStepLarge, read on table entries that hold their sums. */
  lemma LucyUpdate(a: int, b: int, c: int, v: int, p: int, k: nat)
    requires IsPrime(p) && v >= p * p
    requires a == LucySum(v, p - 1, k) && b == LucySum(v / p, p - 1, k) && c == LucySum(p - 1, p - 1, k)
    ensures a - Pow(p, k) * (b - c) == LucySum(v, p, k)
  {
    LucyStepLarge(v, p, k);
  }

  /** Writing the sum after sieving with p at keys[j] extends the updated prefix by one. */
  lemma PassFrame(s: map<int, int>, s': map<int, int>, keys: seq<int>, j: int, x: int, p: int, k: nat)
    requires PassInv(s, s', keys, j, p, k) && j < |keys| && keys[j] >= p * p
    requires keys[j] in s' && keys[j] / p in s' && p - 1 in s' && x == LucySum(keys[j], p, k)
    ensures PassInv(s, s'[keys[j] := x], keys, j + 1, p, k)
  {
    assert keys[..j + 1] == keys[..j] + [keys[j]];
  }

  /** Once the keys >= p * p are done, every entry holds its sum for p: the rest are below
      p * p, where sieving with p changes nothing. */
  lemma PassComplete(s: map<int, int>, s': map<int, int>, keys: seq<int>, j: int, p: int, k: nat)
    requires Descending(keys) && PassInv(s, s', keys, j, p, k)
    requires j < |keys| ==> keys[j] < p * p
    requires forall v :: v in s <==> v in keys
    requires forall v :: v in s ==> s[v] == LucySum(v, p - 1, k)
    ensures forall v :: v in s' ==> s'[v] == LucySum(v, p, k)
  {
    forall v | v in s'
      ensures s'[v] == LucySum(v, p, k)
    {
      if v !in keys[..j] {
        PassSkipped(keys, j, p, v);
        LucyStepSmall(v, p, k);
      }
    }
  }

  /** Every key >= p * p was visited, so all the lookups the pass needs exist. */
  lemma PassCovered(s: map<int, int>, s': map<int, int>, keys: seq<int>, j: int, p: int, k: nat)
    requires Descending(keys) && PassInv(s, s', keys, j, p, k)
    requires j < |keys| ==> keys[j] < p * p
    ensures forall i :: 0 <= i < |keys| && keys[i] >= p * p ==> keys[i] / p in s && p - 1 in s
  {
    forall i | 0 <= i < |keys| && keys[i] >= p * p
      ensures i < j
    {
    }
  }

  lemma PassStep(keys: seq<int>, j: int, p: int)
    requires Descending(keys) && 0 <= j < |keys| && p >= 2 && keys[j] >= p * p
    requires forall i :: 0 <= i < j ==> keys[i] >= p * p
    ensures keys[j] !in keys[..j] && keys[j] / p !in keys[..j] && p - 1 !in keys[..j]
  {
    var v := keys[j];
    MulAtLeast(p, p);
    DivBelow(v, p);
  }

  /** A key not updated by the pass lies below p * p. */
  lemma PassSkipped(keys: seq<int>, j: int, p: int, v: int)
    requires Descending(keys) && 0 <= j <= |keys|
    requires j < |keys| ==> keys[j] < p * p
    requires v in keys && v !in keys[..j]
    ensures v < p * p
  {
    var i :| 0 <= i < |keys| && keys[i] == v;
    assert i >= j;
  }

  /** The pass with p finds every quotient v div p (v >= p * p) among the keys. */
  predicate PassSucceeds(keys: seq<int>, p: int)
    requires p >= 1
  {
    forall i :: 0 <= i < |keys| && keys[i] >= p * p ==> keys[i] / p in keys
  }

  /** The passes with the primes 2..r all succeed. */
  predicate PassesSucceed(keys: seq<int>, r: int)
  {
    forall p :: 2 <= p <= r && IsPrime(p) ==> PassSucceeds(keys, p)
  }

  /** One round of the outer loop, for p: the pass runs only when S[p] > S[p - 1], which
      (the table holding its sums for p - 1) is exactly when p is prime. */
  method SieveRound(s: map<int, int>, keys: seq<int>, p: int, k: nat) returns (s': map<int, int>, ok: bool)
    requires p >= 2 && p in keys && p - 1 in keys && Descending(keys)
    requires forall v :: v in s <==> v in keys
    requires forall v :: v in s ==> s[v] == LucySum(v, p - 1, k)
    ensures ok <==> !IsPrime(p) || PassSucceeds(keys, p)
    ensures ok ==> s'.Keys == s.Keys && forall v :: v in s' ==> s'[v] == LucySum(v, p, k)
  {
    LucyDetects(p, k);
    if s[p] > s[p - 1] {
      s', ok := SievePass(s, keys, p, k);
    } else {
      forall v | v in s
        ensures s[v] == LucySum(v, p, k)
      {
        LucyStepComposite(v, p, k);
      }
      s', ok := s, true;
    }
  }

  /** The outer loop, for p = 2..r: it stops at the first pass that looks up a missing key. */
  method SieveRounds(s: map<int, int>, keys: seq<int>, r: int, k: nat) returns (s': map<int, int>, ok: bool)
    requires Descending(keys) && forall w :: 1 <= w <= r ==> w in keys
    requires forall v :: v in s <==> v in keys
    requires forall v :: v in s ==> s[v] == LucySum(v, 1, k)
    ensures ok <==> PassesSucceed(keys, r)
    ensures ok ==> s'.Keys == s.Keys && forall v :: v in s' ==> s'[v] == LucySum(v, if r >= 1 then r else 1, k)
  {
    s' := s;
    var p := 2;
    while p <= r
      invariant 2 <= p && (p <= r + 1 || p == 2)
      invariant s'.Keys == s.Keys
      invariant forall v :: v in s' ==> s'[v] == LucySum(v, p - 1, k)
      invariant PassesSucceed(keys, p - 1)
    {
      var round;
      s', round := SieveRound(s', keys, p, k);
      if !round {
        return s', false;
      }
      p := p + 1;
    }
    ok := true;
  }

  /** The initial table T(v) = v - 1 holds the counts before any pass. */
  lemma InitialCounts(s: map<int, int>, keys: seq<int>)
    requires forall i :: 0 <= i < |keys| ==> keys[i] >= 1
    requires forall v :: v in s <==> v in keys
    requires forall v :: v in s ==> s[v] == v - 1
    ensures forall v :: v in s ==> s[v] == LucySum(v, 1, 0)
  {
    forall v | v in s
      ensures s[v] == LucySum(v, 1, 0)
    {
      LucyInitial(v);
    }
  }
}
