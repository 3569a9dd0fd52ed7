/** The inclusion-exclusion sums of primes/pi_computations.py (product, S, S_brute_force,
    legendre_sum) and what they count. */
module InclusionExclusion {
  import opened Wrappers
  import opened Arith
  import opened Primality

  predicate Positive(s: seq<int>)
  {
    forall i :: 0 <= i < |s| ==> s[i] >= 1
  }

  /** Every element is a prime and no prime occurs twice. */
  predicate DistinctPrimes(s: seq<int>)
  {
    (forall i :: 0 <= i < |s| ==> IsPrime(s[i])) &&
    (forall i, j :: 0 <= i < j < |s| ==> s[i] != s[j])
  }

  /** The primes up to a bound: distinct primes, hence positive, and the last one, if
      any, is at least 2. */
  lemma PrimesUpToDistinctPrimes(bound: int)
    ensures DistinctPrimes(PrimesUpTo(bound)) && Positive(PrimesUpTo(bound))
    ensures bound >= 2 <==> PrimesUpTo(bound) != []
  {
    var l := PrimesUpTo(bound);
    PrimesUpToSpec(bound);
    forall i | 0 <= i < |l|
      ensures IsPrime(l[i])
    {
      assert l[i] in l;
    }
    if bound >= 2 {
      assert 2 in l;
    }
  }

  /** product(nums): the product of the elements, 1 for the empty list; at least 1 when
      every element is. */
  function Product(s: seq<int>): (r: int)
    ensures Positive(s) ==> r >= 1
  {
    if s == [] then 1 else s[0] * Product(s[1..])
  }

  /** The product of a concatenation is the product of the products. */
  lemma {:induction false} ProductAppend(s: seq<int>, t: seq<int>)
    ensures Product(s + t) == Product(s) * Product(t)
  {
    if s != [] {
      assert (s + t)[0] == s[0];
      assert (s + t)[1..] == s[1..] + t;
      ProductAppend(s[1..], t);
      MulAssociate(s[0], Product(s[1..]), Product(t));
    } else {
      assert s + t == t;
    }
  }

  /** [x] + c for every c in cs. */
  function Prepend(x: int, cs: seq<seq<int>>): seq<seq<int>>
  {
    if cs == [] then [] else [[x] + cs[0]] + Prepend(x, cs[1..])
  }

  /** itertools.combinations(s, k): the combinations containing s[0] come first,
      then those of the rest of s. */
  function Combinations(s: seq<int>, k: nat): seq<seq<int>>
    decreases |s|
  {
    if k == 0 then [[]]
    else if s == [] then []
    else Prepend(s[0], Combinations(s[1..], k - 1)) + Combinations(s[1..], k)
  }

  /** n choose k. */
  function Binomial(n: nat, k: nat): nat
  {
    if k == 0 then 1 else if n == 0 then 0 else Binomial(n - 1, k - 1) + Binomial(n - 1, k)
  }

  lemma {:induction false} PrependLength(x: int, cs: seq<seq<int>>, k: nat)
    requires forall i :: 0 <= i < |cs| ==> |cs[i]| == k
    ensures |Prepend(x, cs)| == |cs|
    ensures forall i :: 0 <= i < |cs| ==> |Prepend(x, cs)[i]| == k + 1
  {
    if cs != [] {
      PrependLength(x, cs[1..], k);
    }
  }

  /** There are |s| choose k combinations, each of k elements. */
  lemma {:induction false} CombinationsLength(s: seq<int>, k: nat)
    ensures |Combinations(s, k)| == Binomial(|s|, k)
    ensures forall i :: 0 <= i < |Combinations(s, k)| ==> |Combinations(s, k)[i]| == k
    decreases |s|
  {
    if k > 0 && s != [] {
      var t := s[1..];
      CombinationsLength(t, k - 1);
      CombinationsLength(t, k);
      var a, b := Prepend(s[0], Combinations(t, k - 1)), Combinations(t, k);
      PrependLength(s[0], Combinations(t, k - 1), k - 1);
      assert Combinations(s, k) == a + b;
      UniformConcat(a, b, k);
    }
  }

  /** Joining two lists of k-element lists gives a list of k-element lists. */
  lemma UniformConcat(a: seq<seq<int>>, b: seq<seq<int>>, k: nat)
    requires forall i :: 0 <= i < |a| ==> |a[i]| == k
    requires forall i :: 0 <= i < |b| ==> |b[i]| == k
    ensures forall i :: 0 <= i < |a + b| ==> |(a + b)[i]| == k
  {
    forall i | 0 <= i < |a + b|
      ensures |(a + b)[i]| == k
    {
      if i < |a| {
        assert (a + b)[i] == a[i];
      } else {
        assert (a + b)[i] == b[i - |a|];
      }
    }
  }

  /** More elements asked for than there are: no combination. */
  lemma {:induction false} CombinationsBeyond(s: seq<int>, k: nat)
    requires k > |s|
    ensures Combinations(s, k) == []
    decreases |s|
  {
    if s != [] {
      CombinationsBeyond(s[1..], k - 1);
      CombinationsBeyond(s[1..], k);
    }
  }

  predicate ProductsPositive(cs: seq<seq<int>>)
  {
    forall i :: 0 <= i < |cs| ==> Product(cs[i]) >= 1
  }

  lemma {:induction false} PrependPositive(x: int, cs: seq<seq<int>>)
    requires x >= 1 && ProductsPositive(cs)
    ensures |Prepend(x, cs)| == |cs|
    ensures ProductsPositive(Prepend(x, cs))
    ensures forall i :: 0 <= i < |cs| ==> Product(Prepend(x, cs)[i]) == x * Product(cs[i])
  {
    if cs != [] {
      PrependPositive(x, cs[1..]);
      assert ([x] + cs[0])[1..] == cs[0];
      MulAtLeast(x, Product(cs[0]));
    }
  }

  lemma {:induction false} CombinationsPositive(s: seq<int>, k: nat)
    requires Positive(s)
    ensures ProductsPositive(Combinations(s, k))
    decreases |s|
  {
    if k > 0 && s != [] {
      CombinationsPositive(s[1..], k - 1);
      CombinationsPositive(s[1..], k);
      PrependPositive(s[0], Combinations(s[1..], k - 1));
    }
  }

  /** The sum of N div product(c) over the combinations c. */
  function SumQuotients(n: int, cs: seq<seq<int>>): int
    requires ProductsPositive(cs)
  {
    if cs == [] then 0 else n / Product(cs[0]) + SumQuotients(n, cs[1..])
  }

  lemma {:induction false} SumQuotientsAppend(n: int, a: seq<seq<int>>, b: seq<seq<int>>)
    requires ProductsPositive(a) && ProductsPositive(b)
    ensures ProductsPositive(a + b)
    ensures SumQuotients(n, a + b) == SumQuotients(n, a) + SumQuotients(n, b)
  {
    if a != [] {
      assert (a + b)[0] == a[0];
      assert (a + b)[1..] == a[1..] + b;
      SumQuotientsAppend(n, a[1..], b);
    } else {
      assert a + b == b;
    }
  }

  lemma {:induction false} SumQuotientsPrepend(n: int, x: int, cs: seq<seq<int>>)
    requires x >= 1 && ProductsPositive(cs)
    ensures ProductsPositive(Prepend(x, cs))
    ensures SumQuotients(n, Prepend(x, cs)) == SumQuotients(n / x, cs)
  {
    PrependPositive(x, cs);
    if cs != [] {
      SumQuotientsPrepend(n, x, cs[1..]);
      DivDiv(n, x, Product(cs[0]));
    }
  }

  lemma {:induction false} SumQuotientsNonNegative(n: int, cs: seq<seq<int>>)
    requires n >= 0 && ProductsPositive(cs)
    ensures SumQuotients(n, cs) >= 0
    ensures n == 0 ==> SumQuotients(n, cs) == 0
  {
    if cs != [] {
      SumQuotientsNonNegative(n, cs[1..]);
    }
  }

  /** S(N, k, L), by choosing or skipping the head of L: the combinations that contain
      L[0] contribute (N div L[0]) div product(rest). */
  function S(n: int, k: nat, l: seq<int>): int
    requires Positive(l)
    decreases |l|
  {
    if k == 0 then n
    else if l == [] then 0
    else S(n, k, l[1..]) + S(n / l[0], k - 1, l[1..])
  }

  /** S(N, k, L) is the sum of N div product(c) over the k-combinations c of L,
      as sum(map(lambda comb: N // product(comb), combinations(L, k))) computes it. */
  lemma {:induction false} SIsSumOverCombinations(n: int, k: nat, l: seq<int>)
    requires Positive(l)
    ensures ProductsPositive(Combinations(l, k))
    ensures S(n, k, l) == SumQuotients(n, Combinations(l, k))
    decreases |l|, 1
  {
    if k == 0 {
      SNoneChosen(n, l);
    } else if l != [] {
      SChooseOrSkip(n, k, l);
    } else {
      assert Combinations(l, k) == [];
    }
  }

  /** The recursive case of SIsSumOverCombinations, from the equalities for the tail. */
  lemma {:induction false} SChooseOrSkip(n: int, k: nat, l: seq<int>)
    requires Positive(l) && k >= 1 && l != []
    ensures ProductsPositive(Combinations(l, k))
    ensures S(n, k, l) == SumQuotients(n, Combinations(l, k))
    decreases |l|, 0
  {
    SIsSumOverCombinations(n, k, l[1..]);
    SIsSumOverCombinations(n / l[0], k - 1, l[1..]);
    SHeadSplit(n, k, l);
  }

  /** k = 0: the one empty combination contributes N div 1. */
  lemma SNoneChosen(n: int, l: seq<int>)
    requires Positive(l)
    ensures ProductsPositive(Combinations(l, 0))
    ensures S(n, 0, l) == SumQuotients(n, Combinations(l, 0))
  {
    var cs := Combinations(l, 0);
    assert cs == [[]];
    assert Product(cs[0]) == 1;
    assert cs[1..] == [];
    assert SumQuotients(n, cs) == n / Product(cs[0]) + SumQuotients(n, cs[1..]);
  }

  /** The step of SIsSumOverCombinations: the combinations with L[0] and those without. */
  lemma SHeadSplit(n: int, k: nat, l: seq<int>)
    requires Positive(l) && k >= 1 && l != []
    requires ProductsPositive(Combinations(l[1..], k)) && ProductsPositive(Combinations(l[1..], k - 1))
    requires S(n, k, l[1..]) == SumQuotients(n, Combinations(l[1..], k))
    requires S(n / l[0], k - 1, l[1..]) == SumQuotients(n / l[0], Combinations(l[1..], k - 1))
    ensures ProductsPositive(Combinations(l, k))
    ensures S(n, k, l) == SumQuotients(n, Combinations(l, k))
  {
    var t := l[1..];
    var with := Prepend(l[0], Combinations(t, k - 1));
    assert Combinations(l, k) == with + Combinations(t, k);
    SumQuotientsPrepend(n, l[0], Combinations(t, k - 1));
    SumQuotientsAppend(n, with, Combinations(t, k));
  }

  /** S vanishes once k exceeds the length of L. */
  lemma {:induction false} SBeyond(n: int, k: nat, l: seq<int>)
    requires Positive(l) && k > |l|
    ensures S(n, k, l) == 0
    decreases |l|
  {
    if l != [] {
      SBeyond(n, k, l[1..]);
      SBeyond(n / l[0], k - 1, l[1..]);
    }
  }

  /** S is a sum of non-negative quotients for N >= 0, all of them 0 for N == 0. */
  lemma {:induction false} SNonNegative(n: int, k: nat, l: seq<int>)
    requires Positive(l) && n >= 0
    ensures S(n, k, l) >= 0 && (n == 0 ==> S(n, k, l) == 0)
    decreases |l|
  {
    if k > 0 && l != [] {
      SNonNegative(n, k, l[1..]);
      SNonNegative(n / l[0], k - 1, l[1..]);
    }
  }

  /** Once S is 0 at k it is 0 at k + 1: every k-combination already exceeds N. */
  lemma {:induction false} SZeroPersists(n: int, k: nat, l: seq<int>)
    requires Positive(l) && n >= 0 && S(n, k, l) == 0
    ensures S(n, k + 1, l) == 0
    decreases |l|
  {
    if l == [] {
    } else if k == 0 {
      SNonNegative(n, k + 1, l);
    } else {
      var t := l[1..];
      var m := n / l[0];
      SNonNegative(n, k, t);
      SNonNegative(m, k - 1, t);
      SZeroPersists(n, k, t);
      SZeroPersists(m, k - 1, t);
    }
  }

  lemma {:induction false} SZeroFrom(n: int, i: nat, j: nat, l: seq<int>)
    requires Positive(l) && n >= 0 && S(n, i, l) == 0 && i <= j
    ensures S(n, j, l) == 0
    decreases j - i
  {
    if i < j {
      SZeroPersists(n, i, l);
      SZeroFrom(n, i + 1, j, l);
    }
  }

  /** S_brute_force(N, k, L): for every k-combination, count the x in 1..N that its
      product divides. */
  method SBruteForce(n: int, k: nat, l: seq<int>) returns (total: int)
    requires Positive(l)
    ensures n >= 0 ==> total == S(n, k, l)
    ensures n < 0 ==> total == 0
  {
    var combos := Combinations(l, k);
    CombinationsPositive(l, k);
    total := 0;
    var j := 0;
    while j < |combos|
      invariant 0 <= j <= |combos|
      invariant ProductsPositive(combos[..j])
      invariant total == (if n >= 0 then SumQuotients(n, combos[..j]) else 0)
    {
      var count := CountMultiples(n, Product(combos[j]));
      SumQuotientsStep(n, combos, j);
      total := total + count;
      j := j + 1;
    }
    assert combos[..j] == combos;
    SIsSumOverCombinations(n, k, l);
  }

  /** The inner loop of S_brute_force: how many x in 1..N are multiples of prod. */
  method CountMultiples(n: int, prod: int) returns (count: int)
    requires prod >= 1
    ensures count == if n >= 0 then n / prod else 0
  {
    count := 0;
    var x := 1;
    while x <= n
      invariant 1 <= x <= (if n >= 0 then n + 1 else 1)
      invariant count == (x - 1) / prod
    {
      DivPredecessor(x, prod);
      if x % prod == 0 {
        count := count + 1;
      }
      x := x + 1;
    }
  }

  lemma SumQuotientsStep(n: int, cs: seq<seq<int>>, j: int)
    requires 0 <= j < |cs| && ProductsPositive(cs[..j]) && Product(cs[j]) >= 1
    ensures ProductsPositive(cs[..j + 1])
    ensures SumQuotients(n, cs[..j + 1]) == SumQuotients(n, cs[..j]) + n / Product(cs[j])
  {
    assert cs[..j + 1] == cs[..j] + [cs[j]];
    SumQuotientsAppend(n, cs[..j], [cs[j]]);
  }

  /** (-1)^j. */
  function Sign(j: int): int
  {
    if j % 2 == 0 then 1 else -1
  }

  lemma SignStep(j: int)
    ensures Sign(j + 1) == -Sign(j)
  {
    ModAddMultiple(j, 2, 0);
    if j % 2 == 0 {
      DivModUnique(j + 1, 2, j / 2, 1);
    } else {
      DivModUnique(j + 1, 2, j / 2 + 1, 0);
    }
  }

  /** The alternating sum of S(N, j, L) over 0 <= j <= k. */
  function AlternatingSum(n: int, k: int, l: seq<int>): int
    requires Positive(l)
    decreases k
  {
    if k < 0 then 0 else AlternatingSum(n, k - 1, l) + Sign(k) * S(n, k, l)
  }

  /** Once a term is 0 the remaining terms are 0 too, so stopping there loses nothing. */
  lemma {:induction false} AlternatingSumStops(n: int, i: nat, a: int, l: seq<int>)
    requires Positive(l) && n >= 0 && S(n, i, l) == 0 && a >= i - 1
    ensures AlternatingSum(n, a, l) == AlternatingSum(n, i - 1, l)
    decreases a
  {
    if a >= i {
      AlternatingSumStops(n, i, a - 1, l);
      SZeroFrom(n, i, a, l);
    }
  }

  /** Removing the head p of L: the sum for L is that for the tail minus that for the tail
      at N div p, one index lower. */
  lemma {:induction false} AlternatingSumStep(n: int, k: int, l: seq<int>)
    requires Positive(l) && l != [] && k >= 0
    ensures AlternatingSum(n, k, l) ==
      AlternatingSum(n, k, l[1..]) - AlternatingSum(n / l[0], k - 1, l[1..])
    decreases k
  {
    var t, q := l[1..], n / l[0];
    if k == 0 {
      assert S(n, 0, l) == n == S(n, 0, t);
    } else {
      AlternatingSumStep(n, k - 1, l);
      SignStep(k - 1);
      var g := Sign(k);
      assert S(n, k, l) == S(n, k, t) + S(q, k - 1, t);
      assert AlternatingSum(q, k - 1, t) == AlternatingSum(q, k - 2, t) - g * S(q, k - 1, t);
      MulDistributes(g, S(n, k, t), S(q, k - 1, t));
    }
  }

  lemma {:induction false} AlternatingSumBeyond(n: int, k: int, l: seq<int>)
    requires Positive(l) && k >= |l|
    ensures AlternatingSum(n, k, l) == AlternatingSum(n, |l|, l)
    decreases k
  {
    if k > |l| {
      AlternatingSumBeyond(n, k - 1, l);
      SBeyond(n, k, l);
    }
  }

  /** No element of L divides x. */
  predicate FreeOf(x: int, l: seq<int>)
  {
    forall i :: 0 <= i < |l| && l[i] != 0 ==> x % l[i] != 0
  }

  function FreeIndicator(l: seq<int>): int -> int
  {
    x => if FreeOf(x, l) then 1 else 0
  }

  /** The number of x in 1..N divisible by no element of L. */
  function Phi(n: int, l: seq<int>): int
  {
    Sum(n, FreeIndicator(l))
  }

  lemma FreeOfCons(x: int, l: seq<int>)
    requires l != [] && l[0] >= 1
    ensures FreeOf(x, l) <==> x % l[0] != 0 && FreeOf(x, l[1..])
  {
    if x % l[0] != 0 && FreeOf(x, l[1..]) {
      forall i | 0 <= i < |l| && l[i] != 0
        ensures x % l[i] != 0
      {
        if i > 0 {
          assert l[i] == l[1..][i - 1];
        }
      }
    }
  }

  /** For a prime p and a prime q other than p: q divides p*y exactly when q divides y. */
  lemma DividesMultiple(p: int, q: int, y: int)
    requires IsPrime(p) && IsPrime(q) && p != q && y >= 0
    ensures (p * y) % q == 0 <==> y % q == 0
  {
    if y % q == 0 {
      var t := y / q;
      DivExact(y, q);
      MulSwap(p, q, t);
      MulDivExact(q, p * t);
    }
    if (p * y) % q == 0 {
      PrimeNotDivisible(p, q);
      Euclid(q, p, y);
    }
  }

  lemma FreeOfMultiple(p: int, y: int, l: seq<int>)
    requires IsPrime(p) && DistinctPrimes(l) && y >= 0
    requires forall i :: 0 <= i < |l| ==> l[i] != p
    ensures FreeOf(p * y, l) <==> FreeOf(y, l)
  {
    forall i | 0 <= i < |l|
      ensures (p * y) % l[i] == 0 <==> y % l[i] == 0
    {
      DividesMultiple(p, l[i], y);
    }
  }

  lemma FreeOfQuotient(p: int, x: int, l: seq<int>)
    requires IsPrime(p) && DistinctPrimes(l) && x >= 0 && x % p == 0
    requires forall i :: 0 <= i < |l| ==> l[i] != p
    ensures FreeOf(x, l) <==> FreeOf(x / p, l)
  {
    DivExact(x, p);
    FreeOfMultiple(p, x / p, l);
  }

  /** Sieving out one more prime p removes the x = p*y with y free of the others. */
  lemma PhiStep(n: int, l: seq<int>)
    requires n >= 0 && DistinctPrimes(l) && l != []
    ensures Phi(n, l) == Phi(n, l[1..]) - Phi(n / l[0], l[1..])
  {
    var p := l[0];
    var t := l[1..];
    assert DistinctPrimes(t);
    assert forall i :: 0 <= i < |t| ==> t[i] != p by {
      forall i | 0 <= i < |t|
        ensures t[i] != p
      {
        assert t[i] == l[i + 1];
      }
    }
    var f := FreeIndicator(l);
    var g := FreeIndicator(t);
    var h := (x: int) => if x % p == 0 && FreeOf(x, t) then 1 else 0;
    forall x | 1 <= x <= n
      ensures g(x) == f(x) + h(x)
    {
      FreeOfCons(x, l);
    }
    SumAdd(n, f, h, g);
    forall x | 1 <= x <= n
      ensures h(x) == if x % p == 0 then g(x / p) else 0
    {
      if x % p == 0 {
        FreeOfQuotient(p, x, t);
      }
    }
    SumMultiples(n, p, h, g);
  }

  /** For distinct primes, the full alternating sum counts the x in 1..N free of L
      (inclusion-exclusion). */
  lemma {:induction false} AlternatingSumIsPhi(n: int, l: seq<int>)
    requires n >= 0 && DistinctPrimes(l)
    ensures Positive(l) && AlternatingSum(n, |l|, l) == Phi(n, l)
    decreases |l|
  {
    if l == [] {
      SumOfOnes(n, FreeIndicator(l));
    } else {
      var t := l[1..];
      var p := l[0];
      var m := n / p;
      assert DistinctPrimes(t);
      assert Positive(l);
      AlternatingSumStep(n, |l|, l);
      AlternatingSumBeyond(n, |l|, t);
      AlternatingSumIsPhi(n, t);
      AlternatingSumIsPhi(m, t);
      PhiStep(n, l);
    }
  }

  /** What legendre_sum(N, a, L) returns: it asserts a <= len(L); a negative a or N
      makes the loop exit at once with 0; otherwise the alternating sum over L[:a]. */
  function LegendreSumValue(n: int, a: int, l: seq<int>): Result<int>
    requires Positive(l)
  {
    if a > |l| then Err(AssertionFailed)
    else if a < 0 || n < 0 then Ok(0)
    else Ok(AlternatingSum(n, a, l[..a]))
  }

  /** legendre_sum counts the x in 1..N divisible by none of the first a primes of L. */
  lemma LegendreSumCounts(n: int, a: int, l: seq<int>)
    requires n >= 0 && DistinctPrimes(l) && 0 <= a <= |l|
    ensures Positive(l) && LegendreSumValue(n, a, l) == Ok(Phi(n, l[..a]))
  {
    assert DistinctPrimes(l[..a]);
    AlternatingSumIsPhi(n, l[..a]);
  }

  /** legendre_sum(N, a, L): add the signed terms S(N, i, L[:a]) while they stay
      positive and i <= a. */
  method LegendreSum(n: int, a: int, l: seq<int>) returns (res: Result<int>)
    requires Positive(l)
    ensures res == LegendreSumValue(n, a, l)
  {
    if a > |l| {
      return Err(AssertionFailed);
    }
    var cut := if a >= 0 then a else if |l| + a >= 0 then |l| + a else 0;
    var prefix := l[..cut];
    var total := 0;
    var sign := 1;
    var i := 0;
    var e := S(n, i, prefix);
    while e > 0 && i <= a
      invariant 0 <= i && (i <= a + 1 || i == 0)
      invariant n < 0 ==> i == 0
      invariant sign == Sign(i)
      invariant e == S(n, i, prefix)
      invariant total == AlternatingSum(n, i - 1, prefix)
      decreases a + 1 - i
    {
      total := total + sign * e;
      SignStep(i);
      i := i + 1;
      sign := -sign;
      e := S(n, i, prefix);
    }
    if 0 <= a && 0 <= n && i <= a {
      SNonNegative(n, i, prefix);
      AlternatingSumStops(n, i, a, prefix);
    }
    return Ok(total);
  }
}
