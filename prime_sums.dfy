/** Sums of primes (primes/prime_sums.py): the brute-force sum over prime_list and the
    Lucy_Hedgehog sieve with its reference table S_ref and its checked invariant. */
module PrimeSums {
  import opened Wrappers
  import opened Arith
  import opened Primality
  import opened Sieve
  import opened PrimesUtils
  import opened LucySieve

  /** brute(N, sieve): sum(prime_list(sieve, upto=N)), on a fresh sieve of size N when none
      is given or the given one is smaller than N. */
  method Brute(n: int, sieve: PrimeSieve?) returns (res: Result<int>)
    requires sieve != null ==> sieve.Valid()
    ensures sieve == null && n < 0 ==> res == Err(MathDomain)
    ensures n == 0 ==> res == Err(TypeMismatch)
    ensures n >= 1 ==> res == Ok(PrimeSum(n))
    ensures sieve != null && n < 0 ==> res == Ok(0)
  {
    var ps := sieve;
    if ps == null || ps.size < n {
      if n < 0 {
        return Err(MathDomain);
      }
      ps := new PrimeSieve(n);
    }
    var listed := PrimeList(ps, Some(n), None);
    if listed.Err? {
      return Err(listed.error);
    }
    PrimesUpToSum(n);
    return Ok(SeqSum(listed.value));
  }

  /** T(i) = i(i + 1) div 2 - 1: the sum of the integers 2..i, the table entry before any
      pass. */
  function SumFromTwo(i: int): (r: int)
    ensures i >= 1 ==> r == LucySum(i, 1, 1)
  {
    LucyInitialAt(i);
    i * (i + 1) / 2 - 1
  }

  lemma LucyInitialAt(i: int)
    ensures i >= 1 ==> LucySum(i, 1, 1) == i * (i + 1) / 2 - 1
  {
    if i >= 1 {
      LucyInitial(i);
    }
  }

  /** S_ref: the sums of the primes up to each key of V for N = 100. */
  const SRef: map<int, int> := map[100 := 1060, 50 := 328, 33 := 160, 25 := 100, 20 := 77, 16 := 41,
    14 := 41, 12 := 28, 11 := 28, 10 := 17, 9 := 17, 8 := 17, 7 := 17, 6 := 10, 5 := 10, 4 := 5,
    3 := 5, 2 := 2, 1 := 0]

  /** Trial division by d, d + 1, ... while d * d <= n. */
  function TrialFrom(n: int, d: int): bool
    requires d >= 2
    decreases n - d
  {
    if d * d > n then true else n % d != 0 && TrialFrom(n, d + 1)
  }

  lemma {:induction false} TrialFromSound(n: int, d: int)
    requires n >= 2 && d >= 2 && TrialFrom(n, d)
    requires forall e :: 2 <= e < d ==> n % e != 0
    ensures IsPrime(n)
    decreases n - d
  {
    if d * d > n {
      if !IsPrime(n) {
        CompositeSpf(n);
        SquareBelow(Spf(n), d);
      }
    } else {
      TrialFromSound(n, d + 1);
    }
  }

  lemma PrimeByTrial(n: int)
    requires n >= 2 && TrialFrom(n, 2)
    ensures IsPrime(n)
  {
    TrialFromSound(n, 2);
  }

  lemma NotPrime(n: int, d: int)
    requires 2 <= d < n && n % d == 0
    ensures !IsPrime(n)
  {}

  lemma PrimeSumsTo10()
    ensures PrimeSum(1) == 0 && PrimeSum(2) == 2 && PrimeSum(3) == 5 && PrimeSum(4) == 5 && PrimeSum(5) == 10 && PrimeSum(6) == 10 && PrimeSum(7) == 17 && PrimeSum(8) == 17 && PrimeSum(9) == 17 && PrimeSum(10) == 17
  {
    PrimeByTrial(2);
    PrimeByTrial(3);
    NotPrime(4, 2);
    PrimeByTrial(5);
    NotPrime(6, 2);
    PrimeByTrial(7);
    NotPrime(8, 2);
    NotPrime(9, 3);
    NotPrime(10, 2);
  }

  lemma PrimeSumsTo20()
    ensures PrimeSum(11) == 28 && PrimeSum(12) == 28 && PrimeSum(14) == 41 && PrimeSum(16) == 41 && PrimeSum(20) == 77
  {
    PrimeSumsTo10();
    PrimeByTrial(11);
    NotPrime(12, 2);
    PrimeByTrial(13);
    NotPrime(14, 2);
    NotPrime(15, 3);
    NotPrime(16, 2);
    PrimeByTrial(17);
    NotPrime(18, 2);
    PrimeByTrial(19);
    NotPrime(20, 2);
  }

  lemma PrimeSumsTo30()
    ensures PrimeSum(25) == 100 && PrimeSum(30) == 129
  {
    PrimeSumsTo20();
    NotPrime(21, 3);
    NotPrime(22, 2);
    PrimeByTrial(23);
    NotPrime(24, 2);
    NotPrime(25, 5);
    NotPrime(26, 2);
    NotPrime(27, 3);
    NotPrime(28, 2);
    PrimeByTrial(29);
    NotPrime(30, 2);
  }

  lemma PrimeSumsTo40()
    ensures PrimeSum(33) == 160 && PrimeSum(40) == 197
  {
    PrimeSumsTo30();
    PrimeByTrial(31);
    NotPrime(32, 2);
    NotPrime(33, 3);
    NotPrime(34, 2);
    NotPrime(35, 5);
    NotPrime(36, 2);
    PrimeByTrial(37);
    NotPrime(38, 2);
    NotPrime(39, 3);
    NotPrime(40, 2);
  }

  lemma PrimeSumsTo50()
    ensures PrimeSum(50) == 328
  {
    PrimeSumsTo40();
    PrimeByTrial(41);
    NotPrime(42, 2);
    PrimeByTrial(43);
    NotPrime(44, 2);
    NotPrime(45, 3);
    NotPrime(46, 2);
    PrimeByTrial(47);
    NotPrime(48, 2);
    NotPrime(49, 7);
    NotPrime(50, 2);
  }

  lemma PrimeSumsTo60()
    ensures PrimeSum(60) == 440
  {
    PrimeSumsTo50();
    NotPrime(51, 3);
    NotPrime(52, 2);
    PrimeByTrial(53);
    NotPrime(54, 2);
    NotPrime(55, 5);
    NotPrime(56, 2);
    NotPrime(57, 3);
    NotPrime(58, 2);
    PrimeByTrial(59);
    NotPrime(60, 2);
  }

  lemma PrimeSumsTo70()
    ensures PrimeSum(70) == 568
  {
    PrimeSumsTo60();
    PrimeByTrial(61);
    NotPrime(62, 2);
    NotPrime(63, 3);
    NotPrime(64, 2);
    NotPrime(65, 5);
    NotPrime(66, 2);
    PrimeByTrial(67);
    NotPrime(68, 2);
    NotPrime(69, 3);
    NotPrime(70, 2);
  }

  lemma PrimeSumsTo80()
    ensures PrimeSum(80) == 791
  {
    PrimeSumsTo70();
    PrimeByTrial(71);
    NotPrime(72, 2);
    PrimeByTrial(73);
    NotPrime(74, 2);
    NotPrime(75, 3);
    NotPrime(76, 2);
    NotPrime(77, 7);
    NotPrime(78, 2);
    PrimeByTrial(79);
    NotPrime(80, 2);
  }

  lemma PrimeSumsTo90()
    ensures PrimeSum(90) == 963
  {
    PrimeSumsTo80();
    NotPrime(81, 3);
    NotPrime(82, 2);
    PrimeByTrial(83);
    NotPrime(84, 2);
    NotPrime(85, 5);
    NotPrime(86, 2);
    NotPrime(87, 3);
    NotPrime(88, 2);
    PrimeByTrial(89);
    NotPrime(90, 2);
  }

  lemma PrimeSumsTo100()
    ensures PrimeSum(100) == 1060
  {
    PrimeSumsTo90();
    NotPrime(91, 7);
    NotPrime(92, 2);
    NotPrime(93, 3);
    NotPrime(94, 2);
    NotPrime(95, 5);
    NotPrime(96, 2);
    PrimeByTrial(97);
    NotPrime(98, 2);
    NotPrime(99, 3);
    NotPrime(100, 2);
  }
  /** Every entry of S_ref is the sum of the primes up to its key. */
  lemma SRefIsPrimeSum()
    ensures forall i :: i in SRef ==> SRef[i] == PrimeSum(i)
  {
    PrimeSumsTo10();
    PrimeSumsTo20();
    PrimeSumsTo30();
    PrimeSumsTo40();
    PrimeSumsTo50();
    PrimeSumsTo100();
  }

  /** The keys of V for N = 100 all have an entry in S_ref. */
  lemma KeysOfHundred()
    ensures forall i :: i in SumKeys(100) ==> i in SRef
  {
    IsqrtUnique(100, 10);
    var keys := SumKeys(100);
    assert |keys| == 19;
    forall v | v in keys
      ensures v in SRef
    {
      var j :| 0 <= j < |keys| && keys[j] == v;
      HundredKey(j);
      if j < 10 {
        assert v == 100 / (j + 1);
      } else {
        assert v == 19 - j;
      }
    }
  }

  /** Entry j of V for N = 100: 100 div (j + 1) for j < 10, then 19 - j. */
  lemma HundredKey(j: int)
    requires 0 <= j < 19
    ensures j < 10 ==> 100 / (j + 1) in SRef
    ensures j >= 10 ==> 19 - j in SRef
  {
    if j == 0 {
      assert 100 / (j + 1) == 100;
    } else if j == 1 {
      assert 100 / (j + 1) == 50;
    } else if j == 2 {
      assert 100 / (j + 1) == 33;
    } else if j == 3 {
      assert 100 / (j + 1) == 25;
    } else if j == 4 {
      assert 100 / (j + 1) == 20;
    } else if j == 5 {
      assert 100 / (j + 1) == 16;
    } else if j == 6 {
      assert 100 / (j + 1) == 14;
    } else if j == 7 {
      assert 100 / (j + 1) == 12;
    } else if j == 8 {
      assert 100 / (j + 1) == 11;
    } else if j == 9 {
      assert 100 / (j + 1) == 10;
    } else if j == 10 {
      assert 19 - j == 9;
    } else if j == 11 {
      assert 19 - j == 8;
    } else if j == 12 {
      assert 19 - j == 7;
    } else if j == 13 {
      assert 19 - j == 6;
    } else if j == 14 {
      assert 19 - j == 5;
    } else if j == 15 {
      assert 19 - j == 4;
    } else if j == 16 {
      assert 19 - j == 3;
    } else if j == 17 {
      assert 19 - j == 2;
    } else if j == 18 {
      assert 19 - j == 1;
    }
  }

  /** invariant(k): for N = 100, every key i <= k * k has its S_ref value in the table. */
  predicate InvariantHolds(n: int, s: map<int, int>, keys: seq<int>, k: int)
  {
    n != 100 || forall i :: i in keys && i <= k * k ==> i in s && i in SRef && s[i] == SRef[i]
  }

  /** After the passes with the primes <= p, the entries up to p * p are final, so for
      N = 100 they agree with S_ref. */
  lemma TableMatchesReference(n: int, s: map<int, int>, keys: seq<int>, p: int)
    requires n >= 0 && keys == SumKeys(n) && p >= 1
    requires forall v :: v in s <==> v in keys
    requires forall v :: v in s ==> s[v] == LucySum(v, p, 1)
    ensures InvariantHolds(n, s, keys, p)
  {
    if n == 100 {
      KeysOfHundred();
      SRefIsPrimeSum();
      forall i | i in keys && i <= p * p
        ensures i in s && i in SRef && s[i] == SRef[i]
      {
        IsqrtAtMostRoot(i, p);
        LucySumsPrimes(i, p);
      }
    }
  }

  /** V[r - 1:] == list(range(r, 0, -1)) holds exactly when N div r == r (or N == 0, where
      both sides are empty). */
  lemma TailCheck(n: int)
    requires n >= 0
    ensures var r := Isqrt(n); var keys := SumKeys(n);
      (if r >= 1 then keys[r - 1..] else []) == Countdown(r) <==> n == 0 || LucyApplies(n)
  {
    var r := Isqrt(n);
    var keys := SumKeys(n);
    if r >= 1 {
      var tail := keys[r - 1..];
      assert |keys| == r + (r - 1) && |tail| == r;
      assert tail[0] == keys[r - 1] == n / r;
      assert Countdown(r)[0] == r;
      if n / r == r {
        forall j | 0 <= j < r
          ensures tail[j] == Countdown(r)[j]
        {
          assert tail[j] == keys[r - 1 + j];
        }
      }
    }
  }

  /** all(V[i] > V[i + 1] for i in range(0, len(V) - 1)): every adjacent pair decreases. */
  predicate AdjacentDecreasing(v: seq<int>)
  {
    forall i :: 0 <= i < |v| - 1 ==> v[i] > v[i + 1]
  }

  /** The check as written, range(0, len(V) - 2), leaves the last pair out. */
  predicate AdjacentDecreasingAsWritten(v: seq<int>)
  {
    forall i :: 0 <= i < |v| - 2 ==> v[i] > v[i + 1]
  }

  /** The adjacent-pair check is the same as V being strictly decreasing. */
  lemma AdjacentDecreasingIff(v: seq<int>)
    ensures AdjacentDecreasing(v) <==> Descending(v)
  {
    if AdjacentDecreasing(v) {
      forall i, j | 0 <= i < j < |v|
        ensures v[i] > v[j]
      {
        AdjacentChain(v, i, j);
      }
    }
  }

  lemma {:induction false} AdjacentChain(v: seq<int>, i: int, j: int)
    requires AdjacentDecreasing(v) && 0 <= i < j < |v|
    ensures v[i] > v[j]
    decreases j - i
  {
    if j > i + 1 {
      AdjacentChain(v, i + 1, j);
    }
  }

  /** As written, the check accepts a list whose last two entries are equal. */
  lemma AsWrittenAcceptsRepeat()
    ensures AdjacentDecreasingAsWritten([3, 2, 2]) && !Descending([3, 2, 2])
  {
    assert [3, 2, 2][1] == [3, 2, 2][2];
  }

  /** What the sieve needs of V when N div isqrt(N) == isqrt(N). */
  lemma HedgehogKeys(n: int)
    requires LucyApplies(n)
    ensures var keys := SumKeys(n); Descending(keys) && n in keys && PassesSucceed(keys, Isqrt(n))
    ensures forall w :: 1 <= w <= Isqrt(n) ==> w in SumKeys(n)
    ensures forall i :: 0 <= i < |SumKeys(n)| ==> SumKeys(n)[i] >= 1
  {
    KeysAgree(n);
    PiKeysDescending(n);
    PiKeysSmall(n);
    KeysPassesSucceed(n);
  }

  /** lucy_Hedgehog_method(N): the sum of the primes <= N. math.isqrt rejects N < 0; the
      check on V[r - 1:] fails unless N div isqrt(N) == isqrt(N); for N == 0 the table is
      empty and S[N] is a missing key. */
  method LucyHedgehogMethod(n: int) returns (res: Result<int>)
    ensures n < 0 ==> res == Err(MathDomain)
    ensures n == 0 ==> res == Err(MissingKey)
    ensures n >= 1 && !LucyApplies(n) ==> res == Err(AssertionFailed)
    ensures LucyApplies(n) ==> res == Ok(PrimeSum(n))
  {
    if n < 0 {
      return Err(MathDomain);
    }
    var r := Isqrt(n);
    assert r * r <= n && (r + 1) * (r + 1) > n;
    var keys := SumKeys(n);
    TailCheck(n);
    var tail := if r >= 1 then keys[r - 1..] else [];
    if tail != Countdown(r) {
      return Err(AssertionFailed);
    }
    var s := SumTable(n, keys);
    if n !in s {
      return Err(MissingKey);
    }
    LucySumsPrimes(n, if r >= 1 then r else 1);
    return Ok(s[n]);
  }

  /** The table S of lucy_Hedgehog_method once V has passed its checks: built from T, then
      sieved by every prime p <= isqrt(N), with invariant(p) checked after each round. */
  method SumTable(n: int, keys: seq<int>) returns (s: map<int, int>)
    requires (n == 0 || LucyApplies(n)) && keys == SumKeys(n)
    ensures forall v :: v in s <==> v in keys
    ensures n in s <==> n >= 1
    ensures forall v :: v in s ==> s[v] == LucySum(v, if Isqrt(n) >= 1 then Isqrt(n) else 1, 1)
  {
    var r := Isqrt(n);
    if n >= 1 {
      HedgehogKeys(n);
    }
    AdjacentDecreasingIff(keys);
    assert AdjacentDecreasing(keys);
    s := map v | v in keys :: SumFromTwo(v);
    TableMatchesReference(n, s, keys, 1);
    assert InvariantHolds(n, s, keys, 1);
    s := SumRounds(n, keys, s);
  }

  /** The loop for p in range(2, r + 1) of lucy_Hedgehog_method on the initial table. */
  method SumRounds(n: int, keys: seq<int>, s0: map<int, int>) returns (s: map<int, int>)
    requires (n == 0 || LucyApplies(n)) && keys == SumKeys(n)
    requires forall v :: v in s0 <==> v in keys
    requires forall v :: v in s0 ==> s0[v] == LucySum(v, 1, 1)
    ensures forall v :: v in s <==> v in keys
    ensures forall v :: v in s ==> s[v] == LucySum(v, if Isqrt(n) >= 1 then Isqrt(n) else 1, 1)
  {
    var r := Isqrt(n);
    s := s0;
    var p := 2;
    assert SievedTo(keys, s, 1, 1);
    while p <= r
      invariant 2 <= p && (p <= r + 1 || p == 2)
      invariant SievedTo(keys, s, p - 1, 1)
    {
      s := SumRound(n, keys, s, p);
      p := p + 1;
    }
    assert SievedTo(keys, s, if r >= 1 then r else 1, 1);
  }

  /** One round of the loop, for p: the pass never fails on these keys, and afterwards the
      table agrees with S_ref where the source asserts it. */
  method SumRound(n: int, keys: seq<int>, s: map<int, int>, p: int) returns (s': map<int, int>)
    requires (n == 0 || LucyApplies(n)) && keys == SumKeys(n) && 2 <= p <= Isqrt(n)
    requires SievedTo(keys, s, p - 1, 1)
    ensures SievedTo(keys, s', p, 1)
  {
    HedgehogKeys(n);
    var ok;
    s', ok := SieveRound(s, keys, p, 1);
    assert ok;
    TableMatchesReference(n, s', keys, p);
    assert InvariantHolds(n, s', keys, p);
  }
}
