/** Exact integer arithmetic used throughout: Euclidean division facts,
    integer square and cube roots, powers, and finite sums. */
module Arith {

  /** Division is determined by quotient and remainder. */
  lemma DivModUnique(x: int, d: int, q: int, r: int)
    requires d >= 1 && 0 <= r < d && x == d * q + r
    ensures x / d == q && x % d == r
  {
    var q', r' := x / d, x % d;
    MulDistributes(d, q - q', q');
    MulBounds(d, q - q');
  }

  /** A non-zero multiple of d is at least d away from 0. */
  lemma MulBounds(d: int, k: int)
    requires d >= 1
    ensures k >= 1 ==> d * k >= d
    ensures k <= -1 ==> d * k <= -d
  {
    if k >= 1 {
      MulAtLeast(d, k);
    } else if k <= -1 {
      MulAtLeast(d, -k);
      MulDistributes(d, k, -k);
    }
  }

  lemma MulAtLeast(d: int, k: int)
    requires d >= 1 && k >= 1
    ensures d * k >= d
  {}

  /** An exact divisor times its quotient gives the number back. */
  lemma DivExact(n: int, d: int)
    requires d >= 1 && n % d == 0
    ensures n == d * (n / d)
  {}

  lemma MulDivExact(d: int, m: int)
    requires d >= 1
    ensures (d * m) / d == m && (d * m) % d == 0
  {
    DivModUnique(d * m, d, m, 0);
  }

  lemma ModAddMultiple(x: int, d: int, m: int)
    requires d >= 1
    ensures (x + d * m) % d == x % d && (x + d * m) / d == x / d + m
  {
    DivModUnique(x + d * m, d, x / d + m, x % d);
  }

  /** The identity N div (a*b) == (N div a) div b. */
  lemma DivDiv(n: int, a: int, b: int)
    requires a >= 1 && b >= 1
    ensures n / a / b == n / (a * b)
  {
    var q1 := n / a;
    var q2 := q1 / b;
    var r1 := n % a;
    var r2 := q1 % b;
    MulDistributes(a, b * q2, r2);
    MulAssociate(a, b, q2);
    MulRemainder(a, r2, b);
    DivModUnique(n, a * b, q2, a * r2 + r1);
  }

  lemma MulDistributes(a: int, x: int, y: int)
    ensures a * (x + y) == a * x + a * y
  {}

  /** A multiple a * r of a with r < b stays at least a below a * b. */
  lemma MulRemainder(a: int, r: int, b: int)
    requires a >= 1 && 0 <= r < b
    ensures 0 <= a * r <= a * b - a
  {
    MulNonNegative(a, r);
    MulNonNegative(a, b - 1 - r);
    MulDistributes(a, r, b - 1 - r);
    MulDistributes(a, b - 1, 1);
  }

  /** One step of (n-1) div d and n div d. */
  lemma DivPredecessor(n: int, d: int)
    requires d >= 1
    ensures (n - 1) / d == if n % d == 0 then n / d - 1 else n / d
  {
    if n % d == 0 {
      DivModUnique(n - 1, d, n / d - 1, d - 1);
    } else {
      DivModUnique(n - 1, d, n / d, n % d - 1);
    }
  }

  lemma DivMonotone(m: int, n: int, d: int)
    requires d >= 1 && m <= n
    ensures m / d <= n / d
  {
    assert d * (m / d) <= m;
    assert n < d * (n / d + 1);
    MulCancel(d, m / d, n / d + 1);
  }

  lemma MulAssociate(a: int, b: int, c: int)
    ensures a * (b * c) == (a * b) * c
  {}

  lemma MulSwap(a: int, b: int, c: int)
    ensures a * (b * c) == b * (a * c)
  {}

  lemma MulCancel(d: int, a: int, c: int)
    requires d >= 1 && d * a < d * c
    ensures a < c
  {
    MulOrder(d, a, c);
  }

  lemma MulOrder(d: int, a: int, c: int)
    requires d >= 1
    ensures a < c || d * c <= d * a
  {
    if a >= c {
      MulNonNegative(d, a - c);
      MulDistributes(d, a - c, c);
    }
  }

  lemma MulNonNegative(d: int, k: int)
    requires d >= 0 && k >= 0
    ensures d * k >= 0
  {}

  lemma DivBelow(n: int, d: int)
    requires n >= 1 && d >= 2
    ensures n / d < n
  {}

  /** Divisibility is transitive. */
  lemma DividesTrans(a: int, b: int, c: int)
    requires a >= 1 && b >= 1 && b % a == 0 && c % b == 0
    ensures c % a == 0
  {
    var j := b / a;
    var k := c / b;
    DivExact(c, b);
    DivExact(b, a);
    assert c == a * (j * k);
    MulDivExact(a, j * k);
  }

  /** Integer square root: the r with r*r <= n < (r+1)*(r+1) (math.isqrt). */
  function Isqrt(n: int): (r: nat)
    requires n >= 0
    ensures r * r <= n < (r + 1) * (r + 1)
  {
    if n == 0 then 0
    else
      var s := Isqrt(n - 1);
      if (s + 1) * (s + 1) <= n then s + 1 else s
  }

  lemma IsqrtUnique(n: int, r: int)
    requires n >= 0 && r >= 0 && r * r <= n < (r + 1) * (r + 1)
    ensures Isqrt(n) == r
  {
    var s := Isqrt(n);
    SquareBelow(s, r + 1);
    SquareBelow(r, s + 1);
  }

  /** s*s <= n bounds s by isqrt(n). */
  lemma SquareAtMostIsqrt(s: int, n: int)
    requires s >= 0 && n >= 0 && s * s <= n
    ensures s <= Isqrt(n)
  {
    SquareBelow(s, Isqrt(n) + 1);
  }

  lemma MulMonotone(a: int, b: int)
    requires 0 <= a <= b
    ensures a * a <= b * b
  {
    assert a * a <= a * b;
  }

  /** Integer cube root: the c with c^3 <= n < (c+1)^3. */
  function Icbrt(n: int): (c: nat)
    requires n >= 0
    ensures c * c * c <= n < (c + 1) * (c + 1) * (c + 1)
  {
    if n == 0 then 0
    else
      var s := Icbrt(n - 1);
      if (s + 1) * (s + 1) * (s + 1) <= n then s + 1 else s
  }

  lemma CbrtBelowSqrt(n: int)
    requires n >= 0
    ensures Icbrt(n) <= Isqrt(n)
  {
    var c := Icbrt(n);
    CubeAtLeastSquare(c);
    SquareAtMostIsqrt(c, n);
  }

  lemma CubeAtLeastSquare(c: nat)
    ensures c * c <= c * c * c
  {
    if c >= 1 {
      MulNonNegative(c * c, c - 1);
      MulDistributes(c * c, c - 1, 1);
    }
  }

  lemma IsqrtMonotone(m: int, n: int)
    requires 0 <= m <= n
    ensures Isqrt(m) <= Isqrt(n)
  {
    var a, b := Isqrt(m), Isqrt(n);
    SquareBelow(a, b + 1);
  }

  lemma IsqrtBelow(n: int)
    requires n >= 2
    ensures 1 <= Isqrt(n) < n
  {
    var r := Isqrt(n);
    SquareAtMostIsqrt(1, n);
    MulAtLeast(n, n - 1);
    MulDistributes(n, n - 1, 1);
    SquareBelow(r, n);
  }

  /** The integer square root never exceeds its argument. */
  lemma IsqrtAtMost(n: int)
    requires n >= 0
    ensures Isqrt(n) <= n
  {
    SquareGrows(n);
    SquareBelow(Isqrt(n), n + 1);
  }

  lemma SquareGrows(n: int)
    requires n >= 0
    ensures n * n < (n + 1) * (n + 1)
  {
    MulDistributes(n + 1, n, 1);
    MulDistributes(n, n, 1);
  }

  lemma IcbrtBelow(n: int)
    requires n >= 2
    ensures 1 <= Icbrt(n) < n
  {
    CbrtBelowSqrt(n);
    IsqrtBelow(n);
  }

  /** x to the power k. */
  function Pow(x: int, k: nat): int
  {
    if k == 0 then 1 else x * Pow(x, k - 1)
  }

  lemma {:induction false} PowMul(x: int, y: int, k: nat)
    ensures Pow(x * y, k) == Pow(x, k) * Pow(y, k)
  {
    if k > 0 {
      PowMul(x, y, k - 1);
      calc {
        Pow(x * y, k);
        (x * y) * (Pow(x, k - 1) * Pow(y, k - 1));
        (x * Pow(x, k - 1)) * (y * Pow(y, k - 1));
      }
    }
  }

  lemma {:induction false} PowPositive(x: int, k: nat)
    requires x >= 1
    ensures Pow(x, k) >= 1
  {
    if k > 0 {
      PowPositive(x, k - 1);
      MulAtLeast(Pow(x, k - 1), x);
    }
  }

  /** The sum of f(x) over 1 <= x <= n. */
  function Sum(n: int, f: int -> int): int
    decreases n
  {
    if n <= 0 then 0 else Sum(n - 1, f) + f(n)
  }

  lemma {:induction false} SumExt(n: int, f: int -> int, g: int -> int)
    requires forall x :: 1 <= x <= n ==> f(x) == g(x)
    ensures Sum(n, f) == Sum(n, g)
    decreases n
  {
    if n > 0 { SumExt(n - 1, f, g); }
  }

  lemma {:induction false} SumAdd(n: int, f: int -> int, g: int -> int, h: int -> int)
    requires forall x :: 1 <= x <= n ==> h(x) == f(x) + g(x)
    ensures Sum(n, h) == Sum(n, f) + Sum(n, g)
    decreases n
  {
    if n > 0 { SumAdd(n - 1, f, g, h); }
  }

  lemma {:induction false} SumScale(n: int, c: int, f: int -> int, g: int -> int)
    requires forall x :: 1 <= x <= n ==> g(x) == c * f(x)
    ensures Sum(n, g) == c * Sum(n, f)
    decreases n
  {
    if n > 0 { SumScale(n - 1, c, f, g); }
  }

  lemma {:induction false} SumZero(n: int, f: int -> int)
    requires forall x :: 1 <= x <= n ==> f(x) == 0
    ensures Sum(n, f) == 0
    decreases n
  {
    if n > 0 { SumZero(n - 1, f); }
  }

  lemma {:induction false} SumOfOnes(n: int, f: int -> int)
    requires n >= 0
    requires forall x :: 1 <= x <= n ==> f(x) == 1
    ensures Sum(n, f) == n
    decreases n
  {
    if n > 0 { SumOfOnes(n - 1, f); }
  }

  lemma {:induction false} SumNonNegative(n: int, f: int -> int)
    requires forall x :: 1 <= x <= n ==> f(x) >= 0
    ensures Sum(n, f) >= 0
    decreases n
  {
    if n > 0 { SumNonNegative(n - 1, f); }
  }

  /** The terms above m contribute nothing, so the sum stops growing at m. */
  lemma {:induction false} SumConstantAbove(m: int, n: int, f: int -> int)
    requires m <= n
    requires forall x :: m < x <= n ==> f(x) == 0
    ensures Sum(n, f) == Sum(m, f)
    decreases n - m
  {
    if n > m { SumConstantAbove(m, n - 1, f); }
  }

  /** Re-indexing by multiples: summing g(x div p) over the multiples x of p up to n
      is summing g over 1..n div p. */
  lemma {:induction false} SumMultiples(n: int, p: int, f: int -> int, g: int -> int)
    requires p >= 1
    requires forall x :: 1 <= x <= n ==> f(x) == if x % p == 0 then g(x / p) else 0
    ensures Sum(n, f) == Sum(n / p, g)
    decreases n
  {
    if n <= 0 {
      DivMonotone(n, 0, p);
    } else {
      SumMultiples(n - 1, p, f, g);
      DivPredecessor(n, p);
    }
  }

  /** The terms above m: summing f over m < x <= n is Sum(n, f) - Sum(m, f). */
  lemma {:induction false} SumTail(m: int, n: int, f: int -> int, h: int -> int)
    requires m <= n
    requires forall x :: 1 <= x <= n ==> h(x) == if x > m then f(x) else 0
    ensures Sum(n, h) == Sum(n, f) - Sum(m, f)
    decreases n - m
  {
    if n == m {
      SumZero(m, h);
    } else {
      SumTail(m, n - 1, f, h);
    }
  }

  /** (b - a)(b + a - 1)/2, the sum of i - 1 over a < i <= b, loses a when a grows by one. */
  lemma TriangleStep(a: int, b: int)
    ensures (b - a) * (b + a - 1) / 2 == (b - (a + 1)) * (b + (a + 1) - 1) / 2 + a
  {
    assert (b - a) * (b + a - 1) == (b - (a + 1)) * (b + (a + 1) - 1) + 2 * a;
    ModAddMultiple((b - (a + 1)) * (b + (a + 1) - 1), 2, a);
  }

  lemma CubeMonotone(a: int, b: int)
    requires 0 <= a <= b
    ensures a * a * a <= b * b * b
  {
    MulMonotone(a, b);
    assert a * a * a <= b * b * a;
    MulNonNegative(b * b, b - a);
  }

  /** A larger divisor gives a smaller quotient. */
  lemma DivAntitone(n: int, a: int, b: int)
    requires n >= 0 && 1 <= a <= b
    ensures n / b <= n / a
  {
    var q := n / b;
    MulNonNegative(b - a, q);
    assert a * q <= n;
    MulDivExact(a, q);
    DivMonotone(a * q, n, a);
  }

  /** Below the square root the quotients n div i strictly decrease. */
  lemma DivStrictDescent(n: int, i: int)
    requires i >= 1 && i * (i + 1) <= n
    ensures n / (i + 1) < n / i
  {
    var q := n / (i + 1);
    MulDivExact(i + 1, i);
    MulCommutes(i, i + 1);
    DivMonotone((i + 1) * i, n, i + 1);
    DivModUnique(n, i + 1, q, n % (i + 1));
    MulDistributes(i, q, 1);
    MulCommutes(i + 1, q);
    MulDistributes(q, i, 1);
    MulCommutes(i, q);
    MulDivExact(i, q + 1);
    DivMonotone(i * (q + 1), n, i);
  }

  lemma MulCommutes(a: int, b: int)
    ensures a * b == b * a
  {}

  /** 1 + 2 + ... + n. */
  lemma {:induction false} SumOfNaturals(n: int, f: int -> int)
    requires n >= 0
    requires forall x :: 1 <= x <= n ==> f(x) == x
    ensures Sum(n, f) == n * (n + 1) / 2
    decreases n
  {
    if n > 0 {
      SumOfNaturals(n - 1, f);
      assert (n - 1) * n + 2 * n == n * (n + 1);
      ModAddMultiple((n - 1) * n, 2, n);
    }
  }

  /** Squares strictly order their non-negative roots. */
  lemma SquareBelow(a: int, b: int)
    requires 0 <= a && 0 <= b && a * a < b * b
    ensures a < b
  {
    SquareOrder(a, b);
  }

  lemma SquareOrder(a: int, b: int)
    requires 0 <= a && 0 <= b
    ensures a < b || b * b <= a * a
  {
    if b <= a {
      MulMonotone(b, a);
    }
  }

  /** Every i <= p * p has its square root at most p. */
  lemma IsqrtAtMostRoot(i: int, p: int)
    requires 0 <= i && 0 <= p && i <= p * p
    ensures Isqrt(i) <= p
  {
    SquareGrows(p);
    SquareBelow(Isqrt(i), p + 1);
  }
}
