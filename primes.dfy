/** The prime-capacity policy shared by both hash maps: the primality test,
    the search for the next odd prime, and the arithmetic facts behind them. */
module Primes {

  /** n is prime: at least 2, and no number strictly between 1 and n divides it. */
  ghost predicate IsPrime(n: int) {
    n >= 2 && forall d :: 2 <= d < n ==> n % d != 0
  }

  /** p is the least odd prime that is at least n. */
  ghost predicate IsNextOddPrime(n: int, p: int) {
    && p >= n && p % 2 == 1 && IsPrime(p)
    && forall k :: n <= k < p && k % 2 == 1 ==> !IsPrime(k)
  }

  // ---------------------------------------------------------------------
  // Arithmetic helpers

  /** Euclidean division is unique. */
  lemma DivModUnique(a: int, k: int, q: int, r: int)
    requires k > 0 && 0 <= r < k && a == k * q + r
    ensures a / k == q && a % k == r
  {
    var q', r' := a / k, a % k;
    var d := q' - q;
    assert k * q' == k * q + k * d;
    assert k * d == r - r';
    if d >= 1 {
      MulAtLeast(k, d);
    } else if d <= -1 {
      MulAtLeast(k, -d);
    }
  }

  lemma MulAtLeast(k: int, x: int)
    requires k > 0 && x >= 1
    ensures k * x >= k
  {
  }

  lemma MultipleMod(k: int, t: int)
    requires k > 0
    ensures (k * t) % k == 0
  {
    DivModUnique(k * t, k, t, 0);
  }

  /** A multiple of k plus one leaves remainder one. */
  lemma MultiplePlusOneMod(a: int, k: int)
    requires k > 1 && a % k == 0
    ensures (a + 1) % k == 1
  {
    var t := a / k;
    assert a == k * t;
    DivModUnique(a + 1, k, t, 1);
  }

  /** Divisibility is transitive. */
  lemma DividesTransitive(a: int, b: int, c: int)
    requires a > 0 && b > 0 && b % a == 0 && c % b == 0
    ensures c % a == 0
  {
    var x, y := b / a, c / b;
    assert b == a * x;
    assert c == b * y;
    assert c == a * (x * y);
    MultipleMod(a, x * y);
  }

  /** An odd number has no even divisor. */
  lemma OddHasNoEvenDivisor(n: int, d: int)
    requires n % 2 == 1 && d > 0 && d % 2 == 0
    ensures n % d != 0
  {
    if n % d == 0 {
      var q, e := n / d, d / 2;
      assert d == 2 * e;
      assert n == 2 * (e * q);
      MultipleMod(2, e * q);
    }
  }

  /** If no number below f (with f * f > n) divides n, then n is prime. */
  lemma NoSmallDivisorMeansPrime(n: int, f: int)
    requires n >= 2 && f >= 2 && f * f > n
    requires forall d :: 2 <= d < f ==> n % d != 0
    ensures IsPrime(n)
  {
    forall d | 2 <= d < n
      ensures n % d != 0
    {
      if d >= f && n % d == 0 {
        var q := Cofactor(n, d);
        ProductAtLeastSquare(d, q, f);
      }
    }
  }

  /** The cofactor of a proper divisor is itself a proper divisor. */
  lemma Cofactor(n: int, d: int) returns (q: int)
    requires 2 <= d < n && n % d == 0
    ensures q >= 2 && n % q == 0 && n == d * q
  {
    q := n / d;
    if q <= 1 {
      MulAtMost(d, q);
    }
    MultipleMod(q, d);
    assert n == q * d;
  }

  lemma MulAtMost(d: int, q: int)
    requires d > 0 && q <= 1
    ensures d * q <= d
  {
  }

  lemma ProductAtLeastSquare(d: int, q: int, f: int)
    requires d >= f >= 0
    ensures q >= f ==> d * q >= f * f
  {
    if q >= f {
      assert d * q >= f * q;
      assert f * q >= f * f;
    }
  }

  /** Adding a multiple of k does not change the remainder. */
  lemma AddMultipleMod(a: int, k: int, m: int)
    requires k > 0
    ensures (a + k * m) % k == a % k
  {
    assert a + k * m == k * (a / k + m) + a % k;
    DivModUnique(a + k * m, k, a / k + m, a % k);
  }

  /** Two numbers with the same remainder differ by a multiple. */
  lemma SameRemainder(x: int, y: int, p: int)
    requires p > 0 && x % p == y % p
    ensures (y - x) % p == 0
  {
    assert y - x == p * (y / p - x / p);
    MultipleMod(p, y / p - x / p);
  }

  /** Arithmetic modulo a prime has no zero divisors: a prime divides no
      product of two numbers strictly between 0 and itself. */
  lemma {:induction false} NoZeroDivisors(p: int, a: int, b: int)
    requires IsPrime(p) && 0 < a < p && 0 < b < p
    ensures (a * b) % p != 0
    decreases b
  {
    if b == 1 {
      DivModUnique(a, p, 0, a);
    } else if (a * b) % p == 0 {
      var q, r := p / b, p % b;
      assert r != 0;
      var t := (a * b) / p;
      assert a * b == p * t;
      assert a * r == a * (p - b * q);
      assert a * r == p * (a - q * t);
      MultipleMod(p, a - q * t);
      NoZeroDivisors(p, a, r);
    }
  }

  // ---------------------------------------------------------------------
  // Euclid: there is always a larger odd prime

  ghost function Factorial(n: nat): (r: nat)
    ensures r >= 1
  {
    if n == 0 then 1 else n * Factorial(n - 1)
  }

  lemma {:induction false} FactorialDivisible(n: nat, k: int)
    requires 1 <= k <= n
    ensures Factorial(n) % k == 0
  {
    if k == n {
      MultipleMod(n, Factorial(n - 1));
    } else {
      FactorialDivisible(n - 1, k);
      MultipleMod(Factorial(n - 1), n);
      DividesTransitive(k, Factorial(n - 1), Factorial(n));
    }
  }

  /** The least divisor of m that is at least 2 is prime. */
  lemma LeastDivisor(m: int) returns (d: int)
    requires m >= 2
    ensures 2 <= d <= m && m % d == 0 && IsPrime(d)
  {
    d := 2;
    while m % d != 0
      invariant 2 <= d <= m
      invariant forall e :: 2 <= e < d ==> m % e != 0
      decreases m - d
    {
      d := d + 1;
    }
    forall e | 2 <= e < d
      ensures d % e != 0
    {
      if d % e == 0 {
        DividesTransitive(e, d, m);
      }
    }
  }

  /** Euclid's argument: n! + 1 has a prime factor above n, and above 2 it is odd. */
  lemma OddPrimeAtLeast(n: int) returns (p: int)
    ensures p >= n && p % 2 == 1 && IsPrime(p)
  {
    var m: nat := if n < 2 then 2 else n;
    var f := Factorial(m);
    var g := f + 1;
    p := LeastDivisor(g);
    forall k | 2 <= k <= m
      ensures g % k != 0
    {
      FactorialDivisible(m, k);
      MultiplePlusOneMod(f, k);
    }
    assert p > 2;
  }

  // ---------------------------------------------------------------------
  // The policy itself

  /** The primality test by trial division: 2 and 3 are prime, 1 and even
      numbers are not, and odd factors from 3 are tried while their square
      does not exceed the candidate. A negative odd input passes the test. */
  method IsPrimeTest(n: int) returns (b: bool)
    ensures n >= 0 ==> (b <==> IsPrime(n))
    ensures n < 0 ==> (b <==> n % 2 == 1)
  {
    if n == 2 || n == 3 {
      return true;
    }
    if n == 1 || n % 2 == 0 {
      return false;
    }
    var factor := 3;
    while factor * factor <= n
      invariant 3 <= factor && factor % 2 == 1
      invariant forall d :: 2 <= d < factor ==> n % d != 0
    {
      if n % factor == 0 {
        assert factor < n by { assert factor * factor >= 3 * factor; }
        return false;
      }
      OddHasNoEvenDivisor(n, factor + 1);
      factor := factor + 2;
    }
    if n >= 0 {
      NoSmallDivisorMeansPrime(n, factor);
    }
    return true;
  }

  /** The next prime search: an even start is bumped to odd, then the
      candidate climbs by 2 until it is prime. The answer is therefore the
      least ODD prime at or above n (2 is never returned). */
  method NextPrime(n: int) returns (p: int)
    requires n >= 0
    ensures IsNextOddPrime(n, p)
  {
    p := n;
    if p % 2 == 0 {
      p := p + 1;
    }
    ghost var bound := OddPrimeAtLeast(p);
    var prime := IsPrimeTest(p);
    while !prime
      invariant n <= p <= bound && p % 2 == 1
      invariant prime <==> IsPrime(p)
      invariant forall k :: n <= k < p && k % 2 == 1 ==> !IsPrime(k)
      decreases bound - p
    {
      p := p + 2;
      prime := IsPrimeTest(p);
    }
  }

  /** Concrete capacities used by the source's scenarios: 20 -> 23, 30 -> 31,
      1 -> 3, 2 -> 3. */
  lemma NextPrimeExamples()
    ensures IsNextOddPrime(20, 23) && IsNextOddPrime(30, 31)
    ensures IsNextOddPrime(1, 3) && IsNextOddPrime(2, 3)
  {
    assert !IsPrime(21) by { assert 21 % 3 == 0; }
    assert IsPrime(23) by { NoSmallDivisorMeansPrime(23, 5); }
    assert IsPrime(31) by { NoSmallDivisorMeansPrime(31, 6); }
    assert IsPrime(3) by { NoSmallDivisorMeansPrime(3, 2); }
    assert !IsPrime(1);
  }
}
