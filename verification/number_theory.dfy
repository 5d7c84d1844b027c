/**
 Elementary number theory the prime-factor module relies on: primality,
 divisibility, the smallest divisor of a number, the integer square root
 and the reference prime factorization that the trial-division algorithm
 is proved to compute.
 */
module NumberTheory {

  /** n is prime: at least 2 and no divisor strictly between 1 and n. */
  predicate IsPrime(n: int) {
    n >= 2 && forall d :: 2 <= d < n ==> n % d != 0
  }

  /** No integer d with 2 <= d < b divides m. */
  predicate NoDivisorBelow(m: int, b: int) {
    forall d :: 2 <= d < b ==> m % d != 0
  }

  predicate AllPrime(s: seq<int>) {
    forall i :: 0 <= i < |s| ==> IsPrime(s[i])
  }

  predicate NonDecreasing(s: seq<int>) {
    forall i, j :: 0 <= i < j < |s| ==> s[i] <= s[j]
  }

  predicate StrictlyIncreasing(s: seq<int>) {
    forall i, j :: 0 <= i < j < |s| ==> s[i] < s[j]
  }

  /** fs is a prime factorization of n: primes in ascending order whose
      product is n. */
  predicate IsPrimeFactorization(n: int, fs: seq<int>) {
    Product(fs) == n && AllPrime(fs) && NonDecreasing(fs)
  }

  /** The product of the numbers in s; the empty product is 1. */
  function Product(s: seq<int>): int {
    if |s| == 0 then 1 else s[0] * Product(s[1..])
  }

  // ---------------------------------------------------------------------
  // Divisibility
  // ---------------------------------------------------------------------

  /** Euclidean division is unique: k == p * q + r with 0 <= r < p fixes
      the quotient and the remainder. */
  lemma DivModUnique(k: int, p: int, q: int, r: int)
    requires p > 0 && 0 <= r < p && k == p * q + r
    ensures k / p == q && k % p == r
  {
    var q', r' := k / p, k % p;
    assert p * (q - q') == r' - r;
    if q - q' >= 1 {
      MulMonotone(1, q - q', p);
    } else if q - q' <= -1 {
      MulMonotone(1, q' - q, p);
    }
  }

  lemma ModOfMultiple(a: int, k: int)
    requires a > 0
    ensures (a * k) % a == 0
  {
    DivModUnique(a * k, a, k, 0);
  }

  /** a divides b and b divides c, so a divides c. */
  lemma DividesTransitive(a: int, b: int, c: int)
    requires a > 0 && b > 0
    requires b % a == 0 && c % b == 0
    ensures c % a == 0
  {
    var j, k := b / a, c / b;
    assert b == a * j;
    assert c == b * k;
    assert c == a * (j * k);
    ModOfMultiple(a, j * k);
  }

  /**
   When p divides m, m is p times the quotient, the quotient is positive
   and divides m too, and it is smaller than m unless p is 1.
   */
  lemma QuotientDivides(m: int, p: int)
    requires m > 0 && p > 0 && m % p == 0
    ensures m == p * (m / p)
    ensures m / p > 0 && m % (m / p) == 0
    ensures p >= 2 ==> m / p < m
  {
    var q := m / p;
    assert m == p * q;
    PositiveFactor(p, q);
    ModOfMultiple(q, p);
    assert q * p == m;
    if p >= 2 {
      MulMonotone(2, p, q);
    }
  }

  lemma PositiveFactor(p: int, q: int)
    requires p > 0 && p * q > 0
    ensures q > 0
  {
    if q <= 0 {
      MulMonotone(0, -q, p);
    }
  }

  lemma MulMonotone(a: int, b: int, c: int)
    requires 0 <= a <= b && 0 <= c
    ensures a * c <= b * c
  {
    assert b * c - a * c == (b - a) * c;
  }

  /** For non-negative numbers, squaring preserves strict order backwards. */
  lemma SquareOrder(e: int, b: int)
    requires 0 <= e && 0 <= b && e * e < b * b
    ensures e < b
  {
    if e >= b {
      MulMonotone(b, e, e);
      MulMonotone(b, e, b);
    }
  }

  // ---------------------------------------------------------------------
  // Smallest divisor
  // ---------------------------------------------------------------------

  /** The smallest divisor of n that is at least k. */
  function SmallestDivisorFrom(n: int, k: int): (d: int)
    requires 2 <= k <= n
    requires NoDivisorBelow(n, k)
    ensures k <= d <= n && n % d == 0 && NoDivisorBelow(n, d)
    decreases n - k
  {
    if n % k == 0 then k else SmallestDivisorFrom(n, k + 1)
  }

  /** The smallest divisor of n above 1. */
  function SmallestDivisor(n: int): (d: int)
    requires n >= 2
    ensures 2 <= d <= n && n % d == 0 && NoDivisorBelow(n, d)
  {
    SmallestDivisorFrom(n, 2)
  }

  lemma SmallestDivisorIsPrime(n: int)
    requires n >= 2
    ensures IsPrime(SmallestDivisor(n))
  {
    var d := SmallestDivisor(n);
    forall e | 2 <= e < d
      ensures d % e != 0
    {
      if d % e == 0 {
        DividesTransitive(e, d, n);
      }
    }
  }

  /** A divisor p of n with no divisor of n below it is n's smallest divisor. */
  lemma SmallestDivisorIs(n: int, p: int)
    requires 2 <= p <= n && n % p == 0 && NoDivisorBelow(n, p)
    ensures SmallestDivisor(n) == p
  {
    var d := SmallestDivisor(n);
    assert d >= p;
  }

  /** The cofactor k / d of the smallest divisor d < k is at least d. */
  lemma CofactorOfSmallestDivisor(k: int, d: int) returns (q: int)
    requires 2 <= d < k && k % d == 0 && NoDivisorBelow(k, d)
    ensures k == d * q && d <= q
  {
    q := k / d;
    QuotientDivides(k, d);
    PositiveFactor(d, q);
    assert q != 1;
    assert k % q == 0;
  }

  /** A number that is not prime has a divisor e >= 2 with e * e <= k. */
  lemma SquareDivisor(k: int) returns (e: int)
    requires k >= 2 && !IsPrime(k)
    ensures 2 <= e && e * e <= k && k % e == 0
  {
    var d := SmallestDivisor(k);
    assert d < k;
    var q := CofactorOfSmallestDivisor(k, d);
    MulMonotone(d, q, d);
    e := d;
  }

  /**
   Trial-division cut-off: a number m >= 2 that has no divisor below b,
   where b * b > m, is prime.
   */
  lemma PrimeByTrialBound(m: int, b: int)
    requires m >= 2 && b >= 0 && b * b > m
    requires NoDivisorBelow(m, b)
    ensures IsPrime(m)
  {
    if !IsPrime(m) {
      var e := SquareDivisor(m);
      SquareOrder(e, b);
      assert false;
    }
  }

  /**
   Extending a divisor-free prefix across a stretch of non-primes: if no
   number in [2, lo) divides m and no number in [lo, hi) is prime, then no
   number in [2, hi) divides m.
   */
  lemma GapExtend(m: int, lo: int, hi: int)
    requires m >= 1 && lo >= 2
    requires NoDivisorBelow(m, lo)
    requires forall d :: lo <= d < hi ==> !IsPrime(d)
    ensures NoDivisorBelow(m, hi)
  {
    forall d | 2 <= d < hi
      ensures m % d != 0
    {
      if lo <= d && m % d == 0 {
        var s := SmallestDivisor(d);
        SmallestDivisorIsPrime(d);
        assert s < lo;
        DividesTransitive(s, d, m);
      }
    }
  }

  /** Dividing m by one of its divisors keeps it free of small divisors. */
  lemma NoDivisorBelowQuotient(m: int, p: int, b: int)
    requires m >= 1 && p >= 1 && m % p == 0
    requires NoDivisorBelow(m, b)
    ensures NoDivisorBelow(m / p, b)
  {
    QuotientDivides(m, p);
    forall d | 2 <= d < b
      ensures (m / p) % d != 0
    {
      if (m / p) % d == 0 {
        DividesTransitive(d, m / p, m);
      }
    }
  }

  // ---------------------------------------------------------------------
  // Integer square root
  // ---------------------------------------------------------------------

  function IsqrtFrom(n: int, r: int): (s: int)
    requires 0 <= r <= n + 1 && r * r <= n
    ensures r <= s && s * s <= n < (s + 1) * (s + 1)
    decreases n + 1 - r
  {
    if (r + 1) * (r + 1) <= n then
      MulMonotone(1, r + 1, r + 1);
      IsqrtFrom(n, r + 1)
    else
      r
  }

  /** The largest r with r * r <= n: Math.floor(Math.sqrt(n)) on exact integers. */
  function Isqrt(n: int): (r: int)
    requires n >= 0
    ensures r >= 0 && r * r <= n < (r + 1) * (r + 1)
  {
    IsqrtFrom(n, 0)
  }

  // ---------------------------------------------------------------------
  // Reference factorization
  // ---------------------------------------------------------------------

  /** One step of the reference factorization keeps all of its guarantees. */
  lemma FactorizationStep(n: int, p: int, rest: seq<int>)
    requires n >= 2 && p == SmallestDivisor(n)
    requires Product(rest) == n / p
    requires AllPrime(rest) && NonDecreasing(rest)
    requires forall i :: 0 <= i < |rest| ==> (n / p) % rest[i] == 0
    ensures Product([p] + rest) == n
    ensures AllPrime([p] + rest) && NonDecreasing([p] + rest)
    ensures forall i :: 0 <= i < |[p] + rest| ==> n % ([p] + rest)[i] == 0
  {
    var fs := [p] + rest;
    assert fs[1..] == rest;
    QuotientDivides(n, p);
    assert Product(fs) == p * (n / p);
    SmallestDivisorIsPrime(n);
    forall i | 0 <= i < |rest|
      ensures n % rest[i] == 0 && p <= rest[i]
    {
      DividesTransitive(rest[i], n / p, n);
    }
    assert forall i :: 0 <= i < |fs| ==> n % fs[i] == 0 && p <= fs[i];
  }

  /**
   The prime factorization of n >= 1 with multiplicity, in ascending
   order: repeatedly split off the smallest divisor.
   */
  function Factorization(n: int): (fs: seq<int>)
    requires n >= 1
    decreases n
  {
    if n == 1 then []
    else
      var p := SmallestDivisor(n);
      QuotientDivides(n, p);
      [p] + Factorization(n / p)
  }

  /**
   The factorization multiplies back to n, consists of primes, is in
   ascending order, and every factor divides n.
   */
  lemma {:induction false} FactorizationCorrect(n: int)
    requires n >= 1
    ensures IsPrimeFactorization(n, Factorization(n))
    ensures forall i :: 0 <= i < |Factorization(n)| ==> n % Factorization(n)[i] == 0
    decreases n
  {
    if n > 1 {
      var p := SmallestDivisor(n);
      QuotientDivides(n, p);
      FactorizationCorrect(n / p);
      FactorizationStep(n, p, Factorization(n / p));
    }
  }

  /** A prime is its own factorization. */
  lemma FactorizationOfPrime(q: int)
    requires IsPrime(q)
    ensures Factorization(q) == [q]
  {
    SmallestDivisorIs(q, q);
    assert q / q == 1;
  }

  /** Dividing out the smallest divisor peels the first factor off. */
  lemma FactorizationUnfold(n: int, p: int)
    requires 2 <= p <= n && n % p == 0 && NoDivisorBelow(n, p)
    ensures n / p >= 1
    ensures Factorization(n) == [p] + Factorization(n / p)
  {
    SmallestDivisorIs(n, p);
    QuotientDivides(n, p);
  }
}
