/**
 The prime cache generator of prime_factors.ts: a Sieve of Eratosthenes
 whose result is remembered together with the limit it was computed for,
 so that later requests for a limit that is not larger are answered by
 filtering the remembered primes.

 The source keeps the cache in two module-level variables; here the cache
 is a value that each request takes and returns, which makes the state
 before and after every call explicit.
 */
module PrimeCache {
  import opened NumberTheory

  // ---------------------------------------------------------------------
  // Reference definition
  // ---------------------------------------------------------------------

  /** The primes p with 2 <= p <= limit, in ascending order. */
  function PrimesUpTo(limit: int): (ps: seq<int>)
    ensures StrictlyIncreasing(ps)
    ensures forall x :: x in ps <==> 2 <= x <= limit && IsPrime(x)
    decreases limit
  {
    if limit < 2 then []
    else
      var smaller := PrimesUpTo(limit - 1);
      assert forall i :: 0 <= i < |smaller| ==> smaller[i] in smaller && smaller[i] < limit;
      smaller + (if IsPrime(limit) then [limit] else [])
  }

  /** Between two consecutive primes of PrimesUpTo(limit) (or before the
      first one, or after the last one up to limit) there is no prime. */
  lemma PrimesUpToGap(limit: int, i: int)
    requires 0 <= i <= |PrimesUpTo(limit)|
    ensures var ps := PrimesUpTo(limit);
      forall d :: (if i == 0 then 2 else ps[i - 1] + 1) <= d < (if i < |ps| then ps[i] else limit + 1)
        ==> !IsPrime(d)
  {
  }

  /** A smaller limit gives a prefix of the primes of a larger limit. */
  lemma {:induction false} PrimesUpToPrefix(a: int, b: int)
    requires a <= b
    ensures PrimesUpTo(a) <= PrimesUpTo(b)
    decreases b - a
  {
    if a < b {
      PrimesUpToPrefix(a, b - 1);
      if b >= 2 {
        assert PrimesUpTo(b - 1) <= PrimesUpTo(b);
      }
    }
  }

  // ---------------------------------------------------------------------
  // Fast path: filtering the cache
  // ---------------------------------------------------------------------

  /** The elements of s that are at most bound, in their original order. */
  function AtMost(s: seq<int>, bound: int): (r: seq<int>)
    ensures forall x :: x in r <==> x in s && x <= bound
    ensures |r| <= |s|
  {
    if |s| == 0 then []
    else (if s[0] <= bound then [s[0]] else []) + AtMost(s[1..], bound)
  }

  lemma {:induction false} AtMostAppend(a: seq<int>, b: seq<int>, bound: int)
    ensures AtMost(a + b, bound) == AtMost(a, bound) + AtMost(b, bound)
    decreases |a|
  {
    if |a| > 0 {
      assert (a + b)[1..] == a[1..] + b;
      AtMostAppend(a[1..], b, bound);
    } else {
      assert a + b == b;
    }
  }

  lemma {:induction false} AtMostKeepsAll(s: seq<int>, bound: int)
    requires forall x :: x in s ==> x <= bound
    ensures AtMost(s, bound) == s
    decreases |s|
  {
    if |s| > 0 {
      assert s[0] in s;
      assert forall x :: x in s[1..] ==> x in s;
      AtMostKeepsAll(s[1..], bound);
      assert [s[0]] + s[1..] == s;
    }
  }

  /**
   Filtering the primes up to a larger limit L down to limit gives exactly
   the primes up to limit: the fast path agrees with a fresh sieve.
   */
  lemma {:induction false} FastPathAgreesWithSieve(big: int, limit: int)
    requires limit <= big
    ensures AtMost(PrimesUpTo(big), limit) == PrimesUpTo(limit)
    decreases big - limit
  {
    if big == limit {
      AtMostKeepsAll(PrimesUpTo(limit), limit);
    } else if big < 2 {
      assert PrimesUpTo(big) == [] && PrimesUpTo(limit) == [];
    } else {
      var tail := if IsPrime(big) then [big] else [];
      assert PrimesUpTo(big) == PrimesUpTo(big - 1) + tail;
      AtMostAppend(PrimesUpTo(big - 1), tail, limit);
      FastPathAgreesWithSieve(big - 1, limit);
      assert AtMost(tail, limit) == [];
    }
  }

  // ---------------------------------------------------------------------
  // Sieve of Eratosthenes
  // ---------------------------------------------------------------------

  /** k has a divisor d with 2 <= d < b and d * d <= k: the sieve has
      crossed k out once every candidate below b has been treated. */
  predicate CrossedOut(k: int, b: int) {
    exists d :: 2 <= d < b && d * d <= k && k % d == 0
  }

  /** Treating candidate p crosses out exactly the multiples of p from p * p on. */
  lemma CrossedOutStep(k: int, p: int)
    requires p >= 2
    ensures CrossedOut(k, p + 1) <==> CrossedOut(k, p) || (p * p <= k && k % p == 0)
  {
    if CrossedOut(k, p + 1) && !CrossedOut(k, p) {
      var d :| 2 <= d < p + 1 && d * d <= k && k % d == 0;
      assert d == p;
    }
  }

  /** A candidate p that is itself crossed out crosses out nothing new. */
  lemma CrossedOutByComposite(k: int, p: int)
    requires p >= 2 && k >= 1 && CrossedOut(p, p)
    ensures CrossedOut(k, p + 1) <==> CrossedOut(k, p)
  {
    CrossedOutStep(k, p);
    if p * p <= k && k % p == 0 {
      var d :| 2 <= d < p && d * d <= p && p % d == 0;
      DividesTransitive(d, p, k);
      MulMonotone(1, p, p);
      assert CrossedOut(k, p) by {
        assert 2 <= d < p && d * d <= k && k % d == 0;
      }
    }
  }

  /** Once b * b exceeds k, being crossed out is the same as being composite. */
  lemma CrossedOutIffComposite(k: int, b: int)
    requires k >= 2 && b >= 2 && k < b * b
    ensures CrossedOut(k, b) <==> !IsPrime(k)
  {
    if CrossedOut(k, b) {
      var d :| 2 <= d < b && d * d <= k && k % d == 0;
      MulMonotone(2, d, d);
      assert d < k;
    }
    if !IsPrime(k) {
      var e := SquareDivisor(k);
      SquareOrder(e, b);
      assert 2 <= e < b && e * e <= k && k % e == 0;
    }
  }

  /** The inner loop of the sieve: cross out p * p, p * p + p, ... up to limit. */
  method CrossOutMultiples(sieve: array<bool>, p: int, limit: int)
    requires sieve.Length == limit + 1 && 2 <= p && p * p <= limit
    requires forall k :: 2 <= k <= limit ==> (sieve[k] <==> !CrossedOut(k, p))
    modifies sieve
    ensures forall k :: 2 <= k <= limit ==> (sieve[k] <==> !CrossedOut(k, p + 1))
    ensures forall k :: 0 <= k < 2 && k < sieve.Length ==> sieve[k] == old(sieve[k])
  {
    var multiple := p * p;
    ModOfMultiple(p, p);
    while multiple <= limit
      invariant multiple >= p * p && multiple % p == 0
      invariant forall k :: 0 <= k < 2 && k < sieve.Length ==> sieve[k] == old(sieve[k])
      invariant forall k :: 2 <= k <= limit ==>
        (sieve[k] <==> !CrossedOut(k, p) && !(p * p <= k < multiple && k % p == 0))
      decreases limit - multiple
    {
      sieve[multiple] := false;
      NextMultiple(multiple, p);
      multiple := multiple + p;
    }
    forall k | 2 <= k <= limit
      ensures sieve[k] <==> !CrossedOut(k, p + 1)
    {
      CrossedOutStep(k, p);
    }
  }

  /** The next multiple of p after the multiple m is m + p. */
  lemma NextMultiple(m: int, p: int)
    requires p >= 1 && m % p == 0
    ensures (m + p) % p == 0
    ensures forall k :: m < k < m + p ==> k % p != 0
  {
    var q := m / p;
    assert m == p * q;
    DivModUnique(m + p, p, q + 1, 0);
    forall k | m < k < m + p
      ensures k % p != 0
    {
      DivModUnique(k, p, q, k - m);
    }
  }

  /**
   The outer loop of the sieve: for every p with p * p <= limit that is
   still marked, cross out its multiples from p * p on. Afterwards exactly
   the primes in 2..limit are marked.
   */
  method CrossOutComposites(sieve: array<bool>, limit: int)
    requires sieve.Length == limit + 1
    requires forall k :: 2 <= k <= limit ==> sieve[k]
    modifies sieve
    ensures forall k :: 2 <= k <= limit ==> (sieve[k] <==> IsPrime(k))
    ensures forall k :: 0 <= k < 2 && k < sieve.Length ==> sieve[k] == old(sieve[k])
  {
    var p := 2;
    while p * p <= limit
      invariant 2 <= p
      invariant forall k :: 0 <= k < 2 && k < sieve.Length ==> sieve[k] == old(sieve[k])
      invariant forall k :: 2 <= k <= limit ==> (sieve[k] <==> !CrossedOut(k, p))
      decreases limit - p
    {
      MulMonotone(1, p, p);
      if sieve[p] {
        CrossOutMultiples(sieve, p, limit);
      } else {
        forall k | 2 <= k <= limit
          ensures sieve[k] <==> !CrossedOut(k, p + 1)
        {
          CrossedOutByComposite(k, p);
        }
      }
      p := p + 1;
    }
    forall k | 2 <= k <= limit
      ensures sieve[k] <==> IsPrime(k)
    {
      CrossedOutIffComposite(k, p);
    }
  }

  /**
   The sieve of prime_factors.ts: mark 2..limit as prime, then for every p
   with p * p <= limit that is still marked, cross out p*p, p*p + p, ...
   up to limit; finally collect the marked numbers in ascending order.
   */
  method Sieve(limit: int) returns (primes: seq<int>)
    requires limit >= 1
    ensures primes == PrimesUpTo(limit)
  {
    var sieve := new bool[limit + 1](_ => true);
    sieve[0] := false;
    sieve[1] := false;
    CrossOutComposites(sieve, limit);
    primes := [];
    var i := 2;
    while i <= limit
      invariant 2 <= i <= limit + 1
      invariant primes == PrimesUpTo(i - 1)
    {
      if sieve[i] {
        primes := primes + [i];
      }
      i := i + 1;
    }
  }

  // ---------------------------------------------------------------------
  // The cache
  // ---------------------------------------------------------------------

  /** The module state: the primes generated so far and the limit they cover. */
  datatype Cache = Cache(primes: seq<int>, limit: int) {
    /** The cache holds exactly the ascending primes up to its limit. */
    predicate Valid(): (ok: bool)
      ensures ok ==> limit >= 1 && StrictlyIncreasing(primes)
      ensures ok ==> forall x :: x in primes <==> 2 <= x <= limit && IsPrime(x)
    {
      limit >= 1 && primes == PrimesUpTo(limit)
    }
  }

  /** The state before the first request: no primes, limit 1. */
  const Initial: Cache := Cache([], 1)

  lemma InitialIsValid()
    ensures Initial.Valid()
  {
  }

  /**
   generatePrimes: answer from the cache when limit is not above the
   cached limit, otherwise sieve up to limit and replace the cache.
   */
  method GeneratePrimes(cache: Cache, limit: int) returns (primes: seq<int>, cache': Cache)
    requires cache.Valid()
    ensures primes == PrimesUpTo(limit)
    ensures cache'.Valid()
    ensures cache'.limit == if limit > cache.limit then limit else cache.limit
    ensures limit <= cache.limit ==> cache' == cache
  {
    if limit <= cache.limit {
      FastPathAgreesWithSieve(cache.limit, limit);
      return AtMost(cache.primes, limit), cache;
    }
    var found := Sieve(limit);
    cache' := Cache(found, limit);
    primes := found;
  }
}
