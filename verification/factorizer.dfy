/**
 The factorizer of prime_factors.ts: trial division by the primes up to
 the integer square root of n, taken from the prime cache, with the
 leftover remainder appended as the last prime factor; and the batch
 operation that factorizes every number of a list in order.
 */
module Factorizer {
  import opened NumberTheory
  import opened PrimeCache

  /** The two inputs factorize refuses. */
  datatype FactorError =
    | NegativeInput   // "negative numbers are not supported"
    | ZeroInput       // "zero cannot be factorized into primes"

  /** A value, or the error that was thrown instead. */
  datatype Result<T> = Success(value: T) | Failure(error: FactorError)

  /** One entry of the batch result: the input number and its factors. */
  datatype Entry = Entry(number: int, factors: seq<int>)

  /** The error factorize throws for an input below 1. */
  function ErrorFor(n: int): FactorError
    requires n < 1
  {
    if n < 0 then NegativeInput else ZeroInput
  }

  /**
   factorize: reject negative numbers and zero, return [] for 1, and
   otherwise divide out the cached primes up to the square root of n in
   ascending order, stopping once p * p exceeds what is left; a leftover
   above 1 is the last prime factor.
   */
  method Factorize(cache: Cache, n: int) returns (r: Result<seq<int>>, cache': Cache)
    requires cache.Valid()
    ensures n < 0 ==> r == Failure(NegativeInput)
    ensures n == 0 ==> r == Failure(ZeroInput)
    ensures n == 1 ==> r == Success([])
    ensures n >= 1 ==> r == Success(Factorization(n))
    ensures r.Success? ==> IsPrimeFactorization(n, r.value)
    ensures cache'.Valid()
    ensures n < 2 ==> cache' == cache
    ensures n >= 2 ==> cache'.limit == if Isqrt(n) > cache.limit then Isqrt(n) else cache.limit
  {
    if n < 0 {
      return Failure(NegativeInput), cache;
    }
    if n == 0 {
      return Failure(ZeroInput), cache;
    }
    FactorizationCorrect(n);
    if n == 1 {
      return Success([]), cache;
    }
    var limit := Isqrt(n);
    var primes;
    primes, cache' := GeneratePrimes(cache, limit);
    var factors := TrialDivision(n, limit, primes);
    r := Success(factors);
  }

  /** One pass of the inner loop: dividing p out of rest moves one factor p
      from the unfactored part to the factors found. */
  lemma PeelFactor(m: int, divided: seq<int>, rest: int, p: int)
    requires m >= 1 && 2 <= p && 1 <= rest && rest % p == 0 && NoDivisorBelow(rest, p)
    requires Factorization(m) == divided + Factorization(rest)
    ensures 1 <= rest / p < rest && NoDivisorBelow(rest / p, p)
    ensures Factorization(m) == (divided + [p]) + Factorization(rest / p)
  {
    QuotientDivides(rest, p);
    FactorizationUnfold(rest, p);
    NoDivisorBelowQuotient(rest, p, p);
  }

  /**
   Divides p out of m as often as it goes: m's factorization starts with
   the copies of p split off, and what is left has no divisor up to p.
   */
  method DivideOut(m: int, p: int) returns (divided: seq<int>, rest: int)
    requires m >= 1 && p >= 2 && NoDivisorBelow(m, p)
    ensures 1 <= rest <= m && NoDivisorBelow(rest, p + 1)
    ensures forall k :: 0 <= k < |divided| ==> divided[k] == p
    ensures Factorization(m) == divided + Factorization(rest)
  {
    divided, rest := [], m;
    while rest % p == 0
      invariant 1 <= rest <= m
      invariant NoDivisorBelow(rest, p)
      invariant forall k :: 0 <= k < |divided| ==> divided[k] == p
      invariant Factorization(m) == divided + Factorization(rest)
      decreases rest
    {
      PeelFactor(m, divided, rest, p);
      divided := divided + [p];
      rest := rest / p;
    }
  }

  /** Everything below the i-th prime of primes (or below 2 when i is 0)
      has been tried: the least candidate the loop has not yet divided by. */
  function Tried(primes: seq<int>, i: int): (lo: int)
    requires 0 <= i <= |primes|
    requires forall j :: 0 <= j < |primes| ==> primes[j] >= 2
    ensures lo >= 2
  {
    if i == 0 then 2 else primes[i - 1] + 1
  }

  /**
   The loop of factorize for n >= 2 over primes, the primes up to the
   integer square root of n: it computes the prime factorization of n.
   */
  method TrialDivision(n: int, limit: int, primes: seq<int>) returns (factors: seq<int>)
    requires n >= 2 && limit == Isqrt(n) && primes == PrimesUpTo(limit)
    ensures factors == Factorization(n)
  {
    forall j | 0 <= j < |primes|
      ensures primes[j] >= 2
    {
      assert primes[j] in primes;
    }
    factors := [];
    var remainder := n;
    var i := 0;
    ghost var bound := limit + 1;
    while i < |primes|
      invariant 0 <= i <= |primes|
      invariant 1 <= remainder <= n
      invariant factors + Factorization(remainder) == Factorization(n)
      invariant NoDivisorBelow(remainder, Tried(primes, i))
    {
      var p := primes[i];
      NextCandidate(limit, primes, i, remainder);
      if p * p > remainder {
        bound := p;
        break;
      }
      var divided;
      divided, remainder := DivideOut(remainder, p);
      factors := factors + divided;
      i := i + 1;
    }
    if i == |primes| {
      NextCandidate(limit, primes, i, remainder);
    }
    LeftoverIsLastFactor(n, factors, remainder, bound);
    if remainder > 1 {
      factors := factors + [remainder];
    }
  }

  /** The numbers skipped between two consecutive primes are not prime, so
      a remainder with no divisor below the last prime tried has none below
      the next one either (or below limit + 1 once every prime is tried). */
  lemma NextCandidate(limit: int, primes: seq<int>, i: int, remainder: int)
    requires primes == PrimesUpTo(limit) && 0 <= i <= |primes| && remainder >= 1
    requires forall j :: 0 <= j < |primes| ==> primes[j] >= 2
    requires NoDivisorBelow(remainder, Tried(primes, i))
    ensures NoDivisorBelow(remainder, if i < |primes| then primes[i] else limit + 1)
  {
    PrimesUpToGap(limit, i);
    GapExtend(remainder, Tried(primes, i), if i < |primes| then primes[i] else limit + 1);
  }

  /** When trial division stops, what is left is 1 or a prime, and in the
      latter case it is the last prime factor of n. */
  lemma LeftoverIsLastFactor(n: int, factors: seq<int>, remainder: int, bound: int)
    requires n >= 1 && 1 <= remainder && bound >= 0 && bound * bound > remainder
    requires NoDivisorBelow(remainder, bound)
    requires factors + Factorization(remainder) == Factorization(n)
    ensures (if remainder > 1 then factors + [remainder] else factors) == Factorization(n)
  {
    if remainder > 1 {
      PrimeByTrialBound(remainder, bound);
      FactorizationOfPrime(remainder);
    } else {
      assert factors + [] == factors;
    }
  }

  /** The cached limit after factorize(n): the request Isqrt(n) is made
      only for n >= 2, and the cache never shrinks. */
  function LimitAfter(limit: int, n: int): (l: int)
    ensures l >= limit
  {
    if n < 2 then limit
    else if Isqrt(n) > limit then Isqrt(n) else limit
  }

  /** The cached limit after factorizing the first k numbers of xs in order. */
  function BatchLimit(limit: int, xs: seq<int>, k: int): (l: int)
    requires 0 <= k <= |xs|
    ensures l >= limit
  {
    if k == 0 then limit
    else LimitAfter(BatchLimit(limit, xs, k - 1), xs[k - 1])
  }

  /** xs[i] is the first number of xs that factorize rejects. */
  predicate FirstRejected(xs: seq<int>, i: int) {
    0 <= i < |xs| && xs[i] < 1 && forall j :: 0 <= j < i ==> xs[j] >= 1
  }

  /**
   The callback factorizeAll maps over its input: pair n with its factors,
   or fail as factorize does.
   */
  method FactorizeEntry(cache: Cache, n: int) returns (r: Result<Entry>, cache': Cache)
    requires cache.Valid()
    ensures r.Success? <==> n >= 1
    ensures r.Success? ==> r.value == Entry(n, Factorization(n))
    ensures r.Failure? ==> r.error == ErrorFor(n)
    ensures cache'.Valid()
    ensures n < 2 ==> cache' == cache
    ensures cache'.limit == LimitAfter(cache.limit, n)
  {
    var factors;
    factors, cache' := Factorize(cache, n);
    if factors.Failure? {
      return Failure(factors.error), cache';
    }
    r := Success(Entry(n, factors.value));
  }

  /**
   factorizeAll: factorize every number in order, pairing each with its
   factors; the first number factorize rejects aborts the whole batch
   with that number's error.
   */
  method FactorizeAll(cache: Cache, xs: seq<int>) returns (r: Result<seq<Entry>>, cache': Cache)
    requires cache.Valid()
    ensures r.Success? <==> forall i :: 0 <= i < |xs| ==> xs[i] >= 1
    ensures r.Success? ==> |r.value| == |xs|
    ensures r.Success? ==> forall i :: 0 <= i < |xs| ==>
      r.value[i].number == xs[i] && r.value[i].factors == Factorization(xs[i])
    ensures r.Success? ==> cache'.limit == BatchLimit(cache.limit, xs, |xs|)
    ensures r.Failure? ==> exists i ::
      FirstRejected(xs, i) && r.error == ErrorFor(xs[i]) && cache'.limit == BatchLimit(cache.limit, xs, i)
    ensures cache'.Valid()
  {
    var entries: seq<Entry> := [];
    cache' := cache;
    var i := 0;
    while i < |xs|
      invariant 0 <= i <= |xs|
      invariant |entries| == i
      invariant forall j :: 0 <= j < i ==> xs[j] >= 1
      invariant forall j :: 0 <= j < i ==> entries[j] == Entry(xs[j], Factorization(xs[j]))
      invariant cache'.Valid() && cache'.limit == BatchLimit(cache.limit, xs, i)
    {
      var entry;
      entry, cache' := FactorizeEntry(cache', xs[i]);
      if entry.Failure? {
        assert FirstRejected(xs, i);
        return Failure(entry.error), cache';
      }
      entries := entries + [entry.value];
      i := i + 1;
    }
    r := Success(entries);
  }
}
