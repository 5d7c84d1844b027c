# Prime factorization with a prime cache, in Dafny

This project models `prime_factors.ts`, a small module that factorizes
non-negative integers. It has three parts, run one after another:

- **Prime cache generator** (`generatePrimes`). It keeps the primes found so far
  in two module-level variables: `cachedPrimes`, and `cachedLimit`, the limit
  they cover. A request for a limit that is not above `cachedLimit` filters the
  cache. A larger request runs a Sieve of Eratosthenes up to the new limit and
  replaces the cache with its result.
- **Factorizer** (`factorize`). It rejects negative numbers and zero with two
  distinct errors and returns `[]` for 1. For any other `n`, it asks the
  generator for the primes up to the integer square root of `n` and divides
  them out in ascending order. It stops once `p * p` exceeds what is left, and
  appends any leftover above 1 as the last factor.
- **Batch glue** (`factorizeAll`). It maps `factorize` over a list in order and
  pairs each number with its factors. The first rejected number aborts the
  whole batch.

The Dafny modules follow this structure:

- `NumberTheory` (`number_theory.dfy`) holds primality, divisibility, the
  smallest divisor, the integer square root and `Factorization`. That last one
  is the reference factorization: split off the smallest divisor, then repeat.
- `PrimeCache` (`prime_cache.dfy`) holds the reference list `PrimesUpTo`, the
  sieve, the cache filter and `GeneratePrimes`.
- `Factorizer` (`factorizer.dfy`) holds `Factorize`, its trial-division loop
  and `FactorizeAll`.
- `KnownValues` (`known_values.dfy`) holds the concrete factorizations that the
  repository's tests expect.

The module-level cache is modelled as a value of type `Cache`. Each operation
takes the cache and returns the new cache next to its result. This makes the
state before and after every call explicit. `Cache.Valid()` is the cache
invariant: the limit is at least 1, and the primes are exactly the ascending
primes up to that limit. The initial state `([], 1)` is valid (`InitialIsValid`).
Every operation requires a valid cache and returns a valid one, so the
invariant holds after any sequence of calls.

## Model

| member | source | states |
|---|---|---|
| PrimeCache.PrimesUpTo | prime_factors.ts:21-26 | The list of primes up to a limit is strictly ascending. A number is in it exactly when it is prime and between 2 and the limit. Limits 0 and 1 give an empty list. |
| PrimeCache.Sieve | prime_factors.ts:11-24 | Marking all of 0..limit as prime, clearing 0 and 1, crossing out the multiples of every still-marked p with p * p <= limit (from p * p, stepping by p), then collecting the marked numbers from 2 up gives exactly the ascending primes up to the limit. |
| PrimeCache.CrossOutComposites | prime_factors.ts:14-20 | The outer loop of the sieve leaves exactly the primes of 2..limit marked. It tries every p with p * p <= limit, and for each p still marked it crosses out that p's multiples. Cells 0 and 1 keep the values they had. |
| PrimeCache.CrossOutMultiples | prime_factors.ts:16-18 | The inner loop of the sieve crosses out exactly the multiples of p from p * p up to the limit. Cells 0 and 1 keep the values they had. |
| PrimeCache.AtMost | prime_factors.ts:8 | The cache filter keeps exactly the cached values that are at most the limit, and never lengthens the list. |
| PrimeCache.FastPathAgreesWithSieve | prime_factors.ts:6-9 | Filtering the primes up to a larger cached limit down to the requested limit gives exactly the primes up to the requested limit. The fast path therefore returns what a fresh sieve would. |
| PrimeCache.PrimesUpToPrefix | prime_factors.ts:21-25 | The primes up to a smaller limit are a prefix of the primes up to a larger one. A regrown cache keeps every prime returned before, in the same positions. |
| PrimeCache.Cache.Valid | prime_factors.ts:2-3 | The cache invariant on the module state `cachedPrimes`/`cachedLimit`: the limit is at least 1 and the primes are PrimesUpTo(limit). A valid cache therefore holds strictly ascending numbers, and a number is cached exactly when it is prime and between 2 and the cached limit. |
| PrimeCache.InitialIsValid | prime_factors.ts:2-3 | The initial cache `PrimeCache.Initial`, with no primes and limit 1, satisfies the cache invariant. |
| PrimeCache.GeneratePrimes | prime_factors.ts:5-27 | For any limit and any valid cache, the result is exactly the ascending primes up to the limit, so repeated calls return identical lists. The new cache is valid. Its limit is the larger of the old limit and the request, so it never decreases. A request not above the cached limit leaves the cache unchanged. |
| NumberTheory.Isqrt | prime_factors.ts:35 | The result is the largest r with r * r <= n. |
| NumberTheory.PrimeByTrialBound | prime_factors.ts:39-45 | A leftover of at least 2 with no divisor below p, where p * p exceeds it, is prime. This is why the early stop and the final push are sound. |
| NumberTheory.FactorizationCorrect | prime_factors.ts:37-46 | The reference factorization of n >= 1 multiplies back to n, consists of primes, is non-decreasing, and each factor divides n. |
| Factorizer.DivideOut | prime_factors.ts:40-43 | Dividing p out while it divides leaves a remainder between 1 and the input with no divisor up to p. The factors pushed are all p, and together with the remainder's factorization they form the input's factorization. |
| Factorizer.TrialDivision | prime_factors.ts:37-46 | Trial division of n >= 2 by the primes up to its integer square root, with the early stop and the leftover push, yields exactly the prime factorization of n. |
| Factorizer.LeftoverIsLastFactor | prime_factors.ts:45 | When the loop stops, the remainder has no divisor below a bound whose square exceeds it. If the remainder is above 1, appending it completes the prime factorization of n. Otherwise the factors found so far already are the factorization. |
| Factorizer.Factorize | prime_factors.ts:30-47 | A negative n fails with the negative-input error and zero fails with the zero error. For 1 the result is empty. For n >= 1 the result is the prime factorization of n: its product is n, all its elements are prime, and it is non-decreasing. The cache stays valid. It grows to the integer square root of n when that is larger, and is unchanged for n < 2. |
| Factorizer.FactorizeEntry | prime_factors.ts:51 | The callback of the batch map succeeds exactly for n >= 1. It then pairs n with its prime factorization. Otherwise it fails with factorize's error for n. The cache is what factorize leaves: unchanged for n < 2, and otherwise grown to the integer square root of n when that is larger (`LimitAfter`). |
| Factorizer.FactorizeAll | prime_factors.ts:50-52 | The batch succeeds exactly when every number is at least 1. It then has one entry per input, in order, pairing each number with its prime factorization. Otherwise it fails with the error of the first rejected number, and every number before that one was accepted. The cache stays valid. Its limit is the old limit grown by each processed number in turn, up to the end or up to the first rejected number (`BatchLimit`). |
| KnownValues.FactorizeTen | prime_factors_test.ts:10 | The factorization of 10 is [2, 5]. |
| KnownValues.FactorizeFortyTwo | prime_factors_test.ts:11 | The factorization of 42 is [2, 3, 7]. |
| KnownValues.FactorizeFiftyFive | prime_factors_test.ts:12 | The factorization of 55 is [5, 11]. |
| KnownValues.FactorizeNinetyNine | prime_factors_test.ts:13 | The factorization of 99 is [3, 3, 11]. |
| KnownValues.FactorizeTenTwentyFour | prime_factors_test.ts:17 | The factorization of 1024 is ten 2s. |
| KnownValues.FactorizeThirteen | prime_factors_test.ts:21 | The factorization of 13 is [13]. |
| KnownValues.FactorizeLargePrime | prime_factors_test.ts:40 | The factorization of 104729 is [104729]. |

## Left out

- `factor` (prime_factors.ts:55-60) only formats results and writes them to the console. It is output plumbing, not computation.
- JavaScript `number` semantics are not modelled. Inputs are mathematical integers, so non-integer and NaN inputs and precision loss above 2^53 do not arise. `Math.floor(Math.sqrt(n))` is the exact integer square root, and `remainder /= p` is exact integer division, which it is whenever `p` divides `remainder`.
- The module-level variables `cachedPrimes` and `cachedLimit` are a `Cache` value that each call takes and returns, not hidden global state. `cachedPrimes.slice()` and `filter` return copies, and Dafny sequences are values, so the copy is implicit.
- PrimeCache.Sieve requires `limit >= 1`, so that the writes to index 0 and index 1 are in bounds. The source runs the sieve only when `limit > cachedLimit >= 1`.
- Nothing is concurrent: the source is single-threaded and has no locking around the cache.
- The Deno test harness and `@std/expect` (prime_factors_test.ts:1-3) are not modelled. The product check of the batch test (prime_factors_test.ts:25-36) is covered by Factorizer.FactorizeAll together with NumberTheory.FactorizationCorrect.
