/**
 The concrete factorizations the repository's tests expect, derived from
 the reference factorization one smallest divisor at a time.
 */
module KnownValues {
  import opened NumberTheory

  /** q is prime, checked by trial division up to b with b * b > q. */
  lemma SmallPrime(q: int, b: int)
    requires 2 <= q < b * b && 0 <= b
    requires NoDivisorBelow(q, b)
    ensures Factorization(q) == [q]
  {
    PrimeByTrialBound(q, b);
    FactorizationOfPrime(q);
  }

  lemma FactorizeTen()
    ensures Factorization(10) == [2, 5]
  {
    FactorizationUnfold(10, 2);
    SmallPrime(5, 3);
  }

  lemma FactorizeFortyTwo()
    ensures Factorization(42) == [2, 3, 7]
  {
    FactorizationUnfold(42, 2);
    FactorizationUnfold(21, 3);
    SmallPrime(7, 3);
  }

  lemma FactorizeFiftyFive()
    ensures Factorization(55) == [5, 11]
  {
    assert NoDivisorBelow(55, 5) by {
      forall d | 2 <= d < 5
        ensures 55 % d != 0
      {
        assert d == 2 || d == 3 || d == 4;
      }
    }
    FactorizationUnfold(55, 5);
    SmallPrime(11, 4);
  }

  lemma FactorizeNinetyNine()
    ensures Factorization(99) == [3, 3, 11]
  {
    FactorizationUnfold(99, 3);
    FactorizationUnfold(33, 3);
    SmallPrime(11, 4);
  }

  lemma FactorizeThirteen()
    ensures Factorization(13) == [13]
  {
  }

  /** 2^k is k factors of 2. */
  lemma {:induction false} FactorizePowerOfTwo(k: nat)
    ensures Power2(k) >= 1
    ensures Factorization(Power2(k)) == seq(k, _ => 2)
  {
    if k > 0 {
      FactorizePowerOfTwo(k - 1);
      assert Power2(k) % 2 == 0 && Power2(k) / 2 == Power2(k - 1);
      FactorizationUnfold(Power2(k), 2);
      assert seq(k, _ => 2) == [2] + seq(k - 1, _ => 2);
    }
  }

  function Power2(k: nat): nat {
    if k == 0 then 1 else 2 * Power2(k - 1)
  }

  /** 1024 is ten factors of 2. */
  lemma FactorizeTenTwentyFour()
    ensures Factorization(1024) == seq(10, _ => 2)
  {
    assert Power2(10) == 1024;
    FactorizePowerOfTwo(10);
  }

  /** Trial division of 104729 by every candidate below 324, in four stretches. */
  lemma LargePrimeTrialLow()
    ensures forall d :: 2 <= d < 83 ==> 104729 % d != 0
  {
  }

  lemma LargePrimeTrialMidLow()
    ensures forall d :: 83 <= d < 164 ==> 104729 % d != 0
  {
  }

  lemma LargePrimeTrialMidHigh()
    ensures forall d :: 164 <= d < 245 ==> 104729 % d != 0
  {
  }

  lemma LargePrimeTrialHigh()
    ensures forall d :: 245 <= d < 324 ==> 104729 % d != 0
  {
  }

  /** 104729, the 10000th prime, is its own factorization. */
  lemma FactorizeLargePrime()
    ensures Factorization(104729) == [104729]
  {
    LargePrimeTrialLow();
    LargePrimeTrialMidLow();
    LargePrimeTrialMidHigh();
    LargePrimeTrialHigh();
    assert NoDivisorBelow(104729, 324);
    PrimeByTrialBound(104729, 324);
    FactorizationOfPrime(104729);
  }
}
