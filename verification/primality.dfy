/**
 `is_prime` from pprimes.c: trial division by odd divisors, with the loop
 bound written `i <= n / i` so that `i * i` is never formed and nothing
 leaves the `long long` range.
 */
module Primality {
  import opened LibC

  /** Mathematical primality: at least 2, and no divisor strictly between 1
      and itself. */
  ghost predicate IsPrimeNumber(n: int)
  {
    n >= 2 && forall d :: 2 <= d < n ==> n % d != 0
  }

  /* A multiple of e leaves no remainder when divided by e. */
  lemma MultipleHasNoRemainder(q: int, e: int)
    requires e > 0
    ensures (q * e) % e == 0
  {
    var n := q * e;
    var q', r := n / e, n % e;
    assert q' * e + r == n;
    var k := q - q';
    assert k * e == q * e - q' * e;
    assert r == k * e;
  }

  /* An odd number has no even divisor. */
  lemma OddHasNoEvenDivisor(n: nat, d: nat)
    requires n % 2 == 1 && d > 0 && d % 2 == 0
    ensures n % d != 0
  {
    if n % d == 0 {
      var q := n / d;
      assert n == q * d;
      assert n == (q * (d / 2)) * 2;
      MultipleHasNoRemainder(q * (d / 2), 2);
    }
  }

  /** For a positive `i`, the overflow-free loop guard `i <= n / i` (C's
      truncating division) holds exactly when `i * i <= n`. */
  lemma GuardIsSquareBound(n: LongLong, i: LongLong)
    requires 0 <= n && 0 < i
    ensures i <= Div(n, i) <==> i * i <= n
  {
    var q, r := n / i, n % i;
    assert q * i + r == n;
    if i <= q {
      MulMonotone(i, q, i);
    } else {
      MulMonotone(q + 1, i, i);
      assert (q + 1) * i == q * i + i;
    }
  }

  /* The cofactor of a divisor above the square root is below it. */
  lemma CofactorIsSmall(n: int, d: int, e: int)
    requires 2 <= d < n && n == e * d && d * d > n
    ensures 2 <= e < d && e * e <= n
  {
    if e < 2 {
      MulMonotone(e, 1, d);
    }
    if e >= d {
      MulMonotone(d, e, d);
    }
    MulMonotone(e, d, e);
  }

  /** A composite number has a divisor no larger than its square root. */
  lemma CompositeHasSmallFactor(n: int)
    requires n >= 2 && !IsPrimeNumber(n)
    ensures exists d :: 2 <= d && d * d <= n && n % d == 0
  {
    var d :| 2 <= d < n && n % d == 0;
    if d * d > n {
      var e := n / d;
      assert n == e * d + n % d;
      CofactorIsSmall(n, d, e);
      MultipleHasNoRemainder(d, e);
      assert 2 <= e && e * e <= n && n % e == 0;
    }
  }

  /* Once every candidate below `i` is ruled out and `i * i` exceeds `n`,
     no divisor is left. */
  lemma NoSmallFactorMeansPrime(n: int, i: int)
    requires n >= 2 && i > 0 && i * i > n
    requires forall d :: 2 <= d < i ==> n % d != 0
    ensures IsPrimeNumber(n)
  {
    if !IsPrimeNumber(n) {
      CompositeHasSmallFactor(n);
      var d :| 2 <= d && d * d <= n && n % d == 0;
      if i <= d {
        MulMonotone(i, d, i);
        MulMonotone(i, d, d);
        assert false;
      }
    }
  }

  /* Stepping the trial divisor from an odd i that does not divide an odd n
     to i + 2 keeps "no divisor below the trial divisor": i + 1 is even. */
  lemma NextOddCandidate(n: nat, i: nat)
    requires n % 2 == 1 && 3 <= i && i % 2 == 1 && n % i != 0
    requires forall d :: 2 <= d < i ==> n % d != 0
    ensures forall d :: 2 <= d < i + 2 ==> n % d != 0
  {
    OddHasNoEvenDivisor(n, i + 1);
  }

  /* While the guard holds, the trial divisor is a proper divisor candidate
     (below n) and stays far below the `long long` limit, so `i + 2`
     cannot overflow. */
  lemma DivisorStaysSmall(n: LongLong, i: LongLong)
    requires 3 <= i && i * i <= n
    ensures i < n && i < 0x1_0000_0000
  {
    MulMonotone(3, i, i);
  }

  /** `is_prime(n)` for any `long long n`: true (C's 1) exactly when `n` is
      prime. Below 2 nothing is prime, 2 is, and no larger even number is.
      Every intermediate value is a `long long`, so the verifier checks that
      the loop never overflows. */
  method IsPrime(n: LongLong) returns (r: bool)
    ensures r <==> IsPrimeNumber(n)
    ensures n < 2 ==> !r
    ensures n == 2 ==> r
    ensures n > 2 && n % 2 == 0 ==> !r
  {
    if n < 2 {
      return false;
    }
    if n == 2 {
      return true;
    }
    // `(n & 1LL) == 0`: the low bit of a two's-complement value is n % 2
    if n % 2 == 0 {
      return false;
    }
    var i: LongLong := 3;
    while i <= Div(n, i)
      invariant 3 <= i && i % 2 == 1
      invariant forall d :: 2 <= d < i ==> n % d != 0
      decreases n - i
    {
      GuardIsSquareBound(n, i);
      DivisorStaysSmall(n, i);
      if Rem(n, i) == 0 {
        assert n % i == 0;
        return false;
      }
      NextOddCandidate(n, i);
      i := i + 2;
    }
    GuardIsSquareBound(n, i);
    NoSmallFactorMeansPrime(n, i);
    return true;
  }
}
