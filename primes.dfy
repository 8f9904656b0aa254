/**
 * Divisibility and primality, shared by the prime sequences and by
 * euler/gcd.py. `is_safe_prime` is written out identically in the three prime
 * sequence files; `IsSafePrime` models it once.
 */
module Primes {
  import opened PyInt

  // ---------------------------------------------------------------- divisibility

  /** `d` divides `n`: `n % d == 0` for a non-zero `d` (Dafny's `%` is never negative). */
  predicate Divides(d: int, n: int)
  {
    d != 0 && n % d == 0
  }

  /** Euclidean division is unique: a quotient and remainder in range are `a / b` and `a % b`. */
  lemma DivModUnique(a: int, b: int, q: int, r: int)
    requires b > 0 && a == b * q + r && 0 <= r < b
    ensures a / b == q && a % b == r
  {
    var q', r' := a / b, a % b;
    assert a == b * q' + r';
    if q' < q {
      assert b * (q - q') == b * q - b * q';
      MulAtLeast(b, q - q');
    } else if q < q' {
      assert b * (q' - q) == b * q' - b * q;
      MulAtLeast(b, q' - q);
    }
  }

  /** Every multiple of `d` is divisible by `d`. */
  lemma DividesMultiple(d: int, k: int)
    requires d != 0
    ensures Divides(d, d * k)
  {
    if d > 0 {
      DivModUnique(d * k, d, k, 0);
    } else {
      assert d * k == (-d) * (-k);
      DivModUnique(d * k, -d, -k, 0);
      assert (d * k) % (-d) == 0;
      assert (d * k) == d * ((d * k) / d) + (d * k) % d;
      NegDivisor(d * k, d);
    }
  }

  /** Divisibility by `d` and by `-d` agree. */
  lemma NegDivisor(n: int, d: int)
    requires d != 0
    ensures n % d == n % (-d)
  {
    var q := n / d;
    var r := n % d;
    assert n == d * q + r && 0 <= r < (if d > 0 then d else -d);
    assert n == (-d) * (-q) + r;
    if d < 0 {
      DivModUnique(n, -d, -q, r);
    } else {
      var q2 := n / (-d);
      var r2 := n % (-d);
      assert n == (-d) * q2 + r2 && 0 <= r2 < d;
      assert n == d * (-q2) + r2;
      DivModUnique(n, d, -q2, r2);
    }
  }

  /** A divisible number is its divisor times the quotient. */
  lemma DividesWitness(d: int, n: int)
    requires Divides(d, n)
    ensures n == d * (n / d)
  {
  }

  /** A common divisor of `a` and `b` divides `a + b*k`. */
  lemma DividesLinear(d: int, a: int, b: int, k: int)
    requires Divides(d, a) && Divides(d, b)
    ensures Divides(d, a + b * k)
  {
    var i, j := a / d, b / d;
    DividesWitness(d, a);
    DividesWitness(d, b);
    assert a + b * k == d * i + (d * j) * k;
    assert a + b * k == d * (i + j * k);
    DividesMultiple(d, i + j * k);
  }

  /** Divisibility is transitive. */
  lemma DividesTrans(e: int, s: int, n: int)
    requires Divides(e, s) && Divides(s, n)
    ensures Divides(e, n)
  {
    DividesWitness(e, s);
    DividesWitness(s, n);
    var a, b := s / e, n / s;
    assert n == (e * a) * b;
    assert n == e * (a * b);
    DividesMultiple(e, a * b);
  }

  /** A positive divisor of a positive number is no larger than it. */
  lemma DividesBound(d: int, n: int)
    requires d > 0 && n > 0 && Divides(d, n)
    ensures d <= n
  {
    DividesWitness(d, n);
    var k := n / d;
    if k <= 0 {
      MulStrictMono(d, k, 1);
    } else {
      MulAtLeast(d, k);
    }
  }

  // ---------------------------------------------------------------- primes

  /** A prime has no divisor strictly between 1 and itself. */
  predicate IsPrime(n: int)
  {
    n >= 2 && forall d :: 2 <= d < n ==> n % d != 0
  }

  /** An odd `n` has no even divisor `d`, and the odd numbers step by two. */
  lemma OddHasNoEvenDivisor(n: int, d: int)
    requires n % 2 == 1 && d > 0 && d % 2 == 0
    ensures n % d != 0 && (d + 1) % 2 == 1
  {
    if n % d == 0 {
      DividesWitness(d, n);
      DividesWitness(2, d);
      assert n == 2 * ((d / 2) * (n / d));
      DividesMultiple(2, (d / 2) * (n / d));
    }
  }

  /** `is_safe_prime(n)`: 2 and 3 are prime, even numbers are not, otherwise trial division by the odd numbers below `n`. */
  method IsSafePrime(n: int) returns (b: bool)
    ensures b <==> IsPrime(n)
  {
    if n < 2 {
      return false;
    }
    if n < 4 {
      return true;
    }
    if n % 2 == 0 {
      return false;
    }
    var i := 3;
    while i < n
      invariant 3 <= i <= n + 1 && i % 2 == 1
      invariant forall d :: 2 <= d < i ==> n % d != 0
    {
      if n % i == 0 {
        return false;
      }
      assert (i + 1) % 2 == 0;
      OddHasNoEvenDivisor(n, i + 1);
      i := i + 2;
    }
    return true;
  }

  /** The least divisor of `n` that is at least `d`. */
  function LeastDivisorFrom(n: nat, d: nat): (s: nat)
    requires 2 <= d <= n
    ensures d <= s <= n && n % s == 0
    ensures forall e :: d <= e < s ==> n % e != 0
    decreases n - d
  {
    if n % d == 0 then d else LeastDivisorFrom(n, d + 1)
  }

  /** The smallest divisor of `n` above 1, which is prime. */
  function SmallestDivisor(n: nat): (s: nat)
    requires n >= 2
    ensures 2 <= s <= n && n % s == 0
    ensures forall e :: 2 <= e < s ==> n % e != 0
  {
    LeastDivisorFrom(n, 2)
  }

  lemma SmallestDivisorIsPrime(n: nat)
    requires n >= 2
    ensures IsPrime(SmallestDivisor(n))
  {
    var s := SmallestDivisor(n);
    forall e | 2 <= e < s
      ensures s % e != 0
    {
      if s % e == 0 {
        DividesTrans(e, s, n);
      }
    }
  }

  /** Euclid's lemma: a prime dividing `a * b` with `0 < a < p` divides `b`. */
  lemma {:induction false} EuclidLemma(p: int, a: int, b: int)
    requires IsPrime(p) && 0 < a < p && (a * b) % p == 0
    ensures b % p == 0
    decreases a
  {
    if a > 1 {
      var k, r := p / a, p % a;
      assert p == a * k + r;
      assert r != 0;
      DividesMultiple(p, b);
      DividesLinear(p, p * b, a * b, -k);
      assert p * b + (a * b) * (-k) == r * b;
      EuclidLemma(p, r, b);
    }
  }

  /** A prime that divides the square of another prime is that prime. */
  lemma PrimeDividesSquare(r: int, q: int)
    requires IsPrime(r) && IsPrime(q) && (q * q) % r == 0
    ensures r == q
  {
    if r < q {
      var a := q % r;
      assert a != 0;
      assert q == r * (q / r) + a;
      assert q * q == r * ((q / r) * q) + a * q;
      DividesMultiple(r, (q / r) * q);
      DividesLinear(r, q * q, r * ((q / r) * q), -1);
      EuclidLemma(r, a, q);
    } else if r > q {
      DividesBound(r, q * q);
      EuclidLemma(r, q, q);
    }
  }

  /** A number that is not prime has its smallest divisor at most its square root. */
  lemma CompositeHasSmallDivisor(n: nat)
    requires n >= 2 && !IsPrime(n)
    ensures SmallestDivisor(n) * SmallestDivisor(n) <= n
  {
    var s := SmallestDivisor(n);
    var d :| 2 <= d < n && n % d == 0;
    assert s < n;
    DividesWitness(s, n);
    var k := n / s;
    assert n == s * k;
    if k < 2 {
      if k <= 0 {
        MulStrictMono(s, k, 1);
      }
      assert false;
    }
    assert n % k == 0 by {
      assert n == k * s;
      DividesMultiple(k, s);
    }
    if k < s {
      assert false;
    }
    MulStrictMono(s, k, s);
    assert s * s <= s * k;
  }

  /** A prime is not divisible by any smaller prime, and a non-prime `n >= 2` is divisible by a prime at most its square root. */
  lemma PrimeIffNoSmallPrimeDivisor(n: nat)
    requires n >= 2
    ensures IsPrime(n) <==> forall p :: 2 <= p && p * p <= n && IsPrime(p) ==> n % p != 0
  {
    if !IsPrime(n) {
      CompositeHasSmallDivisor(n);
      SmallestDivisorIsPrime(n);
      var s := SmallestDivisor(n);
      assert s * s <= n && IsPrime(s) && n % s == 0;
    } else {
      forall p | 2 <= p && p * p <= n && IsPrime(p)
        ensures n % p != 0
      {
        if p >= n {
          MulStrictMono(p, 1, p);
          assert false;
        }
      }
    }
  }

  // ---------------------------------------------------------------- square roots

  /** `int(n ** 0.5)`, read as the integer square root. */
  function Isqrt(n: nat): (r: nat)
    ensures r * r <= n < (r + 1) * (r + 1)
  {
    IsqrtFrom(n, 0)
  }

  function IsqrtFrom(n: nat, r: nat): (s: nat)
    requires r * r <= n
    ensures s * s <= n < (s + 1) * (s + 1)
    decreases n - r
  {
    if (r + 1) * (r + 1) > n then r
    else
      assert r < n + 1 by {
        if r > n {
          MulStrictMono(r, 1, r);
        }
      }
      IsqrtFrom(n, r + 1)
  }

  /** `p <= isqrt(n)` exactly when `p * p <= n`. */
  lemma IsqrtBound(n: nat, p: nat)
    ensures p <= Isqrt(n) <==> p * p <= n
  {
    var r := Isqrt(n);
    if p <= r {
      MulMono(p, r);
    } else {
      MulMono(r + 1, p);
    }
  }

  lemma MulMono(a: nat, b: nat)
    requires a <= b
    ensures a * a <= b * b
  {
    if a < b && a > 0 {
      MulStrictMono(a, a, b);
      MulStrictMono(b, a, b);
    }
  }

  // ---------------------------------------------------------------- there is always a next prime

  function Factorial(n: nat): (f: nat)
    ensures f >= 1
  {
    if n == 0 then 1 else n * Factorial(n - 1)
  }

  lemma {:induction false} FactorialDivisible(n: nat, d: nat)
    requires 1 <= d <= n
    ensures Divides(d, Factorial(n))
  {
    if d == n {
      DividesMultiple(d, Factorial(n - 1));
    } else {
      FactorialDivisible(n - 1, d);
      DividesLinear(d, 0, Factorial(n - 1), n);
      assert Factorial(n) == Factorial(n - 1) * n;
    }
  }

  /** Euclid: `p! + 1` has a prime divisor above `p`. */
  lemma PrimeAbove(p: nat)
    ensures p < SmallestDivisor(Factorial(p) + 1) && IsPrime(SmallestDivisor(Factorial(p) + 1))
  {
    var n := Factorial(p) + 1;
    var s := SmallestDivisor(n);
    SmallestDivisorIsPrime(n);
    if s <= p {
      FactorialDivisible(p, s);
      DividesLinear(s, n, Factorial(p), -1);
    }
  }

  /** The least prime above `p` (that nothing between is prime is `NextPrimeLeast`). */
  function NextPrime(p: nat): (q: nat)
    ensures p < q && IsPrime(q)
    ensures forall r :: p < r < q ==> !IsPrime(r)
  {
    PrimeAbove(p);
    NextPrimeFrom(p, p + 1, SmallestDivisor(Factorial(p) + 1))
  }

  function NextPrimeFrom(p: nat, c: nat, bound: nat): (q: nat)
    requires p < c <= bound && IsPrime(bound)
    requires forall r :: p < r < c ==> !IsPrime(r)
    ensures c <= q <= bound && IsPrime(q)
    ensures forall r :: p < r < q ==> !IsPrime(r)
    decreases bound - c
  {
    if IsPrime(c) then c else NextPrimeFrom(p, c + 1, bound)
  }

  /** Every prime above `p` is at least `NextPrime(p)`. */
  lemma NextPrimeLeast(p: nat, r: nat)
    requires p < r && IsPrime(r)
    ensures NextPrime(p) <= r
  {
    PrimeAbove(p);
    var q := NextPrimeFrom(p, p + 1, SmallestDivisor(Factorial(p) + 1));
    assert q == NextPrime(p);
  }
}
