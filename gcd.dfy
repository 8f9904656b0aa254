/**
 * euler/gcd.py: Euclid's algorithm, prime factorisation over the increasing
 * sequence of primes, and the totient counted from its definition.
 */
module EulerGcd {
  import opened Wrappers
  import opened PyInt
  import opened Primes

  function Abs(x: int): nat
  {
    if x < 0 then -x else x
  }

  // ---------------------------------------------------------------- gcd

  /** The remainder `a % b` is smaller than `b` in magnitude. */
  lemma FloorModSmaller(a: int, b: int)
    requires b != 0
    ensures Abs(FloorMod(a, b)) < Abs(b)
  {
  }

  /** The value `gcd(a, b)` returns: the last non-zero remainder of the sequence `a, b, a % b, ...`. */
  function Euclid(a: int, b: int): int
    requires b != 0
    decreases Abs(b)
  {
    FloorModSmaller(a, b);
    var r := FloorMod(a, b);
    if r == 0 then b else Euclid(b, r)
  }

  /** `gcd(a, b)`: `ZeroDivisionError` when `b == 0`, otherwise the loop's last non-zero remainder. */
  method Gcd(a: int, b: int) returns (r: Result<int>)
    ensures r.Err? <==> b == 0
    ensures r.Err? ==> r.error == ZeroDivisionError
    ensures r.Ok? ==> r.value == Euclid(a, b)
  {
    if b == 0 {
      return Err(ZeroDivisionError);
    }
    var x, y, rem := a, b, FloorMod(a, b);
    while rem != 0
      invariant y != 0 && rem == FloorMod(x, y)
      invariant Euclid(x, y) == Euclid(a, b)
      decreases Abs(rem)
    {
      FloorModSmaller(y, rem);
      x, y, rem := y, rem, FloorMod(y, rem);
    }
    return Ok(y);
  }

  /** `a` and `b` have the same common divisors as `b` and `a % b`. */
  lemma CommonDivisorsOfRemainder(a: int, b: int, d: int)
    requires b != 0
    ensures Divides(d, a) && Divides(d, b) <==> Divides(d, b) && Divides(d, FloorMod(a, b))
  {
    var q, r := FloorDiv(a, b), FloorMod(a, b);
    assert a == b * q + r;
    if Divides(d, a) && Divides(d, b) {
      DividesLinear(d, a, b, -q);
      assert a + b * (-q) == r;
    }
    if Divides(d, b) && Divides(d, r) {
      DividesLinear(d, r, b, q);
      assert r + b * q == a;
    }
  }

  /** `gcd(a, b)` divides both arguments, and every common divisor divides it. */
  lemma {:induction false} EuclidIsGcd(a: int, b: int)
    requires b != 0
    ensures Euclid(a, b) != 0
    ensures Divides(Euclid(a, b), a) && Divides(Euclid(a, b), b)
    ensures forall d :: Divides(d, a) && Divides(d, b) ==> Divides(d, Euclid(a, b))
    decreases Abs(b)
  {
    FloorModSmaller(a, b);
    var r := FloorMod(a, b);
    forall d
      ensures Divides(d, a) && Divides(d, b) <==> Divides(d, b) && Divides(d, r)
    {
      CommonDivisorsOfRemainder(a, b, d);
    }
    if r == 0 {
      assert Divides(b, b) by {
        DividesMultiple(b, 1);
      }
      assert Divides(b, r);
    } else {
      EuclidIsGcd(b, r);
    }
  }

  /** With a positive second argument, `gcd` is positive. */
  lemma {:induction false} EuclidPositive(a: int, b: int)
    requires b > 0
    ensures Euclid(a, b) > 0
    decreases b
  {
    var r := FloorMod(a, b);
    if r != 0 {
      EuclidPositive(b, r);
    }
  }

  /** For positive arguments, `gcd` is 1 exactly when they share no divisor above 1. */
  lemma EuclidOneIffCoprime(a: int, b: int)
    requires b > 0
    ensures Euclid(a, b) == 1 <==> forall d :: 2 <= d && Divides(d, a) && Divides(d, b) ==> false
  {
    EuclidIsGcd(a, b);
    EuclidPositive(a, b);
    var g := Euclid(a, b);
    if g != 1 {
      assert 2 <= g && Divides(g, a) && Divides(g, b);
    } else {
      forall d | 2 <= d && Divides(d, a) && Divides(d, b)
        ensures false
      {
      }
    }
  }

  // ---------------------------------------------------------------- get_factors

  function Product(s: seq<int>): int
  {
    if s == [] then 1 else Product(s[..|s| - 1]) * s[|s| - 1]
  }

  predicate NonDecreasing(s: seq<int>)
  {
    forall i, j :: 0 <= i < j < |s| ==> s[i] <= s[j]
  }

  /** A product of primes is 1 only when there are none. */
  lemma {:induction false} ProductOfPrimes(s: seq<int>)
    requires forall i :: 0 <= i < |s| ==> IsPrime(s[i])
    ensures Product(s) >= 1
    ensures Product(s) == 1 <==> s == []
  {
    if s != [] {
      var init := s[..|s| - 1];
      ProductOfPrimes(init);
      MulAtLeast(s[|s| - 1], Product(init));
      assert Product(s) == s[|s| - 1] * Product(init);
    }
  }

  /** Every entry of `s` is a prime no larger than `p`. */
  predicate PrimesUpTo(s: seq<int>, p: int)
  {
    forall i :: 0 <= i < |s| ==> IsPrime(s[i]) && s[i] <= p
  }

  /** No prime below `p` divides `n`. */
  predicate NoPrimeFactorBelow(n: int, p: int)
  {
    forall d :: 2 <= d < p && IsPrime(d) ==> n % d != 0
  }

  /**
   * `get_factors(n)` for `n >= 1`: the primes `2, 3, 5, ...` in turn, each
   * divided out of `n` as often as it goes, until `n` is 1. Both operands of
   * `divmod` are positive, where Python's and Dafny's division agree.
   */
  method GetFactors(n0: int) returns (factors: seq<int>)
    requires n0 >= 1
    ensures forall i :: 0 <= i < |factors| ==> IsPrime(factors[i])
    ensures NonDecreasing(factors)
    ensures Product(factors) == n0
    ensures factors == [] <==> n0 == 1
  {
    factors := [];
    var n := n0;
    var p := 2;
    while true
      invariant n >= 1 && IsPrime(p) && (n == 1 || p <= n)
      invariant Product(factors) * n == n0
      invariant PrimesUpTo(factors, p)
      invariant NonDecreasing(factors)
      invariant NoPrimeFactorBelow(n, p)
      decreases n - p + 1
    {
      var c, r := n / p, n % p;
      while r == 0
        invariant n >= 1 && c == n / p && r == n % p
        invariant Product(factors) * n == n0
        invariant PrimesUpTo(factors, p)
        invariant NonDecreasing(factors)
        invariant NoPrimeFactorBelow(n, p)
        decreases n
      {
        DivideOutStep(n0, factors, n, p, c);
        factors := factors + [p];
        n := c;
        c, r := n / p, n % p;
      }
      if n == 1 {
        ProductOfPrimes(factors);
        return factors;
      }
      NextPrimeStep(n, p);
      p := NextPrime(p);
    }
  }

  /** Dividing `p` out of `n` once keeps every loop invariant of `GetFactors`. */
  lemma DivideOutStep(n0: int, factors: seq<int>, n: int, p: int, c: int)
    requires n >= 1 && IsPrime(p) && c == n / p && n % p == 0
    requires Product(factors) * n == n0
    requires PrimesUpTo(factors, p) && NonDecreasing(factors)
    requires NoPrimeFactorBelow(n, p)
    ensures 1 <= c < n
    ensures Product(factors + [p]) * c == n0
    ensures PrimesUpTo(factors + [p], p) && NonDecreasing(factors + [p])
    ensures NoPrimeFactorBelow(c, p)
  {
    QuotientStep(n, p, c);
    ProductAppend(factors, p, n0, n, c);
    forall d | 2 <= d < p && IsPrime(d)
      ensures c % d != 0
    {
      if c % d == 0 {
        DividesTrans(d, c, n);
      }
    }
  }

  /** The quotient of an exact division by `p >= 2` is smaller, positive, and divides the dividend. */
  lemma QuotientStep(n: int, p: int, c: int)
    requires n >= 1 && p >= 2 && c == n / p && n % p == 0
    ensures 1 <= c < n && n == p * c && Divides(c, n)
  {
    DividesWitness(p, n);
    if c <= 0 {
      MulStrictMono(p, c, 1);
    }
    MulStrictMono(c, 1, p);
    DividesMultiple(c, p);
  }

  /** Moving a factor `p` from the remaining number onto the list keeps the product. */
  lemma ProductAppend(factors: seq<int>, p: int, n0: int, n: int, c: int)
    requires n == p * c && Product(factors) * n == n0
    ensures Product(factors + [p]) * c == n0
  {
    assert (factors + [p])[..|factors|] == factors;
    var f := Product(factors);
    assert Product(factors + [p]) == f * p;
    assert f * (p * c) == (f * p) * c;
  }

  /** Once `p` no longer divides `n > 1`, the next prime is still at most `n` and divides no less. */
  lemma NextPrimeStep(n: int, p: int)
    requires n > 1 && IsPrime(p) && n % p != 0
    requires NoPrimeFactorBelow(n, p)
    ensures NextPrime(p) <= n
    ensures NoPrimeFactorBelow(n, NextPrime(p))
  {
    var s := SmallestDivisor(n);
    SmallestDivisorIsPrime(n);
    NextPrimeLeast(p, s);
  }

  /**
   * `n` after `k` runs of the inner loop's body with the prime `p`, the
   * guard left aside: `n = c` where `c, r = divmod(n, p)`. With a positive
   * divisor Dafny's `/` and `%` are Python's floor division and modulo.
   */
  function Passes(n: int, p: int, k: nat): int
    requires p >= 2
    decreases k
  {
    if k == 0 then n else Passes(n / p, p, k - 1)
  }

  /**
   * `get_factors(0)` as written: after any number of runs `n` is still 0 and
   * `divmod(0, p)` still leaves the remainder 0, so the guard `r == 0` holds
   * for ever, `p` is appended without end and the call never returns.
   */
  lemma {:induction false} ZeroDividesForever(p: int, k: nat)
    requires p >= 2
    ensures Passes(0, p, k) == 0 && Passes(0, p, k) % p == 0
    decreases k
  {
    if k > 0 {
      ZeroDividesForever(p, k - 1);
    }
  }

  /**
   * A negative `n` stays negative however often a prime is divided out, so
   * `n == 1` never holds and the `for` over the endless primes never ends.
   */
  lemma {:induction false} NegativeNeverOne(n: int, p: int, k: nat)
    requires n < 0 && p >= 2
    ensures Passes(n, p, k) < 0
    decreases k
  {
    if k > 0 {
      NegativeNeverOne(n / p, p, k - 1);
    }
  }

  /**
   * `get_factors` as evidently intended for every integer: `ValueError` for
   * an `n` below 1, which has no factorisation into primes, and otherwise
   * the factorisation the loop computes.
   */
  method GetFactorsChecked(n: int) returns (r: Result<seq<int>>)
    ensures r.Err? <==> n <= 0
    ensures r.Err? ==> r.error == ValueError
    ensures r.Ok? ==> (forall i :: 0 <= i < |r.value| ==> IsPrime(r.value[i])) && NonDecreasing(r.value)
    ensures r.Ok? ==> Product(r.value) == n && (r.value == [] <==> n == 1)
  {
    if n <= 0 {
      return Err(ValueError);
    }
    var factors := GetFactors(n);
    return Ok(factors);
  }

  // ---------------------------------------------------------------- euler_phi_definition

  /** `gcd(n, i) == 1`, for a non-zero `i`. */
  predicate Coprime(n: int, i: int)
  {
    i != 0 && Euclid(n, i) == 1
  }

  /** How many `i` in `[2, k)` have `gcd(n, i) == 1`. */
  function CoprimeCount(n: int, k: int): nat
  {
    if k <= 2 then 0
    else CoprimeCount(n, k - 1) + (if Coprime(n, k - 1) then 1 else 0)
  }

  /** `euler_phi_definition(n)`: 1 plus the number of `i` in `[2, n)` coprime to `n`. */
  method PhiDefinition(n: int) returns (result: int)
    ensures result == 1 + CoprimeCount(n, n)
    ensures n <= 2 ==> result == 1
  {
    result := 1;
    var i := 2;
    while i < n
      invariant 2 <= i && (i <= n || i == 2)
      invariant result == 1 + CoprimeCount(n, i)
    {
      var g := Gcd(n, i);
      assert g == Ok(Euclid(n, i));
      if g == Ok(1) {
        result := result + 1;
      }
      CoprimeCountStep(n, i);
      i := i + 1;
    }
    if n < 2 {
      assert CoprimeCount(n, n) == 0;
    } else {
      assert i == n;
    }
  }

  lemma CoprimeCountStep(n: int, i: int)
    requires i >= 2
    ensures CoprimeCount(n, i + 1) == CoprimeCount(n, i) + (if Coprime(n, i) then 1 else 0)
  {
  }

  /** At most every `i` in `[2, k)` is counted, and all are exactly when all are coprime to `n`. */
  lemma {:induction false} CoprimeCountAll(n: int, k: int)
    requires k >= 2
    ensures CoprimeCount(n, k) <= k - 2
    ensures CoprimeCount(n, k) == k - 2 <==> forall i :: 2 <= i < k ==> Coprime(n, i)
  {
    if k > 2 {
      CoprimeCountAll(n, k - 1);
      if !Coprime(n, k - 1) {
        assert CoprimeCount(n, k) == CoprimeCount(n, k - 1);
      } else if CoprimeCount(n, k - 1) == k - 3 {
        forall i | 2 <= i < k
          ensures Coprime(n, i)
        {
          if i < k - 1 {
            assert 2 <= i < k - 1;
          }
        }
      }
    }
  }

  /** Below a prime `n`, every `i >= 2` is coprime to `n`; a proper divisor `d >= 2` of `n` is not. */
  lemma EuclidBelowPrime(n: int, i: int)
    requires 2 <= i < n
    ensures IsPrime(n) ==> Euclid(n, i) == 1
    ensures n % i == 0 ==> Euclid(n, i) != 1
  {
    EuclidIsGcd(n, i);
    EuclidPositive(n, i);
    var g := Euclid(n, i);
    DividesBound(g, i);
    if n % i == 0 {
      assert Divides(i, i) by {
        DividesMultiple(i, 1);
      }
      assert Divides(i, g);
    }
  }

  /** For `n >= 2`, `euler_phi_definition(n) == n - 1` exactly when `n` is prime. */
  lemma PhiDefinitionPrime(n: int)
    requires n >= 2
    ensures 1 + CoprimeCount(n, n) <= n - 1
    ensures 1 + CoprimeCount(n, n) == n - 1 <==> IsPrime(n)
  {
    CoprimeCountAll(n, n);
    if IsPrime(n) {
      forall i | 2 <= i < n
        ensures Coprime(n, i)
      {
        EuclidBelowPrime(n, i);
      }
    } else {
      var d :| 2 <= d < n && n % d == 0;
      EuclidBelowPrime(n, d);
      assert !Coprime(n, d);
    }
  }
}
