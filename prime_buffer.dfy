/**
 * The buffer of known primes kept by the trial-division prime sequences of
 * primeseq/primeseq.py and maths/primeseq.py, and the membership test both
 * build on it. The two files' `__contains__` and their `_canbeprime` are
 * written out identically; they are modelled once here.
 */
module PrimeBuffer {
  import opened Wrappers
  import opened Primes
  import opened PyInt

  /** `buf` lists, in increasing order, every prime up to its last element. */
  predicate PrimePrefix(buf: seq<int>)
  {
    |buf| >= 1
    && (forall j :: 0 <= j < |buf| ==> IsPrime(buf[j]))
    && (forall j, k :: 0 <= j < k < |buf| ==> buf[j] < buf[k])
    && (forall q {:trigger q in buf} :: 2 <= q <= buf[|buf| - 1] && IsPrime(q) ==> q in buf)
  }

  function Last(buf: seq<int>): int
    requires |buf| >= 1
  {
    buf[|buf| - 1]
  }

  /** 2, 3 and 5 are prime and 4 is not. */
  lemma SmallPrimes()
    ensures IsPrime(2) && IsPrime(3) && !IsPrime(4) && IsPrime(5)
  {
    assert 3 % 2 != 0;
    assert 4 % 2 == 0;
    assert 5 % 2 != 0 && 5 % 3 != 0 && 5 % 4 != 0;
  }

  /** The buffers the sequences start from hold exactly the primes up to their last element. */
  lemma InitialBuffers()
    ensures PrimePrefix([2]) && PrimePrefix([2, 3]) && PrimePrefix([2, 3, 5])
  {
    SmallPrimes();
    forall q | 2 <= q <= 5 && IsPrime(q)
      ensures q == 2 || q == 3 || q == 5
    {
    }
  }

  /** Appending the next prime keeps the buffer a prefix of the primes. */
  lemma PrimePrefixAppend(buf: seq<int>)
    requires PrimePrefix(buf)
    ensures Last(buf) >= 2 && PrimePrefix(buf + [NextPrime(Last(buf))])
  {
    assert IsPrime(Last(buf));
    var np := NextPrime(Last(buf));
    var buf' := buf + [np];
    forall q | 2 <= q <= np && IsPrime(q)
      ensures q in buf'
    {
      if q <= Last(buf) {
        assert q in buf;
      } else {
        NextPrimeLeast(Last(buf), q);
        assert buf'[|buf|] == q;
      }
    }
  }

  /** The first element of a prime prefix is 2, and its last element is its largest. */
  lemma PrimePrefixFirst(buf: seq<int>)
    requires PrimePrefix(buf)
    ensures buf[0] == 2
    ensures forall j :: 0 <= j < |buf| ==> buf[j] <= Last(buf)
  {
    assert IsPrime(Last(buf));
    assert 2 in buf;
  }

  /** In a strictly increasing sequence, the smaller value sits at the smaller index. */
  lemma IncreasingIndex(buf: seq<int>, j: int, k: int)
    requires forall a, b :: 0 <= a < b < |buf| ==> buf[a] < buf[b]
    requires 0 <= j < |buf| && 0 <= k < |buf| && buf[j] < buf[k]
    ensures j < k
  {
  }

  /** A prime below the buffer entry at `k` sits at an earlier index. */
  lemma PrimePrefixBelow(buf: seq<int>, k: int, q: int)
    requires PrimePrefix(buf) && 0 <= k < |buf| && IsPrime(q) && q < buf[k]
    ensures exists j :: 0 <= j < k && buf[j] == q
  {
    PrimePrefixFirst(buf);
    assert q in buf;
    var j :| 0 <= j < |buf| && buf[j] == q;
    IncreasingIndex(buf, j, k);
  }

  /** A prime above 2 is odd. */
  lemma PrimeOdd(p: int)
    requires IsPrime(p) && p > 2
    ensures p % 2 == 1
  {
    assert p % 2 != 0;
  }

  /** The `k`-th prime, counting from `NthPrime(0) == 2`. */
  function NthPrime(k: nat): (p: nat)
    ensures IsPrime(p)
  {
    if k == 0 then 2 else NextPrime(NthPrime(k - 1))
  }

  lemma NthPrimeStep(k: nat)
    ensures NthPrime(k) < NthPrime(k + 1)
  {
  }

  /** The primes are enumerated in increasing order. */
  lemma {:induction false} NthPrimeIncreasing(j: nat, k: nat)
    requires j < k
    ensures NthPrime(j) < NthPrime(k)
    decreases k - j
  {
    NthPrimeStep(j);
    if j + 1 < k {
      NthPrimeIncreasing(j + 1, k);
    }
  }

  /** The `k`-th prime is at least `k + 2`. */
  lemma {:induction false} NthPrimeAtLeast(k: nat)
    ensures NthPrime(k) >= k + 2
  {
    if k > 0 {
      NthPrimeAtLeast(k - 1);
    }
  }

  /** Every prime up to the `k`-th prime is the `j`-th prime for some `j <= k`. */
  lemma {:induction false} NthPrimeCoversUpTo(k: nat, q: int)
    requires IsPrime(q) && q <= NthPrime(k)
    ensures exists j :: 0 <= j <= k && NthPrime(j) == q
  {
    if k == 0 {
      assert NthPrime(0) == q;
    } else if q <= NthPrime(k - 1) {
      NthPrimeCoversUpTo(k - 1, q);
      var j :| 0 <= j <= k - 1 && NthPrime(j) == q;
      assert 0 <= j <= k && NthPrime(j) == q;
    } else {
      NextPrimeLeast(NthPrime(k - 1), q);
      assert NthPrime(k) == q;
    }
  }

  /** Every prime is enumerated. */
  lemma NthPrimeCovers(q: int)
    requires IsPrime(q)
    ensures exists k: nat :: NthPrime(k) == q
  {
    NthPrimeAtLeast(q);
    NthPrimeCoversUpTo(q, q);
  }

  /** Consecutive entries of a prime prefix are consecutive primes. */
  lemma PrimePrefixNext(buf: seq<int>, k: nat)
    requires PrimePrefix(buf) && 0 < k < |buf|
    ensures buf[k] == NextPrime(buf[k - 1])
  {
    PrimePrefixFirst(buf);
    var prev := buf[k - 1];
    assert prev < buf[k] && IsPrime(buf[k]);
    var np := NextPrime(prev);
    NextPrimeLeast(prev, buf[k]);
    assert 2 <= np <= Last(buf) && IsPrime(np);
    assert np in buf;
    var j :| 0 <= j < |buf| && buf[j] == np;
    IncreasingIndex(buf, k - 1, j);
    if np < buf[k] {
      IncreasingIndex(buf, j, k);
    }
  }

  /** A prime prefix is the sequence of primes itself: its entry at `k` is the `k`-th prime. */
  lemma {:induction false} PrimePrefixNth(buf: seq<int>, k: nat)
    requires PrimePrefix(buf) && k < |buf|
    ensures buf[k] == NthPrime(k)
  {
    if k == 0 {
      PrimePrefixFirst(buf);
    } else {
      PrimePrefixNth(buf, k - 1);
      PrimePrefixNext(buf, k);
    }
  }

  /** A prime prefix lists the first primes in order. */
  lemma PrimePrefixIsFirstPrimes(buf: seq<int>)
    requires PrimePrefix(buf)
    ensures forall j :: 0 <= j < |buf| ==> buf[j] == NthPrime(j)
  {
    forall j | 0 <= j < |buf|
      ensures buf[j] == NthPrime(j)
    {
      PrimePrefixNth(buf, j);
    }
  }

  /** The prime after the last one of a prime prefix is the next one in the enumeration. */
  lemma NthPrimeAfter(buf: seq<int>)
    requires PrimePrefix(buf)
    ensures NthPrime(|buf|) == NextPrime(Last(buf))
  {
    PrimePrefixNth(buf, |buf| - 1);
  }

  /** No prime lies strictly between `lo` and `hi`. */
  predicate NoPrimeBetween(lo: int, hi: int)
  {
    forall q :: lo < q < hi ==> !IsPrime(q)
  }

  /** Past two non-primes `c` and `c + 1`, there is still no prime after `lo`. */
  lemma NoPrimeExtend(lo: int, c: int)
    requires lo < c && NoPrimeBetween(lo, c) && !IsPrime(c) && !IsPrime(c + 1)
    ensures NoPrimeBetween(lo, c + 2)
  {
  }

  /** With no prime between `lo` and `c`, the next prime after `lo` is not below `c`. */
  lemma BelowNextPrime(lo: nat, c: int)
    requires lo < c && NoPrimeBetween(lo, c)
    ensures c <= NextPrime(lo)
  {
    var np := NextPrime(lo);
    assert lo < np && IsPrime(np);
  }

  /** The first prime after `lo` with no prime between is the next prime. */
  lemma FoundNext(lo: nat, c: int)
    requires lo < c && IsPrime(c) && NoPrimeBetween(lo, c)
    ensures c == NextPrime(lo)
  {
    NextPrimeLeast(lo, c);
  }

  /** Where the sequence's `__next__` leaves its buffer when it moves to index `k`: one more prime once `k` runs past the end. */
  function Grown(buf: seq<int>, k: int): (g: seq<int>)
    requires PrimePrefix(buf)
    ensures PrimePrefix(g) && |g| >= |buf| && g[..|buf|] == buf
    ensures k >= |buf| ==> |g| == |buf| + 1
  {
    PrimePrefixAppend(buf);
    if k >= |buf| then buf + [NextPrime(Last(buf))] else buf
  }

  /** From `p` itself or a non-prime odd candidate below the next prime, the search can skip two at a time. */
  lemma NextPrimeSkip(p: nat, c: int)
    requires p <= c <= NextPrime(p) && (c == p || !IsPrime(c)) && c % 2 == 1 && c > 2
    ensures c + 2 <= NextPrime(p) && (c + 2) % 2 == 1
  {
    var np := NextPrime(p);
    assert (c + 1) % 2 == 0;
    assert IsPrime(np) ==> np % 2 != 0;
    assert c != np && c + 1 != np;
  }

  // ---------------------------------------------------------------- _canbeprime

  /** `_canbeprime(n)`: `n` is 5 or 7 more than a multiple of 6. */
  predicate CanBePrime(n: int)
  {
    (n - 5) % 6 == 0 || (n - 7) % 6 == 0
  }

  /** The remainder modulo 6 decides the remainders modulo 2 and 3. */
  lemma ModOfMod(n: int, a: int, b: int)
    requires a > 0 && b > 0
    ensures (n % (a * b)) % a == n % a
  {
    var q, r := n / (a * b), n % (a * b);
    assert n == (a * b) * q + r;
    assert r == a * (r / a) + r % a;
    assert n == a * (b * q + r / a) + r % a;
    DivModUnique(n, a, b * q + r / a, r % a);
  }

  /** `_canbeprime(n)` holds exactly when `n % 6` is 1 or 5. */
  lemma CanBePrimeMod(n: int)
    ensures CanBePrime(n) <==> n % 6 == 1 || n % 6 == 5
  {
    var k, r := n / 6, n % 6;
    assert n == 6 * k + r;
    if r >= 5 {
      DivModUnique(n - 5, 6, k, r - 5);
    } else {
      DivModUnique(n - 5, 6, k - 1, r + 1);
    }
    if r >= 1 {
      DivModUnique(n - 7, 6, k - 1, r - 1);
    } else {
      DivModUnique(n - 7, 6, k - 2, 5);
    }
  }

  /** From 5 on, `_canbeprime` is exactly "divisible by neither 2 nor 3", so every prime from 5 on passes it and nothing from 4 on that fails it is prime. */
  lemma CanBePrimeFilter(n: int)
    requires n >= 4
    ensures IsPrime(n) ==> CanBePrime(n)
    ensures CanBePrime(n) <==> n % 2 != 0 && n % 3 != 0
  {
    CanBePrimeMod(n);
    ModOfMod(n, 2, 3);
    ModOfMod(n, 3, 2);
    var r := n % 6;
    assert 0 <= r < 6;
    if IsPrime(n) {
      assert n % 2 != 0 && n % 3 != 0;
    }
  }

  // ---------------------------------------------------------------- scanning the buffer

  /**
   * The loop over the buffered primes in `__contains__` and `_fastcontains`:
   * `Some(true)` at the first prime above `limit`, `Some(false)` at the
   * first one dividing `n`, `None` when the buffer runs out first.
   */
  function Scan(buf: seq<int>, n: int, limit: int, k: nat): Option<bool>
    requires PrimePrefix(buf) && k <= |buf|
    decreases |buf| - k
  {
    if k == |buf| then None
    else if buf[k] > limit then Some(true)
    else if n % buf[k] == 0 then Some(false)
    else Scan(buf, n, limit, k + 1)
  }

  method ScanBuffer(buf: seq<int>, n: int, limit: int) returns (r: Option<bool>)
    requires PrimePrefix(buf)
    ensures r == Scan(buf, n, limit, 0)
  {
    var k := 0;
    while k < |buf|
      invariant 0 <= k <= |buf|
      invariant Scan(buf, n, limit, 0) == Scan(buf, n, limit, k)
    {
      if buf[k] > limit {
        return Some(true);
      }
      if n % buf[k] == 0 {
        return Some(false);
      }
      k := k + 1;
    }
    return None;
  }

  /** The scan from index `k`, given that no earlier buffered prime is above `isqrt(n)` or divides `n`. */
  lemma {:induction false} ScanFrom(buf: seq<int>, n: int, k: nat)
    requires PrimePrefix(buf) && n >= 2 && k <= |buf|
    requires forall j :: 0 <= j < k ==> buf[j] <= Isqrt(n) && n % buf[j] != 0
    ensures Scan(buf, n, Isqrt(n), k).Some? ==> (Scan(buf, n, Isqrt(n), k).value <==> IsPrime(n))
    ensures Scan(buf, n, Isqrt(n), k).None? ==>
      forall j :: 0 <= j < |buf| ==> buf[j] <= Isqrt(n) && n % buf[j] != 0
    decreases |buf| - k
  {
    var limit := Isqrt(n);
    if k < |buf| {
      var p := buf[k];
      if p > limit {
        PrimeIffNoSmallPrimeDivisor(n);
        forall q | 2 <= q && q * q <= n && IsPrime(q)
          ensures n % q != 0
        {
          IsqrtBound(n, q);
          PrimePrefixBelow(buf, k, q);
        }
      } else if n % p == 0 {
        DivisorBelowSqrt(n, p);
      } else {
        ScanFrom(buf, n, k + 1);
      }
    }
  }

  /** An answer of the scan decides primality; running out means every buffered prime was small and none divides `n`. */
  lemma ScanSound(buf: seq<int>, n: int)
    requires PrimePrefix(buf) && n >= 2
    ensures Scan(buf, n, Isqrt(n), 0).Some? ==> (Scan(buf, n, Isqrt(n), 0).value <==> IsPrime(n))
    ensures Scan(buf, n, Isqrt(n), 0).None? ==>
      forall j :: 0 <= j < |buf| ==> buf[j] <= Isqrt(n) && n % buf[j] != 0
  {
    ScanFrom(buf, n, 0);
  }

  /** When every buffered prime from `k` on is at most `limit` and divides nothing, the scan runs out. */
  lemma {:induction false} ScanExhausts(buf: seq<int>, n: int, limit: int, k: nat)
    requires PrimePrefix(buf) && k <= |buf|
    requires forall j :: k <= j < |buf| ==> buf[j] <= limit && n % buf[j] != 0
    ensures Scan(buf, n, limit, k) == None
    decreases |buf| - k
  {
    if k < |buf| {
      ScanExhausts(buf, n, limit, k + 1);
    }
  }

  /** A divisor from 2 up to `isqrt(n)` shows that `n` is not prime. */
  lemma DivisorBelowSqrt(n: int, d: int)
    requires n >= 2 && 2 <= d <= Isqrt(n) && n % d == 0
    ensures !IsPrime(n)
  {
    IsqrtBound(n, d);
    MulStrictMono(d, 1, d);
  }

  /** No odd number strictly between `lo` and `hi` divides `n`. */
  predicate NoOddDivisorBetween(n: int, lo: int, hi: int)
  {
    forall d :: lo < d < hi && d % 2 == 1 ==> n % d != 0
  }

  /** Between an odd `lo` and `lo + 2` lies only the even `lo + 1`. */
  lemma NoOddDivisorNextOdd(n: int, lo: int)
    requires lo % 2 == 1
    ensures NoOddDivisorBetween(n, lo, lo + 2) && (lo + 2) % 2 == 1
  {
    assert (lo + 1) % 2 == 0;
  }

  /** One step of the odd trial division: `i` does not divide `n`, and `i + 1` is even. */
  lemma OddStep(n: int, lo: int, i: int)
    requires NoOddDivisorBetween(n, lo, i) && i % 2 == 1 && n % i != 0
    ensures NoOddDivisorBetween(n, lo, i + 2) && (i + 2) % 2 == 1
  {
    assert (i + 1) % 2 == 0;
  }

  /** Trial division that got past `isqrt(n)` without a divisor proves `n` prime. */
  lemma TrialDivisionSound(buf: seq<int>, n: int, i: int)
    requires PrimePrefix(buf) && Last(buf) >= 5 && n >= 2 && i > Isqrt(n)
    requires forall j :: 0 <= j < |buf| ==> n % buf[j] != 0
    requires NoOddDivisorBetween(n, Last(buf), i)
    ensures IsPrime(n)
  {
    PrimeIffNoSmallPrimeDivisor(n);
    forall q | 2 <= q && q * q <= n && IsPrime(q)
      ensures n % q != 0
    {
      IsqrtBound(n, q);
      if q <= Last(buf) {
        assert q in buf;
      } else {
        PrimeOdd(q);
      }
    }
  }

  // ---------------------------------------------------------------- __contains__

  /**
   * `n in ps` for the trial-division sequences: the small cases, the `6k±1`
   * filter, the scan over the buffer, then trial division by the odd numbers
   * from `buffer[-1] + 2` up to `isqrt(n)`.
   */
  method BufferContains(buf: seq<int>, n: int) returns (b: bool)
    requires PrimePrefix(buf) && Last(buf) >= 5
    ensures b <==> IsPrime(n)
  {
    if n < 2 {
      return false;
    }
    if n < 4 {
      assert n == 2 || (n == 3 && 3 % 2 != 0);
      return true;
    }
    CanBePrimeFilter(n);
    if !CanBePrime(n) {
      return false;
    }
    var limit := Isqrt(n);
    var found := ScanBuffer(buf, n, limit);
    ScanSound(buf, n);
    if found.Some? {
      return found.value;
    }
    var last := Last(buf);
    assert IsPrime(last);
    PrimeOdd(last);
    var i := last + 2;
    NoOddDivisorNextOdd(n, last);
    while i < limit + 1
      invariant i >= last + 2 && i % 2 == 1
      invariant NoOddDivisorBetween(n, last, i)
    {
      if n % i == 0 {
        DivisorBelowSqrt(n, i);
        return false;
      }
      OddStep(n, last, i);
      i := i + 2;
    }
    TrialDivisionSound(buf, n, i);
    return true;
  }
}
