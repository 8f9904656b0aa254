/**
 * math/primeseq.py: a prime sequence backed by an incremental Sieve of
 * Eratosthenes. The sieve keeps a dictionary `D` from each upcoming odd
 * composite to a prime that divides it; the sequence keeps the primes taken
 * from the sieve in a buffer, and answers `n in ps` by binary search in the
 * buffer or by trial division after growing it.
 */
module SievePrimeSeq {
  import opened Wrappers
  import opened PyInt
  import opened Primes
  import opened PrimeBuffer
  import Bisect

  // ---------------------------------------------------------------- the sieve's invariant

  /** Every odd multiple of `p` from `p * p` in `[lo, hi)` is a key of `D`. */
  ghost predicate Covered(D: map<int, int>, p: int, lo: int, hi: int)
  {
    p >= 3 && forall m :: lo <= m < hi && m % p == 0 && m % 2 == 1 && m >= p * p ==> m in D
  }

  /**
   * The state of the sieve whenever it is about to test the odd number `q`.
   * The ghost map `key` gives, for every odd prime `p < q`, the key of `D`
   * that `p` currently marks; every odd multiple of `p` passed over on the
   * way to that key is marked by another prime. Every key of `D` is an odd
   * multiple, not below `q`, of the prime that marks it.
   */
  ghost predicate SieveInv(q: int, D: map<int, int>, key: map<int, int>)
  {
    q >= 3 && q % 2 == 1
    && (forall p {:trigger p in key} :: p in key <==> 3 <= p < q && IsPrime(p))
    && (forall p :: p in key ==> key[p] in D && D[key[p]] == p && key[p] >= q && Covered(D, p, q, key[p]))
    && (forall x :: x in D ==> D[x] in key && key[D[x]] == x && x % D[x] == 0 && x % 2 == 1)
  }

  /** The empty dictionary before 3 is tested. */
  lemma SieveInvInitial()
    ensures SieveInv(3, map[], map[])
  {
  }

  /** The sieve's test: `q` is a key of `D` exactly when it is not prime. */
  lemma SieveTest(q: int, D: map<int, int>, key: map<int, int>)
    requires SieveInv(q, D, key)
    ensures q in D <==> !IsPrime(q)
  {
    if q in D {
      var p := D[q];
      assert p in key && 3 <= p < q && q % p == 0;
    } else if !IsPrime(q) {
      CompositeMarked(q, D, key);
    }
  }

  /** An odd composite `q` is marked by its smallest prime factor `p`, whose marks cover `q` since `p * p <= q`. */
  lemma CompositeMarked(q: int, D: map<int, int>, key: map<int, int>)
    requires SieveInv(q, D, key) && !IsPrime(q)
    ensures q in D
  {
    var p := SmallestDivisor(q);
    SmallestDivisorIsPrime(q);
    CompositeHasSmallDivisor(q);
    assert p in key;
    assert q < key[p] ==> q in D;
  }

  /** Between two odd multiples `a < m` of an odd `p` that are less than `2p` apart lies only the even `a + p`. */
  lemma OddMultipleGap(p: int, a: int, m: int)
    requires p >= 3 && p % 2 == 1 && a % p == 0 && a % 2 == 1 && m % p == 0 && a < m < a + 2 * p
    ensures m % 2 == 0
  {
    var i, j := a / p, m / p;
    NextMultiple(p, i, j);
    assert m == a + p;
    SumOfOdds(a, p);
  }

  /** Multiples `p*i < p*j < p*(i+2)` are consecutive. */
  lemma NextMultiple(p: int, i: int, j: int)
    requires p > 0 && p * i < p * j < p * i + 2 * p
    ensures j == i + 1
  {
    MulStrictMono(p, i, j);
    assert p * (i + 2) == p * i + 2 * p;
    MulStrictMono(p, j, i + 2);
  }

  /** The sum of two odd numbers is even. */
  lemma SumOfOdds(a: int, b: int)
    requires a % 2 == 1 && b % 2 == 1
    ensures (a + b) % 2 == 0
  {
    DivModUnique(a + b, 2, a / 2 + b / 2 + 1, 0);
  }

  /** From an odd multiple `a` of the odd `p`, the next odd multiple is `a + 2p`. */
  lemma NextOddMultiple(p: int, a: int)
    requires p >= 3 && p % 2 == 1 && a % p == 0 && a % 2 == 1
    ensures (a + 2 * p) % p == 0 && (a + 2 * p) % 2 == 1
    ensures forall m :: a < m < a + 2 * p && m % p == 0 ==> m % 2 == 0
  {
    DivModUnique(a + 2 * p, p, a / p + 2, 0);
    DivModUnique(a + 2 * p, 2, a / 2 + p, 1);
    forall m | a < m < a + 2 * p && m % p == 0
      ensures m % 2 == 0
    {
      OddMultipleGap(p, a, m);
    }
  }

  /** The keys of `D` from `x` on. */
  function KeysFrom(D: map<int, int>, x: int): (s: set<int>)
    ensures forall y :: y in s <==> y in D && y >= x
  {
    set y | y in D && y >= x
  }

  /** Moving past a key leaves fewer keys ahead. */
  lemma KeysFromShrink(D: map<int, int>, x: int, x': int)
    requires x in D && x < x'
    ensures |KeysFrom(D, x')| < |KeysFrom(D, x)|
  {
    var A, B := KeysFrom(D, x'), KeysFrom(D, x);
    assert B == A + (B - A) && A !! (B - A);
    assert x in B - A;
    assert |B - A| >= 1;
  }

  /** An odd number above an odd `q` is at least `q + 2`. */
  lemma OddAbove(q: int, x: int)
    requires q % 2 == 1 && x % 2 == 1 && x > q
    ensures x >= q + 2
  {
    if x == q + 1 {
      DivModUnique(q + 1, 2, q / 2 + 1, 0);
    }
  }

  /** `q + 1` is even, so not prime, and `q + 2` is odd. */
  lemma OddNext(q: int)
    requires q >= 3 && q % 2 == 1
    ensures !IsPrime(q + 1) && (q + 2) % 2 == 1
  {
    DivModUnique(q + 1, 2, q / 2 + 1, 0);
    DivModUnique(q + 2, 2, q / 2 + 1, 1);
  }

  /**
   * A composite `q`: the prime `p = D.pop(q)` moves to the next odd multiple
   * `x` of `p` above `q` that no other prime marks.
   */
  lemma CompositeStep(q: int, D: map<int, int>, key: map<int, int>, x: int)
    requires SieveInv(q, D, key) && q in D
    requires x > q && x % D[q] == 0 && x % 2 == 1 && x !in D - {q}
    requires forall m :: q < m < x && m % D[q] == 0 && m % 2 == 1 ==> m in D - {q}
    ensures SieveInv(q + 2, (D - {q})[x := D[q]], key[D[q] := x])
  {
    var p := D[q];
    assert x !in D;
    var D' := (D - {q})[x := p];
    var key' := key[p := x];
    SieveTest(q, D, key);
    OddNext(q);
    OddAbove(q, x);
    assert key[p] == q;
    forall r | true
      ensures r in key' <==> 3 <= r < q + 2 && IsPrime(r)
    {
      if r == q + 1 || r == q {
      }
    }
    forall r | r in key'
      ensures key'[r] in D' && D'[key'[r]] == r && key'[r] >= q + 2 && Covered(D', r, q + 2, key'[r])
    {
      if r != p {
        var y := key[r];
        assert y != q;
        OddAbove(q, y);
        assert Covered(D, r, q, y);
      }
    }
    forall y | y in D'
      ensures D'[y] in key' && key'[D'[y]] == y && y % D'[y] == 0 && y % 2 == 1
    {
      if y != x {
        assert y in D && y != q;
        var r := D[y];
        assert key[r] == y;
      }
    }
  }

  /** A prime `q`: it is yielded, and marks its square. */
  lemma PrimeStep(q: int, D: map<int, int>, key: map<int, int>)
    requires SieveInv(q, D, key) && q !in D
    ensures SieveInv(q + 2, D[q * q := q], key[q := q * q])
  {
    var D' := D[q * q := q];
    var key' := key[q := q * q];
    SieveTest(q, D, key);
    OddNext(q);
    assert q * q !in D by {
      if q * q in D {
        var r := D[q * q];
        assert r in key && IsPrime(r) && r < q;
        PrimeDividesSquare(r, q);
      }
    }
    MulStrictMono(q, 1, q);
    assert (q * q) % q == 0 && (q * q) % 2 == 1 by {
      DivModUnique(q * q, q, q, 0);
      var t := q / 2;
      assert q == 2 * t + 1;
      assert q * q == 2 * (2 * t * t + 2 * t) + 1;
      DivModUnique(q * q, 2, 2 * t * t + 2 * t, 1);
    }
    forall r | true
      ensures r in key' <==> 3 <= r < q + 2 && IsPrime(r)
    {
      if r == q + 1 {
      }
    }
    forall r | r in key'
      ensures key'[r] in D' && D'[key'[r]] == r && key'[r] >= q + 2 && Covered(D', r, q + 2, key'[r])
    {
      if r != q {
        var y := key[r];
        assert y != q;
        OddAbove(q, y);
        assert Covered(D, r, q, y);
      }
    }
    forall y | y in D'
      ensures D'[y] in key' && key'[D'[y]] == y && y % D'[y] == 0 && y % 2 == 1
    {
      if y != q * q {
        var r := D[y];
        assert r != q;
      }
    }
  }

  /**
   * The marking loop of a composite `q` whose prime is `p`: `x = 2p + q`,
   * then `x += 2p` while `x` is already a key. It stops at the first odd
   * multiple of `p` above `q` that is not a key, having passed only keys.
   */
  method NextFree(D: map<int, int>, p: int, q: int) returns (x: int)
    requires p >= 3 && p % 2 == 1 && q % p == 0 && q % 2 == 1
    ensures x > q && x % p == 0 && x % 2 == 1 && x !in D
    ensures forall m :: q < m < x && m % p == 0 && m % 2 == 1 ==> m in D
  {
    var p2 := p * 2;
    x := p2 + q;
    NextOddMultiple(p, q);
    while x in D
      invariant x > q && x % p == 0 && x % 2 == 1
      invariant forall m :: q < m < x && m % p == 0 && m % 2 == 1 ==> m in D
      decreases |KeysFrom(D, x)|
    {
      NextOddMultiple(p, x);
      KeysFromShrink(D, x, x + p2);
      x := x + p2;
    }
  }

  /** After yielding 2 the sieve tests 3 with an empty dictionary. */
  lemma RunningInitial()
    ensures Running(3, map[], map[], 1)
  {
    SieveInvInitial();
    SmallPrimes();
  }

  /**
   * One call of a started sieve: sift up to the next prime, yield it and
   * mark its square.
   */
  method Advance(q0: int, D0: map<int, int>, ghost key0: map<int, int>, ghost count: nat)
    returns (p: int, q: int, D: map<int, int>, ghost key: map<int, int>)
    requires Running(q0, D0, key0, count)
    ensures p == NthPrime(count) && Running(q, D, key, count + 1)
  {
    ghost var last := NthPrime(count - 1);
    BelowNextPrime(last, q0);
    var q', D';
    ghost var key';
    q', D', key' := Sift(q0, D0, key0, last);
    RunningStep(q', D', key', count);
    p := q';
    q := q' + 2;
    D := D'[q' * q' := q'];
    key := key'[q' := q' * q'];
  }

  /** The state of a started sieve that has yielded `count` primes and tests `q` next. */
  ghost predicate Running(q: int, D: map<int, int>, key: map<int, int>, count: nat)
  {
    SieveInv(q, D, key) && count >= 1 && NthPrime(count - 1) < q && NoPrimeBetween(NthPrime(count - 1), q)
  }

  /** Yielding the prime `q` that `Sift` stopped at and marking its square keeps the sieve running. */
  lemma RunningStep(q: int, D: map<int, int>, key: map<int, int>, count: nat)
    requires count >= 1 && SieveInv(q, D, key) && q !in D && q == NextPrime(NthPrime(count - 1))
    ensures q == NthPrime(count)
    ensures Running(q + 2, D[q * q := q], key[q := q * q], count + 1)
  {
    PrimeStep(q, D, key);
    OddNext(q);
    assert NoPrimeBetween(q, q + 2);
  }

  /**
   * The `while True` loop of the generator up to its next `yield`: pop and
   * re-mark every composite `q`, and stop at the first `q` that is not a key,
   * which is the prime after the last one yielded.
   */
  method Sift(q0: int, D0: map<int, int>, ghost key0: map<int, int>, ghost last: nat)
    returns (q: int, D: map<int, int>, ghost key: map<int, int>)
    requires SieveInv(q0, D0, key0) && last < q0 <= NextPrime(last) && NoPrimeBetween(last, q0)
    ensures SieveInv(q, D, key) && q !in D && q == NextPrime(last)
  {
    q, D, key := q0, D0, key0;
    while true
      invariant SieveInv(q, D, key) && last < q <= NextPrime(last) && NoPrimeBetween(last, q)
      decreases NextPrime(last) - q
    {
      SieveTest(q, D, key);
      OddNext(q);
      if q !in D {
        FoundNext(last, q);
        return;
      }
      ghost var Dq := D;
      var p := D[q];
      D := D - {q};
      assert p in key;
      PrimeOdd(p);
      var x := NextFree(D, p, q);
      CompositeStep(q, Dq, key, x);
      D := D[x := p];
      key := key[p := x];
      NoPrimeExtend(last, q);
      BelowNextPrime(last, q + 2);
      q := q + 2;
    }
  }

  // ---------------------------------------------------------------- eratosthenes

  /**
   * The `eratosthenes` generator as an object: `started` says whether 2 has
   * been yielded. The work the generator does after `yield q` when it is
   * resumed (marking `q * q` and moving to `q + 2`) is done here before
   * returning, which changes nothing that a caller can observe.
   */
  class Eratosthenes {
    var q: int
    var D: map<int, int>
    var started: bool
    /** The prime each marked prime currently marks. */
    ghost var key: map<int, int>
    /** How many primes have been yielded. */
    ghost var count: nat

    ghost predicate Valid()
      reads this
    {
      if !started then q == 3 && D == map[] && key == map[] && count == 0
      else Running(q, D, key, count)
    }

    constructor ()
      ensures Valid() && count == 0
    {
      q := 3;
      D := map[];
      started := false;
      key := map[];
      count := 0;
    }

    /** `next(e)`: the primes in increasing order, 2 first. */
    method Next() returns (p: int)
      requires Valid()
      modifies this
      ensures Valid() && count == old(count) + 1 && p == NthPrime(old(count))
    {
      if !started {
        started := true;
        count := 1;
        RunningInitial();
        return 2;
      }
      p, q, D, key := Advance(q, D, key, count);
      count := count + 1;
    }
  }

  // ---------------------------------------------------------------- primeseq

  /** Appending the prime the sieve yields after the buffered ones keeps the buffer a prefix of the primes. */
  lemma AppendYielded(buf: seq<int>, p: int)
    requires PrimePrefix(buf) && p == NthPrime(|buf|)
    ensures PrimePrefix(buf + [p]) && buf + [p] == Grown(buf, |buf|)
  {
    NthPrimeAfter(buf);
    PrimePrefixAppend(buf);
  }

  /** `next(self._e)` appended to the buffer: the sieve yields the prime after the buffered ones. */
  method Draw(e: Eratosthenes, buf: seq<int>) returns (p: int, grown: seq<int>)
    requires e.Valid() && e.count == |buf| && PrimePrefix(buf)
    modifies e
    ensures e.Valid() && e.count == |grown| && PrimePrefix(grown)
    ensures p == NthPrime(|buf|) && grown == buf + [p] && grown == Grown(buf, |buf|)
  {
    p := e.Next();
    AppendYielded(buf, p);
    grown := buf + [p];
  }

  /**
   * Lines 71-74 of `__contains__`: draw primes from the sieve until the last
   * one reaches `limit`; the one before it is still below `limit`.
   */
  method Extend(e: Eratosthenes, buf: seq<int>, limit: int) returns (grown: seq<int>)
    requires e.Valid() && e.count == |buf| && PrimePrefix(buf) && Last(buf) < limit
    modifies e
    ensures e.Valid() && e.count == |grown| && PrimePrefix(grown)
    ensures |grown| > |buf| && buf <= grown
    ensures grown[|grown| - 2] < limit <= Last(grown)
  {
    grown := buf;
    while Last(grown) < limit
      invariant e.Valid() && e.count == |grown| && PrimePrefix(grown)
      invariant buf <= grown
      invariant |grown| > |buf| ==> grown[|grown| - 2] < limit
      decreases limit - Last(grown)
    {
      var p;
      p, grown := Draw(e, grown);
    }
  }

  /** The first `n` primes, taken from a fresh sieve. */
  method Take(e: Eratosthenes, n: int) returns (buf: seq<int>)
    requires e.Valid() && e.count == 0 && n >= 1
    modifies e
    ensures e.Valid() && e.count == n == |buf| && PrimePrefix(buf)
  {
    var p := e.Next();
    buf := [p];
    InitialBuffers();
    while |buf| < n
      invariant e.Valid() && e.count == |buf| <= n && PrimePrefix(buf)
    {
      p := e.Next();
      AppendYielded(buf, p);
      buf := buf + [p];
    }
  }

  /** The loop `for p in islice(buffer, ilimit)`: whether one of the first `ilimit` buffered primes divides `n`. */
  method TrialDivides(buf: seq<int>, n: int, ilimit: int) returns (d: bool)
    requires PrimePrefix(buf) && 0 <= ilimit <= |buf|
    ensures d <==> exists j :: 0 <= j < ilimit && n % buf[j] == 0
  {
    var k := 0;
    while k < ilimit
      invariant 0 <= k <= ilimit
      invariant forall j :: 0 <= j < k ==> n % buf[j] != 0
    {
      if n % buf[k] == 0 {
        return true;
      }
      k := k + 1;
    }
    return false;
  }

  /** A composite `n` has its smallest prime factor among the buffered primes up to `isqrt(n)`. */
  lemma CompositeHasBufferedFactor(buf: seq<int>, n: int, ilimit: int)
    requires PrimePrefix(buf) && n >= 2 && !IsPrime(n) && Isqrt(n) <= Last(buf)
    requires 0 <= ilimit <= |buf| && forall j :: ilimit <= j < |buf| ==> buf[j] > Isqrt(n)
    ensures exists j :: 0 <= j < ilimit && n % buf[j] == 0
  {
    var p := SmallestDivisor(n);
    SmallestDivisorIsPrime(n);
    CompositeHasSmallDivisor(n);
    IsqrtBound(n, p);
    assert p in buf;
    var j :| 0 <= j < |buf| && buf[j] == p;
    assert j < ilimit;
  }

  /** For `n` up to the last buffered prime, finding `n` by `bisect_left` decides its primality. */
  lemma InBufferVerdict(buf: seq<int>, n: int, pos: int)
    requires PrimePrefix(buf) && 2 <= n <= Last(buf) && 0 <= pos <= |buf|
    requires forall j :: 0 <= j < pos ==> buf[j] < n
    requires forall j :: pos <= j < |buf| ==> buf[j] >= n
    ensures (pos != |buf| && buf[pos] == n) <==> IsPrime(n)
  {
    if IsPrime(n) {
      assert n in buf;
      var k :| 0 <= k < |buf| && buf[k] == n;
      Bisect.BisectLeftFinds(buf, n, 0, |buf|, pos, k);
    }
  }

  /**
   * With enough primes already buffered, the trial division by those up to
   * `isqrt(n) + 1`, all below `n`, decides primality.
   */
  lemma TrialVerdict(buf: seq<int>, n: int, ilimit: int)
    requires PrimePrefix(buf) && n >= 2 && Isqrt(n) + 1 <= Last(buf) < n && 0 <= ilimit <= |buf|
    requires forall j :: 0 <= j < ilimit ==> buf[j] <= Isqrt(n) + 1
    requires forall j :: ilimit <= j < |buf| ==> buf[j] > Isqrt(n) + 1
    ensures (exists j :: 0 <= j < ilimit && n % buf[j] == 0) <==> !IsPrime(n)
  {
    if !IsPrime(n) {
      CompositeHasBufferedFactor(buf, n, ilimit);
    } else {
      PrimePrefixFirst(buf);
      forall j | 0 <= j < ilimit
        ensures n % buf[j] != 0
      {
        assert IsPrime(buf[j]) && buf[j] < n;
      }
    }
  }

  /** The only divisor of a prime from 2 on is the prime itself. */
  lemma PrimeDivisor(n: int, d: int)
    requires IsPrime(n) && d >= 2 && n % d == 0
    ensures d == n
  {
    if d > n {
      DivModUnique(n, d, 0, n);
    }
  }

  /**
   * After growing the buffer to the first prime not below `isqrt(n) + 1`,
   * the trial division by every buffered prime proves `n` prime when nothing
   * divides it; a prime `n` is only rejected when it is that last prime
   * itself, so that no prime lies between `isqrt(n)` and `n`.
   */
  lemma GrownVerdict(buf: seq<int>, n: int)
    requires PrimePrefix(buf) && |buf| >= 2 && n >= 2
    requires buf[|buf| - 2] < Isqrt(n) + 1 <= Last(buf)
    ensures !(exists j :: 0 <= j < |buf| && n % buf[j] == 0) ==> IsPrime(n)
    ensures IsPrime(n) && (exists j :: 0 <= j < |buf| && n % buf[j] == 0) ==> NoPrimeBetween(Isqrt(n), n)
  {
    if !IsPrime(n) {
      CompositeHasBufferedFactor(buf, n, |buf|);
    } else if j :| 0 <= j < |buf| && n % buf[j] == 0 {
      PrimePrefixFirst(buf);
      assert IsPrime(buf[j]);
      PrimeDivisor(n, buf[j]);
      assert j == |buf| - 1;
      LastPrimeGap(buf, n);
    }
  }

  /** No prime lies between the last two buffered primes. */
  lemma LastPrimeGap(buf: seq<int>, n: int)
    requires PrimePrefix(buf) && |buf| >= 2 && n == Last(buf) && n >= 2 && buf[|buf| - 2] <= Isqrt(n)
    ensures NoPrimeBetween(Isqrt(n), n)
  {
    var lo := buf[|buf| - 2];
    PrimePrefixNext(buf, |buf| - 1);
    assert n == NextPrime(lo);
    forall q | Isqrt(n) < q < n
      ensures !IsPrime(q)
    {
      assert lo < q < NextPrime(lo);
    }
  }

  /**
   * Lines 70-87 of `__contains__`, for `n` above the last buffered prime:
   * grow the buffer until it reaches `isqrt(n) + 1` or else find with
   * `bisect_right` how many buffered primes are at most that, then try
   * dividing `n` by those primes.
   */
  method TrialContains(e: Eratosthenes, buf: seq<int>, n: int) returns (b: bool, grown: seq<int>)
    requires e.Valid() && e.count == |buf| && PrimePrefix(buf) && 4 <= n && Last(buf) < n
    modifies e
    ensures e.Valid() && e.count == |grown| && PrimePrefix(grown) && buf <= grown
    ensures Isqrt(n) + 1 <= Last(buf) ==> grown == buf
    ensures b ==> IsPrime(n)
    ensures IsPrime(n) && !b ==> Last(buf) < Isqrt(n) + 1 && NoPrimeBetween(Isqrt(n), n)
  {
    var limit := Isqrt(n) + 1;
    var ilimit;
    if Last(buf) < limit {
      grown := Extend(e, buf, limit);
      ilimit := |grown|;
      GrownVerdict(grown, n);
    } else {
      grown := buf;
      ilimit := Bisect.BisectRight(buf, limit, 0, |buf|);
      TrialVerdict(buf, n, ilimit);
    }
    var divides := TrialDivides(grown, n, ilimit);
    b := !divides;
  }

  /**
   * math/primeseq.py's `primeseq`: the primes drawn from the sieve so far,
   * their count and the iteration index. The sieve yields the primes in order,
   * so it always has yielded exactly the buffered ones. A negative
   * `initial_buffer_size` is truthy, so the constructor keeps it as the count
   * while `range` builds an empty buffer; from then on `_buffersize` is
   * negative and every look into the buffer raises `IndexError`.
   */
  class PrimeSeq {
    const e: Eratosthenes
    var buffer: seq<int>
    var buffersize: int
    var i: int

    ghost predicate Valid()
      reads this, e
    {
      e.Valid() && e.count == |buffer| && -1 <= i
      && if buffersize < 0 then buffer == []
         else PrimePrefix(buffer) && buffersize == |buffer| && i < buffersize
    }

    /**
     * `primeseq(initial_buffer_size)`: the first `initial_buffer_size`
     * primes, or just 2 when the size is `None` or 0; a negative size leaves
     * the buffer empty and the count negative.
     */
    constructor (size: Option<int>)
      ensures Valid() && fresh(e) && i == -1
      ensures size.Some? && size.value < 0 ==> buffer == [] && buffersize == size.value
      ensures !(size.Some? && size.value < 0) ==>
        buffersize == |buffer| == (if size.Some? && size.value > 0 then size.value else 1)
      ensures forall j :: 0 <= j < |buffer| ==> buffer[j] == NthPrime(j)
    {
      var sieve := new Eratosthenes();
      if size.Some? && size.value < 0 {
        e := sieve;
        buffer := [];
        buffersize := size.value;
      } else {
        var n := if size.Some? && size.value > 0 then size.value else 1;
        var buf := Take(sieve, n);
        PrimePrefixIsFirstPrimes(buf);
        e := sieve;
        buffer := buf;
        buffersize := n;
      }
      i := -1;
    }

    /** `__iter__`: restart before the first buffered prime. */
    method Iter()
      requires Valid()
      modifies this
      ensures Valid() && buffer == old(buffer) && buffersize == old(buffersize) && i == -1
    {
      i := -1;
    }

    /**
     * `__next__`: advance the index; one past the buffer, draw the next prime
     * from the sieve and append it. The value is the `i`-th prime. With a
     * negative count the index never meets it and `_buffer[_i]` raises.
     */
    method Next() returns (r: Result<int>)
      requires Valid()
      modifies this, e
      ensures Valid() && i == old(i) + 1
      ensures old(buffersize) < 0 ==>
        r == Err(IndexError) && buffer == old(buffer) && buffersize == old(buffersize)
      ensures old(buffersize) >= 0 ==> buffer == Grown(old(buffer), i) && r == Ok(NthPrime(i))
    {
      i := i + 1;
      if i == buffersize {
        var p, grown := Draw(e, buffer);
        buffer := grown;
        buffersize := buffersize + 1;
        r := Ok(p);
      } else if i < |buffer| {
        r := Ok(buffer[i]);
        PrimePrefixNth(buffer, i);
      } else {
        r := Err(IndexError);
      }
    }

    /**
     * `n in ps`: the small cases, the `6k±1` filter, `bisect_left` for `n`
     * up to the last buffered prime, and otherwise trial division by the
     * buffered primes up to `isqrt(n) + 1`, growing the buffer first when it
     * does not reach that far. A `True` answer is always right; a prime is
     * only rejected when the buffer had to grow and no prime lies between
     * `isqrt(n)` and `n`, which Bertrand's postulate rules out. With an empty
     * buffer, `_buffer[-1]` raises `IndexError` for every `n` past the filter.
     */
    method Contains(n: int) returns (r: Result<bool>)
      requires Valid()
      modifies this, e
      ensures Valid() && i == old(i) && (buffersize < 0 <==> old(buffersize) < 0)
      ensures old(buffersize) < 0 ==> buffer == old(buffer) && buffersize == old(buffersize)
      ensures old(buffersize) < 0 ==> (r.Err? <==> 4 <= n && CanBePrime(n))
      ensures r.Err? ==> r.error == IndexError
      ensures old(buffersize) >= 0 ==> r.Ok? && old(buffer) <= buffer
      ensures r.Ok? && r.value ==> IsPrime(n)
      ensures r.Ok? && (n < 4 || !CanBePrime(n)) ==> (r.value <==> IsPrime(n))
      ensures old(buffersize) >= 0 && IsPrime(n) && !r.value ==>
        Last(old(buffer)) < Isqrt(n) + 1 && NoPrimeBetween(Isqrt(n), n)
    {
      if n < 4 {
        SmallPrimes();
        r := Ok(n >= 2);
      } else if !CanBePrime(n) {
        CanBePrimeFilter(n);
        r := Ok(false);
      } else if buffer == [] {
        r := Err(IndexError);
      } else if n == Last(buffer) {
        r := Ok(true);
      } else if n < Last(buffer) {
        var pos := Bisect.BisectLeft(buffer, n, 0, buffersize);
        InBufferVerdict(buffer, n, pos);
        r := Ok(pos != buffersize && buffer[pos] == n);
      } else {
        var b, grown := TrialContains(e, buffer, n);
        buffer := grown;
        buffersize := |grown|;
        r := Ok(b);
      }
    }
  }
}
