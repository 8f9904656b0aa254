/**
 * maths/primeseq.py: the buffered prime sequence that searches for each new
 * prime among the `6k±1` numbers after the last one, testing candidates with
 * `_fastcontains`, the scan over the buffered primes up to `isqrt(n)`.
 */
module SixStepPrimeSeq {
  import opened Wrappers
  import opened PyInt
  import opened Primes
  import opened PrimeBuffer
  import TrialPrimeSeq

  // ---------------------------------------------------------------- _fastcontains

  /**
   * `_fastcontains(n)`: the scan over the buffer with limit `isqrt(n)`, and
   * `ValueError` when the buffer ends before a prime exceeds the limit.
   */
  method FastContains(buf: seq<int>, n: int) returns (r: Result<bool>)
    requires PrimePrefix(buf) && n >= 0
    ensures r.Ok? && n >= 2 ==> (r.value <==> IsPrime(n))
    ensures r.Err? ==> r.error == ValueError
    ensures r.Err? <==> forall j :: 0 <= j < |buf| ==> buf[j] <= Isqrt(n) && n % buf[j] != 0
  {
    var limit := Isqrt(n);
    var found := ScanBuffer(buf, n, limit);
    if n >= 2 {
      ScanSound(buf, n);
    } else {
      PrimePrefixFirst(buf);
      assert limit * limit <= n < 2 * 2;
    }
    if found.None? {
      return Err(ValueError);
    }
    if forall j :: 0 <= j < |buf| ==> buf[j] <= limit && n % buf[j] != 0 {
      ScanExhausts(buf, n, limit, 0);
    }
    return Ok(found.value);
  }

  /** `_fastcontains` only runs out of buffer on a number at least the square of the last buffered prime. */
  lemma FastContainsGap(buf: seq<int>, n: int)
    requires PrimePrefix(buf) && n >= 0
    requires forall j :: 0 <= j < |buf| ==> buf[j] <= Isqrt(n) && n % buf[j] != 0
    ensures Last(buf) * Last(buf) <= n
  {
    assert Last(buf) <= Isqrt(n);
    IsqrtBound(n, Last(buf));
  }

  // ---------------------------------------------------------------- stepping over 6k±1

  /** Adding a small `k` moves the remainder modulo 6 along by `k`. */
  lemma Mod6Shift(n: int, k: int)
    requires 0 <= k <= 6
    ensures (n + k) % 6 == (n % 6 + k) % 6
  {
    var q, r := n / 6, n % 6;
    if r + k < 6 {
      DivModUnique(n + k, 6, q, r + k);
    } else {
      DivModUnique(n + k, 6, q + 1, r + k - 6);
    }
  }

  /** The search from the prime `lo` may move past the non-primes from `c`, which is `lo` or not prime, to `d`. */
  lemma SkipTo(lo: nat, c: int, d: int)
    requires lo <= c <= d && NoPrimeBetween(lo, c) && (c == lo || !IsPrime(c))
    requires forall q :: c < q < d ==> !IsPrime(q)
    ensures NoPrimeBetween(lo, d) && d <= NextPrime(lo)
  {
    var np := NextPrime(lo);
    assert lo < np && IsPrime(np);
  }

  /** From `lo` or a non-prime candidate `6k+5`, the search moves on to `6k+7`. */
  lemma SkipFromFive(lo: nat, c: int)
    requires lo <= c && c >= 5 && c % 6 == 5 && NoPrimeBetween(lo, c) && (c == lo || !IsPrime(c))
    ensures NoPrimeBetween(lo, c + 2) && c + 2 <= NextPrime(lo) && (c + 2) % 6 == 1
  {
    var k := c / 6;
    DivModUnique(c + 1, 2, 3 * k + 3, 0);
    DivModUnique(c + 2, 6, k + 1, 1);
    assert !IsPrime(c + 1);
    SkipTo(lo, c, c + 2);
  }

  /** From `lo` or a non-prime candidate `6k+1`, the search moves on to `6k+5`. */
  lemma SkipFromOne(lo: nat, c: int)
    requires lo <= c && c >= 5 && c % 6 == 1 && NoPrimeBetween(lo, c) && (c == lo || !IsPrime(c))
    ensures NoPrimeBetween(lo, c + 4) && c + 4 <= NextPrime(lo) && (c + 4) % 6 == 5
  {
    var k := c / 6;
    DivModUnique(c + 1, 2, 3 * k + 1, 0);
    DivModUnique(c + 2, 3, 2 * k + 1, 0);
    DivModUnique(c + 3, 2, 3 * k + 2, 0);
    DivModUnique(c + 4, 6, k, 5);
    assert !IsPrime(c + 1) && !IsPrime(c + 2) && !IsPrime(c + 3);
    SkipTo(lo, c, c + 4);
  }

  /** A prime from 5 on is `6k+1` or `6k+5`. */
  lemma PrimeSixStep(p: int)
    requires IsPrime(p) && p >= 5
    ensures p % 6 == 1 || p % 6 == 5
  {
    CanBePrimeFilter(p);
    CanBePrimeMod(p);
  }

  /**
   * One candidate of the search: `_fastcontains(c)` when no prime lies
   * between the last buffered prime and `c`. Accepting `c` means it is the
   * next prime, and raising means the next prime is at least the square of
   * the last one.
   */
  method TryCandidate(buffer: seq<int>, c: int) returns (f: Result<bool>)
    requires PrimePrefix(buffer) && 5 <= Last(buffer) < c && NoPrimeBetween(Last(buffer), c)
    ensures f.Err? ==> f.error == ValueError && Last(buffer) * Last(buffer) <= NextPrime(Last(buffer))
    ensures f.Ok? && f.value ==> c == NextPrime(Last(buffer))
    ensures f.Ok? && !f.value ==> !IsPrime(c)
  {
    var last := Last(buffer);
    f := FastContains(buffer, c);
    if f.Err? {
      FastContainsGap(buffer, c);
      BelowNextPrime(last, c);
    } else if f.value {
      NextPrimeLeast(last, c);
    }
  }

  /**
   * The search of `__next__` past the end of the buffer: from a last prime
   * `6k+5` try `6k+7` first, then go on with `SearchLoop` from the next
   * `6k+5` number. It finds the next prime, or raises `ValueError` with
   * `_fastcontains`, which only happens when the next prime is at least the
   * square of the last one.
   */
  method SearchNext(buffer: seq<int>) returns (r: Result<int>)
    requires PrimePrefix(buffer) && Last(buffer) >= 5
    ensures r.Ok? ==> r.value == NextPrime(Last(buffer))
    ensures r.Err? ==> r.error == ValueError && Last(buffer) * Last(buffer) <= NextPrime(Last(buffer))
  {
    var last := Last(buffer);
    LastSixStep(buffer);
    var c := last;
    if (c - 5) % 6 == 0 {
      Mod6Shift(c - 5, 5);
      SkipFromFive(last, c);
      c := c + 2;
      var f := TryCandidate(buffer, c);
      if f.Err? {
        return Err(f.error);
      }
      if f.value {
        return Ok(c);
      }
    } else {
      Mod6Shift(c - 5, 5);
    }
    SkipFromOne(last, c);
    r := SearchLoop(buffer, c + 4);
  }

  /** The last buffered prime is `6k+1` or `6k+5`. */
  lemma LastSixStep(buffer: seq<int>)
    requires PrimePrefix(buffer) && Last(buffer) >= 5
    ensures Last(buffer) % 6 == 1 || Last(buffer) % 6 == 5
  {
    PrimeSixStep(Last(buffer));
  }

  /** The `while True` loop of the search: test `6k+5`, then `6k+7`, then move on by 6. */
  method SearchLoop(buffer: seq<int>, c0: int) returns (r: Result<int>)
    requires PrimePrefix(buffer) && 5 <= Last(buffer) < c0 && c0 % 6 == 5
    requires NoPrimeBetween(Last(buffer), c0) && c0 <= NextPrime(Last(buffer))
    ensures r.Ok? ==> r.value == NextPrime(Last(buffer))
    ensures r.Err? ==> r.error == ValueError && Last(buffer) * Last(buffer) <= NextPrime(Last(buffer))
  {
    var last := Last(buffer);
    var c := c0;
    while true
      invariant last < c <= NextPrime(last) && c % 6 == 5 && NoPrimeBetween(last, c)
      decreases NextPrime(last) - c
    {
      var f := TryCandidate(buffer, c);
      if f.Err? {
        return Err(f.error);
      }
      if f.value {
        return Ok(c);
      }
      SkipFromFive(last, c);
      c := c + 2;
      f := TryCandidate(buffer, c);
      if f.Err? {
        return Err(f.error);
      }
      if f.value {
        return Ok(c);
      }
      SkipFromOne(last, c);
      c := c + 4;
    }
  }

  // ---------------------------------------------------------------- infprimeseq

  /** `infprimeseq`: the buffered primes and the iteration index. */
  class InfPrimeSeq {
    var buffer: seq<int>
    var i: int

    /**
     * The buffer holds every prime up to its last element, which is at least
     * 5. The index only grows from -1; a `ValueError` in `__next__` leaves it
     * one past the end of the buffer.
     */
    ghost predicate Valid()
      reads this
    {
      PrimePrefix(buffer) && Last(buffer) >= 5 && i >= -1
    }

    /** `infprimeseq()`, before the prefill: the buffer `[2, 3, 5]` and the index -1. */
    constructor ()
      ensures Valid() && buffer == [2, 3, 5] && i == -1
    {
      buffer := [2, 3, 5];
      i := -1;
      InitialBuffers();
    }

    /** `__iter__`: restart before the first buffered prime. */
    method Iter()
      requires Valid()
      modifies this
      ensures Valid() && buffer == old(buffer) && i == -1
    {
      i := -1;
    }

    /** `n in ps`: decides primality. */
    method Contains(n: int) returns (b: bool)
      requires Valid()
      ensures b <==> IsPrime(n)
    {
      b := BufferContains(buffer, n);
    }

    /**
     * `__next__`: advance the index; inside the buffer return the buffered
     * prime, which is the `i`-th prime; past its end append and return the
     * next prime after the last, unless `_fastcontains` raised.
     */
    method Next() returns (r: Result<int>)
      requires Valid()
      modifies this
      ensures Valid() && i == old(i) + 1
      ensures i < |old(buffer)| ==> buffer == old(buffer) && r == Ok(NthPrime(i))
      ensures i >= |old(buffer)| && r.Ok? ==>
        buffer == old(buffer) + [r.value] && r.value == NthPrime(|old(buffer)|)
      ensures r.Err? ==>
        i >= |old(buffer)| && r.error == ValueError && buffer == old(buffer)
        && Last(buffer) * Last(buffer) <= NextPrime(Last(buffer))
    {
      i := i + 1;
      if i >= |buffer| {
        r := Extend();
      } else {
        PrimePrefixNth(buffer, i);
        r := Ok(buffer[i]);
      }
    }

    /**
     * The prefill loop of the constructor: `__next__` `n` times from the
     * fresh state, then the index is reset; a `ValueError` from `__next__`
     * escapes.
     */
    method Prefill(n: int) returns (o: Outcome)
      requires Valid() && buffer == [2, 3, 5] && i == -1 && n >= 0
      modifies this
      ensures Valid()
      ensures o.Fail? ==> o.error == ValueError
      ensures o.Pass? ==> i == -1 && |buffer| == (if n <= 3 then 3 else n)
    {
      var k := 0;
      while k < n
        invariant 0 <= k <= n && Valid() && i == k - 1
        invariant |buffer| == (if k <= 3 then 3 else k)
      {
        var x := Next();
        if x.Err? {
          return Fail(x.error);
        }
        k := k + 1;
      }
      i := -1;
      return Pass;
    }

    /** The part of `__next__` past the end of the buffer: search for the next prime and append it. */
    method Extend() returns (r: Result<int>)
      requires PrimePrefix(buffer) && Last(buffer) >= 5
      modifies this
      ensures i == old(i) && PrimePrefix(buffer) && Last(buffer) >= 5
      ensures r.Ok? ==> buffer == old(buffer) + [r.value] && r.value == NthPrime(|old(buffer)|)
      ensures r.Err? ==>
        r.error == ValueError && buffer == old(buffer)
        && Last(buffer) * Last(buffer) <= NextPrime(Last(buffer))
    {
      r := SearchNext(buffer);
      if r.Ok? {
        NthPrimeAfter(buffer);
        PrimePrefixAppend(buffer);
        buffer := buffer + [r.value];
      }
    }
  }

  /**
   * `infprimeseq(initial_buffer_size)`: a falsy size (`None` or 0) keeps
   * `[2, 3, 5]`; a negative one raises `ValueError`; a positive `N` runs
   * `Prefill`, so the buffer holds the first `max(3, N)` primes.
   */
  method New(size: Option<int>) returns (r: Result<InfPrimeSeq>)
    ensures size.Some? && size.value < 0 ==> r == Err(ValueError)
    ensures r.Err? ==> r.error == ValueError
    ensures r.Ok? ==> fresh(r.value) && r.value.Valid() && r.value.i == -1
    ensures r.Ok? ==> |r.value.buffer| == (if size.None? || size.value <= 3 then 3 else size.value)
    ensures r.Ok? ==> forall j :: 0 <= j < |r.value.buffer| ==> r.value.buffer[j] == NthPrime(j)
    ensures size.None? || size.value == 0 ==> r.Ok? && r.value.buffer == [2, 3, 5]
  {
    var ps := new InfPrimeSeq();
    if size.Some? && size.value != 0 {
      if size.value < 0 {
        return Err(ValueError);
      }
      var o := ps.Prefill(size.value);
      if o.Fail? {
        return Err(o.error);
      }
    }
    PrimePrefixIsFirstPrimes(ps.buffer);
    return Ok(ps);
  }

  // ---------------------------------------------------------------- primeseq

  /**
   * `primeseq(stop)` as written: the `nxt` closure is stored as an instance
   * attribute, which iteration never consults, so `__next__` is the inner
   * sequence's and `stop` has no effect.
   */
  class PrimeSeq {
    const base: InfPrimeSeq
    var stop: int

    ghost predicate Valid()
      reads this, base
    {
      base.Valid()
    }

    /** `self.stop = stop` on a sequence the base constructor has already built. */
    constructor (stop: int, inner: InfPrimeSeq)
      requires inner.Valid()
      ensures Valid() && base == inner && this.stop == stop
    {
      base := inner;
      this.stop := stop;
    }

    /** `next(ps)`: the inner sequence's `__next__`, whatever `stop` is. */
    method Next() returns (r: Result<int>)
      requires Valid()
      modifies base
      ensures Valid() && base.i == old(base.i) + 1
      ensures base.i < |old(base.buffer)| ==> base.buffer == old(base.buffer) && r == Ok(NthPrime(base.i))
      ensures base.i >= |old(base.buffer)| && r.Ok? ==>
        base.buffer == old(base.buffer) + [r.value] && r.value == NthPrime(|old(base.buffer)|)
      ensures r.Err? ==> base.i >= |old(base.buffer)| && r.error == ValueError && base.buffer == old(base.buffer)
    {
      r := base.Next();
    }

    /**
     * What the `nxt` closure evidently meant: the inner `__next__`, then
     * `StopIteration` at the first prime not below `stop`. Inside the buffer
     * the value is the `i`-th prime; past it the next prime is appended and
     * bounded, unless `_fastcontains` raised.
     */
    method NextBelowStop() returns (r: Result<int>)
      requires Valid()
      modifies base
      ensures Valid() && base.i == old(base.i) + 1
      ensures base.i < |old(base.buffer)| ==>
        base.buffer == old(base.buffer) && r == TrialPrimeSeq.Bounded(NthPrime(base.i), stop)
      ensures base.i >= |old(base.buffer)| && base.buffer != old(base.buffer) ==>
        base.buffer == old(base.buffer) + [NthPrime(|old(base.buffer)|)]
        && r == TrialPrimeSeq.Bounded(NthPrime(|old(base.buffer)|), stop)
      ensures base.i >= |old(base.buffer)| && base.buffer == old(base.buffer) ==>
        r == Err(ValueError) && Last(base.buffer) * Last(base.buffer) <= NextPrime(Last(base.buffer))
    {
      r := base.Next();
      if r.Ok? {
        r := TrialPrimeSeq.Bounded(r.value, stop);
      }
    }
  }

  /**
   * `primeseq(stop, initial_buffer_size)`: the base constructor runs first,
   * so a negative size raises `ValueError` and a positive one prefills; then
   * `stop` is stored.
   */
  method NewPrimeSeq(stop: int, size: Option<int>) returns (r: Result<PrimeSeq>)
    ensures size.Some? && size.value < 0 ==> r == Err(ValueError)
    ensures r.Err? ==> r.error == ValueError
    ensures size.None? || size.value == 0 ==> r.Ok? && r.value.base.buffer == [2, 3, 5]
    ensures r.Ok? ==> fresh(r.value) && fresh(r.value.base) && r.value.Valid()
    ensures r.Ok? ==> r.value.stop == stop && r.value.base.i == -1
    ensures r.Ok? ==> |r.value.base.buffer| == (if size.None? || size.value <= 3 then 3 else size.value)
    ensures r.Ok? ==> forall j :: 0 <= j < |r.value.base.buffer| ==> r.value.base.buffer[j] == NthPrime(j)
  {
    var inner := New(size);
    if inner.Err? {
      return Err(inner.error);
    }
    var ps := new PrimeSeq(stop, inner.value);
    return Ok(ps);
  }

  /** `primeseq(stop)` with no `initial_buffer_size`: `NewPrimeSeq(stop, None)` without the error case. */
  method Unsized(stop: int) returns (ps: PrimeSeq)
    ensures fresh(ps) && fresh(ps.base) && ps.Valid() && ps.stop == stop
    ensures ps.base.buffer == [2, 3, 5] && ps.base.i == -1
  {
    var inner := new InfPrimeSeq();
    ps := new PrimeSeq(stop, inner);
  }

  /** The prime 3 is the prime after 2. */
  lemma SecondPrime()
    ensures NthPrime(1) == 3
  {
    SmallPrimes();
    NextPrimeLeast(2, 3);
  }

  /**
   * `primeseq(3)` as written yields 3 at its second step, although 3 is not
   * below `stop`.
   */
  method StopIgnored() returns (second: Result<int>, stop: int)
    ensures stop == 3 && second == Ok(3)
  {
    var ps := Unsized(3);
    ps.base.Iter();
    var first := ps.Next();
    second := ps.Next();
    SecondPrime();
    stop := ps.stop;
  }

  /** 7 and 11 follow 5 and 7. */
  lemma FourthAndFifthPrimes()
    ensures NextPrime(5) == 7 && NextPrime(7) == 11
    ensures NthPrime(3) == 7 && NthPrime(4) == 11
  {
    SmallPrimes();
    assert 6 % 2 == 0 && 8 % 2 == 0 && 9 % 3 == 0 && 10 % 2 == 0;
    assert IsPrime(7) by {
      assert 7 % 2 != 0 && 7 % 3 != 0 && 7 % 4 != 0 && 7 % 5 != 0 && 7 % 6 != 0;
    }
    assert IsPrime(11) by {
      assert 11 % 2 != 0 && 11 % 3 != 0 && 11 % 4 != 0 && 11 % 5 != 0 && 11 % 6 != 0;
      assert 11 % 7 != 0 && 11 % 8 != 0 && 11 % 9 != 0 && 11 % 10 != 0;
    }
    NextPrimeLeast(5, 7);
    NextPrimeLeast(7, 11);
    SecondPrime();
    NextPrimeLeast(3, 5);
  }

  /**
   * With the bound applied, `primeseq(10)` yields 2, 3, 5 and 7 and then
   * raises `StopIteration` at 11; the search past the buffer cannot raise
   * here, since 5 * 5 and 7 * 7 exceed the primes that follow them.
   */
  method StopApplied() returns (fourth: Result<int>, fifth: Result<int>)
    ensures fourth == Ok(7) && fifth == Err(StopIteration)
  {
    var ps := Unsized(10);
    var r := ps.NextBelowStop();
    r := ps.NextBelowStop();
    r := ps.NextBelowStop();
    fourth, fifth := PastBuffer(ps);
  }

  /** The fourth and fifth bounded steps of `primeseq(10)`, both past the buffer [2, 3, 5]. */
  method PastBuffer(ps: PrimeSeq) returns (fourth: Result<int>, fifth: Result<int>)
    requires ps.Valid() && ps.stop == 10 && ps.base.buffer == [2, 3, 5] && ps.base.i == 2
    modifies ps.base
    ensures fourth == Ok(7) && fifth == Err(StopIteration)
  {
    AfterSmallBuffer(ps.base.buffer);
    fourth := ExtendBelowStop(ps);
    fifth := ExtendBelowStop(ps);
  }

  /**
   * One past the buffer, when the search cannot raise: the bounded `__next__`
   * appends the next prime and bounds it by `stop`.
   */
  method ExtendBelowStop(ps: PrimeSeq) returns (r: Result<int>)
    requires ps.Valid() && ps.base.i + 1 == |ps.base.buffer|
    requires !(Last(ps.base.buffer) * Last(ps.base.buffer) <= NextPrime(Last(ps.base.buffer)))
    modifies ps.base
    ensures ps.Valid() && ps.base.i == old(ps.base.i) + 1 && ps.stop == old(ps.stop)
    ensures ps.base.buffer == old(ps.base.buffer) + [NthPrime(|old(ps.base.buffer)|)]
    ensures r == TrialPrimeSeq.Bounded(NthPrime(|old(ps.base.buffer)|), ps.stop)
  {
    r := ps.NextBelowStop();
  }

  /**
   * Past the buffer `[2, 3, 5]` come 7 and 11, and `_fastcontains` cannot
   * raise before either of them, since 5 * 5 and 7 * 7 exceed the primes that
   * follow them.
   */
  lemma AfterSmallBuffer(b: seq<int>)
    requires b == [2, 3, 5]
    ensures NthPrime(|b|) == 7 && NthPrime(|b| + 1) == 11
    ensures !(Last(b) * Last(b) <= NextPrime(Last(b)))
    ensures !(Last(b + [7]) * Last(b + [7]) <= NextPrime(Last(b + [7])))
  {
    assert |b| == 3 && Last(b) == 5 && Last(b + [7]) == 7;
    PrimesPastFive(|b|, Last(b), Last(b + [7]));
  }

  /** `FourthAndFifthPrimes` over symbolic arguments, so that callers do not evaluate `NextPrime` on literals. */
  lemma PrimesPastFive(k: nat, p: int, q: int)
    requires k == 3 && p == 5 && q == 7
    ensures NthPrime(k) == q && NthPrime(k + 1) == 11
    ensures !(p * p <= NextPrime(p)) && !(q * q <= NextPrime(q))
  {
    FourthAndFifthPrimes();
  }
}
