/**
 * primeseq/primeseq.py: an endless iterator over the primes that keeps the
 * primes found so far in a buffer and finds each new one by testing the odd
 * numbers after the last with `__contains__`; and `primeseq`, the same
 * iterator cut off at a bound.
 */
module TrialPrimeSeq {
  import opened Wrappers
  import opened Primes
  import opened PrimeBuffer

  /** `infprimeseq`: the buffered primes and the iteration index, unset until `__iter__`. */
  class InfPrimeSeq {
    var buffer: seq<int>
    var i: Option<int>

    /** The buffer holds every prime up to its last element, which is at least 5. */
    ghost predicate BufferValid()
      reads this
    {
      PrimePrefix(buffer) && Last(buffer) >= 5
    }

    /** Between calls the index also points into the buffer or just before it. */
    ghost predicate Valid()
      reads this
    {
      BufferValid() && (i.Some? ==> -1 <= i.value < |buffer|)
    }

    constructor ()
      ensures Valid() && buffer == [2, 3, 5] && i == None
    {
      buffer := [2, 3, 5];
      i := None;
      InitialBuffers();
    }

    /** `__iter__`: restart before the first buffered prime. */
    method Iter()
      requires Valid()
      modifies this
      ensures Valid() && buffer == old(buffer) && i == Some(-1)
    {
      i := Some(-1);
    }

    /** `n in ps`: decides primality. */
    method Contains(n: int) returns (b: bool)
      requires BufferValid()
      ensures b <==> IsPrime(n)
    {
      b := BufferContains(buffer, n);
    }

    /**
     * `__next__`: `AttributeError` before `__iter__`; otherwise advance the
     * index and, past the end of the buffer, append the first odd number after
     * the last prime that `__contains__` accepts. The value returned is the
     * prime at the new index, which is the `i`-th prime.
     */
    method Next() returns (r: Result<int>)
      requires Valid()
      modifies this
      ensures Valid()
      ensures old(i).None? ==> r == Err(AttributeError) && buffer == old(buffer) && i == old(i)
      ensures old(i).Some? ==>
        i == Some(old(i).value + 1)
        && buffer == Grown(old(buffer), old(i).value + 1)
        && r == Ok(NthPrime(old(i).value + 1))
    {
      if i.None? {
        return Err(AttributeError);
      }
      var k := i.value + 1;
      i := Some(k);
      ghost var grown := Grown(buffer, k);
      if k >= |buffer| {
        var c := SearchNext(buffer);
        buffer := buffer + [c];
      }
      assert buffer == grown;
      PrimePrefixNth(buffer, k);
      return Ok(buffer[k]);
    }
  }

  /**
   * The search loop of `__next__`: from two past the last buffered prime,
   * step over the odd numbers until `__contains__` accepts one. It stops at
   * the next prime because every odd number before it is rejected.
   */
  method SearchNext(buffer: seq<int>) returns (c: int)
    requires PrimePrefix(buffer) && Last(buffer) >= 5
    ensures c == NextPrime(Last(buffer))
  {
    var last := Last(buffer);
    assert IsPrime(last);
    PrimeOdd(last);
    ghost var target := NextPrime(last);
    c := last + 2;
    NextPrimeSkip(last, last);
    while true
      invariant last < c <= target && c % 2 == 1
      decreases target - c
    {
      var found := BufferContains(buffer, c);
      if found {
        break;
      }
      NextPrimeSkip(last, c);
      c := c + 2;
    }
    NextPrimeLeast(last, c);
  }

  /** `primeseq(stop)`: an `infprimeseq` whose `__next__` raises `StopIteration` at the first prime not below `stop`. */
  class PrimeSeq {
    const base: InfPrimeSeq
    var stop: int

    ghost predicate Valid()
      reads this, base
    {
      base.Valid()
    }

    constructor (stop: int)
      ensures Valid() && fresh(base) && base.buffer == [2, 3, 5] && base.i == None && this.stop == stop
    {
      base := new InfPrimeSeq();
      this.stop := stop;
    }

    /**
     * `__next__`: the inner sequence moves on in every case, and a prime at
     * or above `stop` is replaced by `StopIteration`.
     */
    method Next() returns (r: Result<int>)
      requires Valid()
      modifies base
      ensures Valid()
      ensures old(base.i).None? ==> r == Err(AttributeError) && base.buffer == old(base.buffer) && base.i == old(base.i)
      ensures old(base.i).Some? ==>
        base.i == Some(old(base.i).value + 1)
        && base.buffer == Grown(old(base.buffer), old(base.i).value + 1)
        && r == Bounded(NthPrime(old(base.i).value + 1), stop)
    {
      ghost var k := if base.i.Some? then base.i.value + 1 else 0;
      r := base.Next();
      assert r.Ok? ==> r.value == NthPrime(k);
      if r.Ok? {
        r := Bounded(r.value, stop);
      }
    }
  }

  /** What `primeseq.__next__` makes of the prime `p`. */
  function Bounded(p: int, stop: int): (r: Result<int>)
    ensures r.Ok? <==> p < stop
    ensures r.Ok? ==> r.value == p
    ensures r.Err? ==> r.error == StopIteration
  {
    if p < stop then Ok(p) else Err(StopIteration)
  }

  /** Once `primeseq(stop)` has raised `StopIteration` at the `j`-th prime, it raises it at every later one. */
  lemma StopPersists(j: nat, k: nat, stop: int)
    requires j <= k && Bounded(NthPrime(j), stop).Err?
    ensures Bounded(NthPrime(k), stop) == Err(StopIteration)
  {
    if j < k {
      NthPrimeIncreasing(j, k);
    }
  }

  /** Every prime below `stop` is yielded by `primeseq(stop)` at some call. */
  lemma YieldsEveryPrimeBelow(q: int, stop: int)
    requires IsPrime(q) && q < stop
    ensures exists k: nat :: Bounded(NthPrime(k), stop) == Ok(q)
  {
    NthPrimeCovers(q);
    var k: nat :| NthPrime(k) == q;
    assert Bounded(NthPrime(k), stop) == Ok(q);
  }
}
