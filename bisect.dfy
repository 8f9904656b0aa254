/**
 * Python's `bisect_left` and `bisect_right` on a sorted list, as
 * math/primeseq.py uses them: binary searches for the first position whose
 * element is not below (respectively above) `x` within `[lo, hi)`.
 */
module Bisect {
  predicate Sorted(a: seq<int>)
  {
    forall j, k :: 0 <= j < k < |a| ==> a[j] <= a[k]
  }

  /** `bisect_left(a, x, lo, hi)`: everything in `[lo, r)` is below `x`, nothing in `[r, hi)` is. */
  method BisectLeft(a: seq<int>, x: int, lo: int, hi: int) returns (r: int)
    requires Sorted(a) && 0 <= lo <= hi <= |a|
    ensures lo <= r <= hi
    ensures forall j :: lo <= j < r ==> a[j] < x
    ensures forall j :: r <= j < hi ==> a[j] >= x
  {
    var l, h := lo, hi;
    while l < h
      invariant lo <= l <= h <= hi
      invariant forall j :: lo <= j < l ==> a[j] < x
      invariant forall j :: h <= j < hi ==> a[j] >= x
    {
      var mid := (l + h) / 2;
      if a[mid] < x {
        l := mid + 1;
      } else {
        h := mid;
      }
    }
    return l;
  }

  /** `bisect_right(a, x, lo, hi)`: everything in `[lo, r)` is at most `x`, everything in `[r, hi)` above it. */
  method BisectRight(a: seq<int>, x: int, lo: int, hi: int) returns (r: int)
    requires Sorted(a) && 0 <= lo <= hi <= |a|
    ensures lo <= r <= hi
    ensures forall j :: lo <= j < r ==> a[j] <= x
    ensures forall j :: r <= j < hi ==> a[j] > x
  {
    var l, h := lo, hi;
    while l < h
      invariant lo <= l <= h <= hi
      invariant forall j :: lo <= j < l ==> a[j] <= x
      invariant forall j :: h <= j < hi ==> a[j] > x
    {
      var mid := (l + h) / 2;
      if a[mid] <= x {
        l := mid + 1;
      } else {
        h := mid;
      }
    }
    return l;
  }

  /** In a strictly increasing list, `bisect_left` lands on `x` whenever `x` occurs in `[lo, hi)`. */
  lemma BisectLeftFinds(a: seq<int>, x: int, lo: int, hi: int, r: int, k: int)
    requires forall j, m :: 0 <= j < m < |a| ==> a[j] < a[m]
    requires 0 <= lo <= r <= hi <= |a| && lo <= k < hi && a[k] == x
    requires forall j :: lo <= j < r ==> a[j] < x
    requires forall j :: r <= j < hi ==> a[j] >= x
    ensures r == k
  {
    assert r <= k;
    assert a[r] >= x;
  }
}
