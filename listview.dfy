/**
 * `ListView` of cache-emu/memory.py: a bounds-checked, write-through window
 * `[start, end)` over a list. Indices into the view are local; the view turns
 * them into indices of the backing list.
 */
module ListViews {
  import opened Wrappers

  /** The first position of `x` in `s`, the position Python's `list.index` reports. */
  function Find<T(==)>(s: seq<T>, x: T): (r: Option<nat>)
    ensures r.Some? ==> r.value < |s| && s[r.value] == x
  {
    FindFrom(s, x, 0)
  }

  /** The first position at or after `i` holding `x`. */
  function FindFrom<T(==)>(s: seq<T>, x: T, i: nat): (r: Option<nat>)
    requires i <= |s|
    ensures r.Some? ==> i <= r.value < |s| && s[r.value] == x
    decreases |s| - i
  {
    if i == |s| then None
    else if s[i] == x then Some(i)
    else FindFrom(s, x, i + 1)
  }

  /** `Find` is the first occurrence, and finds nothing exactly when `x` is not in `s`. */
  lemma FindSpec<T>(s: seq<T>, x: T)
    ensures Find(s, x).Some? ==> forall j :: 0 <= j < Find(s, x).value ==> s[j] != x
    ensures Find(s, x).None? <==> x !in s
  {
    FindFromSpec(s, x, 0);
  }

  lemma {:induction false} FindFromSpec<T>(s: seq<T>, x: T, i: nat)
    requires i <= |s| && forall j :: 0 <= j < i ==> s[j] != x
    ensures FindFrom(s, x, i).Some? ==> forall j :: 0 <= j < FindFrom(s, x, i).value ==> s[j] != x
    ensures FindFrom(s, x, i).None? <==> x !in s
    decreases |s| - i
  {
    if i < |s| && s[i] != x {
      FindFromSpec(s, x, i + 1);
    }
  }

  /** An occurrence with none before it, from `i` on, is what `FindFrom` reports. */
  lemma {:induction false} FindFromAt<T>(s: seq<T>, x: T, i: nat, k: nat)
    requires i <= k < |s| && s[k] == x && forall j :: i <= j < k ==> s[j] != x
    ensures FindFrom(s, x, i) == Some(k)
    decreases k - i
  {
    if i < k {
      FindFromAt(s, x, i + 1, k);
    }
  }

  /** `move`'s lower bound: 0 when absent, otherwise raised to at least 0. */
  function ClampStart(start: Option<int>): (r: int)
    ensures r >= 0
    ensures start.None? || start.value < 0 ==> r == 0
    ensures start.Some? ==> r >= start.value && (start.value >= 0 ==> r == start.value)
  {
    if start.None? then 0 else if start.value < 0 then 0 else start.value
  }

  /** `move`'s upper bound: the backing length when absent, otherwise lowered to at most it. */
  function ClampEnd(end: Option<int>, length: nat): (r: int)
    ensures r <= length
    ensures end.None? ==> r == length
    ensures end.Some? && end.value > length ==> r == length
    ensures end.Some? ==> r <= end.value && (end.value <= length ==> r == end.value)
  {
    if end.None? then length else if end.value < length then end.value else length
  }

  class ListView<T(==)> {
    const lst: array<T>
    var start: int
    var end: int

    /** What `move` guarantees: the window never reaches outside the backing list. */
    ghost predicate Valid()
      reads this
    {
      0 <= start && end <= lst.Length
    }

    /** The elements `__iter__` yields, in order. */
    function Elements(): (s: seq<T>)
      reads this, lst
      requires Valid()
      ensures |s| == if start < end then end - start else 0
    {
      if start < end then lst[start..end] else []
    }

    constructor (lst: array<T>, start: Option<int>, end: Option<int>)
      ensures this.lst == lst && Valid()
      ensures this.start == ClampStart(start) && this.end == ClampEnd(end, lst.Length)
    {
      this.lst := lst;
      new;
      Move(start, end);
    }

    method Move(start: Option<int>, end: Option<int>)
      modifies this
      ensures Valid()
      ensures this.start == ClampStart(start) && this.end == ClampEnd(end, lst.Length)
    {
      this.start := ClampStart(start);
      this.end := ClampEnd(end, lst.Length);
    }

    /** `__len__`: the number of elements, except that an inverted window reports a negative length. */
    function Len(): (n: int)
      reads this, lst
      requires Valid()
      ensures n >= 0 ==> n == |Elements()|
      ensures n < 0 ==> Elements() == []
    {
      end - start
    }

    /** `__contains__`: scans only the window. */
    method Contains(x: T) returns (b: bool)
      requires Valid()
      ensures b <==> x in Elements()
    {
      var i := start;
      while i < end
        invariant start <= i && (if start < end then i <= end else i == start)
        invariant forall j :: start <= j < i ==> lst[j] != x
      {
        if lst[i] == x {
          assert Elements()[i - start] == x;
          return true;
        }
        i := i + 1;
      }
      return false;
    }

    /**
     * `_getindex`: a local key, negative keys counting back from the end,
     * becomes a backing index; out of the window raises `IndexError`.
     */
    function GetIndex(key: int): (r: Result<int>)
      reads this, lst
      requires Valid()
      ensures r.Ok? <==> (if key < 0 then -Len() <= key else key < Len())
      ensures r.Ok? ==> start <= r.value < end && r.value - start == (if key < 0 then key + Len() else key)
      ensures r.Err? ==> r.error == IndexError
    {
      var i := if key < 0 then end + key else start + key;
      if start <= i < end then Ok(i) else Err(IndexError)
    }

    /** `__getitem__`: Python list indexing of the window's elements. */
    function Get(key: int): (r: Result<T>)
      reads this, lst
      requires Valid()
      ensures r.Ok? <==> (if key < 0 then -|Elements()| <= key else key < |Elements()|)
      ensures r.Ok? ==> r.value == Elements()[if key < 0 then key + |Elements()| else key]
      ensures r.Err? ==> r.error == IndexError
    {
      match GetIndex(key) {
        case Ok(i) => Ok(lst[i])
        case Err(e) => Err(e)
      }
    }

    /** `__setitem__`: writes through to exactly one backing element. */
    method Set(key: int, value: T) returns (outcome: Outcome)
      requires Valid()
      modifies lst
      ensures outcome.Pass? <==> GetIndex(key).Ok?
      ensures outcome.Pass? ==> lst[..] == old(lst[..])[GetIndex(key).value := value]
      ensures outcome.Fail? ==> outcome.error == IndexError && lst[..] == old(lst[..])
    {
      match GetIndex(key) {
        case Ok(i) =>
          lst[i] := value;
          return Pass;
        case Err(e) =>
          return Fail(e);
      }
    }

    /** `index`: the first local position of `value`; `ValueError` when it is not in the window. */
    method Index(value: T) returns (r: Result<int>)
      requires Valid()
      ensures r.Ok? <==> Find(Elements(), value).Some?
      ensures r.Ok? ==> 0 <= r.value && Find(Elements(), value) == Some(r.value as nat)
      ensures r.Err? ==> r.error == ValueError
    {
      var i := start;
      while i < end
        invariant start <= i && (if start < end then i <= end else i == start)
        invariant forall j :: start <= j < i ==> lst[j] != value
      {
        if lst[i] == value {
          assert Elements()[i - start] == value;
          assert forall j :: 0 <= j < i - start ==> Elements()[j] != value;
          FindFromAt(Elements(), value, 0, i - start);
          return Ok(i - start);
        }
        i := i + 1;
      }
      assert value !in Elements();
      FindSpec(Elements(), value);
      return Err(ValueError);
    }

    /** `original`: the backing index of a local index. */
    function Original(index: int): (r: int)
      reads this, lst
      requires Valid()
      ensures 0 <= index < Len() ==> GetIndex(index) == Ok(r)
      ensures index < 0 ==> r < start
      ensures index >= Len() ==> r >= end
    {
      start + index
    }
  }
}
