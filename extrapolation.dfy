/**
 * interpolation/extrapolation.py: tables of differences (and of floor
 * quotients) of an integer sequence, built level by level until a level is
 * constant, and the next item they predict.  The `printtree`/`printdtree`
 * drawings are output only and are not modelled.
 */
module Extrapolation {
  import opened Wrappers
  import opened PyInt

  function Last(s: seq<int>): int
    requires |s| >= 1
  {
    s[|s| - 1]
  }

  /** `isconstant(s)`: every entry equals the first; vacuously true below two entries. */
  predicate IsConstant(s: seq<int>)
  {
    forall i :: 1 <= i < |s| ==> s[0] == s[i]
  }

  // ---------------------------------------------------------------------------
  // One level

  /** `getdiff(s)`: the differences of neighbouring entries. */
  function GetDiff(s: seq<int>): (d: seq<int>)
    ensures |d| == if s == [] then 0 else |s| - 1
    ensures forall i :: 0 <= i < |d| ==> d[i] == s[i + 1] - s[i]
  {
    if |s| < 2 then [] else seq(|s| - 1, i requires 0 <= i < |s| - 1 => s[i + 1] - s[i])
  }

  function Sum(s: seq<int>): int
  {
    if s == [] then 0 else Sum(s[..|s| - 1]) + s[|s| - 1]
  }

  /** The differences undo: every entry is the first plus the sum of the differences before it. */
  lemma {:induction false} DiffTelescopes(s: seq<int>, k: nat)
    requires k < |s|
    ensures s[k] == s[0] + Sum(GetDiff(s)[..k])
  {
    if k > 0 {
      DiffTelescopes(s, k - 1);
      assert GetDiff(s)[..k][..k - 1] == GetDiff(s)[..k - 1];
    }
  }

  /** A sequence is constant exactly when all its differences are 0. */
  lemma ConstantIffZeroDiffs(s: seq<int>)
    ensures IsConstant(s) <==> forall i :: 0 <= i < |GetDiff(s)| ==> GetDiff(s)[i] == 0
  {
    var d := GetDiff(s);
    if forall i :: 0 <= i < |d| ==> d[i] == 0 {
      forall i | 1 <= i < |s|
        ensures s[0] == s[i]
      {
        DiffTelescopes(s, i);
        ZeroSum(d[..i]);
      }
    }
  }

  lemma {:induction false} ZeroSum(s: seq<int>)
    requires forall i :: 0 <= i < |s| ==> s[i] == 0
    ensures Sum(s) == 0
  {
    if s != [] {
      ZeroSum(s[..|s| - 1]);
    }
  }

  /**
   * `getdiv(s)`: the floor quotients of neighbouring entries, in order; a zero
   * divisor raises `ZeroDivisionError`.
   */
  function GetDiv(s: seq<int>): (r: Result<seq<int>>)
    ensures r.Ok? ==> |r.value| == (if s == [] then 0 else |s| - 1)
    ensures r.Err? ==> r.error == ZeroDivisionError
  {
    if |s| < 2 then Ok([])
    else if s[0] == 0 then Err(ZeroDivisionError)
    else match GetDiv(s[1..])
      case Err(e) => Err(e)
      case Ok(q) => Ok([FloorDiv(s[1], s[0])] + q)
  }

  /** `getdiv` raises exactly when some divisor is 0, and otherwise holds the floor quotients. */
  lemma {:induction false} GetDivSpec(s: seq<int>)
    ensures GetDiv(s).Err? <==> exists i :: 0 <= i < |s| - 1 && s[i] == 0
    ensures GetDiv(s).Err? ==> GetDiv(s).error == ZeroDivisionError
    ensures GetDiv(s).Ok? ==> forall i :: 0 <= i < |s| - 1 ==> GetDiv(s).value[i] == FloorDiv(s[i + 1], s[i])
    decreases |s|
  {
    if |s| >= 2 && s[0] != 0 {
      GetDivSpec(s[1..]);
      if GetDiv(s[1..]).Err? {
        var i :| 0 <= i < |s| - 2 && s[1..][i] == 0;
        assert s[i + 1] == 0;
      } else {
        forall i | 1 <= i < |s| - 1
          ensures GetDiv(s).value[i] == FloorDiv(s[i + 1], s[i])
        {
          assert GetDiv(s).value[i] == GetDiv(s[1..]).value[i - 1];
          assert s[1..][i - 1] == s[i] && s[1..][i] == s[i + 1];
        }
      }
    }
  }

  /** Where a divisor divides exactly, the quotient multiplies back to the next entry. */
  lemma DivUndoes(s: seq<int>, i: nat)
    requires GetDiv(s).Ok? && i < |s| - 1 && s[i] != 0 && s[i + 1] % s[i] == 0
    ensures s[i] * GetDiv(s).value[i] == s[i + 1]
  {
    GetDivSpec(s);
    var a, b := s[i + 1], s[i];
    assert a == b * (a / b) + a % b;
    FloorDivUniqueAny(a, b, a / b);
  }

  /** An exact product divides back to its factor, whatever the signs. */
  lemma FloorDivUniqueAny(a: int, b: int, q: int)
    requires b != 0 && a == b * q
    ensures FloorDiv(a, b) == q
  {
    if b > 0 {
      FloorDivUnique(a, b, q);
    } else {
      var p := FloorDiv(a, b);
      var c := -b;
      assert c * q == -(b * q) && c * p == -(b * p) && c * (p + 1) == c * p + c;
      MulStrictMono(c, q, p + 1);
      MulStrictMono(c, p, q);
    }
  }

  // ---------------------------------------------------------------------------
  // Tables

  /** The levels from `d` on: `d`, then differences of differences until a level is constant or has one entry. */
  function DiffLevels(d: seq<int>): (ds: seq<seq<int>>)
    requires |d| >= 1
    ensures |ds| >= 1 && ds[0] == d
    decreases |d|
  {
    if IsConstant(d) || |d| <= 1 then [d] else [d] + DiffLevels(GetDiff(d))
  }

  /** What `getdiffs(s)` returns: no level below two entries, otherwise the levels from `getdiff(s)`. */
  function DiffTable(s: seq<int>): seq<seq<int>>
  {
    if |s| < 2 then [] else DiffLevels(GetDiff(s))
  }

  /** The division levels from `d` on, or the `ZeroDivisionError` of the first failing level. */
  function DivLevels(d: seq<int>): (r: Result<seq<seq<int>>>)
    requires |d| >= 1
    ensures r.Ok? ==> |r.value| >= 1 && r.value[0] == d
    ensures r.Err? ==> r.error == ZeroDivisionError
    decreases |d|
  {
    if IsConstant(d) || |d| <= 1 then Ok([d])
    else match GetDiv(d)
      case Err(e) => Err(e)
      case Ok(n) => match DivLevels(n)
        case Err(e) => Err(e)
        case Ok(rest) => Ok([d] + rest)
  }

  /** What `getdivs(s)` returns or raises. */
  function DivTable(s: seq<int>): Result<seq<seq<int>>>
  {
    if |s| < 2 then Ok([])
    else match GetDiv(s)
      case Err(e) => Err(e)
      case Ok(d) => DivLevels(d)
  }

  /** The shape the loops of `getdiffs` and `getdivs` stop on: only the last level is constant or a single entry. */
  predicate ChainShape(ds: seq<seq<int>>)
  {
    |ds| >= 1
    && (forall j :: 0 <= j < |ds| ==> |ds[j]| >= 1)
    && (forall j :: 0 <= j < |ds| - 1 ==> !IsConstant(ds[j]) && |ds[j]| > 1)
    && (IsConstant(ds[|ds| - 1]) || |ds[|ds| - 1]| == 1)
  }

  lemma {:induction false} DiffLevelsChain(d: seq<int>)
    requires |d| >= 1
    ensures ChainShape(DiffLevels(d))
    ensures forall j :: 0 <= j < |DiffLevels(d)| - 1 ==> DiffLevels(d)[j + 1] == GetDiff(DiffLevels(d)[j])
    decreases |d|
  {
    if !(IsConstant(d) || |d| <= 1) {
      DiffLevelsChain(GetDiff(d));
      var ds := DiffLevels(d);
      assert ds[1..] == DiffLevels(GetDiff(d));
    }
  }

  /**
   * `getdiffs`: nothing below two entries; otherwise level 0 is `getdiff(s)`,
   * each next level is the differences of the one before, every level is
   * non-empty, only the last is constant or a single entry.
   */
  lemma DiffTableShape(s: seq<int>)
    ensures |s| < 2 <==> DiffTable(s) == []
    ensures |s| >= 2 ==> DiffTable(s)[0] == GetDiff(s) && ChainShape(DiffTable(s))
    ensures forall j :: 0 <= j < |DiffTable(s)| - 1 ==> DiffTable(s)[j + 1] == GetDiff(DiffTable(s)[j])
  {
    if |s| >= 2 {
      DiffLevelsChain(GetDiff(s));
    }
  }

  lemma {:induction false} DivLevelsChain(d: seq<int>)
    requires |d| >= 1 && DivLevels(d).Ok?
    ensures ChainShape(DivLevels(d).value)
    ensures forall j :: 0 <= j < |DivLevels(d).value| - 1 ==>
      GetDiv(DivLevels(d).value[j]) == Ok(DivLevels(d).value[j + 1])
    decreases |d|
  {
    if !(IsConstant(d) || |d| <= 1) {
      var n := GetDiv(d).value;
      DivLevelsChain(n);
      var ds := DivLevels(d).value;
      assert ds[1..] == DivLevels(n).value;
    }
  }

  /** `getdivs` has the shape of `getdiffs`, with floor quotients in place of differences. */
  lemma DivTableShape(s: seq<int>)
    ensures |s| < 2 <==> DivTable(s) == Ok([])
    ensures |s| >= 2 && DivTable(s).Ok? ==>
      GetDiv(s) == Ok(DivTable(s).value[0]) && ChainShape(DivTable(s).value)
      && forall j :: 0 <= j < |DivTable(s).value| - 1 ==> GetDiv(DivTable(s).value[j]) == Ok(DivTable(s).value[j + 1])
  {
    if |s| >= 2 && DivTable(s).Ok? {
      DivLevelsChain(GetDiv(s).value);
    }
  }

  /** One more pass of the loop of `getdiffs` moves one level from the pending part to the built part. */
  lemma DiffStep(built: seq<seq<int>>, last: seq<int>)
    requires |last| > 1 && !IsConstant(last)
    ensures built + DiffLevels(last) == (built + [last]) + DiffLevels(GetDiff(last))
  {
  }

  /** `getdiffs(s)`, with the loop of the source. */
  method GetDiffs(s: seq<int>) returns (diffs: seq<seq<int>>)
    ensures diffs == DiffTable(s)
  {
    if |s| < 2 {
      return [];
    }
    var built: seq<seq<int>> := [];
    var last := GetDiff(s);
    assert built + DiffLevels(last) == DiffTable(s);
    while !IsConstant(last) && |last| > 1
      invariant |last| >= 1
      invariant built + DiffLevels(last) == DiffTable(s)
      decreases |last|
    {
      DiffStep(built, last);
      built, last := built + [last], GetDiff(last);
    }
    LastLevel(last);
    diffs := built + [last];
  }

  /** A constant level, or one of a single entry, is the last. */
  lemma LastLevel(d: seq<int>)
    requires |d| >= 1 && (IsConstant(d) || |d| <= 1)
    ensures DiffLevels(d) == [d]
  {
  }

  /** The levels already built, in front of the levels still to come or of their error. */
  function Prepend(built: seq<seq<int>>, r: Result<seq<seq<int>>>): Result<seq<seq<int>>>
  {
    match r
      case Err(e) => Err(e)
      case Ok(v) => Ok(built + v)
  }

  /** One more pass of the loop of `getdivs`: a level that divides moves to the built part, one that does not raises. */
  lemma DivStep(built: seq<seq<int>>, last: seq<int>)
    requires |last| > 1 && !IsConstant(last)
    ensures GetDiv(last).Err? ==> Prepend(built, DivLevels(last)) == Err(ZeroDivisionError)
    ensures GetDiv(last).Ok? ==>
      Prepend(built, DivLevels(last)) == Prepend(built + [last], DivLevels(GetDiv(last).value))
  {
    if GetDiv(last).Ok? {
      match DivLevels(GetDiv(last).value)
      case Err(_) =>
      case Ok(rest) =>
        assert built + ([last] + rest) == (built + [last]) + rest;
    }
  }

  /** `getdivs(s)`, with the loop of the source; the first zero divisor raises. */
  method GetDivs(s: seq<int>) returns (res: Result<seq<seq<int>>>)
    ensures res == DivTable(s)
  {
    if |s| < 2 {
      return Ok([]);
    }
    var first := GetDiv(s);
    if first.Err? {
      return Err(first.error);
    }
    var built: seq<seq<int>> := [];
    var last := first.value;
    assert Prepend(built, DivLevels(last)) == DivLevels(last) by {
      if DivLevels(last).Ok? {
        assert [] + DivLevels(last).value == DivLevels(last).value;
      }
    }
    while !IsConstant(last) && |last| > 1
      invariant |last| >= 1
      invariant Prepend(built, DivLevels(last)) == DivTable(s)
      decreases |last|
    {
      DivStep(built, last);
      var next := GetDiv(last);
      if next.Err? {
        return Err(next.error);
      }
      built, last := built + [last], next.value;
    }
    return Ok(built + [last]);
  }

  // ---------------------------------------------------------------------------
  // Extrapolation

  /** The last entry of a level (levels are never empty; 0 stands in for an empty one). */
  function LastOf(level: seq<int>): int
  {
    if level == [] then 0 else Last(level)
  }

  /** The sum of the last entries of the levels. */
  function SumLasts(ds: seq<seq<int>>): int
  {
    if ds == [] then 0 else LastOf(ds[0]) + SumLasts(ds[1..])
  }

  /** The product of the last entries of the levels. */
  function ProductLasts(ds: seq<seq<int>>): int
  {
    if ds == [] then 1 else LastOf(ds[0]) * ProductLasts(ds[1..])
  }

  /** The levels of the difference table are non-empty, and there are none exactly below two entries. */
  lemma DiffTableLevels(s: seq<int>)
    ensures |s| < 2 <==> DiffTable(s) == []
    ensures forall j :: 0 <= j < |DiffTable(s)| ==> |DiffTable(s)[j]| >= 1
  {
    DiffTableShape(s);
  }

  /** The same for the division table, when it is built. */
  lemma DivTableLevels(s: seq<int>)
    ensures |s| < 2 <==> DivTable(s) == Ok([])
    ensures DivTable(s).Ok? ==> forall j :: 0 <= j < |DivTable(s).value| ==> |DivTable(s).value[j]| >= 1
  {
    DivTableShape(s);
  }

  /** The loop of `nextitem`: r = ds[-1][-1], then r = ds[i][-1] + r from the bottom level up. */
  method AccumulateSum(ds: seq<seq<int>>) returns (acc: int)
    requires |ds| >= 1 && forall j :: 0 <= j < |ds| ==> |ds[j]| >= 1
    ensures acc == SumLasts(ds)
  {
    acc := Last(ds[|ds| - 1]);
    assert acc == SumLasts(ds[|ds| - 1..]);
    var i := |ds| - 2;
    while i >= 0
      invariant -1 <= i <= |ds| - 2
      invariant acc == SumLasts(ds[i + 1..])
      decreases i
    {
      assert ds[i..][1..] == ds[i + 1..];
      acc := Last(ds[i]) + acc;
      i := i - 1;
    }
    assert ds[0..] == ds;
  }

  /** The loop of `nextditem`: r = ds[-1][-1], then r = ds[i][-1] * r from the bottom level up. */
  method AccumulateProduct(ds: seq<seq<int>>) returns (acc: int)
    requires |ds| >= 1 && forall j :: 0 <= j < |ds| ==> |ds[j]| >= 1
    ensures acc == ProductLasts(ds)
  {
    acc := Last(ds[|ds| - 1]);
    assert acc == ProductLasts(ds[|ds| - 1..]);
    var i := |ds| - 2;
    while i >= 0
      invariant -1 <= i <= |ds| - 2
      invariant acc == ProductLasts(ds[i + 1..])
      decreases i
    {
      assert ds[i..][1..] == ds[i + 1..];
      acc := Last(ds[i]) * acc;
      i := i - 1;
    }
    assert ds[0..] == ds;
  }

  /** What `nextitem(s)` returns: the last entry plus the last entry of every level. */
  function NextItemValue(s: seq<int>): int
    requires |s| >= 2
  {
    Last(s) + SumLasts(DiffTable(s))
  }

  /**
   * `nextitem(s)`: the last entry plus the sum of the last entries of all
   * levels, accumulated from the bottom level up; with fewer than two entries
   * the table is empty and `ds[-1]` raises `IndexError`.
   */
  method NextItem(s: seq<int>) returns (r: Result<int>)
    ensures |s| < 2 <==> r == Err(IndexError)
    ensures |s| >= 2 ==> r == Ok(NextItemValue(s))
  {
    var ds := GetDiffs(s);
    DiffTableLevels(s);
    if ds == [] {
      return Err(IndexError);
    }
    var acc := AccumulateSum(ds);
    assert Last(s) + acc == NextItemValue(s);
    return Ok(Last(s) + acc);
  }

  /** What `nextditem(s)` returns: the last entry times the last entry of every division level. */
  function NextDItemValue(s: seq<int>): Result<int>
  {
    match DivTable(s)
      case Err(e) => Err(e)
      case Ok(ds) =>
        if ds == [] then Err(IndexError)
        else Ok(Last(s) * ProductLasts(ds))
  }

  /**
   * `nextditem(s)`: the last entry times the product of the last entries of
   * all division levels; `ZeroDivisionError` from the table, `IndexError`
   * below two entries.
   */
  method NextDItem(s: seq<int>) returns (r: Result<int>)
    ensures r == NextDItemValue(s)
    ensures |s| < 2 ==> r == Err(IndexError)
    ensures r == Err(ZeroDivisionError) <==> DivTable(s).Err?
  {
    var res := GetDivs(s);
    if res.Err? {
      return Err(res.error);
    }
    var ds := res.value;
    DivTableLevels(s);
    if ds == [] {
      return Err(IndexError);
    }
    var acc := AccumulateProduct(ds);
    return Ok(Last(s) * acc);
  }

  // ---------------------------------------------------------------------------
  // What the tables predict

  /** A sequence with common difference `d` extends by `d`. */
  lemma ArithmeticNext(s: seq<int>, d: int)
    requires |s| >= 2 && forall i :: 0 <= i < |s| - 1 ==> s[i + 1] - s[i] == d
    ensures NextItemValue(s) == Last(s) + d
  {
    var g := GetDiff(s);
    assert IsConstant(g);
    assert DiffTable(s) == [g];
    assert SumLasts([g]) == LastOf(g) + SumLasts([]);
  }

  /** A sequence with non-zero common ratio `q` from a non-zero start extends by the factor `q`. */
  lemma GeometricNext(s: seq<int>, q: int)
    requires |s| >= 2 && s[0] != 0 && q != 0
    requires forall i :: 0 <= i < |s| - 1 ==> s[i + 1] == s[i] * q
    ensures NextDItemValue(s) == Ok(Last(s) * q)
  {
    forall i | 0 <= i < |s|
      ensures s[i] != 0
    {
      NonZeroPrefix(s, q, i);
    }
    GetDivSpec(s);
    var g := GetDiv(s);
    assert g.Ok?;
    forall i | 0 <= i < |s| - 1
      ensures g.value[i] == q
    {
      FloorDivUniqueAny(s[i + 1], s[i], q);
    }
    assert IsConstant(g.value);
    assert DivTable(s) == Ok([g.value]);
    assert ProductLasts([g.value]) == LastOf(g.value) * ProductLasts([]);
  }

  lemma {:induction false} NonZeroPrefix(s: seq<int>, q: int, i: nat)
    requires i < |s| && s[0] != 0 && q != 0
    requires forall j :: 0 <= j < |s| - 1 ==> s[j + 1] == s[j] * q
    ensures s[i] != 0
  {
    if i > 0 {
      NonZeroPrefix(s, q, i - 1);
    }
  }

  /** 6, 9, 2, 5 has differences 3, −7, 3, then −10, 10, then 20, and continues with 38. */
  lemma DiffExample()
    ensures DiffTable([6, 9, 2, 5]) == [[3, -7, 3], [-10, 10], [20]]
    ensures NextItemValue([6, 9, 2, 5]) == 38
  {
    assert GetDiff([6, 9, 2, 5]) == [3, -7, 3];
    assert [3, -7, 3][2 - 1] != [3, -7, 3][0];
    assert GetDiff([3, -7, 3]) == [-10, 10];
    assert [-10, 10][1] != [-10, 10][0];
    assert GetDiff([-10, 10]) == [20];
    assert DiffLevels([20]) == [[20]];
    assert DiffLevels([-10, 10]) == [[-10, 10], [20]];
  }

  /** One concrete step of `getdiv`: an exact quotient `q` in front of the quotients of the rest. */
  lemma GetDivStep(s: seq<int>, q: int, rest: seq<int>)
    requires |s| >= 2 && s[0] != 0 && GetDiv(s[1..]) == Ok(rest) && s[1] == s[0] * q
    ensures GetDiv(s) == Ok([q] + rest)
  {
    FloorDivUniqueAny(s[1], s[0], q);
  }

  /** 1, 2, 8, 64 has quotients 2, 4, 8, then the constant 2, 2, and continues with 1024. */
  lemma DivExample()
    ensures DivTable([1, 2, 8, 64]) == Ok([[2, 4, 8], [2, 2]])
    ensures NextDItemValue([1, 2, 8, 64]) == Ok(1024)
  {
    assert GetDiv([64]) == Ok([]) && GetDiv([8]) == Ok([]);
    assert [8, 64][1..] == [64] && [2, 8, 64][1..] == [8, 64] && [1, 2, 8, 64][1..] == [2, 8, 64];
    GetDivStep([8, 64], 8, []);
    assert [8] + [] == [8];
    GetDivStep([2, 8, 64], 4, [8]);
    assert [4] + [8] == [4, 8];
    GetDivStep([1, 2, 8, 64], 2, [4, 8]);
    assert [2] + [4, 8] == [2, 4, 8];
    assert [2, 4, 8][1] != [2, 4, 8][0];
    assert [4, 8][1..] == [8] && [2, 4, 8][1..] == [4, 8];
    GetDivStep([4, 8], 2, []);
    assert [2] + [] == [2];
    GetDivStep([2, 4, 8], 2, [2]);
    assert [2] + [2] == [2, 2];
    assert IsConstant([2, 2]);
    assert DivLevels([2, 2]) == Ok([[2, 2]]);
    assert !IsConstant([2, 4, 8]);
    assert [[2, 4, 8]] + [[2, 2]] == [[2, 4, 8], [2, 2]];
    assert DivLevels([2, 4, 8]) == Ok([[2, 4, 8], [2, 2]]);
  }
}
