/**
 * interpolation/extrapolation_generic.py: the tables of
 * interpolation/extrapolation.py for any binary operation `op` on
 * neighbouring entries, and the extrapolation that walks back up the table
 * with an inverse operation `invop`.  `op` may raise (a floor division by 0
 * does), so it returns a `Result`.  `is_constant` is the same predicate as
 * `isconstant` and is `Extrapolation.IsConstant` here.
 */
module ExtrapolationGeneric {
  import opened Wrappers
  import opened PyInt
  import opened Extrapolation

  /** The operation on neighbours, `op(s[i - 1], s[i])`, which may raise. */
  type Op = (int, int) -> Result<int>

  /** The inverse operation, `invop(a, r)`. */
  type InvOp = (int, int) -> int

  /**
   * `get_subseq(s, op)`: `op` applied to each pair of neighbours, left to
   * right; the first pair on which `op` raises decides the error.
   */
  function GetSubseq(s: seq<int>, op: Op): (r: Result<seq<int>>)
    ensures r.Ok? ==> |r.value| == (if s == [] then 0 else |s| - 1)
  {
    if |s| < 2 then Ok([])
    else
      var head := op(s[0], s[1]);
      if head.Err? then Err(head.error)
      else
        var rest := GetSubseq(s[1..], op);
        if rest.Err? then Err(rest.error) else Ok([head.value] + rest.value)
  }

  /** `op` succeeds on every pair of neighbours before position i. */
  predicate OkBefore(s: seq<int>, op: Op, i: int)
    requires 0 <= i < |s|
  {
    forall j :: 0 <= j < i ==> op(s[j], s[j + 1]).Ok?
  }

  /** The pair at position i is the first on which `op` raises, and it raises `e`. */
  predicate FailsFirstAt(s: seq<int>, op: Op, i: int, e: PyError)
    requires 0 <= i < |s| - 1
  {
    OkBefore(s, op, i) && op(s[i], s[i + 1]) == Err(e)
  }

  /** `get_subseq(s, op)` succeeds exactly when `op` succeeds on every pair; then entry i is `op(s[i], s[i + 1])`. */
  lemma {:induction false} GetSubseqOk(s: seq<int>, op: Op)
    ensures GetSubseq(s, op).Ok? <==> forall i :: 0 <= i < |s| - 1 ==> op(s[i], s[i + 1]).Ok?
    ensures GetSubseq(s, op).Ok? ==> forall i :: 0 <= i < |s| - 1 ==> op(s[i], s[i + 1]) == Ok(GetSubseq(s, op).value[i])
    decreases |s|
  {
    if |s| >= 2 && op(s[0], s[1]).Ok? {
      var t := s[1..];
      GetSubseqOk(t, op);
      assert forall i :: 0 <= i < |t| ==> t[i] == s[i + 1];
      if GetSubseq(t, op).Err? {
        var i :| 0 <= i < |t| - 1 && op(t[i], t[i + 1]).Err?;
        assert op(s[i + 1], s[i + 2]).Err?;
      } else {
        forall i | 1 <= i < |s| - 1
          ensures op(s[i], s[i + 1]) == Ok(GetSubseq(s, op).value[i])
        {
          assert GetSubseq(s, op).value[i] == GetSubseq(t, op).value[i - 1];
          assert t[i - 1] == s[i];
        }
      }
    }
  }

  /** When `get_subseq(s, op)` raises, it raises the error of the first pair on which `op` raises. */
  lemma {:induction false} GetSubseqErr(s: seq<int>, op: Op)
    requires GetSubseq(s, op).Err?
    ensures exists i :: 0 <= i < |s| - 1 && FailsFirstAt(s, op, i, GetSubseq(s, op).error)
    decreases |s|
  {
    if op(s[0], s[1]).Err? {
      assert FailsFirstAt(s, op, 0, GetSubseq(s, op).error);
    } else {
      var t := s[1..];
      GetSubseqErr(t, op);
      var i :| 0 <= i < |t| - 1 && FailsFirstAt(t, op, i, GetSubseq(t, op).error);
      assert forall k :: 0 <= k < |t| ==> t[k] == s[k + 1];
      forall j | 0 <= j < i + 1
        ensures op(s[j], s[j + 1]).Ok?
      {
        if j > 0 {
          assert op(t[j - 1], t[j]).Ok?;
        }
      }
      assert FailsFirstAt(s, op, i + 1, GetSubseq(s, op).error);
    }
  }

  /** The levels from `d` on under `op`, until one is constant or a single entry, or the first error. */
  function Levels(d: seq<int>, op: Op): (r: Result<seq<seq<int>>>)
    requires |d| >= 1
    ensures r.Ok? ==> |r.value| >= 1 && r.value[0] == d
    decreases |d|
  {
    if IsConstant(d) || |d| <= 1 then Ok([d])
    else
      var n := GetSubseq(d, op);
      if n.Err? then Err(n.error)
      else
        var rest := Levels(n.value, op);
        if rest.Err? then Err(rest.error) else Ok([d] + rest.value)
  }

  /** What `get_subseqs(s, op)` returns or raises. */
  function SubseqTable(s: seq<int>, op: Op): Result<seq<seq<int>>>
  {
    if |s| < 2 then Ok([])
    else
      var d := GetSubseq(s, op);
      if d.Err? then Err(d.error) else Levels(d.value, op)
  }

  lemma {:induction false} LevelsChain(d: seq<int>, op: Op)
    requires |d| >= 1 && Levels(d, op).Ok?
    ensures ChainShape(Levels(d, op).value)
    ensures forall j :: 0 <= j < |Levels(d, op).value| - 1 ==>
      GetSubseq(Levels(d, op).value[j], op) == Ok(Levels(d, op).value[j + 1])
    decreases |d|
  {
    if !(IsConstant(d) || |d| <= 1) {
      var n := GetSubseq(d, op).value;
      LevelsChain(n, op);
      var ds := Levels(d, op).value;
      assert ds[1..] == Levels(n, op).value;
    }
  }

  /**
   * `get_subseqs`: nothing below two entries; otherwise level 0 is
   * `get_subseq(s, op)`, each next level is `get_subseq` of the one before,
   * and only the last is constant or a single entry.
   */
  lemma SubseqTableShape(s: seq<int>, op: Op)
    ensures |s| < 2 <==> SubseqTable(s, op) == Ok([])
    ensures |s| >= 2 && SubseqTable(s, op).Ok? ==>
      GetSubseq(s, op) == Ok(SubseqTable(s, op).value[0]) && ChainShape(SubseqTable(s, op).value)
      && forall j :: 0 <= j < |SubseqTable(s, op).value| - 1 ==>
        GetSubseq(SubseqTable(s, op).value[j], op) == Ok(SubseqTable(s, op).value[j + 1])
  {
    if |s| >= 2 && SubseqTable(s, op).Ok? {
      LevelsChain(GetSubseq(s, op).value, op);
    }
  }

  /** The levels already built, in front of the levels still to come or of their error. */
  function Prepend(built: seq<seq<int>>, r: Result<seq<seq<int>>>): Result<seq<seq<int>>>
  {
    if r.Err? then Err(r.error) else Ok(built + r.value)
  }

  /** One more pass of the loop of `get_subseqs`. */
  lemma SubseqStep(built: seq<seq<int>>, last: seq<int>, op: Op)
    requires |last| > 1 && !IsConstant(last)
    ensures GetSubseq(last, op).Err? ==> Prepend(built, Levels(last, op)) == Err(GetSubseq(last, op).error)
    ensures GetSubseq(last, op).Ok? ==>
      Prepend(built, Levels(last, op)) == Prepend(built + [last], Levels(GetSubseq(last, op).value, op))
  {
    if GetSubseq(last, op).Ok? {
      var rest := Levels(GetSubseq(last, op).value, op);
      if rest.Ok? {
        assert built + ([last] + rest.value) == (built + [last]) + rest.value;
      }
    }
  }

  /** `get_subseqs(s, op)`, with the loop of the source. */
  method GetSubseqs(s: seq<int>, op: Op) returns (res: Result<seq<seq<int>>>)
    ensures res == SubseqTable(s, op)
  {
    if |s| < 2 {
      return Ok([]);
    }
    var first := GetSubseq(s, op);
    if first.Err? {
      return Err(first.error);
    }
    var built: seq<seq<int>> := [];
    var last := first.value;
    assert Prepend(built, Levels(last, op)) == Levels(last, op) by {
      if Levels(last, op).Ok? {
        assert [] + Levels(last, op).value == Levels(last, op).value;
      }
    }
    while !IsConstant(last) && |last| > 1
      invariant |last| >= 1
      invariant Prepend(built, Levels(last, op)) == SubseqTable(s, op)
      decreases |last|
    {
      SubseqStep(built, last, op);
      var next := GetSubseq(last, op);
      if next.Err? {
        return Err(next.error);
      }
      built, last := built + [last], next.value;
    }
    return Ok(built + [last]);
  }

  /** Walking back up the levels: the last entry of the bottom level, then `invop(ds[i][-1], r)` upwards. */
  function Fold(ds: seq<seq<int>>, invop: InvOp): int
    requires |ds| >= 1
  {
    if |ds| == 1 then LastOf(ds[0]) else invop(LastOf(ds[0]), Fold(ds[1..], invop))
  }

  /** What `nextitem(s, op, invop)` returns or raises. */
  function NextValue(s: seq<int>, op: Op, invop: InvOp): Result<int>
  {
    var table := SubseqTable(s, op);
    if table.Err? then Err(table.error)
    else if table.value == [] then Err(IndexError)
    else Ok(invop(Last(s), Fold(table.value, invop)))
  }

  /** The loop of `nextitem`: r = ds[-1][-1], then r = invop(ds[i][-1], r) from the bottom level up. */
  method AccumulateInv(ds: seq<seq<int>>, invop: InvOp) returns (acc: int)
    requires |ds| >= 1 && forall j :: 0 <= j < |ds| ==> |ds[j]| >= 1
    ensures acc == Fold(ds, invop)
  {
    acc := Last(ds[|ds| - 1]);
    var i := |ds| - 2;
    while i >= 0
      invariant -1 <= i <= |ds| - 2
      invariant acc == Fold(ds[i + 1..], invop)
      decreases i
    {
      assert ds[i..][1..] == ds[i + 1..];
      acc := invop(Last(ds[i]), acc);
      i := i - 1;
    }
    assert ds[0..] == ds;
  }

  /**
   * `nextitem(s, op, invop)`: `invop(s[-1], r)` where r folds `invop` up the
   * table; errors of `op` propagate, and below two entries the empty table
   * makes `ds[-1]` raise `IndexError`.
   */
  method NextItem(s: seq<int>, op: Op, invop: InvOp) returns (r: Result<int>)
    ensures r == NextValue(s, op, invop)
    ensures |s| < 2 ==> r == Err(IndexError)
  {
    var res := GetSubseqs(s, op);
    if res.Err? {
      return Err(res.error);
    }
    var ds := res.value;
    SubseqTableShape(s, op);
    if ds == [] {
      return Err(IndexError);
    }
    var acc := AccumulateInv(ds, invop);
    return Ok(invop(Last(s), acc));
  }

  // ---------------------------------------------------------------------------
  // The two instances of the source's self-test

  /** `lambda a, b: b - a` */
  const Diff: Op := (a: int, b: int) => Ok(b - a)

  /** `lambda a, b: b + a` */
  const DiffInverse: InvOp := (a: int, b: int) => b + a

  /** `lambda a, b: b // a`, which raises on a zero divisor */
  const Div: Op := (a: int, b: int) => if a == 0 then Err(ZeroDivisionError) else Ok(FloorDiv(b, a))

  /** `lambda a, b: b * a` */
  const DivInverse: InvOp := (a: int, b: int) => b * a

  lemma SubseqIsDiff(s: seq<int>)
    ensures GetSubseq(s, Diff) == Ok(GetDiff(s))
  {
    GetSubseqOk(s, Diff);
    forall i | 0 <= i < |s| - 1
      ensures Diff(s[i], s[i + 1]).Ok?
    {
    }
    if |s| >= 2 {
      var r := GetSubseq(s, Diff).value;
      assert |r| == |GetDiff(s)|;
      forall i | 0 <= i < |s| - 1
        ensures r[i] == GetDiff(s)[i]
      {
        assert Diff(s[i], s[i + 1]) == Ok(r[i]);
      }
      assert r == GetDiff(s);
    }
  }

  lemma {:induction false} LevelsAreDiffLevels(d: seq<int>)
    requires |d| >= 1
    ensures Levels(d, Diff) == Ok(DiffLevels(d))
    decreases |d|
  {
    if !(IsConstant(d) || |d| <= 1) {
      SubseqIsDiff(d);
      LevelsAreDiffLevels(GetDiff(d));
    }
  }

  lemma {:induction false} FoldIsSum(ds: seq<seq<int>>)
    requires |ds| >= 1
    ensures Fold(ds, DiffInverse) == SumLasts(ds)
    decreases |ds|
  {
    if |ds| > 1 {
      FoldIsSum(ds[1..]);
    } else {
      assert ds[1..] == [];
    }
  }

  /** With `b - a` and `b + a` the generic table is `getdiffs` and the generic `nextitem` is `nextitem`. */
  lemma DiffInstance(s: seq<int>)
    ensures SubseqTable(s, Diff) == Ok(DiffTable(s))
    ensures |s| >= 2 ==> NextValue(s, Diff, DiffInverse) == Ok(NextItemValue(s))
    ensures |s| < 2 ==> NextValue(s, Diff, DiffInverse) == Err(IndexError)
  {
    if |s| >= 2 {
      SubseqIsDiff(s);
      LevelsAreDiffLevels(GetDiff(s));
      FoldIsSum(DiffTable(s));
    }
  }

  lemma {:induction false} SubseqIsDiv(s: seq<int>)
    ensures GetSubseq(s, Div) == GetDiv(s)
    decreases |s|
  {
    if |s| >= 2 {
      SubseqIsDiv(s[1..]);
    }
  }

  lemma {:induction false} LevelsAreDivLevels(d: seq<int>)
    requires |d| >= 1
    ensures Levels(d, Div) == DivLevels(d)
    decreases |d|
  {
    if !(IsConstant(d) || |d| <= 1) {
      SubseqIsDiv(d);
      if GetDiv(d).Ok? {
        LevelsAreDivLevels(GetDiv(d).value);
      }
    }
  }

  lemma {:induction false} FoldIsProduct(ds: seq<seq<int>>)
    requires |ds| >= 1
    ensures Fold(ds, DivInverse) == ProductLasts(ds)
    decreases |ds|
  {
    if |ds| > 1 {
      FoldIsProduct(ds[1..]);
    } else {
      assert ds[1..] == [];
    }
  }

  lemma TableIsDivTable(s: seq<int>)
    ensures SubseqTable(s, Div) == DivTable(s)
  {
    if |s| >= 2 {
      SubseqIsDiv(s);
      if GetDiv(s).Ok? {
        LevelsAreDivLevels(GetDiv(s).value);
      }
    }
  }

  /** With `b // a` and `b * a` the generic table is `getdivs` and the generic `nextitem` is `nextditem`. */
  lemma DivInstance(s: seq<int>)
    ensures SubseqTable(s, Div) == DivTable(s)
    ensures NextValue(s, Div, DivInverse) == NextDItemValue(s)
  {
    TableIsDivTable(s);
    var table := DivTable(s);
    if table.Ok? && table.value != [] {
      FoldIsProduct(table.value);
      var f := Fold(table.value, DivInverse);
      assert NextValue(s, Div, DivInverse) == Ok(f * Last(s));
      assert NextDItemValue(s) == Ok(Last(s) * f);
    }
  }

  /** The self-test: [6, 9, 2, 5] continues with 38 under `b - a`, and [1, 2, 8, 64] with 1024 under `b // a`. */
  lemma SelfTest()
    ensures NextValue([6, 9, 2, 5], Diff, DiffInverse) == Ok(38)
    ensures NextValue([1, 2, 8, 64], Div, DivInverse) == Ok(1024)
  {
    DiffExample();
    DiffInstance([6, 9, 2, 5]);
    DivExample();
    DivInstance([1, 2, 8, 64]);
  }
}
