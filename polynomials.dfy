/**
 * maths/polynomials.py: integer polynomials as coefficient lists, highest
 * degree first (`[1, 3, 7, 21]` is x³ + 3x² + 7x + 21).  Ruffini's rule
 * (`ruf`, `rufv`), the search for an integer root (`findruf`), factorisation
 * into linear factors (`intfactorize`) and the pretty-printers `strpower` and
 * `strpol`.  The optional console drawing of `rufv` and `intfactorize` is
 * output only and is not modelled.
 */
module Polynomials {
  import opened Wrappers
  import opened Text

  // ---------------------------------------------------------------------------
  // Polynomials and their values

  function Pow(x: int, n: nat): int
  {
    if n == 0 then 1 else x * Pow(x, n - 1)
  }

  /** The value of the polynomial at `x`, term by term: Σ pol[k]·x^(deg − k). */
  function Eval(pol: seq<int>, x: int): int
  {
    if pol == [] then 0 else pol[0] * Pow(x, |pol| - 1) + Eval(pol[1..], x)
  }

  /** Horner's scheme as `ruf` runs it: c = pol[0], then c = pol[k] + c·x for each further k. */
  function Horner(pol: seq<int>, x: int): int
    requires |pol| >= 1
  {
    if |pol| == 1 then pol[0] else pol[|pol| - 1] + Horner(pol[..|pol| - 1], x) * x
  }

  lemma {:induction false} EvalSnoc(p: seq<int>, c: int, x: int)
    ensures Eval(p + [c], x) == Eval(p, x) * x + c
    decreases |p|
  {
    if p == [] {
      assert Eval([c], x) == c * Pow(x, 0) + Eval([], x);
    } else {
      assert (p + [c])[1..] == p[1..] + [c];
      EvalSnoc(p[1..], c, x);
      assert Pow(x, |p|) == x * Pow(x, |p| - 1);
      calc {
        Eval(p + [c], x);
        p[0] * Pow(x, |p|) + Eval(p[1..] + [c], x);
        p[0] * (x * Pow(x, |p| - 1)) + Eval(p[1..], x) * x + c;
        { assert p[0] * (x * Pow(x, |p| - 1)) == (p[0] * Pow(x, |p| - 1)) * x; }
        (p[0] * Pow(x, |p| - 1)) * x + Eval(p[1..], x) * x + c;
        (p[0] * Pow(x, |p| - 1) + Eval(p[1..], x)) * x + c;
      }
    }
  }

  /** Horner's scheme computes the value of the polynomial. */
  lemma {:induction false} HornerIsEval(pol: seq<int>, x: int)
    requires |pol| >= 1
    ensures Horner(pol, x) == Eval(pol, x)
    decreases |pol|
  {
    if |pol| == 1 {
      assert Eval(pol, x) == pol[0] * Pow(x, 0) + Eval([], x);
    } else {
      var n := |pol|;
      HornerIsEval(pol[..n - 1], x);
      EvalSnoc(pol[..n - 1], pol[n - 1], x);
      assert pol[..n - 1] + [pol[n - 1]] == pol;
    }
  }

  /** At 0 the value is the constant term, which is why `findruf` answers 0 when it vanishes. */
  lemma HornerAtZero(pol: seq<int>)
    requires |pol| >= 1
    ensures Horner(pol, 0) == pol[|pol| - 1]
  {
  }

  // ---------------------------------------------------------------------------
  // Multiplying by a monic linear factor

  /** The coefficients of (x − a)·q: q shifted up one degree, minus a·q. */
  function MulLinear(q: seq<int>, a: int): (p: seq<int>)
    ensures |p| == |q| + 1
  {
    seq(|q| + 1, k requires 0 <= k <= |q| =>
      (if k < |q| then q[k] else 0) - a * (if k > 0 then q[k - 1] else 0))
  }

  function Shifted(q: seq<int>): seq<int> { q + [0] }

  lemma {:induction false} EvalShifted(q: seq<int>, x: int)
    ensures Eval(Shifted(q), x) == x * Eval(q, x)
  {
    EvalSnoc(q, 0, x);
  }

  /** Coefficient-wise `p − a·s` for two lists of the same length. */
  function SubScaled(p: seq<int>, a: int, s: seq<int>): (r: seq<int>)
    requires |p| == |s|
    ensures |r| == |p|
  {
    seq(|p|, k requires 0 <= k < |p| => p[k] - a * s[k])
  }

  lemma {:induction false} EvalSubScaled(p: seq<int>, a: int, s: seq<int>, x: int)
    requires |p| == |s|
    ensures Eval(SubScaled(p, a, s), x) == Eval(p, x) - a * Eval(s, x)
    decreases |p|
  {
    if p != [] {
      var r := SubScaled(p, a, s);
      assert r[1..] == SubScaled(p[1..], a, s[1..]);
      EvalSubScaled(p[1..], a, s[1..], x);
      var w := Pow(x, |p| - 1);
      var ep, es := Eval(p[1..], x), Eval(s[1..], x);
      assert Eval(r, x) == r[0] * w + (ep - a * es);
      assert Eval(p, x) == p[0] * w + ep;
      assert Eval(s, x) == s[0] * w + es;
      SubScaledTerm(p[0], a, s[0], w, ep, es);
    }
  }

  /** One coefficient's step of `EvalSubScaled`, as plain arithmetic. */
  lemma SubScaledTerm(p0: int, a: int, s0: int, w: int, ep: int, es: int)
    ensures (p0 - a * s0) * w + (ep - a * es) == (p0 * w + ep) - a * (s0 * w + es)
  {
    assert (p0 - a * s0) * w == p0 * w - a * (s0 * w);
    assert a * (s0 * w + es) == a * (s0 * w) + a * es;
  }

  /** (x − a)·q evaluates to (x − a) times the value of q. */
  lemma EvalMulLinear(q: seq<int>, a: int, x: int)
    ensures Eval(MulLinear(q, a), x) == (x - a) * Eval(q, x)
  {
    var shifted, lowered := Shifted(q), [0] + q;
    assert MulLinear(q, a) == SubScaled(shifted, a, lowered);
    EvalSubScaled(shifted, a, lowered, x);
    EvalShifted(q, x);
    var e := Eval(q, x);
    assert Eval(lowered, x) == e by {
      assert lowered[1..] == q;
    }
    SubMul(x, a, e);
  }

  lemma SubMul(x: int, a: int, e: int)
    ensures (x - a) * e == x * e - a * e
  {
  }

  // ---------------------------------------------------------------------------
  // ruf and rufv

  /**
   * `ruf(pol, x)`: whether `x` is a root, by Horner's scheme.  An empty list
   * raises `IndexError` at `pol[0]`.
   */
  method Ruf(pol: seq<int>, x: int) returns (r: Result<bool>)
    ensures pol == [] <==> r == Err(IndexError)
    ensures pol != [] ==> r == Ok(Eval(pol, x) == 0)
  {
    if pol == [] {
      return Err(IndexError);
    }
    var c := pol[0];
    for i := 1 to |pol|
      invariant c == Horner(pol[..i], x)
    {
      assert pol[..i + 1][..i] == pol[..i];
      c := pol[i] + c * x;
    }
    assert pol[..|pol|] == pol;
    HornerIsEval(pol, x);
    return Ok(c == 0);
  }

  /** The synthetic-division row that `rufv` builds: r[0] = pol[0], r[k] = pol[k] + r[k − 1]·x. */
  predicate IsRuffiniRow(pol: seq<int>, x: int, r: seq<int>)
  {
    |r| == |pol| >= 1 && r[0] == pol[0]
    && forall k :: 1 <= k < |r| ==> r[k] == pol[k] + r[k - 1] * x
  }

  /**
   * `rufv(pol, x)` without the drawing: the synthetic-division row when its
   * last entry (the value at `x`) is 0, `None` otherwise.
   */
  method Rufv(pol: seq<int>, x: int) returns (res: Result<Option<seq<int>>>)
    ensures pol == [] <==> res == Err(IndexError)
    ensures pol != [] ==> res.Ok? && (res.value.Some? <==> Eval(pol, x) == 0)
    ensures res.Ok? && res.value.Some? ==> IsRuffiniRow(pol, x, res.value.value)
  {
    if pol == [] {
      return Err(IndexError);
    }
    var r := [pol[0]];
    for i := 1 to |pol|
      invariant |r| == i && r[0] == pol[0]
      invariant forall k :: 1 <= k < i ==> r[k] == pol[k] + r[k - 1] * x
      invariant r[i - 1] == Horner(pol[..i], x)
    {
      assert pol[..i + 1][..i] == pol[..i];
      r := r + [pol[i] + r[i - 1] * x];
    }
    assert pol[..|pol|] == pol;
    HornerIsEval(pol, x);
    if r[|r| - 1] == 0 {
      return Ok(Some(r));
    }
    return Ok(None);
  }

  /** The last entry of the row is the value of the polynomial at `x`. */
  lemma {:induction false} RowLastIsValue(pol: seq<int>, x: int, r: seq<int>)
    requires IsRuffiniRow(pol, x, r)
    ensures r[|r| - 1] == Eval(pol, x)
  {
    var n := |pol|;
    for i := 1 to n
      invariant r[i - 1] == Horner(pol[..i], x)
    {
      assert pol[..i + 1][..i] == pol[..i];
    }
    assert pol[..n] == pol;
    HornerIsEval(pol, x);
  }

  /**
   * Ruffini's rule: dropping the last entry of the row leaves the quotient q,
   * and (x − a)·q is the polynomial minus the remainder in its constant term.
   */
  lemma RuffiniQuotient(pol: seq<int>, a: int, r: seq<int>)
    requires IsRuffiniRow(pol, a, r)
    ensures MulLinear(r[..|r| - 1], a) == pol[..|pol| - 1] + [pol[|pol| - 1] - r[|r| - 1]]
  {
    var n := |pol|;
    var q := r[..n - 1];
    var m := MulLinear(q, a);
    var want := pol[..n - 1] + [pol[n - 1] - r[n - 1]];
    forall k | 0 <= k < n
      ensures m[k] == want[k]
    {
      if k == 0 {
        if n > 1 {
          assert m[0] == r[0] - a * 0;
        }
      } else if k < n - 1 {
        assert m[k] == r[k] - a * r[k - 1];
      }
    }
  }

  /** When `x` is a root the quotient times (x − a) gives back the polynomial exactly. */
  lemma RootQuotient(pol: seq<int>, a: int, r: seq<int>)
    requires IsRuffiniRow(pol, a, r) && r[|r| - 1] == 0
    ensures MulLinear(r[..|r| - 1], a) == pol
  {
    RuffiniQuotient(pol, a, r);
    assert pol[..|pol| - 1] + [pol[|pol| - 1]] == pol;
  }

  // ---------------------------------------------------------------------------
  // findruf

  /** Neither k nor −k is a root, for every 1 ≤ k ≤ n. */
  ghost predicate NoRootUpTo(pol: seq<int>, n: int)
  {
    forall k {:trigger Eval(pol, k)} :: 1 <= k <= n ==> Eval(pol, k) != 0 && Eval(pol, -k) != 0
  }

  /** `k` is the first root in the order 1, −1, 2, −2, … that `findruf` tries. */
  ghost predicate FirstTriedRoot(pol: seq<int>, k: int)
  {
    k != 0 && Eval(pol, k) == 0
    && NoRootUpTo(pol, if k > 0 then k - 1 else -k - 1) && (k < 0 ==> Eval(pol, -k) != 0)
  }

  /**
   * The search of `findruf` stops: either a limit bounds it, the constant term
   * vanishes, or some non-zero integer root will be met.  With `limit=None`
   * (or a negative limit) and no such root the Python loop never ends.
   */
  ghost predicate FindRufStops(pol: seq<int>, limit: Option<int>)
  {
    (limit.Some? && limit.value >= 0) || pol == [] || pol[|pol| - 1] == 0
    || exists w :: w != 0 && Eval(pol, w) == 0
  }

  /** A root `w` lies beyond every bound up to which there is no root. */
  lemma RootBeyond(pol: seq<int>, i: int, w: int)
    requires NoRootUpTo(pol, i) && w != 0 && Eval(pol, w) == 0
    ensures i < (if w > 0 then w else -w)
  {
    var m := if w > 0 then w else -w;
    assert Eval(pol, m) == 0 || Eval(pol, -m) == 0;
  }

  /** Ruling out ±n extends the root-free range from n − 1 to n. */
  lemma NoRootExtend(pol: seq<int>, n: int)
    requires NoRootUpTo(pol, n - 1) && Eval(pol, n) != 0 && Eval(pol, -n) != 0
    ensures NoRootUpTo(pol, n)
  {
  }

  /**
   * `findruf(pol, limit)`: 0 when the constant term is 0; otherwise the first
   * root among 1, −1, 2, −2, … up to ±limit, or `None`.
   */
  method FindRuf(pol: seq<int>, limit: Option<int>) returns (res: Result<Option<int>>)
    requires FindRufStops(pol, limit)
    ensures pol == [] <==> res == Err(IndexError)
    ensures pol != [] && pol[|pol| - 1] == 0 ==> res == Ok(Some(0))
    ensures pol != [] && pol[|pol| - 1] != 0 ==> res.Ok?
    ensures res.Ok? && res.value.Some? ==> Eval(pol, res.value.value) == 0
    ensures res.Ok? && res.value.Some? && res.value.value != 0 ==> FirstTriedRoot(pol, res.value.value)
    ensures res.Ok? && res.value.Some? && limit.Some? && limit.value >= 0 ==>
      -limit.value <= res.value.value <= limit.value
    ensures res == Ok(None) ==> limit.Some? && limit.value >= 0 && NoRootUpTo(pol, limit.value)
  {
    if pol == [] {
      return Err(IndexError);
    }
    if pol[|pol| - 1] == 0 {
      HornerAtZero(pol);
      HornerIsEval(pol, 0);
      return Ok(Some(0));
    }
    var lim := if limit.None? then -1 else limit.value;
    ghost var w := 0;
    if lim < 0 {
      w :| w != 0 && Eval(pol, w) == 0;
    }
    ghost var bound := if lim >= 0 then lim else if w > 0 then w else -w;
    var i := 0;
    while i != lim
      invariant 0 <= i <= bound
      invariant lim >= 0 ==> bound == lim
      invariant lim < 0 ==> (bound == w || bound == -w) && Eval(pol, w) == 0 && w != 0
      invariant NoRootUpTo(pol, i)
      decreases bound - i
    {
      if lim < 0 {
        RootBeyond(pol, i, w);
      }
      i := i + 1;
      var up := Ruf(pol, i);
      if up.value {
        return Ok(Some(i));
      }
      var down := Ruf(pol, -i);
      if down.value {
        return Ok(Some(-i));
      }
      NoRootExtend(pol, i);
    }
    return Ok(None);
  }

  /** The value of x³ + 3x² + 7x + 21, in Horner form. */
  lemma CubicValue(x: int)
    ensures Eval([1, 3, 7, 21], x) == ((x + 3) * x + 7) * x + 21
  {
    var pol := [1, 3, 7, 21];
    assert pol[..3] == [1, 3, 7] && [1, 3, 7][..2] == [1, 3] && [1, 3][..1] == [1];
    assert Horner([1, 3], x) == 3 + x;
    assert Horner([1, 3, 7], x) == 7 + (3 + x) * x;
    assert Horner(pol, x) == 21 + (7 + (3 + x) * x) * x;
    HornerIsEval(pol, x);
  }

  /** x³ + 3x² + 7x + 21: neither ±1 nor ±2 is a root, and −3 is the root `findruf` reports. */
  lemma CubicFirstRoot()
    ensures FirstTriedRoot([1, 3, 7, 21], -3)
  {
    CubicValue(-3);
    CubicValue(-2);
    CubicValue(-1);
    CubicValue(1);
    CubicValue(2);
    assert NoRootUpTo([1, 3, 7, 21], 2);
  }

  // ---------------------------------------------------------------------------
  // intfactorize

  /** Every list but the last is a monic linear factor [1, −r]. */
  predicate LinearFactors(fs: seq<seq<int>>)
  {
    |fs| >= 1 && forall j :: 0 <= j < |fs| - 1 ==> |fs[j]| == 2 && fs[j][0] == 1
  }

  /** Multiplies the factors back together: (x − r₁)·…·(x − rₖ)·q. */
  function Expand(fs: seq<seq<int>>): seq<int>
    requires LinearFactors(fs)
  {
    if |fs| == 1 then fs[0] else MulLinear(Expand(fs[1..]), -fs[0][1])
  }

  /** The product of the values of the factors at `x`. */
  function EvalProduct(fs: seq<seq<int>>, x: int): int
  {
    if fs == [] then 1 else Eval(fs[0], x) * EvalProduct(fs[1..], x)
  }

  /** Expanding the factors is the same polynomial as their product, value by value. */
  lemma {:induction false} ExpandEval(fs: seq<seq<int>>, x: int)
    requires LinearFactors(fs)
    ensures Eval(Expand(fs), x) == EvalProduct(fs, x)
    decreases |fs|
  {
    if |fs| == 1 {
      assert fs[1..] == [];
    } else {
      var rest := fs[1..];
      assert LinearFactors(rest);
      ExpandEval(rest, x);
      var a := -fs[0][1];
      EvalMulLinear(Expand(rest), a, x);
      EvalLinear(fs[0], x);
      assert Expand(fs) == MulLinear(Expand(rest), a);
      assert EvalProduct(fs, x) == Eval(fs[0], x) * EvalProduct(rest, x);
    }
  }

  /** A monic linear factor [1, −a] has the value x − a. */
  lemma EvalLinear(f: seq<int>, x: int)
    requires |f| == 2 && f[0] == 1
    ensures Eval(f, x) == x + f[1]
  {
    assert f[1..] == [f[1]];
    assert f[1..][1..] == [];
    assert Pow(x, 1) == x;
    assert Eval(f[1..], x) == f[1] * Pow(x, 0) + Eval([], x);
  }

  /** Replacing a trailing quotient q by (x − a)·q with [1, −a] split off keeps the expansion. */
  lemma {:induction false} ExpandSplit(fs: seq<seq<int>>, a: int, q: seq<int>)
    requires forall j :: 0 <= j < |fs| ==> |fs[j]| == 2 && fs[j][0] == 1
    ensures LinearFactors(fs + [MulLinear(q, a)]) && LinearFactors(fs + [[1, -a], q])
    ensures Expand(fs + [[1, -a], q]) == Expand(fs + [MulLinear(q, a)])
    decreases |fs|
  {
    var split, joined := fs + [[1, -a], q], fs + [MulLinear(q, a)];
    AppendLinear(fs, [[1, -a], q]);
    AppendLinear(fs, [MulLinear(q, a)]);
    if fs == [] {
      assert split[1..] == [q];
    } else {
      var rest := fs[1..];
      assert split[1..] == rest + [[1, -a], q];
      assert joined[1..] == rest + [MulLinear(q, a)];
      ExpandSplit(rest, a, q);
      ExpandFirst(split);
      ExpandFirst(joined);
    }
  }

  /** Monic linear factors followed by a list whose last element is the quotient. */
  lemma AppendLinear(fs: seq<seq<int>>, tail: seq<seq<int>>)
    requires forall j :: 0 <= j < |fs| ==> |fs[j]| == 2 && fs[j][0] == 1
    requires LinearFactors(tail)
    ensures LinearFactors(fs + tail)
  {
    var all := fs + tail;
    forall j | 0 <= j < |all| - 1 ensures |all[j]| == 2 && all[j][0] == 1 {
      if j < |fs| {
        assert all[j] == fs[j];
      } else {
        assert all[j] == tail[j - |fs|];
      }
    }
  }

  /** Expanding splits off the first factor. */
  lemma ExpandFirst(fs: seq<seq<int>>)
    requires LinearFactors(fs) && |fs| > 1
    ensures LinearFactors(fs[1..]) && Expand(fs) == MulLinear(Expand(fs[1..]), -fs[0][1])
  {
    assert forall j :: 0 <= j < |fs[1..]| - 1 ==> fs[1..][j] == fs[j + 1];
  }

  /**
   * `intfactorize(pol, limit)` for a limit that bounds the search: split off a
   * root at a time until the quotient has at most two coefficients or no root
   * is found; the quotient comes last.
   */
  method IntFactorize(pol: seq<int>, limit: nat) returns (res: Result<seq<seq<int>>>)
    ensures pol == [] <==> res == Err(IndexError)
    ensures res.Ok? ==> LinearFactors(res.value) && Expand(res.value) == pol
    ensures res.Ok? ==> forall x :: EvalProduct(res.value, x) == Eval(pol, x)
    ensures res.Ok? ==>
      var q := res.value[|res.value| - 1];
      (|res.value| > 1 && |q| <= 2)
      || (q != [] && q[|q| - 1] != 0 && NoRootUpTo(q, limit))
  {
    if pol == [] {
      return Err(IndexError);
    }
    var result: seq<seq<int>> := [];
    var p := pol;
    while true
      invariant p != []
      invariant LinearFactors(result + [p]) && Expand(result + [p]) == pol
      decreases |p|
    {
      var r := FindRuf(p, Some(limit));
      if r.value.None? {
        break;
      }
      var a := r.value.value;
      var row := Rufv(p, a);
      var quotient := row.value.value[..|p| - 1];
      RowLastIsValue(p, a, row.value.value);
      RootQuotient(p, a, row.value.value);
      FactorStep(result, a, quotient, pol);
      result := result + [[1, -a]];
      p := quotient;
      if |p| <= 2 {
        res := Ok(result + [p]);
        ProductEvaluates(res.value, pol);
        return;
      }
    }
    res := Ok(result + [p]);
    ProductEvaluates(res.value, pol);
  }

  /** Splitting (x − a) off the trailing quotient (x − a)·q keeps the factors' expansion. */
  lemma FactorStep(fs: seq<seq<int>>, a: int, q: seq<int>, pol: seq<int>)
    requires LinearFactors(fs + [MulLinear(q, a)]) && Expand(fs + [MulLinear(q, a)]) == pol
    ensures LinearFactors(fs + [[1, -a]] + [q]) && Expand(fs + [[1, -a]] + [q]) == pol
  {
    assert forall j :: 0 <= j < |fs| ==> fs[j] == (fs + [MulLinear(q, a)])[j];
    ExpandSplit(fs, a, q);
    assert fs + [[1, -a]] + [q] == fs + [[1, -a], q];
  }

  /** Factors that expand to `pol` multiply to the value of `pol` everywhere. */
  lemma ProductEvaluates(fs: seq<seq<int>>, pol: seq<int>)
    requires LinearFactors(fs) && Expand(fs) == pol
    ensures forall x :: EvalProduct(fs, x) == Eval(pol, x)
  {
    forall x ensures EvalProduct(fs, x) == Eval(pol, x) {
      ExpandEval(fs, x);
    }
  }

  /** x³ + 3x² + 7x + 21 factors as (x + 3)(x² + 7). */
  lemma CubicFactors()
    ensures LinearFactors([[1, 3], [1, 0, 7]]) && Expand([[1, 3], [1, 0, 7]]) == [1, 3, 7, 21]
  {
    assert [[1, 3], [1, 0, 7]][1..] == [[1, 0, 7]];
  }

  // ---------------------------------------------------------------------------
  // strpower and strpol

  /** The superscript digits ⁰¹²³⁴⁵⁶⁷⁸⁹, indexed by value. */
  const Powers: string := "⁰¹²³⁴⁵⁶⁷⁸⁹"

  lemma PowersDistinct()
    ensures |Powers| == 10
    ensures forall j, k :: 0 <= j < k < 10 ==> Powers[j] != Powers[k]
  {
  }

  /** Each decimal digit replaced by its superscript. */
  function Superscript(s: string): (r: string)
    requires AllDigits(s)
    ensures |r| == |s|
  {
    if s == [] then [] else Superscript(s[..|s| - 1]) + [Powers[DigitValue(s[|s| - 1])]]
  }

  /** The value of a superscript digit, or `None` for any other character. */
  function SuperscriptValue(c: char): (d: Option<nat>)
    ensures d.Some? ==> d.value < 10 && Powers[d.value] == c
  {
    if c == Powers[0] then Some(0) else if c == Powers[1] then Some(1)
    else if c == Powers[2] then Some(2) else if c == Powers[3] then Some(3)
    else if c == Powers[4] then Some(4) else if c == Powers[5] then Some(5)
    else if c == Powers[6] then Some(6) else if c == Powers[7] then Some(7)
    else if c == Powers[8] then Some(8) else if c == Powers[9] then Some(9)
    else None
  }

  /** Reads a string of superscript digits back as a number. */
  function SuperscriptNumber(s: string): Option<nat>
  {
    if s == [] then Some(0)
    else match (SuperscriptNumber(s[..|s| - 1]), SuperscriptValue(s[|s| - 1]))
      case (Some(v), Some(d)) => Some(v * 10 + d)
      case _ => None
  }

  lemma {:induction false} SuperscriptRoundTrip(s: string)
    requires AllDigits(s)
    ensures SuperscriptNumber(Superscript(s)) == Some(DigitsValue(s))
    decreases |s|
  {
    if s != [] {
      var t := Superscript(s);
      assert t[..|t| - 1] == Superscript(s[..|s| - 1]);
      SuperscriptRoundTrip(s[..|s| - 1]);
      PowersDistinct();
      assert SuperscriptValue(Powers[DigitValue(s[|s| - 1])]) == Some(DigitValue(s[|s| - 1]));
    }
  }

  /** The superscript digits of `n`, most significant first, computed from `n` directly. */
  function SuperDigits(n: nat): (r: string)
    ensures |r| >= 1
  {
    if n < 10 then [Powers[n]] else SuperDigits(n / 10) + [Powers[n % 10]]
  }

  /** Computing the superscript from `n` is the same as superscripting its decimal string. */
  lemma {:induction false} SuperDigitsDecimal(n: nat)
    ensures SuperDigits(n) == Superscript(NatToString(n))
  {
    var s := NatToString(n);
    assert DigitValue(s[|s| - 1]) == n % 10;
    if n >= 10 {
      SuperDigitsDecimal(n / 10);
      assert s[..|s| - 1] == NatToString(n / 10);
    }
  }

  /**
   * `strpower(i)`: the decimal digits of `i` as superscripts.  A negative `i`
   * indexes the digit string from its end (`strpower(-1)` is ⁹) and below −10
   * raises `IndexError`.
   */
  method StrPower(i: int) returns (r: Result<string>)
    ensures i < -10 <==> r == Err(IndexError)
    ensures -10 <= i < 0 ==> r == Ok([Powers[10 + i]])
    ensures i >= 0 ==> r == Ok(Superscript(NatToString(i)))
  {
    if i < 10 {
      if i < -10 {
        return Err(IndexError);
      }
      if i >= 0 {
        SuperDigitsDecimal(i);
        return Ok([Powers[i]]);
      }
      return Ok([Powers[10 + i]]);
    }
    var n := i;
    var result: string := [];
    while n >= 10
      invariant n >= 1
      invariant SuperDigits(i) == SuperDigits(n) + result
      decreases n
    {
      var front, digit := SuperDigits(n / 10), [Powers[n % 10]];
      assert (front + digit) + result == front + (digit + result);
      result := digit + result;
      n := n / 10;
    }
    SuperDigitsDecimal(i);
    return Ok([Powers[n]] + result);
  }

  /** `strpower` can be read back: its superscript digits spell `i`. */
  lemma StrPowerDecodes(i: nat)
    ensures SuperscriptNumber(Superscript(NatToString(i))) == Some(i)
  {
    SuperscriptRoundTrip(NatToString(i));
    NatToStringValue(i);
  }

  /** The pieces `strpol` emits for a non-zero coefficient `v` of degree `e`. */
  function Term(v: int, e: nat): seq<string>
  {
    CoefficientPieces(v) + PowerPieces(e)
  }

  /** The sign and the coefficient; a coefficient of 1 is left implicit. */
  function CoefficientPieces(v: int): seq<string>
  {
    if v != 1 then (if v > 1 then ["+"] else []) + [IntToString(v)] else ["+"]
  }

  /** The variable and its superscript exponent; degree 0 emits nothing and degree 1 no exponent. */
  function PowerPieces(e: nat): seq<string>
  {
    if e > 0 then ["x"] + (if e > 1 then [Superscript(NatToString(e))] else []) else []
  }

  /** The pieces for the coefficient at position `k`; a zero coefficient emits nothing. */
  function TermAt(pol: seq<int>, k: nat): seq<string>
    requires k < |pol|
  {
    if pol[k] == 0 then [] else Term(pol[k], |pol| - 1 - k)
  }

  /** The pieces for the first `k` coefficients, in order. */
  function PiecesUpTo(pol: seq<int>, k: nat): seq<string>
    requires k <= |pol|
  {
    if k == 0 then [] else PiecesUpTo(pol, k - 1) + TermAt(pol, k - 1)
  }

  /** Everything `strpol` emits before joining. */
  function Pieces(pol: seq<int>): seq<string>
  {
    PiecesUpTo(pol, |pol|)
  }

  /** Joins the pieces, dropping a leading "+", and optionally spaces out the signs. */
  function Finish(pieces: seq<string>, addSpaces: bool): string
    requires pieces != []
  {
    var s := if pieces[0] == "+" then Join("", pieces[1..]) else Join("", pieces);
    if addSpaces then Replace(Replace(s, "+", " + "), "-", " - ") else s
  }

  /** One pass of the loop of `strpol` over a non-zero coefficient `v` of degree `e`. */
  method AppendTerm(result: seq<string>, v: int, e: nat) returns (r: seq<string>)
    requires v != 0
    ensures r == result + Term(v, e)
  {
    var coefficient: seq<string>;
    if v != 1 {
      coefficient := if v > 1 then ["+", IntToString(v)] else [IntToString(v)];
    } else {
      coefficient := ["+"];
    }
    var power: seq<string> := [];
    if e > 0 {
      power := ["x"];
      if e > 1 {
        var sup := StrPower(e);
        power := power + [sup.value];
      }
    }
    assert coefficient == CoefficientPieces(v) && power == PowerPieces(e);
    r := result + coefficient + power;
  }

  /** The loop of `strpol`: the pieces of every non-zero coefficient, highest degree first. */
  method CollectPieces(pol: seq<int>) returns (result: seq<string>)
    ensures result == Pieces(pol)
  {
    result := [];
    for k := 0 to |pol|
      invariant result == PiecesUpTo(pol, k)
    {
      result := AppendTermAt(result, pol, k);
    }
  }

  /** The pieces of the coefficient at position `k`, of degree `len(pol) - 1 - k`, after `result`. */
  method AppendTermAt(result: seq<string>, pol: seq<int>, k: nat) returns (r: seq<string>)
    requires k < |pol|
    ensures r == result + TermAt(pol, k)
  {
    r := result;
    if pol[k] != 0 {
      r := AppendTerm(result, pol[k], |pol| - 1 - k);
    }
  }

  /**
   * `strpol(pol, add_spaces)`.  With no non-zero coefficient nothing is
   * emitted and `result[0]` raises `IndexError`.
   */
  method StrPol(pol: seq<int>, addSpaces: bool) returns (r: Result<string>)
    ensures r.Err? <==> forall k :: 0 <= k < |pol| ==> pol[k] == 0
    ensures r.Err? ==> r.error == IndexError
    ensures r.Ok? ==> Pieces(pol) != [] && r.value == Finish(Pieces(pol), addSpaces)
  {
    var result := CollectPieces(pol);
    PiecesEmptyIffZero(pol, |pol|);
    if result == [] {
      return Err(IndexError);
    }
    return Ok(Finish(result, addSpaces));
  }

  /** Nothing is emitted exactly when the coefficients seen so far are all zero. */
  lemma {:induction false} PiecesEmptyIffZero(pol: seq<int>, k: nat)
    requires k <= |pol|
    ensures PiecesUpTo(pol, k) == [] <==> forall j :: 0 <= j < k ==> pol[j] == 0
  {
    if k > 0 {
      PiecesEmptyIffZero(pol, k - 1);
      if pol[k - 1] != 0 {
        assert |Term(pol[k - 1], |pol| - k)| > 0;
      }
    }
  }

  /** A coefficient of exactly 1 prints no digits, even as the constant term: `strpol([1])` is empty. */
  lemma ConstantOne()
    ensures Finish(Pieces([1]), true) == ""
  {
    assert Pieces([1]) == ["+"];
  }

  /** A worked example: [1, 0, −2] prints as x² − 2, with the zero term skipped. */
  lemma SquareMinusTwo()
    ensures Finish(Pieces([1, 0, -2]), true) == "x² - 2"
  {
    SquareMinusTwoPieces();
    assert Join("", ["x", "²", "-2"]) == "x²-2";
    NoPlus();
    SpacedMinus();
  }

  lemma SquareMinusTwoPieces()
    ensures Pieces([1, 0, -2]) == ["+", "x", "²", "-2"]
  {
    assert NatToString(2) == "2";
    assert IntToString(-2) == "-2";
    assert Powers[2] == '²';
    assert Superscript("2") == "²";
    assert Term(1, 2) == ["+", "x", "²"];
    assert PiecesUpTo([1, 0, -2], 1) == ["+", "x", "²"];
    assert PiecesUpTo([1, 0, -2], 2) == ["+", "x", "²"];
  }

  lemma NoPlus()
    ensures Replace("x²-2", "+", " + ") == "x²-2"
  {
    assert Replace("2", "+", " + ") == "2";
    assert Replace("-2", "+", " + ") == "-2";
    assert Replace("²-2", "+", " + ") == "²-2";
  }

  lemma SpacedMinus()
    ensures Replace("x²-2", "-", " - ") == "x² - 2"
  {
    assert Replace("2", "-", " - ") == "2";
    assert Replace("-2", "-", " - ") == " - 2";
    assert Replace("²-2", "-", " - ") == "² - 2";
  }
}
