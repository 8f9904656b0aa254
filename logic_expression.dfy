/**
 * `Expression` of logicmind/tokens/expression.py (and of the older
 * tokens/expression.py, the same code without `tokenize`): a list of tokens
 * that is regrouped by precedence, evaluated under an assignment of the
 * variables, and searched for the assignments that make it true.
 *
 * Nested expressions are kept as values (`Group`) inside the token list; the
 * object whose list `add_token` and `tokenize` change in place is the class
 * `Expression` below.
 */
module LogicExpressions {
  import opened Wrappers
  import opened Text
  import opened LogicTokens

  /** The dictionary of variable names to values that `apply` reads. */
  type Solution = map<string, Value>

  // ---------------------------------------------------------------------------
  // Leaves and operators

  /** The tokens that are not groups, left to right, at every depth. */
  function Leaves(ts: seq<Token>): seq<Token>
    decreases ts
  {
    if ts == [] then [] else Leaves(ts[..|ts| - 1]) + LeavesOf(ts[|ts| - 1])
  }

  function LeavesOf(t: Token): seq<Token>
    decreases t
  {
    if t.Group? then Leaves(t.tokens) else [t]
  }

  lemma {:induction false} LeavesAppend(a: seq<Token>, b: seq<Token>)
    ensures Leaves(a + b) == Leaves(a) + Leaves(b)
    decreases |b|
  {
    if b == [] {
      assert a + b == a;
    } else {
      assert (a + b)[..|a + b| - 1] == a + b[..|b| - 1];
      LeavesAppend(a, b[..|b| - 1]);
    }
  }

  lemma LeavesOne(t: Token)
    ensures Leaves([t]) == LeavesOf(t)
  {
    assert [t][..0] == [];
  }

  /** The number of operators (tokens taking operands) at this level. */
  function OperatorCount(ts: seq<Token>): (n: nat)
    ensures n <= |ts|
  {
    if ts == [] then 0
    else OperatorCount(ts[..|ts| - 1]) + (if Operands(ts[|ts| - 1]) > 0 then 1 else 0)
  }

  lemma {:induction false} OperatorCountAppend(a: seq<Token>, b: seq<Token>)
    ensures OperatorCount(a + b) == OperatorCount(a) + OperatorCount(b)
    decreases |b|
  {
    if b == [] {
      assert a + b == a;
    } else {
      assert (a + b)[..|a + b| - 1] == a + b[..|b| - 1];
      OperatorCountAppend(a, b[..|b| - 1]);
    }
  }

  /** A level without operators is exactly one whose count is 0. */
  lemma {:induction false} CountZero(ts: seq<Token>)
    ensures OperatorCount(ts) == 0 <==> forall i :: 0 <= i < |ts| ==> Operands(ts[i]) == 0
  {
    if ts != [] {
      var n := |ts| - 1;
      CountZero(ts[..n]);
      assert forall i :: 0 <= i < n ==> ts[..n][i] == ts[i];
    }
  }

  /**
   * The operator `min(operators_at, key=precedence)` picks: the lowest
   * precedence, and the first of those on a tie (`LowestAtSpec`).
   */
  function LowestAt(ts: seq<Token>): (r: nat)
    requires OperatorCount(ts) > 0
    ensures r < |ts| && Operands(ts[r]) > 0
  {
    var n := |ts| - 1;
    if OperatorCount(ts[..n]) == 0 then n
    else
      var r := LowestAt(ts[..n]);
      if Operands(ts[n]) > 0 && Precedence(ts[n]) < Precedence(ts[r]) then n else r
  }

  /** `LowestAt` is an operator of minimal precedence with every operator before it of higher precedence. */
  lemma {:induction false} LowestAtSpec(ts: seq<Token>)
    requires OperatorCount(ts) > 0
    ensures forall j :: 0 <= j < |ts| && Operands(ts[j]) > 0 ==> Precedence(ts[LowestAt(ts)]) <= Precedence(ts[j])
    ensures forall j :: 0 <= j < LowestAt(ts) && Operands(ts[j]) > 0 ==> Precedence(ts[LowestAt(ts)]) < Precedence(ts[j])
  {
    var n := |ts| - 1;
    assert forall j :: 0 <= j < n ==> ts[..n][j] == ts[j];
    if OperatorCount(ts[..n]) == 0 {
      CountZero(ts[..n]);
    } else {
      LowestAtSpec(ts[..n]);
    }
  }

  /** The first minimal operator is the only index with the properties `LowestAt` promises. */
  lemma LowestAtUnique(ts: seq<Token>, i: nat)
    requires i < |ts| && Operands(ts[i]) > 0
    requires forall j :: 0 <= j < |ts| && Operands(ts[j]) > 0 ==> Precedence(ts[i]) <= Precedence(ts[j])
    requires forall j :: 0 <= j < i && Operands(ts[j]) > 0 ==> Precedence(ts[i]) < Precedence(ts[j])
    ensures OperatorCount(ts) > 0 && LowestAt(ts) == i
  {
    CountZero(ts);
    LowestAtSpec(ts);
  }

  // ---------------------------------------------------------------------------
  // Python slices

  /** A slice bound as Python reads it: negative counts from the end, then clamped to the list. */
  function SliceBound(i: int, n: nat): (b: nat)
    ensures b <= n
    ensures 0 <= i <= n ==> b == i
  {
    if i < 0 then (if i + n < 0 then 0 else i + n) else if i > n then n else i
  }

  /** `s[i:j]`. */
  function PySlice<T>(s: seq<T>, i: int, j: int): seq<T>
  {
    var a, b := SliceBound(i, |s|), SliceBound(j, |s|);
    if a <= b then s[a..b] else []
  }

  /** `s[i:j] = x`: the slice is replaced; an empty slice is an insertion at its start. */
  function PySliceAssign<T>(s: seq<T>, i: int, j: int, x: seq<T>): seq<T>
  {
    var a, b := SliceBound(i, |s|), SliceBound(j, |s|);
    if a <= b then s[..a] + x + s[b..] else s[..a] + x + s[a..]
  }

  // ---------------------------------------------------------------------------
  // Regrouping

  /** Where the operator's group starts and ends: one token back for a binary operator, two or three tokens in all. */
  function GroupBounds(ts: seq<Token>, at: nat): (int, int)
    requires at < |ts|
  {
    if Operands(ts[at]) == 2 then (at - 1, at + 2) else (at, at + 2)
  }

  /** One regrouping step of `tokenize`: the lowest operator and its operands become one nested expression. */
  function Step(ts: seq<Token>): seq<Token>
    requires OperatorCount(ts) >= 2
  {
    var bounds := GroupBounds(ts, LowestAt(ts));
    PySliceAssign(ts, bounds.0, bounds.1, [Group(PySlice(ts, bounds.0, bounds.1))])
  }

  /**
   * A binary operator first at a level of three or more tokens: its group
   * starts at index -1, which Python reads as the last token, so the slice is
   * empty and the step only inserts an empty expression before the last token.
   */
  predicate Stuck(ts: seq<Token>)
  {
    OperatorCount(ts) >= 2 && |ts| >= 3 && LowestAt(ts) == 0 && Operands(ts[0]) == 2
  }

  /** A step keeps the tokens in order at every depth. */
  lemma StepLeaves(ts: seq<Token>)
    requires OperatorCount(ts) >= 2
    ensures Leaves(Step(ts)) == Leaves(ts)
  {
    var bounds := GroupBounds(ts, LowestAt(ts));
    var a, b := SliceBound(bounds.0, |ts|), SliceBound(bounds.1, |ts|);
    if a <= b {
      SplitLeaves(ts, a, b, ts[a..b]);
    } else {
      SplitLeaves(ts, a, a, []);
    }
  }

  lemma SplitLeaves(ts: seq<Token>, a: nat, b: nat, inner: seq<Token>)
    requires a <= b <= |ts| && inner == ts[a..b]
    ensures Leaves(ts[..a] + [Group(inner)] + ts[b..]) == Leaves(ts)
  {
    LeavesThree(ts[..a], [Group(inner)], ts[b..]);
    LeavesOne(Group(inner));
    LeavesThree(ts[..a], ts[a..b], ts[b..]);
    SplitThree(ts, a, b);
  }

  /**
   * Outside the stuck case a step removes at least one operator from the
   * level, and the level loses two tokens (binary), one (unary), or none (a
   * unary operator last).
   */
  lemma StepProgress(ts: seq<Token>)
    requires OperatorCount(ts) >= 2 && !Stuck(ts)
    ensures OperatorCount(Step(ts)) < OperatorCount(ts)
    ensures |Step(ts)| <= |ts|
  {
    var at := LowestAt(ts);
    var bounds := GroupBounds(ts, at);
    var a, b := SliceBound(bounds.0, |ts|), SliceBound(bounds.1, |ts|);
    if at == 0 && Operands(ts[0]) == 2 {
      assert |ts| == 2 && a == 1 && b == 2;
      CountThree([ts[0]], [ts[1]], []);
      assert [ts[0]] + [ts[1]] + [] == ts;
      OperatorCountOne(ts[0]);
      OperatorCountOne(ts[1]);
      SplitCount(ts, 1, 2, 1);
    } else {
      assert a <= at < b;
      SplitCount(ts, a, b, at);
    }
  }

  lemma OperatorCountOne(t: Token)
    ensures OperatorCount([t]) == if Operands(t) > 0 then 1 else 0
  {
    assert [t][..0] == [];
  }

  lemma CountThree(x: seq<Token>, y: seq<Token>, z: seq<Token>)
    ensures OperatorCount(x + y + z) == OperatorCount(x) + OperatorCount(y) + OperatorCount(z)
  {
    OperatorCountAppend(x + y, z);
    OperatorCountAppend(x, y);
  }

  /** Replacing a slice that holds an operator by one group lowers the operator count. */
  lemma SplitCount(ts: seq<Token>, a: nat, b: nat, at: nat)
    requires a <= at < b <= |ts| && Operands(ts[at]) > 0
    ensures OperatorCount(ts[..a] + [Group(ts[a..b])] + ts[b..]) < OperatorCount(ts)
  {
    SliceHasOperator(ts, a, b, at);
    SplitThree(ts, a, b);
    GroupCount(ts[..a], ts[a..b], ts[b..]);
  }

  lemma SliceHasOperator(ts: seq<Token>, a: nat, b: nat, at: nat)
    requires a <= at < b <= |ts| && Operands(ts[at]) > 0
    ensures OperatorCount(ts[a..b]) > 0
  {
    var y := ts[a..b];
    assert y[at - a] == ts[at];
    SliceCount(y, at - a);
  }

  lemma SplitThree<T>(s: seq<T>, a: nat, b: nat)
    requires a <= b <= |s|
    ensures s[..a] + s[a..b] + s[b..] == s
  {
    assert s[..a] + s[a..b] == s[..b];
  }

  lemma GroupCount(x: seq<Token>, y: seq<Token>, z: seq<Token>)
    requires OperatorCount(y) > 0
    ensures OperatorCount(x + [Group(y)] + z) < OperatorCount(x + y + z)
  {
    CountThree(x, [Group(y)], z);
    OperatorCountOne(Group(y));
    CountThree(x, y, z);
  }

  lemma SliceCount(inner: seq<Token>, k: nat)
    requires k < |inner| && Operands(inner[k]) > 0
    ensures OperatorCount(inner) > 0
  {
    CountZero(inner);
  }

  /** In the stuck case the step gives a level that is stuck again, one token longer. */
  lemma StuckStep(ts: seq<Token>)
    requires Stuck(ts)
    ensures Step(ts) == ts[..|ts| - 1] + [Group([])] + [ts[|ts| - 1]]
    ensures Stuck(Step(ts))
  {
    var n := |ts|;
    var next := ts[..n - 1] + [Group([])] + [ts[n - 1]];
    StuckShape(ts);
    CountThree(ts[..n - 1], [Group([])], [ts[n - 1]]);
    OperatorCountOne(Group([]));
    OperatorCountAppend(ts[..n - 1], [ts[n - 1]]);
    assert ts[..n - 1] + [ts[n - 1]] == ts;
    LowestAtSpec(ts);
    forall j | 0 <= j < |next| && Operands(next[j]) > 0
      ensures Precedence(next[0]) <= Precedence(next[j])
    {
      if j < n - 1 {
        assert next[j] == ts[j];
      } else {
        assert j == n && next[j] == ts[n - 1];
      }
    }
    LowestAtUnique(next, 0);
  }

  lemma StuckShape(ts: seq<Token>)
    requires Stuck(ts)
    ensures Step(ts) == ts[..|ts| - 1] + [Group([])] + [ts[|ts| - 1]]
  {
    var n := |ts|;
    assert GroupBounds(ts, LowestAt(ts)) == (-1, 2);
    assert SliceBound(-1, n) == n - 1 && SliceBound(2, n) == 2;
    if n == 3 {
      assert PySlice(ts, -1, 2) == ts[2..2] == [];
      assert ts[2..] == [ts[2]];
    } else {
      assert PySlice(ts, -1, 2) == [];
      assert ts[n - 1..] == [ts[n - 1]];
    }
  }

  // ---------------------------------------------------------------------------
  // tokenize

  /**
   * `e.tokenize()` on a level, given `fuel` nested calls before Python's
   * recursion limit: regroup while two or more operators remain, each step a
   * nested call, then tokenize every nested expression.
   */
  function Tokenized(ts: seq<Token>, fuel: nat): Result<seq<Token>>
    decreases fuel, 1
  {
    if fuel == 0 then Err(RecursionError)
    else if OperatorCount(ts) < 2 then TokenizeChildren(ts, 0, fuel - 1)
    else Tokenized(Step(ts), fuel - 1)
  }

  /** The loop over the level's tokens that tokenizes each nested expression in turn, from index `i` on. */
  function TokenizeChildren(ts: seq<Token>, i: nat, fuel: nat): Result<seq<Token>>
    requires i <= |ts|
    decreases fuel, 2, |ts| - i
  {
    if i == |ts| then Ok(ts)
    else if ts[i].Group? then
      var inner :- Tokenized(ts[i].tokens, fuel);
      TokenizeChildren(ts[i := Group(inner)], i + 1, fuel)
    else TokenizeChildren(ts, i + 1, fuel)
  }

  /** Every level of the expression holds fewer than two operators. */
  predicate Grouped(ts: seq<Token>)
    decreases ts
  {
    OperatorCount(ts) < 2 && forall i :: 0 <= i < |ts| ==> (ts[i].Group? ==> Grouped(ts[i].tokens))
  }

  /**
   * What `tokenize` achieves when it returns: every level holds at most one
   * operator, and the tokens are the same ones in the same order.
   */
  lemma {:induction false} TokenizedSpec(ts: seq<Token>, fuel: nat)
    ensures Tokenized(ts, fuel).Ok? ==> Grouped(Tokenized(ts, fuel).value) && Leaves(Tokenized(ts, fuel).value) == Leaves(ts)
    decreases fuel, 1
  {
    if fuel > 0 {
      if OperatorCount(ts) < 2 {
        ChildrenSpec(ts, 0, fuel - 1);
      } else {
        StepLeaves(ts);
        TokenizedSpec(Step(ts), fuel - 1);
      }
    }
  }

  lemma {:induction false} ChildrenSpec(ts: seq<Token>, i: nat, fuel: nat)
    requires i <= |ts| && OperatorCount(ts) < 2
    requires forall j :: 0 <= j < i ==> (ts[j].Group? ==> Grouped(ts[j].tokens))
    ensures var r := TokenizeChildren(ts, i, fuel);
      r.Ok? ==> Grouped(r.value) && Leaves(r.value) == Leaves(ts)
    decreases fuel, 2, |ts| - i
  {
    if i < |ts| && ts[i].Group? {
      var inner := Tokenized(ts[i].tokens, fuel);
      if inner.Ok? {
        TokenizedSpec(ts[i].tokens, fuel);
        var next := ts[i := Group(inner.value)];
        ReplaceChild(ts, i, inner.value);
        ChildrenSpec(next, i + 1, fuel);
      }
    } else if i < |ts| {
      ChildrenSpec(ts, i + 1, fuel);
    }
  }

  /** Replacing a nested expression by one with the same leaves keeps the level's leaves and operators. */
  lemma ReplaceChild(ts: seq<Token>, i: nat, inner: seq<Token>)
    requires i < |ts| && ts[i].Group? && Leaves(inner) == Leaves(ts[i].tokens)
    ensures Leaves(ts[i := Group(inner)]) == Leaves(ts)
    ensures OperatorCount(ts[i := Group(inner)]) == OperatorCount(ts)
  {
    var next := ts[i := Group(inner)];
    assert ts == ts[..i] + [ts[i]] + ts[i + 1..];
    assert next == ts[..i] + [Group(inner)] + ts[i + 1..];
    LeavesThree(ts[..i], [ts[i]], ts[i + 1..]);
    LeavesThree(ts[..i], [Group(inner)], ts[i + 1..]);
    LeavesOne(ts[i]);
    LeavesOne(Group(inner));
    CountThree(ts[..i], [ts[i]], ts[i + 1..]);
    CountThree(ts[..i], [Group(inner)], ts[i + 1..]);
    OperatorCountOne(ts[i]);
    OperatorCountOne(Group(inner));
  }

  lemma LeavesThree(x: seq<Token>, y: seq<Token>, z: seq<Token>)
    ensures Leaves(x + y + z) == Leaves(x) + Leaves(y) + Leaves(z)
  {
    LeavesAppend(x + y, z);
    LeavesAppend(x, y);
  }

  /** The only exception `tokenize` raises is the recursion limit. */
  lemma {:induction false} TokenizedError(ts: seq<Token>, fuel: nat)
    ensures Tokenized(ts, fuel).Err? ==> Tokenized(ts, fuel).error == RecursionError
    decreases fuel, 1
  {
    if fuel > 0 {
      if OperatorCount(ts) < 2 {
        ChildrenError(ts, 0, fuel - 1);
      } else {
        TokenizedError(Step(ts), fuel - 1);
      }
    }
  }

  lemma {:induction false} ChildrenError(ts: seq<Token>, i: nat, fuel: nat)
    requires i <= |ts|
    ensures TokenizeChildren(ts, i, fuel).Err? ==> TokenizeChildren(ts, i, fuel).error == RecursionError
    decreases fuel, 2, |ts| - i
  {
    if i < |ts| {
      if ts[i].Group? {
        TokenizedError(ts[i].tokens, fuel);
        var inner := Tokenized(ts[i].tokens, fuel);
        if inner.Ok? {
          ChildrenError(ts[i := Group(inner.value)], i + 1, fuel);
        }
      } else {
        ChildrenError(ts, i + 1, fuel);
      }
    }
  }

  /** A stuck level never stops regrouping: whatever the recursion limit, `tokenize` raises `RecursionError`. */
  lemma {:induction false} StuckDiverges(ts: seq<Token>, fuel: nat)
    requires Stuck(ts)
    ensures Tokenized(ts, fuel) == Err(RecursionError)
    decreases fuel
  {
    if fuel > 0 {
      StuckStep(ts);
      StuckDiverges(Step(ts), fuel - 1);
    }
  }

  /** `(¬ ¬)`: the two negations are grouped into a nested expression that is the same level again, without end. */
  lemma {:induction false} DoubleNotDiverges(fuel: nat)
    ensures Tokenized([Not, Not], fuel) == Err(RecursionError)
    decreases fuel
  {
    if fuel >= 2 {
      DoubleNotStep();
      DoubleNotDiverges(fuel - 2);
      assert TokenizeChildren([Group([Not, Not])], 0, fuel - 2) == Err(RecursionError);
    }
  }

  lemma DoubleNotStep()
    ensures OperatorCount([Not, Not]) == 2
    ensures Step([Not, Not]) == [Group([Not, Not])]
    ensures OperatorCount([Group([Not, Not])]) == 0
  {
    var ts := [Not, Not];
    assert ts == [Not] + [Not];
    OperatorCountAppend([Not], [Not]);
    OperatorCountOne(Not);
    OperatorCountOne(Group(ts));
    LowestAtUnique(ts, 0);
    assert GroupBounds(ts, 0) == (0, 2);
    assert ts[0..2] == ts;
  }

  // ---------------------------------------------------------------------------
  // apply

  /**
   * `t.apply(solutions)` for a token standing as an operand, or alone at its
   * level. `Not` reads the dictionary itself as its operand (`not solutions`,
   * true for an empty one); `Iff` misses its second argument.
   */
  function EvaluateOperand(t: Token, sol: Solution): Result<Value>
    decreases t, 1
  {
    match t
    case Variable(name) => if name in sol then Ok(sol[name]) else Err(KeyError)
    case ConstantTrue => Ok(B(true))
    case ConstantFalse => Ok(B(false))
    case Not => Ok(NotApply(B(|sol| != 0)))
    case Iff => Err(TypeError)
    case Group(ts) => Evaluate(ts, sol)
  }

  /** `Expression.apply(solutions)` on a level. */
  function Evaluate(ts: seq<Token>, sol: Solution): Result<Value>
    decreases ts, 1
  {
    EvaluateFrom(ts, sol, 0)
  }

  /**
   * The scan of `apply` from index `i`: the first operator decides the value,
   * with its previous (Python's last token when it is first) and next
   * tokens; a level without operators is the value of its first token.
   */
  function EvaluateFrom(ts: seq<Token>, sol: Solution, i: nat): Result<Value>
    requires i <= |ts|
    decreases ts, 0, |ts| - i
  {
    if i == |ts| then
      if ts == [] then Err(IndexError) else EvaluateOperand(ts[0], sol)
    else if Operands(ts[i]) == 1 then
      if i + 1 == |ts| then Err(IndexError)
      else
        var right :- EvaluateOperand(ts[i + 1], sol);
        Ok(NotApply(right))
    else if Operands(ts[i]) == 2 then
      if i + 1 == |ts| then Err(IndexError)
      else
        var left :- EvaluateOperand(ts[if i == 0 then |ts| - 1 else i - 1], sol);
        var right :- EvaluateOperand(ts[i + 1], sol);
        Ok(IffApply(left, right))
    else EvaluateFrom(ts, sol, i + 1)
  }

  /** A token that stands for a truth value: no operator, and well formed inside when nested. */
  predicate IsOperand(t: Token)
    decreases t, 1
  {
    Operands(t) == 0 && (t.Group? ==> WellFormed(t.tokens))
  }

  /** An expression as the grammar means it: `x`, `¬ x` or `x ↔ y` at every level. */
  predicate WellFormed(ts: seq<Token>)
    decreases ts, 0
  {
    || (|ts| == 1 && IsOperand(ts[0]))
    || (|ts| == 2 && ts[0] == Not && IsOperand(ts[1]))
    || (|ts| == 3 && IsOperand(ts[0]) && ts[1] == Iff && IsOperand(ts[2]))
  }

  /** The truth of an operand when every variable is given 0 or 1: the reference semantics. */
  predicate OperandMeaning(t: Token, sol: Solution)
    requires IsOperand(t)
    decreases t, 1
  {
    match t
    case Variable(name) => name in sol && sol[name] == I(1)
    case ConstantTrue => true
    case ConstantFalse => false
    case Group(ts) => Meaning(ts, sol)
  }

  /** The truth of a well formed level: the operand, its negation, or whether the two sides agree. */
  predicate Meaning(ts: seq<Token>, sol: Solution)
    requires WellFormed(ts)
    decreases ts, 0
  {
    if |ts| == 1 then OperandMeaning(ts[0], sol)
    else if |ts| == 2 then !OperandMeaning(ts[1], sol)
    else OperandMeaning(ts[0], sol) == OperandMeaning(ts[2], sol)
  }

  /** The variables of the expression, at every depth: `get_variables`. */
  function Variables(ts: seq<Token>): set<string>
    decreases ts
  {
    if ts == [] then {} else Variables(ts[..|ts| - 1]) + VariablesOf(ts[|ts| - 1])
  }

  function VariablesOf(t: Token): set<string>
    decreases t
  {
    match t
    case Variable(name) => {name}
    case Group(ts) => Variables(ts)
    case _ => {}
  }

  /** A name is a variable of the expression exactly when a `Variable` token of that name is among its leaves. */
  lemma {:induction false} VariablesAreLeaves(ts: seq<Token>)
    ensures forall x :: x in Variables(ts) <==> Variable(x) in Leaves(ts)
    decreases ts
  {
    if ts != [] {
      VariablesAreLeaves(ts[..|ts| - 1]);
      VariablesOfLeaves(ts[|ts| - 1]);
    }
  }

  lemma {:induction false} VariablesOfLeaves(t: Token)
    ensures forall x :: x in VariablesOf(t) <==> Variable(x) in LeavesOf(t)
    decreases t
  {
    if t.Group? {
      VariablesAreLeaves(t.tokens);
    }
  }

  /** Every variable is 0 or 1, as `find_solutions` assigns them. */
  predicate Binary(sol: Solution)
  {
    forall x :: x in sol ==> sol[x] == I(0) || sol[x] == I(1)
  }

  /**
   * On a well formed expression whose variables are all given 0 or 1, `apply`
   * raises nothing and computes the reference semantics, as 0 or 1.
   */
  lemma {:induction false} EvaluateMeaning(ts: seq<Token>, sol: Solution)
    requires WellFormed(ts) && Binary(sol) && Variables(ts) <= sol.Keys
    ensures Evaluate(ts, sol).Ok?
    ensures AsInt(Evaluate(ts, sol).value) == if Meaning(ts, sol) then 1 else 0
    decreases ts, 0
  {
    var n := |ts|;
    forall k | 0 <= k < n
      ensures VariablesOf(ts[k]) <= sol.Keys
    {
      VariablesOfMember(ts, k);
    }
    OperandValue(ts[n - 1], sol);
    if n == 1 {
      assert EvaluateFrom(ts, sol, 1) == EvaluateOperand(ts[0], sol);
    } else if n == 2 {
      assert EvaluateFrom(ts, sol, 0) == Ok(NotApply(EvaluateOperand(ts[1], sol).value));
    } else {
      OperandValue(ts[0], sol);
      assert EvaluateFrom(ts, sol, 0) == EvaluateFrom(ts, sol, 1);
    }
  }

  lemma {:induction false} OperandValue(t: Token, sol: Solution)
    requires IsOperand(t) && Binary(sol) && VariablesOf(t) <= sol.Keys
    ensures EvaluateOperand(t, sol).Ok?
    ensures AsInt(EvaluateOperand(t, sol).value) == if OperandMeaning(t, sol) then 1 else 0
    decreases t, 1
  {
    if t.Group? {
      EvaluateMeaning(t.tokens, sol);
    }
  }

  lemma {:induction false} VariablesOfMember(ts: seq<Token>, k: nat)
    requires k < |ts|
    ensures VariablesOf(ts[k]) <= Variables(ts)
    decreases |ts|
  {
    if k < |ts| - 1 {
      VariablesOfMember(ts[..|ts| - 1], k);
    }
  }

  // ---------------------------------------------------------------------------
  // find_solutions

  function Pow2(n: nat): (p: nat)
    ensures p >= 1
  {
    if n == 0 then 1 else 2 * Pow2(n - 1)
  }

  /** `decimal >> index`: floor division by two, `index` times. */
  function Shift(decimal: int, index: nat): int
    decreases index
  {
    if index == 0 then decimal else Shift(decimal / 2, index - 1)
  }

  /** `_binary_digit`: the bit `index` places from the right, 0 or 1. */
  function BinaryDigit(decimal: int, index: nat): (d: int)
    ensures d == 0 || d == 1
  {
    Shift(decimal, index) % 2
  }

  /** The dictionary `find_solutions` builds for `i`: the `j`-th variable gets bit `j` of `i`. */
  function Assignment(vars: seq<string>, i: int): Solution
  {
    if vars == [] then map[] else Assignment(vars[1..], i / 2)[vars[0] := I(i % 2)]
  }

  /** The number whose bits an assignment holds: the inverse of `Assignment`. */
  function Index(vars: seq<string>, m: Solution): int
  {
    if vars == [] then 0
    else (if vars[0] in m then AsInt(m[vars[0]]) else 0) + 2 * Index(vars[1..], m)
  }

  predicate Distinct(vars: seq<string>)
  {
    forall a, b :: 0 <= a < b < |vars| ==> vars[a] != vars[b]
  }

  /** The dictionaries `find_solutions` tries: every variable, and nothing else, set to 0 or 1. */
  predicate IsAssignment(vars: seq<string>, m: Solution)
  {
    Binary(m) && (forall x :: x in m ==> x in vars) && (forall x :: x in vars ==> x in m)
  }

  /** `Assignment` holds, for each variable, the binary digit the inner loop of `find_solutions` stores. */
  lemma {:induction false} AssignmentDigits(vars: seq<string>, i: int)
    requires Distinct(vars)
    ensures IsAssignment(vars, Assignment(vars, i))
    ensures forall k :: 0 <= k < |vars| ==> Assignment(vars, i)[vars[k]] == I(BinaryDigit(i, k))
    decreases |vars|
  {
    if vars != [] {
      var rest := vars[1..];
      AssignmentDigits(rest, i / 2);
      forall k | 0 < k < |vars|
        ensures Assignment(vars, i)[vars[k]] == I(BinaryDigit(i, k))
      {
        assert vars[k] == rest[k - 1] && vars[k] != vars[0];
      }
      forall x ensures x in Assignment(vars, i) <==> x in vars {
        assert x in vars <==> x == vars[0] || x in rest;
      }
    }
  }

  /** Two dictionaries that agree on the variables give the same index. */
  lemma {:induction false} IndexAgree(vars: seq<string>, m: Solution, m': Solution)
    requires forall x :: x in vars ==> (x in m <==> x in m') && (x in m ==> m[x] == m'[x])
    ensures Index(vars, m) == Index(vars, m')
    decreases |vars|
  {
    if vars != [] {
      IndexAgree(vars[1..], m, m');
    }
  }

  /** Each number below `2^n` is the index of its own assignment. */
  lemma {:induction false} IndexOfAssignment(vars: seq<string>, i: int)
    requires Distinct(vars) && 0 <= i < Pow2(|vars|)
    ensures Index(vars, Assignment(vars, i)) == i
    decreases |vars|
  {
    if vars != [] {
      var rest := vars[1..];
      var m := Assignment(vars, i);
      IndexOfAssignment(rest, i / 2);
      IndexAgree(rest, m, Assignment(rest, i / 2));
    }
  }

  /** Each assignment of the variables is the assignment of its own index, which is below `2^n`. */
  lemma {:induction false} AssignmentOfIndex(vars: seq<string>, m: Solution)
    requires Distinct(vars) && IsAssignment(vars, m)
    ensures 0 <= Index(vars, m) < Pow2(|vars|)
    ensures Assignment(vars, Index(vars, m)) == m
    decreases |vars|
  {
    if vars != [] {
      var rest := vars[1..];
      var m' := m - {vars[0]};
      RemoveFirst(vars, m);
      AssignmentOfIndex(rest, m');
      IndexAgree(rest, m, m');
      var b := AsInt(m[vars[0]]);
      var j := Index(rest, m');
      assert Index(vars, m) == b + 2 * j;
      assert m[vars[0]] == I(b);
      HalveBit(b, j);
      RemoveRestore(m, vars[0]);
    }
  }

  /** Dropping the first variable from an assignment leaves an assignment of the others. */
  lemma RemoveFirst(vars: seq<string>, m: Solution)
    requires vars != [] && Distinct(vars) && IsAssignment(vars, m)
    ensures Distinct(vars[1..]) && IsAssignment(vars[1..], m - {vars[0]})
  {
    var rest, m' := vars[1..], m - {vars[0]};
    forall x ensures x in m' <==> x in rest {
      assert x in vars <==> x == vars[0] || x in rest;
    }
  }

  lemma HalveBit(b: int, j: int)
    requires b == 0 || b == 1
    ensures (b + 2 * j) / 2 == j && (b + 2 * j) % 2 == b
  {
  }

  lemma RemoveRestore(m: Solution, k: string)
    requires k in m
    ensures (m - {k})[k := m[k]] == m
  {
  }

  /** The dictionaries found from `i` on, or the first exception `apply` raises. */
  function SolutionsFrom(ts: seq<Token>, vars: seq<string>, i: nat): Result<seq<Solution>>
    decreases Pow2(|vars|) - i
  {
    if i >= Pow2(|vars|) then Ok([])
    else
      var v :- Evaluate(ts, Assignment(vars, i));
      var rest :- SolutionsFrom(ts, vars, i + 1);
      Ok((if Truthy(v) then [Assignment(vars, i)] else []) + rest)
  }

  /** `find_solutions`: over the sorted variables, the assignments of `0 .. 2^n - 1` that `apply` finds true. */
  ghost function Solutions(ts: seq<Token>): Result<seq<Solution>>
  {
    SolutionsFrom(ts, SortedOf(Variables(ts)), 0)
  }

  /** Whether `apply` is true under `m`. */
  predicate Satisfies(ts: seq<Token>, m: Solution)
  {
    Evaluate(ts, m).Ok? && Truthy(Evaluate(ts, m).value)
  }

  /** The solutions found so far ahead of the rest, or the exception that ends the search. */
  function Prepend(found: seq<Solution>, r: Result<seq<Solution>>): Result<seq<Solution>>
  {
    if r.Ok? then Ok(found + r.value) else r
  }

  /** One round of the search: an exception ends it, a true assignment is kept, a false one skipped. */
  lemma SolutionsStep(ts: seq<Token>, vars: seq<string>, i: nat, found: seq<Solution>, v: Result<Value>)
    requires i < Pow2(|vars|) && v == Evaluate(ts, Assignment(vars, i))
    ensures v.Err? ==> Prepend(found, SolutionsFrom(ts, vars, i)) == Err(v.error)
    ensures v.Ok? && Truthy(v.value) ==>
      Prepend(found, SolutionsFrom(ts, vars, i)) == Prepend(found + [Assignment(vars, i)], SolutionsFrom(ts, vars, i + 1))
    ensures v.Ok? && !Truthy(v.value) ==>
      Prepend(found, SolutionsFrom(ts, vars, i)) == Prepend(found, SolutionsFrom(ts, vars, i + 1))
  {
    var rest := SolutionsFrom(ts, vars, i + 1);
    if rest.Ok? && v.Ok? {
      if Truthy(v.value) {
        assert found + ([Assignment(vars, i)] + rest.value) == found + [Assignment(vars, i)] + rest.value;
      } else {
        assert [] + rest.value == rest.value;
      }
    }
  }

  lemma PrependAll(found: seq<Solution>)
    ensures Prepend(found, Ok([])) == Ok(found)
  {
    assert found + [] == found;
  }

  lemma PrependNothing(r: Result<seq<Solution>>)
    ensures Prepend([], r) == r
  {
    if r.Ok? {
      assert [] + r.value == r.value;
    }
  }

  /** The dictionary built bit by bit is the assignment of `i`. */
  lemma SameAssignment(vars: seq<string>, i: int, m: Solution)
    requires Distinct(vars)
    requires forall x :: x in m <==> x in vars
    requires forall k :: 0 <= k < |vars| ==> m[vars[k]] == I(BinaryDigit(i, k))
    ensures m == Assignment(vars, i)
  {
    var a := Assignment(vars, i);
    AssignmentDigits(vars, i);
    assert m.Keys == a.Keys;
    forall x | x in m ensures m[x] == a[x] {
      var k :| 0 <= k < |vars| && vars[k] == x;
    }
  }

  lemma SortedDistinct(vars: seq<string>)
    requires StrictlySorted(vars)
    ensures Distinct(vars)
  {
    forall a, b | 0 <= a < b < |vars| ensures vars[a] != vars[b] {
      if vars[a] == vars[b] {
        LessIrreflexive(vars[a]);
      }
    }
  }

  /**
   * What `find_solutions` returns: exactly the assignments of the variables
   * that make the expression true, each once, in increasing order of the
   * number whose bits they hold.
   */
  lemma SolutionsExact(ts: seq<Token>, sols: seq<Solution>)
    requires Solutions(ts) == Ok(sols)
    ensures forall s :: s in sols ==> IsAssignment(SortedOf(Variables(ts)), s) && Satisfies(ts, s)
    ensures forall m :: IsAssignment(SortedOf(Variables(ts)), m) && Satisfies(ts, m) ==> m in sols
    ensures forall a, b :: 0 <= a < b < |sols| ==>
      Index(SortedOf(Variables(ts)), sols[a]) < Index(SortedOf(Variables(ts)), sols[b])
    ensures |sols| <= Pow2(|Variables(ts)|)
  {
    var vars := SortedOf(Variables(ts));
    SortedDistinct(vars);
    SolutionsFromExact(ts, vars, 0, sols);
    forall m | IsAssignment(vars, m) && Satisfies(ts, m) ensures m in sols {
      AssignmentOfIndex(vars, m);
    }
  }

  /**
   * `sols` holds exactly the assignments of index `i` or more that make the
   * expression true, in increasing order of index.
   */
  predicate ExactFrom(ts: seq<Token>, vars: seq<string>, i: nat, sols: seq<Solution>)
  {
    && (forall s :: s in sols ==> IsAssignment(vars, s) && Satisfies(ts, s) && i <= Index(vars, s) < Pow2(|vars|))
    && (forall k :: i <= k < Pow2(|vars|) && Satisfies(ts, Assignment(vars, k)) ==> Assignment(vars, k) in sols)
    && (forall a, b :: 0 <= a < b < |sols| ==> Index(vars, sols[a]) < Index(vars, sols[b]))
    && |sols| <= Pow2(|vars|) - i
  }

  lemma {:induction false} SolutionsFromExact(ts: seq<Token>, vars: seq<string>, i: nat, sols: seq<Solution>)
    requires Distinct(vars) && i <= Pow2(|vars|) && SolutionsFrom(ts, vars, i) == Ok(sols)
    ensures ExactFrom(ts, vars, i, sols)
    decreases Pow2(|vars|) - i
  {
    if i < Pow2(|vars|) {
      var a := Assignment(vars, i);
      var v := Evaluate(ts, a).value;
      var rest := SolutionsFrom(ts, vars, i + 1).value;
      SolutionsFromExact(ts, vars, i + 1, rest);
      AssignmentDigits(vars, i);
      IndexOfAssignment(vars, i);
      var head := if Truthy(v) then [a] else [];
      assert sols == head + rest;
      ExactCons(ts, vars, i, head, rest);
    }
  }

  /** The assignment of index `i`, kept when it makes the expression true, ahead of the exact solutions past `i`. */
  lemma ExactCons(ts: seq<Token>, vars: seq<string>, i: nat, head: seq<Solution>, rest: seq<Solution>)
    requires i < Pow2(|vars|) && IsAssignment(vars, Assignment(vars, i)) && Index(vars, Assignment(vars, i)) == i
    requires head == if Satisfies(ts, Assignment(vars, i)) then [Assignment(vars, i)] else []
    requires ExactFrom(ts, vars, i + 1, rest)
    ensures ExactFrom(ts, vars, i, head + rest)
  {
    IndexOrderCons(vars, head, rest, i);
    forall k | i <= k < Pow2(|vars|) && Satisfies(ts, Assignment(vars, k))
      ensures Assignment(vars, k) in head + rest
    {
      if k > i {
        assert Assignment(vars, k) in rest;
      }
    }
  }

  /** An assignment of index `i` ahead of assignments in increasing order past `i` keeps the order. */
  lemma IndexOrderCons(vars: seq<string>, head: seq<Solution>, rest: seq<Solution>, i: int)
    requires |head| <= 1 && (head != [] ==> Index(vars, head[0]) == i)
    requires forall s :: s in rest ==> i < Index(vars, s)
    requires forall x, y :: 0 <= x < y < |rest| ==> Index(vars, rest[x]) < Index(vars, rest[y])
    ensures forall x, y :: 0 <= x < y < |head + rest| ==> Index(vars, (head + rest)[x]) < Index(vars, (head + rest)[y])
  {
    if head != [] {
      forall x, y | 0 <= x < y < |head + rest|
        ensures Index(vars, (head + rest)[x]) < Index(vars, (head + rest)[y])
      {
        assert (head + rest)[y] == rest[y - 1] && rest[y - 1] in rest;
        if x > 0 {
          assert (head + rest)[x] == rest[x - 1];
        }
      }
    } else {
      assert head + rest == rest;
    }
  }

  // ---------------------------------------------------------------------------
  // The mutable object

  class Expression {
    /** `self.tokens`. */
    var tokens: seq<Token>

    /** `Expression()`: no tokens yet. */
    constructor ()
      ensures tokens == []
    {
      tokens := [];
    }

    /** `add_token`: appends at the end and leaves the other tokens as they were. */
    method AddToken(t: Token)
      modifies this
      ensures tokens == old(tokens) + [t]
    {
      tokens := tokens + [t];
    }

    /**
     * `tokenize`, with `fuel` nested calls left before the recursion limit:
     * regroups this level in place, one step per nested call, then tokenizes
     * each nested expression as an object of its own.
     */
    method Tokenize(fuel: nat) returns (outcome: Outcome)
      modifies this
      ensures outcome.Pass? <==> Tokenized(old(tokens), fuel).Ok?
      ensures outcome.Pass? ==> tokens == Tokenized(old(tokens), fuel).value
      ensures outcome.Fail? ==> outcome.error == RecursionError
      decreases fuel, 1
    {
      var f: nat := fuel;
      while true
        invariant f <= fuel
        invariant Tokenized(tokens, f) == Tokenized(old(tokens), fuel)
        decreases f
      {
        if f == 0 {
          return Fail(RecursionError);
        }
        var count, lowestAt := LowestOperator(tokens);
        if count < 2 {
          outcome := TokenizeNested(f - 1);
          return;
        }
        var start: int, end: int;
        if Operands(tokens[lowestAt]) == 2 {
          start := lowestAt as int - 1;
          end := start + 3;
        } else {
          start := lowestAt;
          end := start + 2;
        }
        var group := PySlice(tokens, start, end);
        tokens := PySliceAssign(tokens, start, end, [Group(group)]);
        f := f - 1;
      }
    }

    /** The loop of `tokenize` over a level left with fewer than two operators: each nested expression is tokenized as an object of its own. */
    method TokenizeNested(fuel: nat) returns (outcome: Outcome)
      modifies this
      ensures outcome.Pass? <==> TokenizeChildren(old(tokens), 0, fuel).Ok?
      ensures outcome.Pass? ==> tokens == TokenizeChildren(old(tokens), 0, fuel).value
      ensures outcome.Fail? ==> outcome.error == RecursionError
      decreases fuel, 2
    {
      var i := 0;
      while i < |tokens|
        invariant i <= |tokens|
        invariant TokenizeChildren(tokens, i, fuel) == TokenizeChildren(old(tokens), 0, fuel)
      {
        if tokens[i].Group? {
          var child := new Expression();
          child.tokens := tokens[i].tokens;
          var o := child.Tokenize(fuel);
          if o.Fail? {
            return o;
          }
          tokens := tokens[i := Group(child.tokens)];
        }
        i := i + 1;
      }
      return Pass;
    }

    /** `get_variables`: the names of the variables at every depth, each nested expression asked as its own object. */
    method GetVariables() returns (variables: set<string>)
      ensures variables == Variables(tokens)
      decreases tokens
    {
      variables := {};
      for i := 0 to |tokens|
        invariant variables == Variables(tokens[..i])
      {
        assert tokens[..i + 1][..i] == tokens[..i];
        match tokens[i] {
          case Group(inner) =>
            var child := new Expression();
            child.tokens := inner;
            var found := child.GetVariables();
            variables := variables + found;
          case Variable(name) =>
            variables := variables + {name};
          case _ =>
        }
      }
      assert tokens[..|tokens|] == tokens;
    }

    /**
     * `apply(solutions)`: the first operator of the level is applied to the
     * values of its neighbours; a level without one is the value of its first
     * token.
     */
    method Apply(sol: Solution) returns (r: Result<Value>)
      ensures r == Evaluate(tokens, sol)
      decreases tokens, 1
    {
      for i := 0 to |tokens|
        invariant EvaluateFrom(tokens, sol, i) == Evaluate(tokens, sol)
      {
        var ct := tokens[i];
        if Operands(ct) == 1 {
          if i + 1 == |tokens| {
            return Err(IndexError);
          }
          var right := ApplyToken(tokens[i + 1], sol);
          if right.Err? {
            return right;
          }
          return Ok(NotApply(right.value));
        } else if Operands(ct) == 2 {
          var pt := tokens[if i == 0 then |tokens| - 1 else i - 1];
          if i + 1 == |tokens| {
            return Err(IndexError);
          }
          var left := ApplyToken(pt, sol);
          if left.Err? {
            return left;
          }
          var right := ApplyToken(tokens[i + 1], sol);
          if right.Err? {
            return right;
          }
          return Ok(IffApply(left.value, right.value));
        }
      }
      if |tokens| == 0 {
        return Err(IndexError);
      }
      r := ApplyToken(tokens[0], sol);
    }

    /**
     * `find_solutions`: every assignment of 0 and 1 to the sorted variables,
     * in the order of the numbers `0 .. 2^n - 1` whose bits they hold, kept
     * when `apply` is true (`SolutionsExact`).
     */
    method FindSolutions() returns (r: Result<seq<Solution>>)
      ensures r == Solutions(tokens)
    {
      var names := GetVariables();
      var variables := SortedList(names);
      SortedDistinct(variables);
      r := Search(variables);
    }

    /** The loop of `find_solutions` over `i` in `range(2**len(variables))`. */
    method Search(variables: seq<string>) returns (r: Result<seq<Solution>>)
      requires Distinct(variables)
      ensures r == SolutionsFrom(tokens, variables, 0)
    {
      var solutions: seq<Solution> := [];
      PrependNothing(SolutionsFrom(tokens, variables, 0));
      var i: nat := 0;
      while i < Pow2(|variables|)
        invariant i <= Pow2(|variables|)
        invariant SolutionsFrom(tokens, variables, 0) == Prepend(solutions, SolutionsFrom(tokens, variables, i))
        decreases Pow2(|variables|) - i
      {
        var solution := BinaryAssignment(variables, i);
        var v := Apply(solution);
        SolutionsStep(tokens, variables, i, solutions, v);
        if v.Err? {
          return Err(v.error);
        }
        if Truthy(v.value) {
          solutions := solutions + [solution];
        }
        i := i + 1;
      }
      PrependAll(solutions);
      return Ok(solutions);
    }
  }

  /**
   * The `operators_at` scan and its `min`: how many operators the level
   * holds and, when there is one, the first of lowest precedence.
   */
  method LowestOperator(ts: seq<Token>) returns (count: nat, lowest: nat)
    ensures count == OperatorCount(ts)
    ensures count > 0 ==> lowest == LowestAt(ts)
  {
    count, lowest := 0, 0;
    for i := 0 to |ts|
      invariant count == OperatorCount(ts[..i])
      invariant count > 0 ==> lowest == LowestAt(ts[..i])
    {
      assert ts[..i + 1][..i] == ts[..i];
      if Operands(ts[i]) > 0 {
        if count == 0 || Precedence(ts[i]) < Precedence(ts[lowest]) {
          lowest := i;
        }
        count := count + 1;
      }
    }
    assert ts[..|ts|] == ts;
  }

  /** The inner loop of `find_solutions`: the dictionary giving the `j`-th variable bit `j` of `i`. */
  method BinaryAssignment(variables: seq<string>, i: int) returns (solution: Solution)
    requires Distinct(variables)
    ensures solution == Assignment(variables, i)
  {
    solution := map[];
    for j := 0 to |variables|
      invariant forall x :: x in solution <==> x in variables[..j]
      invariant forall k :: 0 <= k < j ==> solution[variables[k]] == I(BinaryDigit(i, k))
    {
      assert variables[..j + 1] == variables[..j] + [variables[j]];
      solution := solution[variables[j] := I(BinaryDigit(i, j))];
    }
    assert variables[..|variables|] == variables;
    SameAssignment(variables, i, solution);
  }

  /** `t.apply(solutions)` for a neighbour of an operator: a nested expression is asked as an object of its own. */
  method ApplyToken(t: Token, sol: Solution) returns (r: Result<Value>)
    ensures r == EvaluateOperand(t, sol)
    decreases t, 2
  {
    if t.Group? {
      var child := new Expression();
      child.tokens := t.tokens;
      r := child.Apply(sol);
    } else {
      r := EvaluateOperand(t, sol);
    }
  }
}
