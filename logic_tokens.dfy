/**
 * The token classes of logicmind/tokens: the operand counts and precedences
 * the constructors store, the spellings the parser looks for, and the
 * `apply` methods, which are the Boolean semantics of the operators.
 */
module LogicTokens {
  import opened Wrappers

  /**
   * What an `apply` returns: a `bool`, or an `int` (the 0 and 1 that
   * `find_solutions` assigns). Python's `bool` is a subclass of `int`, so the
   * two compare by their numbers.
   */
  datatype Value = B(b: bool) | I(i: int)

  /** The number a value stands for: `True` is 1 and `False` is 0. */
  function AsInt(v: Value): int
  {
    match v
    case B(b) => if b then 1 else 0
    case I(i) => i
  }

  /** Python's truth value of a `bool` or an `int`. */
  predicate Truthy(v: Value)
  {
    AsInt(v) != 0
  }

  /** The token classes the parser knows, in the order it tries them. */
  datatype TokenClass = IffClass | ThenClass | NotClass | OrClass | AndClass | TrueClass | FalseClass

  /**
   * A token object. `Group` is a nested `Expression`, whose own operand count
   * and precedence are 0. `Then`, `And` and `Or` objects cannot be built (see
   * `Construct`), so they have no case here.
   */
  datatype Token =
    | Variable(name: string)
    | ConstantTrue
    | ConstantFalse
    | Iff
    | Not
    | Group(tokens: seq<Token>)

  /** `operands`: how many neighbours the token's `apply` takes. */
  function Operands(t: Token): (n: nat)
    ensures n <= 2
    ensures n == 2 <==> t.Iff?
    ensures n == 1 <==> t.Not?
  {
    match t
    case Iff => 2
    case Not => 1
    case _ => 0
  }

  /** `precedence`: the lower, the sooner the operator is grouped and applied. */
  function Precedence(t: Token): (p: nat)
    ensures Operands(t) == 0 ==> p == 0
    ensures t.Iff? ==> p == 5
    ensures t.Not? ==> p == 1
  {
    match t
    case Iff => 5
    case Not => 1
    case _ => 0
  }

  /** The class attribute `representations`: the spellings the parser rewrites. */
  function Representations(c: TokenClass): seq<string>
  {
    match c
    case IffClass => ["<->", "↔", "⇔", "≡"]
    case NotClass => ["¬", "!"]
    case TrueClass => ["1"]
    case FalseClass => ["0"]
    case _ => []
  }

  /** The class attribute `single_char_representation`; `None` unless the class sets it. */
  function SingleChar(c: TokenClass): Option<string>
  {
    match c
    case TrueClass => Some("1")
    case FalseClass => Some("0")
    case _ => None
  }

  /**
   * Calling the class with no arguments. `Then`, `And` and `Or` pass only
   * `operands=2` to a base constructor that also requires `precedence`, so
   * they raise `TypeError`; the others build their token.
   */
  function Construct(c: TokenClass): (r: Result<Token>)
    ensures r.Err? <==> c in {ThenClass, AndClass, OrClass}
    ensures r.Err? ==> r.error == TypeError
    ensures r.Ok? ==> Operands(r.value) == (if c == IffClass then 2 else if c == NotClass then 1 else 0)
  {
    match c
    case IffClass => Ok(Iff)
    case NotClass => Ok(Not)
    case TrueClass => Ok(ConstantTrue)
    case FalseClass => Ok(ConstantFalse)
    case _ => Err(TypeError)
  }

  /** `__repr__` of each class. */
  function ClassRepr(c: TokenClass): string
  {
    match c
    case IffClass => "<->"
    case ThenClass => "->"
    case NotClass => "¬"
    case OrClass => "v"
    case AndClass => "^"
    case TrueClass => "1"
    case FalseClass => "0"
  }

  // ---------------------------------------------------------------------------
  // The `apply` methods of the operators

  /** `Not.apply(right)`: `not right`. */
  function NotApply(right: Value): (r: Value)
    ensures r.B? && (Truthy(r) <==> !Truthy(right))
  {
    B(!Truthy(right))
  }

  /** `Iff.apply(left, right)`: `left == right`. */
  function IffApply(left: Value, right: Value): (r: Value)
    ensures r.B? && (Truthy(r) <==> AsInt(left) == AsInt(right))
  {
    B(AsInt(left) == AsInt(right))
  }

  /** `Then.apply(left, right)`: `not left or right`, so `True` when `left` is false, else `right` itself. */
  function ThenApply(left: Value, right: Value): (r: Value)
    ensures !Truthy(r) <==> Truthy(left) && !Truthy(right)
    ensures Truthy(left) ==> r == right
  {
    var notLeft := NotApply(left);
    if Truthy(notLeft) then notLeft else right
  }

  /** `And.apply(left, right)`: `left and right`, which returns one of its operands. */
  function AndApply(left: Value, right: Value): (r: Value)
    ensures Truthy(r) <==> Truthy(left) && Truthy(right)
    ensures r == left || r == right
  {
    if Truthy(left) then right else left
  }

  /** `Or.apply(left, right)`: `left or right`, which returns one of its operands. */
  function OrApply(left: Value, right: Value): (r: Value)
    ensures !Truthy(r) <==> !Truthy(left) && !Truthy(right)
    ensures r == left || r == right
  {
    if Truthy(left) then left else right
  }

  /** `Iff` does not depend on the order of its operands. */
  lemma IffSymmetric(l: Value, r: Value)
    ensures IffApply(l, r) == IffApply(r, l)
  {
  }

  /** `And` and `Or` are commutative in truth value, though not in the operand they return. */
  lemma AndOrCommute(l: Value, r: Value)
    ensures Truthy(AndApply(l, r)) == Truthy(AndApply(r, l))
    ensures Truthy(OrApply(l, r)) == Truthy(OrApply(r, l))
    ensures AndApply(I(2), I(3)) != AndApply(I(3), I(2))
  {
  }

  /** Negating a Boolean twice gives it back; on the numbers 0 and 1 it gives the `bool` of the same truth. */
  lemma NotTwice(v: Value)
    ensures v.B? ==> NotApply(NotApply(v)) == v
    ensures v == I(1) ==> NotApply(NotApply(v)) == B(true)
    ensures v == I(0) ==> NotApply(NotApply(v)) == B(false)
  {
  }

  /** The implication is the disjunction of the negated premise with the conclusion, and the biconditional both implications. */
  lemma ConnectivesAgree(l: Value, r: Value)
    ensures Truthy(ThenApply(l, r)) == Truthy(OrApply(NotApply(l), r))
    ensures (l.B? && r.B?) ==> (Truthy(IffApply(l, r)) == Truthy(AndApply(ThenApply(l, r), ThenApply(r, l))))
    ensures Truthy(NotApply(AndApply(l, r))) == Truthy(OrApply(NotApply(l), NotApply(r)))
  {
  }

  /** `repr` of a token: the class's symbol, a variable's name, or a group's tokens spaced inside brackets. */
  function Repr(t: Token): string
  {
    match t
    case Variable(name) => name
    case ConstantTrue => ClassRepr(TrueClass)
    case ConstantFalse => ClassRepr(FalseClass)
    case Iff => ClassRepr(IffClass)
    case Not => ClassRepr(NotClass)
    case Group(ts) => "(" + ReprJoin(ts) + ")"
  }

  /** `' '.join(repr(t) for t in ts)`. */
  function ReprJoin(ts: seq<Token>): string
  {
    if ts == [] then ""
    else if |ts| == 1 then Repr(ts[0])
    else Repr(ts[0]) + " " + ReprJoin(ts[1..])
  }

  /** How many times `c` occurs in `s`. */
  function Occurrences(s: string, c: char): nat
  {
    if s == [] then 0 else Occurrences(s[..|s| - 1], c) + (if s[|s| - 1] == c then 1 else 0)
  }

  lemma {:induction false} OccurrencesAppend(a: string, b: string, c: char)
    ensures Occurrences(a + b, c) == Occurrences(a, c) + Occurrences(b, c)
    decreases |b|
  {
    if b == [] {
      assert a + b == a;
    } else {
      assert (a + b)[..|a + b| - 1] == a + b[..|b| - 1];
      OccurrencesAppend(a, b[..|b| - 1], c);
    }
  }

  /** No variable name, at any depth, holds a bracket. */
  predicate PlainNames(t: Token)
    decreases t
  {
    match t
    case Variable(name) => '(' !in name && ')' !in name
    case Group(ts) => forall i :: 0 <= i < |ts| ==> PlainNames(ts[i])
    case _ => true
  }

  lemma NoOccurrences(s: string, c: char)
    requires c !in s
    ensures Occurrences(s, c) == 0
  {
    if s != [] {
      assert c !in s[..|s| - 1];
      NoOccurrences(s[..|s| - 1], c);
    }
  }

  /**
   * The representation of a nested expression is bracketed, and its opening
   * and closing brackets pair up, when no name holds a bracket: the form the
   * parser reads groups from.
   */
  lemma {:induction false} ReprBalanced(t: Token)
    requires PlainNames(t)
    ensures Occurrences(Repr(t), '(') == Occurrences(Repr(t), ')')
    ensures t.Group? ==> |Repr(t)| >= 2 && Repr(t)[0] == '(' && Repr(t)[|Repr(t)| - 1] == ')'
    decreases t, 1
  {
    match t {
      case Variable(name) =>
        NoOccurrences(name, '(');
        NoOccurrences(name, ')');
      case Group(ts) =>
        ReprJoinBalanced(ts);
        Bracketed(ReprJoin(ts));
      case _ =>
        NoOccurrences(Repr(t), '(');
        NoOccurrences(Repr(t), ')');
    }
  }

  lemma Bracketed(s: string)
    ensures Occurrences("(" + s + ")", '(') == Occurrences(s, '(') + 1
    ensures Occurrences("(" + s + ")", ')') == Occurrences(s, ')') + 1
  {
    OccurrencesAppend("(", s, '(');
    OccurrencesAppend("(" + s, ")", '(');
    OccurrencesAppend("(", s, ')');
    OccurrencesAppend("(" + s, ")", ')');
    assert "("[..0] == [] && ")"[..0] == [];
  }

  lemma {:induction false} ReprJoinBalanced(ts: seq<Token>)
    requires forall i :: 0 <= i < |ts| ==> PlainNames(ts[i])
    ensures Occurrences(ReprJoin(ts), '(') == Occurrences(ReprJoin(ts), ')')
    decreases ts, 0
  {
    if |ts| == 1 {
      ReprBalanced(ts[0]);
    } else if |ts| > 1 {
      ReprBalanced(ts[0]);
      ReprJoinBalanced(ts[1..]);
      OccurrencesAppend(Repr(ts[0]), " ", '(');
      OccurrencesAppend(Repr(ts[0]) + " ", ReprJoin(ts[1..]), '(');
      OccurrencesAppend(Repr(ts[0]), " ", ')');
      OccurrencesAppend(Repr(ts[0]) + " ", ReprJoin(ts[1..]), ')');
      assert Occurrences(" ", '(') == 0 == Occurrences(" ", ')') by {
        assert " "[..0] == [];
      }
    }
  }
}
