/**
 * `TokenParser.parse_expression` of logicmind/token_parser.py: brackets and
 * operator spellings are spaced out, the text is split into words, a stack
 * of open expressions turns the words into nested token lists, and the
 * outermost expression is tokenized.
 *
 * The classes' `single_char_representation` attributes are a parameter
 * (`SingleChar` as the repository sets them, `FixedSingleChar` as the
 * spacing step needs them): with the repository's attributes the spacing
 * step concatenates `None` to a string and every call raises `TypeError`.
 */
module TokenParser {
  import opened Wrappers
  import opened Text
  import opened LogicTokens
  import opened LogicExpressions

  /** The operator classes in the order the parser tries them. */
  const Operators: seq<TokenClass> := [IffClass, ThenClass, NotClass, OrClass, AndClass, TrueClass, FalseClass]

  /** The single-character spellings the spacing step needs: one for every class that has spellings. */
  function FixedSingleChar(c: TokenClass): Option<string>
  {
    match c
    case IffClass => Some("≡")
    case NotClass => Some("¬")
    case _ => SingleChar(c)
  }

  /** Every kind of bracket spaced out and made round. */
  function SpacedBrackets(text: string): string
  {
    var opening := Replace(Replace(Replace(text, "(", " ( "), "[", " ( "), "{", " ( ");
    Replace(Replace(Replace(opening, ")", " ) "), "]", " ) "), "}", " ) ")
  }

  // ---------------------------------------------------------------------------
  // Spacing out the operators

  /** The spacing loop over the operators `ops`: each spelling becomes the class's single character with a space on each side. */
  function SpacedOperators(text: string, single: TokenClass -> Option<string>, ops: seq<TokenClass>): Result<string>
    decreases |ops|
  {
    if ops == [] then Ok(text)
    else
      var spaced :- SpacedSpellings(text, single, ops[0], Representations(ops[0]));
      SpacedOperators(spaced, single, ops[1..])
  }

  /** The inner loop over one class's spellings: `' ' + None` raises `TypeError` as soon as there is one. */
  function SpacedSpellings(text: string, single: TokenClass -> Option<string>, c: TokenClass, spellings: seq<string>): Result<string>
    requires forall k :: 0 <= k < |spellings| ==> |spellings[k]| > 0
    decreases |spellings|
  {
    if spellings == [] then Ok(text)
    else match single(c)
      case None => Err(TypeError)
      case Some(ch) => SpacedSpellings(Replace(text, spellings[0], " " + ch + " "), single, c, spellings[1..])
  }

  /** The rest of the operators after one class's spellings, unless those raised. */
  function ThenOperators(r: Result<string>, single: TokenClass -> Option<string>, ops: seq<TokenClass>): Result<string>
  {
    if r.Err? then Err(r.error) else SpacedOperators(r.value, single, ops)
  }

  lemma SpellingsNonEmpty(c: TokenClass)
    ensures forall k :: 0 <= k < |Representations(c)| ==> |Representations(c)[k]| > 0
  {
  }

  // ---------------------------------------------------------------------------
  // The stack of open expressions

  /** The first class in `ops` whose single character is the word. */
  function Classify(w: string, single: TokenClass -> Option<string>, ops: seq<TokenClass>): (r: Option<TokenClass>)
    ensures r.Some? ==> r.value in ops && single(r.value) == Some(w)
    ensures r.None? ==> forall k :: 0 <= k < |ops| ==> single(ops[k]) != Some(w)
  {
    if ops == [] then None
    else if single(ops[0]) == Some(w) then Some(ops[0])
    else Classify(w, single, ops[1..])
  }

  /** One word: an operator, an opening or closing bracket, or a variable, added to the innermost open expression. */
  function Push(stack: seq<seq<Token>>, w: string, single: TokenClass -> Option<string>): Result<seq<seq<Token>>>
    requires |stack| >= 1
  {
    var n := |stack| - 1;
    match Classify(w, single, Operators)
    case Some(c) =>
      var t :- Construct(c);
      Ok(stack[..n] + [stack[n] + [t]])
    case None =>
      if w == "(" then Ok(stack + [[]])
      else if w == ")" then
        if n == 0 then Err(IndexError)
        else Ok(stack[..n - 1] + [stack[n - 1] + [Group(stack[n])]])
      else Ok(stack[..n] + [stack[n] + [Variable(w)]])
  }

  /** The loop over the words. */
  function PushAll(stack: seq<seq<Token>>, ws: seq<string>, single: TokenClass -> Option<string>): (r: Result<seq<seq<Token>>>)
    requires |stack| >= 1
    ensures r.Ok? ==> |r.value| >= 1
    decreases |ws|
  {
    if ws == [] then Ok(stack)
    else
      var next :- Push(stack, ws[0], single);
      PushAll(next, ws[1..], single)
  }

  /** What `parse_expression(text)` returns: the tokens of the outermost expression once tokenized, or what it raises. */
  function Parsed(text: string, single: TokenClass -> Option<string>, fuel: nat): Result<seq<Token>>
  {
    var spaced :- SpacedOperators(SpacedBrackets(text), single, Operators);
    var stack :- PushAll([[]], SplitWhitespace(spaced), single);
    Tokenized(stack[0], fuel)
  }

  /**
   * `parse_expression`, with the classes' single characters as `single` and
   * `fuel` nested calls left for `tokenize`.
   */
  method ParseExpression(text: string, single: TokenClass -> Option<string>, fuel: nat) returns (r: Result<Expression>)
    ensures r.Ok? <==> Parsed(text, single, fuel).Ok?
    ensures r.Ok? ==> r.value.tokens == Parsed(text, single, fuel).value
    ensures r.Err? ==> r.error == Parsed(text, single, fuel).error
  {
    var spaced := SpaceOperators(SpacedBrackets(text), single);
    if spaced.Err? {
      assert Parsed(text, single, fuel) == Err(spaced.error);
      return Err(spaced.error);
    }
    var words := SplitWhitespace(spaced.value);
    var stack := ReadWords(words, single);
    if stack.Err? {
      assert Parsed(text, single, fuel) == Err(stack.error);
      return Err(stack.error);
    }
    var outermost := stack.value[0];
    assert Parsed(text, single, fuel) == Tokenized(outermost, fuel);
    TokenizedError(outermost, fuel);
    var root := new Expression();
    root.tokens := outermost;
    var outcome := root.Tokenize(fuel);
    if outcome.Fail? {
      return Err(outcome.error);
    }
    return Ok(root);
  }

  /** The loop that surrounds every operator spelling with spaces, as its class's single character. */
  method SpaceOperators(text: string, single: TokenClass -> Option<string>) returns (r: Result<string>)
    ensures r == SpacedOperators(text, single, Operators)
  {
    var s := text;
    for k := 0 to |Operators|
      invariant SpacedOperators(text, single, Operators) == SpacedOperators(s, single, Operators[k..])
    {
      var op := Operators[k];
      var spellings := Representations(op);
      SpellingsNonEmpty(op);
      assert Operators[k..][1..] == Operators[k + 1..];
      for j := 0 to |spellings|
        invariant SpacedOperators(text, single, Operators)
          == ThenOperators(SpacedSpellings(s, single, op, spellings[j..]), single, Operators[k + 1..])
      {
        if single(op).None? {
          return Err(TypeError);
        }
        assert spellings[j..][1..] == spellings[j + 1..];
        s := Replace(s, spellings[j], " " + single(op).value + " ");
      }
    }
    return Ok(s);
  }

  /** The loop over the words with the stack of open expressions; the outermost is `stack[0]`. */
  method ReadWords(words: seq<string>, single: TokenClass -> Option<string>) returns (r: Result<seq<seq<Token>>>)
    ensures r == PushAll([[]], words, single)
  {
    var stack: seq<seq<Token>> := [[]];
    for i := 0 to |words|
      invariant |stack| >= 1
      invariant PushAll([[]], words, single) == PushAll(stack, words[i..], single)
    {
      var w := words[i];
      assert words[i..][1..] == words[i + 1..];
      var n := |stack| - 1;
      var matched: Option<TokenClass> := None;
      var k := 0;
      while k < |Operators| && matched.None?
        invariant k <= |Operators|
        invariant matched.None? ==> Classify(w, single, Operators) == Classify(w, single, Operators[k..])
        invariant matched.Some? ==> Classify(w, single, Operators) == matched
      {
        assert Operators[k..][1..] == Operators[k + 1..];
        if single(Operators[k]) == Some(w) {
          matched := Some(Operators[k]);
        }
        k := k + 1;
      }
      if matched.Some? {
        var t := Construct(matched.value);
        if t.Err? {
          return Err(t.error);
        }
        stack := stack[..n] + [stack[n] + [t.value]];
      } else if w == "(" {
        stack := stack + [[]];
      } else if w == ")" {
        if n == 0 {
          return Err(IndexError);
        }
        stack := stack[..n - 1] + [stack[n - 1] + [Group(stack[n])]];
      } else {
        stack := stack[..n] + [stack[n] + [Variable(w)]];
      }
    }
    return Ok(stack);
  }

  // ---------------------------------------------------------------------------
  // Properties

  /** With the repository's attributes, `' ' + None` for the first spelling of `Iff` makes every parse raise `TypeError`. */
  lemma ParseAlwaysRaises(text: string, fuel: nat)
    ensures Parsed(text, SingleChar, fuel) == Err(TypeError)
  {
    var s := SpacedBrackets(text);
    assert Representations(Operators[0]) == ["<->", "↔", "⇔", "≡"];
    assert SpacedSpellings(s, SingleChar, IffClass, Representations(IffClass)) == Err(TypeError);
  }

  /** With single characters for `Iff` and `Not`, the spacing step never raises. */
  lemma FixedSpacingSucceeds(text: string)
    ensures SpacedOperators(text, FixedSingleChar, Operators).Ok?
  {
    forall c: TokenClass, t: string ensures SpacedSpellings(t, FixedSingleChar, c, Representations(c)).Ok? {
      SpellingsNonEmpty(c);
      SpacedSpellingsSucceed(t, c, Representations(c));
    }
    var ops := Operators;
    SpacedOperatorsSucceed(text, ops);
  }

  lemma {:induction false} SpacedSpellingsSucceed(text: string, c: TokenClass, spellings: seq<string>)
    requires forall k :: 0 <= k < |spellings| ==> |spellings[k]| > 0
    requires spellings != [] ==> FixedSingleChar(c).Some?
    ensures SpacedSpellings(text, FixedSingleChar, c, spellings).Ok?
    decreases |spellings|
  {
    if spellings != [] {
      SpacedSpellingsSucceed(Replace(text, spellings[0], " " + FixedSingleChar(c).value + " "), c, spellings[1..]);
    }
  }

  lemma {:induction false} SpacedOperatorsSucceed(text: string, ops: seq<TokenClass>)
    requires forall c: TokenClass, t: string :: SpacedSpellings(t, FixedSingleChar, c, Representations(c)).Ok?
    ensures SpacedOperators(text, FixedSingleChar, ops).Ok?
    decreases |ops|
  {
    if ops != [] {
      var spaced := SpacedSpellings(text, FixedSingleChar, ops[0], Representations(ops[0])).value;
      SpacedOperatorsSucceed(spaced, ops[1..]);
    }
  }

  /** The token a word that is not a bracket becomes. */
  function WordToken(w: string, single: TokenClass -> Option<string>): Result<Token>
  {
    match Classify(w, single, Operators)
    case Some(c) => Construct(c)
    case None => Ok(Variable(w))
  }

  /** The token a word that is not a bracket contributes; a bracket contributes none. */
  function WordHead(w: string): seq<Token>
  {
    if w in ["(", ")"] then [] else [WordToken(w, FixedSingleChar).value]
  }

  /** The tokens of the words that are not brackets, in order. */
  function WordTokens(ws: seq<string>): seq<Token>
  {
    if ws == [] then [] else WordHead(ws[0]) + WordTokens(ws[1..])
  }

  /** How many expressions a word opens (1), closes (-1) or neither (0). */
  function DepthOf(w: string): int
  {
    if w == "(" then 1 else if w == ")" then -1 else 0
  }

  /** How many more brackets the words open than they close. */
  function Depth(ws: seq<string>): int
  {
    if ws == [] then 0 else DepthOf(ws[0]) + Depth(ws[1..])
  }

  /** The tokens of every open expression, outermost first. */
  function StackLeaves(stack: seq<seq<Token>>): seq<Token>
  {
    if stack == [] then [] else StackLeaves(stack[..|stack| - 1]) + Leaves(stack[|stack| - 1])
  }

  /** The words never close the outermost expression. */
  predicate NeverUnderflows(open: nat, ws: seq<string>)
  {
    forall k :: 0 <= k <= |ws| ==> open + Depth(ws[..k]) >= 1
  }

  /**
   * With single characters for `Iff` and `Not`, the words are read without an
   * exception exactly when no prefix closes more expressions than are open,
   * and the only exception is `IndexError`.
   */
  lemma {:induction false} PushAllChecks(stack: seq<seq<Token>>, ws: seq<string>)
    requires |stack| >= 1
    ensures PushAll(stack, ws, FixedSingleChar).Ok? <==> NeverUnderflows(|stack|, ws)
    ensures PushAll(stack, ws, FixedSingleChar).Err? ==> PushAll(stack, ws, FixedSingleChar).error == IndexError
    decreases |ws|
  {
    if ws != [] {
      var w := ws[0];
      PushChecks(stack, w);
      NeverUnderflowsStep(|stack|, ws);
      var next := Push(stack, w, FixedSingleChar);
      if next.Ok? {
        PushSize(stack, w);
        PushAllChecks(next.value, ws[1..]);
      }
    } else {
      assert NeverUnderflows(|stack|, ws) by {
        assert forall k :: 0 <= k <= 0 ==> ws[..k] == [];
      }
    }
  }

  /** Once read, the open expressions hold the words' tokens in order, and there are as many as the words leave open. */
  lemma {:induction false} PushAllLeaves(stack: seq<seq<Token>>, ws: seq<string>, r: seq<seq<Token>>)
    requires |stack| >= 1 && PushAll(stack, ws, FixedSingleChar) == Ok(r)
    ensures StackLeaves(r) == StackLeaves(stack) + WordTokens(ws)
    ensures |r| == |stack| + Depth(ws)
    decreases |ws|
  {
    if ws != [] {
      var w := ws[0];
      var next := Push(stack, w, FixedSingleChar).value;
      assert PushAll(next, ws[1..], FixedSingleChar) == Ok(r);
      PushLeaves(stack, w);
      PushSize(stack, w);
      PushAllLeaves(next, ws[1..], r);
      assert WordTokens(ws) == WordHead(w) + WordTokens(ws[1..]);
      AppendAssociates(StackLeaves(stack), WordHead(w), WordTokens(ws[1..]));
    }
  }

  /** One word never raises, unless it closes the outermost expression. */
  lemma PushChecks(stack: seq<seq<Token>>, w: string)
    requires |stack| >= 1
    ensures Push(stack, w, FixedSingleChar).Ok? <==> (w == ")" ==> |stack| >= 2)
    ensures Push(stack, w, FixedSingleChar).Err? ==> Push(stack, w, FixedSingleChar).error == IndexError
  {
    var c := Classify(w, FixedSingleChar, Operators);
    if c.Some? {
      assert Construct(c.value).Ok?;
    }
  }

  /** One word opens or closes an expression as `DepthOf` counts. */
  lemma PushSize(stack: seq<seq<Token>>, w: string)
    requires |stack| >= 1 && Push(stack, w, FixedSingleChar).Ok?
    ensures |Push(stack, w, FixedSingleChar).value| == |stack| + DepthOf(w)
  {
    var c := Classify(w, FixedSingleChar, Operators);
    if c.Some? {
      SingleCharWord(c.value);
    }
  }

  /** One word adds its token, if any, at the end of the innermost expression. */
  lemma PushLeaves(stack: seq<seq<Token>>, w: string)
    requires |stack| >= 1 && Push(stack, w, FixedSingleChar).Ok?
    ensures StackLeaves(Push(stack, w, FixedSingleChar).value) == StackLeaves(stack) + WordHead(w)
  {
    var c := Classify(w, FixedSingleChar, Operators);
    if c.Some? {
      PushOperatorLeaves(stack, w);
    } else if w == "(" {
      PushOpenLeaves(stack, w);
    } else if w == ")" {
      PushCloseLeaves(stack, w);
    } else {
      PushVariableLeaves(stack, w);
    }
  }

  lemma PushOperatorLeaves(stack: seq<seq<Token>>, w: string)
    requires |stack| >= 1 && Push(stack, w, FixedSingleChar).Ok?
    requires Classify(w, FixedSingleChar, Operators).Some?
    ensures StackLeaves(Push(stack, w, FixedSingleChar).value) == StackLeaves(stack) + WordHead(w)
  {
    var c := Classify(w, FixedSingleChar, Operators);
    SingleCharWord(c.value);
    var t := Construct(c.value).value;
    assert WordHead(w) == [t];
    PushWordLeaves(stack, w, t);
  }

  lemma PushOpenLeaves(stack: seq<seq<Token>>, w: string)
    requires |stack| >= 1 && Classify(w, FixedSingleChar, Operators).None? && w == "("
    ensures Push(stack, w, FixedSingleChar).Ok?
    ensures StackLeaves(Push(stack, w, FixedSingleChar).value) == StackLeaves(stack) + WordHead(w)
  {
    assert Push(stack, w, FixedSingleChar) == Ok(stack + [[]]);
    StackLeavesSnoc(stack, []);
    assert Leaves([]) == [];
  }

  lemma PushCloseLeaves(stack: seq<seq<Token>>, w: string)
    requires |stack| >= 2 && Classify(w, FixedSingleChar, Operators).None? && w == ")"
    ensures Push(stack, w, FixedSingleChar).Ok?
    ensures StackLeaves(Push(stack, w, FixedSingleChar).value) == StackLeaves(stack) + WordHead(w)
  {
    var n := |stack| - 1;
    assert Push(stack, w, FixedSingleChar) == Ok(stack[..n - 1] + [stack[n - 1] + [Group(stack[n])]]);
    CloseTop(stack);
  }

  lemma PushVariableLeaves(stack: seq<seq<Token>>, w: string)
    requires |stack| >= 1 && Classify(w, FixedSingleChar, Operators).None? && w != "(" && w != ")"
    ensures Push(stack, w, FixedSingleChar).Ok?
    ensures StackLeaves(Push(stack, w, FixedSingleChar).value) == StackLeaves(stack) + WordHead(w)
  {
    assert WordHead(w) == [Variable(w)];
    PushWordLeaves(stack, w, Variable(w));
  }

  lemma PushWordLeaves(stack: seq<seq<Token>>, w: string, t: Token)
    requires |stack| >= 1 && !t.Group? && WordHead(w) == [t]
    requires Push(stack, w, FixedSingleChar) == Ok(stack[..|stack| - 1] + [stack[|stack| - 1] + [t]])
    ensures StackLeaves(Push(stack, w, FixedSingleChar).value) == StackLeaves(stack) + WordHead(w)
  {
    AddToTop(stack, t);
  }

  /** The single characters are one character long and are not brackets. */
  lemma SingleCharWord(c: TokenClass)
    requires FixedSingleChar(c).Some?
    ensures var w := FixedSingleChar(c).value; |w| == 1 && w != "(" && w != ")"
  {
  }

  lemma StackLeavesSnoc(stack: seq<seq<Token>>, level: seq<Token>)
    ensures StackLeaves(stack + [level]) == StackLeaves(stack) + Leaves(level)
  {
    assert (stack + [level])[..|stack|] == stack;
  }

  lemma AddToTop(stack: seq<seq<Token>>, t: Token)
    requires |stack| >= 1 && !t.Group?
    ensures var n := |stack| - 1;
      StackLeaves(stack[..n] + [stack[n] + [t]]) == StackLeaves(stack) + [t]
  {
    var n := |stack| - 1;
    AddToLevel(stack[..n], stack[n], t);
    assert StackLeaves(stack) == StackLeaves(stack[..n]) + Leaves(stack[n]);
  }

  lemma AddToLevel(below: seq<seq<Token>>, level: seq<Token>, t: Token)
    requires !t.Group?
    ensures StackLeaves(below + [level + [t]]) == StackLeaves(below) + Leaves(level) + [t]
  {
    var a, b := StackLeaves(below), Leaves(level);
    StackLeavesSnoc(below, level + [t]);
    LeavesAppend(level, [t]);
    LeavesOne(t);
    AppendAssociates(a, b, [t]);
  }

  lemma AppendAssociates(a: seq<Token>, b: seq<Token>, c: seq<Token>)
    ensures a + (b + c) == a + b + c
  {
  }

  lemma CloseTop(stack: seq<seq<Token>>)
    requires |stack| >= 2
    ensures var n := |stack| - 1;
      StackLeaves(stack[..n - 1] + [stack[n - 1] + [Group(stack[n])]]) == StackLeaves(stack)
  {
    var n := |stack| - 1;
    CloseLevel(stack[..n - 1], stack[n - 1], stack[n]);
    assert stack[..n - 1] + [stack[n - 1]] + [stack[n]] == stack;
  }

  lemma CloseLevel(below: seq<seq<Token>>, outer: seq<Token>, inner: seq<Token>)
    ensures StackLeaves(below + [outer + [Group(inner)]]) == StackLeaves(below + [outer] + [inner])
  {
    var a, b, c := StackLeaves(below), Leaves(outer), Leaves(inner);
    StackLeavesSnoc(below, outer + [Group(inner)]);
    StackLeavesSnoc(below + [outer], inner);
    StackLeavesSnoc(below, outer);
    LeavesAppend(outer, [Group(inner)]);
    LeavesOne(Group(inner));
    AppendAssociates(a, b, c);
  }

  lemma NeverUnderflowsStep(open: nat, ws: seq<string>)
    requires open >= 1 && ws != []
    ensures NeverUnderflows(open, ws) <==>
      open + DepthOf(ws[0]) >= 1 && NeverUnderflows(open + DepthOf(ws[0]), ws[1..])
  {
    var d := DepthOf(ws[0]);
    forall k | 0 <= k < |ws| ensures Depth(ws[..k + 1]) == d + Depth(ws[1..][..k]) {
      assert ws[..k + 1][1..] == ws[1..][..k];
    }
    if NeverUnderflows(open, ws) {
      assert open + Depth(ws[..1]) >= 1;
      assert Depth(ws[..1]) == d + Depth(ws[1..][..0]);
      forall k | 0 <= k <= |ws| - 1 ensures open + d + Depth(ws[1..][..k]) >= 1 {
        assert open + Depth(ws[..k + 1]) >= 1;
      }
    }
    if open + d >= 1 && NeverUnderflows(open + d, ws[1..]) {
      forall k | 0 <= k <= |ws| ensures open + Depth(ws[..k]) >= 1 {
        if k > 0 {
          assert open + d + Depth(ws[1..][..k - 1]) >= 1;
        } else {
          assert ws[..k] == [];
        }
      }
    }
  }

  /**
   * With single characters for `Iff` and `Not`, parsing raises `IndexError`
   * exactly when a closing bracket has no opening one, and otherwise only
   * `RecursionError` when the regrouping does not end; a text whose
   * brackets all match parses to its words' tokens in order.
   */
  lemma FixedParse(text: string, fuel: nat)
    ensures var spaced := SpacedOperators(SpacedBrackets(text), FixedSingleChar, Operators);
      spaced.Ok? && var ws := SplitWhitespace(spaced.value);
      var r := Parsed(text, FixedSingleChar, fuel);
      && (r == Err(IndexError) <==> !NeverUnderflows(1, ws))
      && (r.Err? ==> r.error in {IndexError, RecursionError})
      && (r.Ok? && Depth(ws) == 0 ==> Leaves(r.value) == WordTokens(ws))
  {
    var spaced := SpacedOperators(SpacedBrackets(text), FixedSingleChar, Operators);
    FixedSpacingSucceeds(SpacedBrackets(text));
    var ws := SplitWhitespace(spaced.value);
    var empty: seq<seq<Token>> := [[]];
    PushAllChecks(empty, ws);
    var stack := PushAll(empty, ws, FixedSingleChar);
    if stack.Err? {
      assert Parsed(text, FixedSingleChar, fuel) == Err(IndexError);
    } else {
      var root := stack.value[0];
      assert Parsed(text, FixedSingleChar, fuel) == Tokenized(root, fuel);
      TokenizedError(root, fuel);
      TokenizedSpec(root, fuel);
      if Depth(ws) == 0 {
        RootLeaves(ws, stack.value);
      }
    }
  }

  /** When the words leave no expression open, the outermost one holds all their tokens. */
  lemma RootLeaves(ws: seq<string>, r: seq<seq<Token>>)
    requires PushAll([[]], ws, FixedSingleChar) == Ok(r) && Depth(ws) == 0
    ensures |r| == 1 && Leaves(r[0]) == WordTokens(ws)
  {
    var empty: seq<seq<Token>> := [[]];
    PushAllLeaves(empty, ws, r);
    var none: seq<seq<Token>> := [];
    assert r[..0] == none && empty[..0] == none;
    assert StackLeaves(none) == [];
    assert StackLeaves(r) == Leaves(r[0]);
    assert Leaves([]) == [];
    assert StackLeaves(empty) == [];
  }
}
