/**
 * The text the logicmind command line shows and reads: `repr_solution`,
 * which prints an assignment of truth values with the names sorted, and the
 * `-t` option, which reads an assignment such as `"A: 1, B: 0"`. The single-
 * line form `repr_solution` prints reads back as the assignment it shows.
 */
module LogicMain {
  import opened Wrappers
  import opened Text
  import opened LogicTokens
  import opened LogicExpressions

  // ---------------------------------------------------------------------------
  // repr_solution

  /** `str(v)`: `True`, `False` or the integer in decimal. */
  function ValueText(v: Value): string
  {
    match v
    case B(b) => if b then "True" else "False"
    case I(i) => IntToString(i)
  }

  /** One entry: `'* n: v'` in the multi-line form, `'n: 1'` or `'n: 0'` by truth value otherwise. */
  function Entry(name: string, v: Value, multiline: bool): string
  {
    if multiline then "* " + name + ": " + ValueText(v)
    else name + ": " + (if Truthy(v) then "1" else "0")
  }

  /** The entries of `names`, in their order. */
  function Entries(sol: Solution, names: seq<string>, multiline: bool): (r: seq<string>)
    requires forall i :: 0 <= i < |names| ==> names[i] in sol
    ensures |r| == |names|
    ensures forall i :: 0 <= i < |names| ==> r[i] == Entry(names[i], sol[names[i]], multiline)
  {
    if names == [] then [] else [Entry(names[0], sol[names[0]], multiline)] + Entries(sol, names[1..], multiline)
  }

  /** The entries of `names` joined by new lines, or by `', '`. */
  function SolutionText(sol: Solution, names: seq<string>, multiline: bool): string
    requires forall i :: 0 <= i < |names| ==> names[i] in sol
  {
    Join(if multiline then "\n" else ", ", Entries(sol, names, multiline))
  }

  /**
   * `repr_solution(solution, multiline)`: one entry per variable, in
   * increasing order of names, every variable exactly once.
   */
  method ReprSolution(sol: Solution, multiline: bool) returns (r: string)
    ensures var names := SortedOf(sol.Keys);
      && StrictlySorted(names)
      && (forall n :: n in sol <==> n in names)
      && r == SolutionText(sol, names, multiline)
  {
    var names := SortedList(sol.Keys);
    r := SolutionText(sol, names, multiline);
  }

  /** The multi-line form shows each variable's value as `str` prints it, one line per variable. */
  lemma MultilineEntries(sol: Solution, names: seq<string>)
    requires forall i :: 0 <= i < |names| ==> names[i] in sol
    ensures SolutionText(sol, names, true) == Join("\n", Entries(sol, names, true))
    ensures forall i :: 0 <= i < |names| ==>
      Entries(sol, names, true)[i] == "* " + names[i] + ": " + ValueText(sol[names[i]])
    ensures forall i :: 0 <= i < |names| ==>
      sol[names[i]].B? ==> Entries(sol, names, true)[i] == "* " + names[i] + ": " + (if sol[names[i]].b then "True" else "False")
  {
  }

  // ---------------------------------------------------------------------------
  // The -t option

  /** The `-t` string with `':'` read as `'='` and `';'` as `','`. */
  function Normalized(t: string): string
  {
    Replace(Replace(t, ":", "="), ";", ",")
  }

  /** The comma-separated pieces of the `-t` string. */
  function TestPieces(t: string): seq<string>
  {
    Split(Normalized(t), ',')
  }

  /** `s[0].strip()`: the name a piece assigns. */
  function Key(piece: string): string
  {
    Strip(Split(piece, '=')[0])
  }

  /** `s[1].strip() in 'tTyY1'`: the value a piece assigns; the empty string is a substring too. */
  function Val(piece: string): Value
  {
    var parts := Split(piece, '=');
    B(|parts| >= 2 && IsSubstring(Strip(parts[1]), "tTyY1"))
  }

  /**
   * The dict comprehension over the pieces: every piece assigns its value to
   * its name, later pieces overriding earlier ones; a piece without `'='`
   * has no `s[1]`.
   */
  function Assign(pieces: seq<string>): Result<Solution>
  {
    if pieces == [] then Ok(map[])
    else if |Split(pieces[0], '=')| < 2 then Err(IndexError)
    else
      var rest :- Assign(pieces[1..]);
      Ok(map[Key(pieces[0]) := Val(pieces[0])] + rest)
  }

  /** The assignment the `-t` option reads, or what it raises. */
  function ParseTest(t: string): Result<Solution>
  {
    Assign(TestPieces(t))
  }

  /**
   * `if args.test:` in `main`: an empty `-t` is falsy and is not read at
   * all; any other text is read as `ParseTest` reads it.
   */
  function TestOption(t: string): (r: Option<Result<Solution>>)
    ensures r.None? <==> t == ""
    ensures r.Some? ==> r.value == ParseTest(t)
  {
    if t == "" then None else Some(ParseTest(t))
  }

  /** The only exception is `IndexError`, raised exactly when some piece has no `'='`. */
  lemma {:induction false} AssignErrors(pieces: seq<string>)
    ensures Assign(pieces).Err? <==> exists i :: 0 <= i < |pieces| && '=' !in pieces[i]
    ensures Assign(pieces).Err? ==> Assign(pieces).error == IndexError
    decreases |pieces|
  {
    if pieces != [] {
      SplitsAt(pieces[0], '=');
      AssignErrors(pieces[1..]);
      if exists i :: 0 <= i < |pieces| && '=' !in pieces[i] {
        var i :| 0 <= i < |pieces| && '=' !in pieces[i];
        if i > 0 {
          assert pieces[1..][i - 1] == pieces[i];
        }
      }
      if exists i :: 0 <= i < |pieces[1..]| && '=' !in pieces[1..][i] {
        var i :| 0 <= i < |pieces[1..]| && '=' !in pieces[1..][i];
        assert pieces[i + 1] == pieces[1..][i];
      }
    }
  }

  /**
   * The dict comprehension `{key(s): val(s) for s in pieces}` for any `key`
   * and `val`: every piece assigns its value to its name, later pieces
   * overriding earlier ones.
   */
  function DictOf(key: string -> string, val: string -> Value, pieces: seq<string>): Solution
  {
    if pieces == [] then map[] else map[key(pieces[0]) := val(pieces[0])] + DictOf(key, val, pieces[1..])
  }

  /** Some piece has the name `k` under `key`. */
  predicate AssignedBy(key: string -> string, pieces: seq<string>, k: string)
  {
    exists i :: 0 <= i < |pieces| && key(pieces[i]) == k
  }

  /** Piece `i` is the last piece with its name under `key`. */
  predicate LastBy(key: string -> string, pieces: seq<string>, i: nat)
  {
    i < |pieces| && forall j :: i < j < |pieces| ==> key(pieces[j]) != key(pieces[i])
  }

  /** Some piece assigns the name `k`. */
  predicate Assigned(pieces: seq<string>, k: string)
  {
    AssignedBy(Key, pieces, k)
  }

  /** Piece `i` is the last piece that assigns its name. */
  predicate LastToAssign(pieces: seq<string>, i: nat)
  {
    LastBy(Key, pieces, i)
  }

  /** A successful read of pieces reads the first and then the rest. */
  lemma AssignCons(pieces: seq<string>, m: Solution) returns (rest: Solution)
    requires pieces != [] && Assign(pieces) == Ok(m)
    ensures Assign(pieces[1..]) == Ok(rest)
    ensures m == map[Key(pieces[0]) := Val(pieces[0])] + rest
  {
    rest := Assign(pieces[1..]).value;
  }

  /** When every piece has an `'='`, the comprehension is the dict of names and values. */
  lemma {:induction false} AssignDict(pieces: seq<string>, m: Solution)
    requires Assign(pieces) == Ok(m)
    ensures m == DictOf(Key, Val, pieces)
    decreases |pieces|
  {
    if pieces != [] {
      var rest := AssignCons(pieces, m);
      AssignDict(pieces[1..], rest);
    }
  }

  lemma AssignedByCons(key: string -> string, pieces: seq<string>, k: string)
    requires pieces != []
    ensures AssignedBy(key, pieces, k) <==> key(pieces[0]) == k || AssignedBy(key, pieces[1..], k)
  {
    if AssignedBy(key, pieces[1..], k) {
      var i :| 0 <= i < |pieces[1..]| && key(pieces[1..][i]) == k;
      assert key(pieces[i + 1]) == k;
    }
    if AssignedBy(key, pieces, k) {
      var i :| 0 <= i < |pieces| && key(pieces[i]) == k;
      if i > 0 {
        assert key(pieces[1..][i - 1]) == k;
      }
    }
  }

  /** The names of the dict are exactly the names of the pieces. */
  lemma {:induction false} DictKeys(key: string -> string, val: string -> Value, pieces: seq<string>)
    ensures forall k :: k in DictOf(key, val, pieces) <==> AssignedBy(key, pieces, k)
    decreases |pieces|
  {
    if pieces != [] {
      DictKeys(key, val, pieces[1..]);
      forall k ensures k in DictOf(key, val, pieces) <==> AssignedBy(key, pieces, k) {
        AssignedByCons(key, pieces, k);
      }
    }
  }

  /** A name has the value of the last piece with that name. */
  lemma {:induction false} DictLastWins(key: string -> string, val: string -> Value, pieces: seq<string>, i: nat)
    requires LastBy(key, pieces, i)
    ensures key(pieces[i]) in DictOf(key, val, pieces)
    ensures DictOf(key, val, pieces)[key(pieces[i])] == val(pieces[i])
    decreases i
  {
    var tail := pieces[1..];
    DictKeys(key, val, tail);
    if i == 0 {
      forall j | 0 <= j < |tail| ensures key(tail[j]) != key(pieces[0]) {
        assert tail[j] == pieces[j + 1];
      }
    } else {
      assert tail[i - 1] == pieces[i];
      forall j | i - 1 < j < |tail| ensures key(tail[j]) != key(tail[i - 1]) {
        assert tail[j] == pieces[j + 1];
      }
      DictLastWins(key, val, tail, i - 1);
    }
  }

  /** The names in the result are exactly the names the pieces assign. */
  lemma AssignKeys(pieces: seq<string>, m: Solution)
    requires Assign(pieces) == Ok(m)
    ensures forall k :: k in m <==> Assigned(pieces, k)
  {
    AssignDict(pieces, m);
    DictKeys(Key, Val, pieces);
  }

  /** A name has the value of the last piece that assigns it. */
  lemma AssignLastWins(pieces: seq<string>, m: Solution, i: nat)
    requires Assign(pieces) == Ok(m) && LastToAssign(pieces, i)
    ensures Key(pieces[i]) in m && m[Key(pieces[i])] == Val(pieces[i])
  {
    AssignDict(pieces, m);
    DictLastWins(Key, Val, pieces, i);
  }

  /** A piece `a=b` with a single `'='` splits into `a` and `b`. */
  lemma PieceSplit(a: string, b: string)
    requires '=' !in a && '=' !in b
    ensures Split(a + "=" + b, '=') == [a, b]
  {
    SplitAppend(a, b, '=');
    SplitNone(b, '=');
    assert a + "=" + b == a + ['='] + b;
  }

  /** A piece `a=b` with a single `'='` assigns to `a` stripped. */
  lemma PieceKey(a: string, b: string)
    requires '=' !in a && '=' !in b
    ensures Key(a + "=" + b) == Strip(a)
  {
    PieceSplit(a, b);
  }

  /** A piece `a=b` with a single `'='` assigns the truth of `b` stripped being in `'tTyY1'`. */
  lemma PieceVal(a: string, b: string)
    requires '=' !in a && '=' !in b
    ensures Val(a + "=" + b) == B(IsSubstring(Strip(b), "tTyY1"))
  {
    PieceSplit(a, b);
  }

  /** An empty value reads as true: `''` is a substring of `'tTyY1'`. */
  lemma EmptyValueTrue()
    ensures Val("A=") == B(true)
  {
    PieceVal("A", "");
    assert "A" + "=" + "" == "A=";
    assert OccursAt("", "tTyY1", 0);
  }

  // ---------------------------------------------------------------------------
  // Reading back what repr_solution prints

  /** No leading or trailing white space. */
  predicate Stripped(s: string)
  {
    s == [] || (!IsSpace(s[0]) && !IsSpace(s[|s| - 1]))
  }

  /** A name `repr_solution` can print so that `-t` reads it back: none of `,:;=` and no surrounding white space. */
  predicate PlainName(n: string)
  {
    ',' !in n && ':' !in n && ';' !in n && '=' !in n && Stripped(n)
  }

  lemma StrippedPadded(pad: string, s: string)
    requires pad == "" || pad == " "
    requires Stripped(s)
    ensures Strip(pad + s) == s
  {
    if pad == " " {
      assert (pad + s)[1..] == s;
    } else {
      assert pad + s == s;
    }
  }

  /** `'1' in 'tTyY1'` and `'0' not in 'tTyY1'`. */
  lemma DigitSpelling(d: string)
    requires d == "1" || d == "0"
    ensures IsSubstring(d, "tTyY1") <==> d == "1"
  {
    if d == "1" {
      assert OccursAt(d, "tTyY1", 4);
    } else {
      forall i | 0 <= i <= 4 ensures !OccursAt(d, "tTyY1", i) {
        assert "tTyY1"[i..i + 1] == ["tTyY1"[i]];
      }
    }
  }

  /** The single-line entries with `':'` read as `'='`, each after `pad`, the later ones after a space. */
  function ReadPieces(sol: Solution, names: seq<string>, pad: string): (r: seq<string>)
    requires forall i :: 0 <= i < |names| ==> names[i] in sol
    ensures |r| == |names|
  {
    if names == [] then []
    else [pad + names[0] + "= " + (if Truthy(sol[names[0]]) then "1" else "0")] + ReadPieces(sol, names[1..], " ")
  }

  /** Reading `'='` for `':'` and `','` for `';'` distributes over concatenation. */
  lemma NormalizedAppend(a: string, b: string)
    ensures Normalized(a + b) == Normalized(a) + Normalized(b)
  {
    ReplaceAppend(a, b, ':', "=");
    ReplaceAppend(Replace(a, ":", "="), Replace(b, ":", "="), ';', ",");
  }

  lemma NormalizedAbsent(s: string)
    requires ':' !in s && ';' !in s
    ensures Normalized(s) == s
  {
    ReplaceAbsent(s, ':', "=");
    ReplaceAbsent(s, ';', ",");
  }

  /** One entry after `pad`, normalised. */
  lemma NormalizedEntry(pad: string, n: string, d: string)
    requires pad == "" || pad == " "
    requires PlainName(n) && (d == "1" || d == "0")
    ensures Normalized(pad + (n + ": " + d)) == pad + n + "= " + d
  {
    var a, c := pad + n, " " + d;
    NormalizedAbsent(a);
    NormalizedAbsent(c);
    NormalizedColon();
    NormalizedAppend(a + ":", c);
    NormalizedAppend(a, ":");
    ColonRegroup(pad, n, d);
    Regroup(pad, n, d);
  }

  lemma ColonRegroup(pad: string, n: string, d: string)
    ensures pad + (n + ": " + d) == (pad + n) + ":" + (" " + d)
  {
    assert ": " == ":" + " ";
  }

  lemma NormalizedColon()
    ensures Normalized(":") == "="
  {
    assert Replace(":", ":", "=") == "=" + Replace("", ":", "=");
    assert Replace("=", ";", ",") == "=" + Replace("", ";", ",");
  }

  /** The single-line text, after `pad`, normalised, is its read pieces joined by commas. */
  lemma {:induction false} NormalizedText(sol: Solution, names: seq<string>, pad: string)
    requires pad == "" || pad == " "
    requires |names| >= 1 && forall i :: 0 <= i < |names| ==> names[i] in sol && PlainName(names[i])
    ensures Normalized(pad + SolutionText(sol, names, false)) == Join(",", ReadPieces(sol, names, pad))
    decreases |names|
  {
    var d := if Truthy(sol[names[0]]) then "1" else "0";
    var e := names[0] + ": " + d;
    var es := Entries(sol, names, false);
    var ps := ReadPieces(sol, names, pad);
    assert es[0] == e;
    assert ps[0] == pad + names[0] + "= " + d;
    NormalizedEntry(pad, names[0], d);
    if |names| == 1 {
      assert SolutionText(sol, names, false) == e;
    } else {
      var rest := SolutionText(sol, names[1..], false);
      assert es[1..] == Entries(sol, names[1..], false);
      assert ps[1..] == ReadPieces(sol, names[1..], " ");
      assert SolutionText(sol, names, false) == e + ", " + rest;
      NormalizedText(sol, names[1..], " ");
      NormalizedAppend(pad + e + ",", " " + rest);
      NormalizedAppend(pad + e, ",");
      NormalizedAbsent(",");
      CommaSpace(pad, e, rest);
    }
  }

  lemma CommaSpace(pad: string, e: string, rest: string)
    ensures pad + (e + ", " + rest) == (pad + e + ",") + (" " + rest)
  {
    assert ", " == "," + " ";
  }

  lemma ReadPiecesPlain(sol: Solution, names: seq<string>, pad: string)
    requires pad == "" || pad == " "
    requires forall i :: 0 <= i < |names| ==> names[i] in sol && PlainName(names[i])
    ensures forall i :: 0 <= i < |names| ==> ',' !in ReadPieces(sol, names, pad)[i]
    decreases |names|
  {
    if names != [] {
      ReadPiecesPlain(sol, names[1..], " ");
      var r := ReadPieces(sol, names, pad);
      forall i | 0 <= i < |names| ensures ',' !in r[i] {
        if i > 0 {
          assert r[i] == ReadPieces(sol, names[1..], " ")[i - 1];
        }
      }
    }
  }

  /** The read pieces assign every listed name its truth value as `0` or `1`. */
  lemma {:induction false} AssignReadPieces(sol: Solution, names: seq<string>, pad: string)
    requires pad == "" || pad == " "
    requires forall i :: 0 <= i < |names| ==> names[i] in sol && PlainName(names[i])
    ensures Assign(ReadPieces(sol, names, pad)) == Ok(TruthValues(sol, names))
    decreases |names|
  {
    if names != [] {
      var n := names[0];
      var d := if Truthy(sol[n]) then "1" else "0";
      AssignReadPieces(sol, names[1..], " ");
      ReadPiece(pad, n, d);
      DigitSpelling(d);
      var ps := ReadPieces(sol, names, pad);
      assert ps[0] == pad + n + "= " + d;
      assert ps[1..] == ReadPieces(sol, names[1..], " ");
    }
  }

  /** The truth values of `names`, later names overriding earlier ones as the dict comprehension does. */
  function TruthValues(sol: Solution, names: seq<string>): (m: Solution)
    requires forall i :: 0 <= i < |names| ==> names[i] in sol
    ensures forall n :: n in m <==> n in names
    ensures forall n :: n in m ==> m[n] == B(Truthy(sol[n]))
  {
    if names == [] then map[] else map[names[0] := B(Truthy(sol[names[0]]))] + TruthValues(sol, names[1..])
  }

  lemma Regroup(a: string, n: string, d: string)
    ensures a + n + "= " + d == (a + n) + "=" + (" " + d)
  {
    assert "= " == "=" + " ";
  }

  lemma DigitStripped(d: string)
    requires d == "1" || d == "0"
    ensures Stripped(d) && '=' !in d && ',' !in d
  {
    assert |d| == 1 && (d[0] == '1' || d[0] == '0');
  }

  /** The piece `pad n= d` assigns `d`'s truth value to `n`. */
  lemma ReadPiece(pad: string, n: string, d: string)
    requires pad == "" || pad == " "
    requires PlainName(n) && (d == "1" || d == "0")
    ensures var piece := pad + n + "= " + d;
      |Split(piece, '=')| >= 2 && Key(piece) == n && Val(piece) == B(IsSubstring(d, "tTyY1"))
  {
    Regroup(pad, n, d);
    ReadPieceParts(pad, n, d);
  }

  lemma ReadPieceParts(pad: string, n: string, d: string)
    requires pad == "" || pad == " "
    requires PlainName(n) && (d == "1" || d == "0")
    ensures var piece := (pad + n) + "=" + (" " + d);
      |Split(piece, '=')| >= 2 && Key(piece) == n && Val(piece) == B(IsSubstring(d, "tTyY1"))
  {
    var a, b := pad + n, " " + d;
    DigitStripped(d);
    PieceSplit(a, b);
    PieceKey(a, b);
    PieceVal(a, b);
    StrippedPadded(pad, n);
    StrippedPadded(" ", d);
  }

  /**
   * The single-line form of a non-empty assignment whose names are plain
   * reads back through `-t` as the truth value of every variable.
   */
  lemma ReprReadsBack(sol: Solution, names: seq<string>)
    requires |names| >= 1 && forall i :: 0 <= i < |names| ==> names[i] in sol && PlainName(names[i])
    ensures ParseTest(SolutionText(sol, names, false)) == Ok(TruthValues(sol, names))
    ensures TestOption(SolutionText(sol, names, false)) == Some(Ok(TruthValues(sol, names)))
  {
    EmptyReprSkipped(sol);
    var text := SolutionText(sol, names, false);
    NormalizedText(sol, names, "");
    assert "" + text == text;
    ReadPiecesPlain(sol, names, "");
    SplitJoin(ReadPieces(sol, names, ""), ',');
    AssignReadPieces(sol, names, "");
  }

  /**
   * An empty assignment prints the empty string. Reading it as `-t` would
   * raise `IndexError`, but `main` does not read an empty `-t` at all.
   */
  lemma EmptyReprSkipped(sol: Solution)
    ensures SolutionText(sol, [], false) == ""
    ensures ParseTest("") == Err(IndexError)
    ensures TestOption(SolutionText(sol, [], false)) == None
  {
    assert Normalized("") == "";
    assert TestPieces("") == [""];
    SplitsAt("", '=');
  }

  /** What `repr_solution` prints for a non-empty assignment of plain names reads back as its truth values. */
  lemma ReprSolutionReadsBack(sol: Solution)
    requires sol != map[] && forall n :: n in sol ==> PlainName(n)
    ensures ParseTest(SolutionText(sol, SortedOf(sol.Keys), false)) == Ok(map n | n in sol :: B(Truthy(sol[n])))
  {
    var names := SortedOf(sol.Keys);
    var n :| n in sol;
    assert n in names;
    ReprReadsBack(sol, names);
    assert TruthValues(sol, names) == (map x | x in sol :: B(Truthy(sol[x])));
  }
}
