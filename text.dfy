/** Python's string built-ins that the modelled code relies on, over `seq<char>`:
    `str(int)`, `int(str)`, `str.replace`, `str.split`, `str.strip`, `str.join`,
    the `in` substring test and the ordering that `sorted` uses for strings. */
module Text {
  import opened Wrappers

  // ---------------------------------------------------------------------------
  // Digits and decimal numbers

  predicate IsDigit(c: char) { '0' <= c <= '9' }

  predicate AllDigits(s: string) { forall i :: 0 <= i < |s| ==> IsDigit(s[i]) }

  function DigitValue(c: char): (d: nat)
    requires IsDigit(c)
    ensures d < 10
  {
    (c as int) - ('0' as int)
  }

  function DigitChar(d: nat): (c: char)
    requires d < 10
    ensures IsDigit(c) && DigitValue(c) == d
  {
    ((('0' as int) + d) as char)
  }

  /** `str(n)` for a non-negative integer: decimal digits, most significant first. */
  function NatToString(n: nat): (s: string)
    ensures 1 <= |s| && AllDigits(s)
    ensures |s| > 1 ==> s[0] != '0'
    ensures n < 10 <==> |s| == 1
  {
    if n < 10 then [DigitChar(n)] else NatToString(n / 10) + [DigitChar(n % 10)]
  }

  /** `str(i)` for any integer. */
  function IntToString(i: int): (s: string)
    ensures |s| >= 1
    ensures i < 0 <==> s[0] == '-'
  {
    if i < 0 then "-" + NatToString(-i) else NatToString(i)
  }

  /** The number a string of decimal digits denotes. */
  function DigitsValue(s: string): nat
    requires AllDigits(s)
  {
    if s == [] then 0 else DigitsValue(s[..|s| - 1]) * 10 + DigitValue(s[|s| - 1])
  }

  lemma {:induction false} NatToStringValue(n: nat)
    ensures DigitsValue(NatToString(n)) == n
  {
    if n >= 10 {
      var s := NatToString(n);
      assert s[..|s| - 1] == NatToString(n / 10);
      NatToStringValue(n / 10);
    }
  }

  /** Two naturals with the same decimal rendering are equal. */
  lemma NatToStringInjective(a: nat, b: nat)
    requires NatToString(a) == NatToString(b)
    ensures a == b
  {
    NatToStringValue(a);
    NatToStringValue(b);
  }

  lemma IntToStringInjective(a: int, b: int)
    requires IntToString(a) == IntToString(b)
    ensures a == b
  {
    if a < 0 && b < 0 {
      assert IntToString(a)[1..] == NatToString(-a);
      assert IntToString(b)[1..] == NatToString(-b);
      NatToStringInjective(-a, -b);
    } else if a >= 0 && b >= 0 {
      NatToStringInjective(a, b);
    }
  }

  // ---------------------------------------------------------------------------
  // Whitespace, strip and split

  /** The characters Python 3's `str.isspace` accepts: what `split()`, `strip()` and `int()` treat as white space. */
  predicate IsSpace(c: char)
  {
    c == ' ' || c == '\t' || c == '\n' || c == '\r' || c == '\U{B}' || c == '\U{C}'
    || ('\U{1C}' <= c <= '\U{1F}') || c == '\U{85}' || c == '\U{A0}' || c == '\U{1680}'
    || ('\U{2000}' <= c <= '\U{200A}') || c == '\U{2028}' || c == '\U{2029}'
    || c == '\U{202F}' || c == '\U{205F}' || c == '\U{3000}'
  }

  function StripLeft(s: string): (r: string)
    ensures |r| <= |s| && r == s[|s| - |r|..]
    ensures r == [] || !IsSpace(r[0])
    ensures forall i :: 0 <= i < |s| - |r| ==> IsSpace(s[i])
  {
    if s != [] && IsSpace(s[0]) then StripLeft(s[1..]) else s
  }

  function StripRight(s: string): (r: string)
    ensures |r| <= |s| && r == s[..|r|]
    ensures r == [] || !IsSpace(r[|r| - 1])
    ensures forall i :: |r| <= i < |s| ==> IsSpace(s[i])
  {
    if s != [] && IsSpace(s[|s| - 1]) then StripRight(s[..|s| - 1]) else s
  }

  /** `s.strip()`: leading and trailing whitespace removed. */
  function Strip(s: string): (r: string)
    ensures r == [] || (!IsSpace(r[0]) && !IsSpace(r[|r| - 1]))
  {
    StripRight(StripLeft(s))
  }

  /** Every character of `t` is whitespace. */
  predicate AllSpace(t: string)
  {
    forall k :: 0 <= k < |t| ==> IsSpace(t[k])
  }

  /**
   * `s.strip()` removes exactly the surrounding whitespace: whitespace, then
   * a text that neither starts nor ends with whitespace, then whitespace,
   * strips to that text. Every string has this shape, with `pre` its leading
   * whitespace, so this determines `Strip` on every input.
   */
  lemma StripPadded(pre: string, mid: string, post: string)
    requires AllSpace(pre) && AllSpace(post)
    requires mid == [] || (!IsSpace(mid[0]) && !IsSpace(mid[|mid| - 1]))
    ensures Strip(pre + mid + post) == mid
  {
    if mid == [] {
      assert pre + mid + post == (pre + post) + [];
      assert AllSpace(pre + post) by {
        forall k | 0 <= k < |pre + post|
          ensures IsSpace((pre + post)[k])
        {
          if k >= |pre| {
            assert (pre + post)[k] == post[k - |pre|];
          }
        }
      }
      StripLeftPadded(pre + post, []);
    } else {
      assert pre + mid + post == pre + (mid + post);
      StripLeftPadded(pre, mid + post);
      StripRightPadded(mid, post);
    }
  }

  lemma {:induction false} StripLeftPadded(pre: string, rest: string)
    requires AllSpace(pre) && (rest == [] || !IsSpace(rest[0]))
    ensures StripLeft(pre + rest) == rest
    decreases |pre|
  {
    if pre == [] {
      assert pre + rest == rest;
    } else {
      assert (pre + rest)[1..] == pre[1..] + rest;
      assert AllSpace(pre[1..]) by {
        forall k | 0 <= k < |pre[1..]|
          ensures IsSpace(pre[1..][k])
        {
          assert pre[1..][k] == pre[k + 1];
        }
      }
      StripLeftPadded(pre[1..], rest);
    }
  }

  lemma {:induction false} StripRightPadded(mid: string, post: string)
    requires AllSpace(post) && (mid == [] || !IsSpace(mid[|mid| - 1]))
    ensures StripRight(mid + post) == mid
    decreases |post|
  {
    if post == [] {
      assert mid + post == mid;
    } else {
      var n := |post| - 1;
      assert (mid + post)[..|mid + post| - 1] == mid + post[..n];
      assert (mid + post)[|mid + post| - 1] == post[n];
      assert AllSpace(post[..n]) by {
        forall k | 0 <= k < n
          ensures IsSpace(post[..n][k])
        {
          assert post[..n][k] == post[k];
        }
      }
      StripRightPadded(mid, post[..n]);
    }
  }

  /** `s.split(sep)` for a one-character separator: the pieces between separators,
      empty pieces kept, always at least one piece. */
  function Split(s: string, sep: char): (r: seq<string>)
    ensures |r| >= 1
    ensures forall i :: 0 <= i < |r| ==> sep !in r[i]
    ensures Join([sep], r) == s
  {
    if s == [] then [""]
    else
      var rest := Split(s[1..], sep);
      if s[0] == sep then [""] + rest
      else
        var r := [[s[0]] + rest[0]] + rest[1..];
        assert Join([sep], r) == s by {
          JoinConsHead([sep], rest, s[0]);
        }
        r
  }

  /** `sep.join(parts)`. */
  function Join(sep: string, parts: seq<string>): string
  {
    if parts == [] then ""
    else if |parts| == 1 then parts[0]
    else parts[0] + sep + Join(sep, parts[1..])
  }

  lemma JoinConsHead(sep: string, parts: seq<string>, c: char)
    requires |parts| >= 1
    ensures Join(sep, [[c] + parts[0]] + parts[1..]) == [c] + Join(sep, parts)
  {
    var q := [[c] + parts[0]] + parts[1..];
    assert q[1..] == parts[1..];
  }

  /** A string without the separator is one piece. */
  lemma {:induction false} SplitNone(s: string, sep: char)
    requires sep !in s
    ensures Split(s, sep) == [s]
    decreases |s|
  {
    if s != [] {
      assert sep !in s[1..];
      SplitNone(s[1..], sep);
      assert [s[0]] + s[1..] == s;
    }
  }

  /** The first separator ends the first piece. */
  lemma {:induction false} SplitAppend(a: string, b: string, sep: char)
    requires sep !in a
    ensures Split(a + [sep] + b, sep) == [a] + Split(b, sep)
    decreases |a|
  {
    var s := a + [sep] + b;
    if a == [] {
      assert s[1..] == b;
    } else {
      assert s[1..] == a[1..] + [sep] + b;
      assert sep !in a[1..];
      SplitAppend(a[1..], b, sep);
      assert [a[0]] + a[1..] == a;
    }
  }

  /** `sep.join(parts).split(sep)` gives the parts back when none holds the separator. */
  lemma {:induction false} SplitJoin(parts: seq<string>, sep: char)
    requires |parts| >= 1 && forall i :: 0 <= i < |parts| ==> sep !in parts[i]
    ensures Split(Join([sep], parts), sep) == parts
    decreases |parts|
  {
    if |parts| == 1 {
      SplitNone(parts[0], sep);
    } else {
      SplitJoin(parts[1..], sep);
      SplitAppend(parts[0], Join([sep], parts[1..]), sep);
      assert [parts[0]] + parts[1..] == parts;
    }
  }

  /** A string splits into two or more pieces exactly when it holds the separator. */
  lemma {:induction false} SplitsAt(s: string, sep: char)
    ensures |Split(s, sep)| >= 2 <==> sep in s
    decreases |s|
  {
    if s != [] {
      SplitsAt(s[1..], sep);
      assert sep in s <==> s[0] == sep || sep in s[1..];
    }
  }

  function WordAt(s: string): (w: string)
    ensures |w| <= |s| && w == s[..|w|]
    ensures forall i :: 0 <= i < |w| ==> !IsSpace(w[i])
    ensures |w| < |s| ==> IsSpace(s[|w|])
  {
    if s == [] || IsSpace(s[0]) then "" else [s[0]] + WordAt(s[1..])
  }

  /** The characters of `s` that are not whitespace, in order. */
  function NonSpace(s: string): string
  {
    if s == [] then ""
    else if IsSpace(s[0]) then NonSpace(s[1..])
    else [s[0]] + NonSpace(s[1..])
  }

  /** The words of `ws` written one after another. */
  function Concat(ws: seq<string>): string
  {
    if ws == [] then "" else ws[0] + Concat(ws[1..])
  }

  lemma {:induction false} NonSpaceAppend(a: string, b: string)
    ensures NonSpace(a + b) == NonSpace(a) + NonSpace(b)
    decreases |a|
  {
    if a != [] {
      var ab := a + b;
      assert ab != [] && ab[0] == a[0] && ab[1..] == a[1..] + b;
      NonSpaceAppend(a[1..], b);
      if !IsSpace(a[0]) {
        assert NonSpace(ab) == [a[0]] + (NonSpace(a[1..]) + NonSpace(b));
      }
    } else {
      assert a + b == b;
    }
  }

  lemma {:induction false} NonSpaceWord(w: string)
    requires forall i :: 0 <= i < |w| ==> !IsSpace(w[i])
    ensures NonSpace(w) == w
    decreases |w|
  {
    if w != [] {
      NonSpaceWord(w[1..]);
    }
  }

  /**
   * `s.split()`: the maximal runs of non-whitespace characters, in order;
   * written one after another they are `s` with its whitespace removed.
   */
  function SplitWhitespace(s: string): (r: seq<string>)
    ensures forall i :: 0 <= i < |r| ==> |r[i]| > 0 && forall j :: 0 <= j < |r[i]| ==> !IsSpace(r[i][j])
    ensures Concat(r) == NonSpace(s)
    decreases |s|
  {
    if s == [] then []
    else if IsSpace(s[0]) then SplitWhitespace(s[1..])
    else
      var w := WordAt(s);
      var rest := SplitWhitespace(s[|w|..]);
      assert Concat([w] + rest) == NonSpace(s) by {
        assert ([w] + rest)[1..] == rest;
        assert s == w + s[|w|..];
        NonSpaceAppend(w, s[|w|..]);
        NonSpaceWord(w);
      }
      [w] + rest
  }

  lemma {:induction false} WordAtJoin(w: string, tail: string)
    requires forall i :: 0 <= i < |w| ==> !IsSpace(w[i])
    requires tail == [] || IsSpace(tail[0])
    ensures WordAt(w + tail) == w
    decreases |w|
  {
    if w != [] {
      assert (w + tail)[1..] == w[1..] + tail;
      WordAtJoin(w[1..], tail);
      assert [w[0]] + w[1..] == w;
    }
  }

  /** Words joined by single spaces split back into those words. */
  lemma {:induction false} SplitWhitespaceJoin(ws: seq<string>)
    requires forall i :: 0 <= i < |ws| ==> |ws[i]| > 0 && forall j :: 0 <= j < |ws[i]| ==> !IsSpace(ws[i][j])
    ensures SplitWhitespace(Join(" ", ws)) == ws
    decreases |ws|
  {
    if ws != [] {
      var w := ws[0];
      var tail := if |ws| == 1 then "" else " " + Join(" ", ws[1..]);
      var s := Join(" ", ws);
      assert s == w + tail;
      WordAtJoin(w, tail);
      assert s[|w|..] == tail;
      if |ws| > 1 {
        SplitWhitespaceJoin(ws[1..]);
        assert tail[1..] == Join(" ", ws[1..]);
      }
      assert [w] + ws[1..] == ws;
    }
  }

  // ---------------------------------------------------------------------------
  // Replace and substring

  /** `s.replace(pat, rep)` for a non-empty pattern: leftmost, non-overlapping. */
  function Replace(s: string, pat: string, rep: string): (r: string)
    requires |pat| > 0
    decreases |s|
  {
    if |s| < |pat| then s
    else if s[..|pat|] == pat then rep + Replace(s[|pat|..], pat, rep)
    else [s[0]] + Replace(s[1..], pat, rep)
  }

  /** Replacing one character distributes over concatenation. */
  lemma {:induction false} ReplaceAppend(a: string, b: string, c: char, rep: string)
    ensures Replace(a + b, [c], rep) == Replace(a, [c], rep) + Replace(b, [c], rep)
    decreases |a|
  {
    if a == [] {
      assert a + b == b;
    } else {
      var s := a + b;
      assert s[..1] == a[..1] == [a[0]];
      assert s[1..] == a[1..] + b;
      ReplaceAppend(a[1..], b, c, rep);
    }
  }

  /** Replacing a character the string does not hold changes nothing. */
  lemma {:induction false} ReplaceAbsent(s: string, c: char, rep: string)
    requires c !in s
    ensures Replace(s, [c], rep) == s
    decreases |s|
  {
    if s != [] {
      assert s[..1] == [s[0]] && s[..1] != [c];
      assert c !in s[1..];
      ReplaceAbsent(s[1..], c, rep);
      assert [s[0]] + s[1..] == s;
    }
  }

  /** Python's `a in b` for two strings. */
  predicate IsSubstring(a: string, b: string)
  {
    exists i :: 0 <= i <= |b| - |a| && OccursAt(a, b, i)
  }

  predicate OccursAt(a: string, b: string, i: int)
  {
    0 <= i && i + |a| <= |b| && b[i..i + |a|] == a
  }

  // ---------------------------------------------------------------------------
  // Parsing integers

  predicate IsSign(c: char) { c == '-' || c == '+' }

  /** `int(s)` for a string: surrounding whitespace, an optional sign and at least one
      ASCII decimal digit; `ValueError` otherwise. */
  function ParseInt(s: string): (r: Result<int>)
    ensures r.Err? ==> r.error == ValueError
  {
    var t := Strip(s);
    if t == [] then Err(ValueError)
    else if IsSign(t[0]) then
      if |t| > 1 && AllDigits(t[1..]) then
        var v: int := DigitsValue(t[1..]);
        Ok(if t[0] == '-' then -v else v)
      else Err(ValueError)
    else if AllDigits(t) then Ok(DigitsValue(t))
    else Err(ValueError)
  }

  /** `int(str(i)) == i`. */
  lemma ParseIntOfIntToString(i: int)
    ensures ParseInt(IntToString(i)) == Ok(i)
  {
    if i < 0 {
      ParseIntOfNegative(-i, IntToString(i));
    } else {
      ParseIntOfNatural(i, IntToString(i));
    }
  }

  lemma ParseIntOfNegative(n: nat, s: string)
    requires n > 0 && s == "-" + NatToString(n)
    ensures ParseInt(s) == Ok(-(n as int))
  {
    var t := NatToString(n);
    assert s[1..] == t && s[|s| - 1] == t[|t| - 1];
    NatToStringValue(n);
    ParseIntNegative(s, n);
  }

  lemma ParseIntOfNatural(n: nat, s: string)
    requires s == NatToString(n)
    ensures ParseInt(s) == Ok(n as int)
  {
    NatToStringValue(n);
    ParseIntDigits(s);
  }

  lemma ParseIntNegative(s: string, n: nat)
    requires |s| > 1 && s[0] == '-' && AllDigits(s[1..]) && !IsSpace(s[|s| - 1])
    requires DigitsValue(s[1..]) == n
    ensures ParseInt(s) == Ok(-(n as int))
  {
    StripKeeps(s);
  }

  lemma ParseIntDigits(s: string)
    requires s != [] && AllDigits(s)
    ensures ParseInt(s) == Ok(DigitsValue(s))
  {
    assert IsDigit(s[0]) && IsDigit(s[|s| - 1]);
    StripKeeps(s);
  }

  /** Stripping a string with no white space at either end changes nothing. */
  lemma StripKeeps(s: string)
    requires s != [] && !IsSpace(s[0]) && !IsSpace(s[|s| - 1])
    ensures Strip(s) == s
  {
  }

  // ---------------------------------------------------------------------------
  // The ordering Python uses for strings (code point by code point)

  predicate Less(a: string, b: string)
  {
    if a == [] then b != []
    else if b == [] then false
    else if a[0] != b[0] then a[0] < b[0]
    else Less(a[1..], b[1..])
  }

  lemma {:induction false} LessIrreflexive(a: string)
    ensures !Less(a, a)
  {
    if a != [] { LessIrreflexive(a[1..]); }
  }

  lemma {:induction false} LessTransitive(a: string, b: string, c: string)
    requires Less(a, b) && Less(b, c)
    ensures Less(a, c)
  {
    if a != [] && b != [] && c != [] && a[0] == b[0] && b[0] == c[0] {
      LessTransitive(a[1..], b[1..], c[1..]);
    }
  }

  lemma {:induction false} LessTotal(a: string, b: string)
    ensures a == b || Less(a, b) || Less(b, a)
  {
    if a != [] && b != [] && a[0] == b[0] {
      LessTotal(a[1..], b[1..]);
      if a[1..] == b[1..] {
        assert a == [a[0]] + a[1..] && b == [b[0]] + b[1..];
      }
    }
  }

  lemma LessAsymmetric(a: string, b: string)
    requires Less(a, b)
    ensures !Less(b, a)
  {
    if Less(b, a) {
      LessTransitive(a, b, a);
      LessIrreflexive(a);
    }
  }

  predicate StrictlySorted(s: seq<string>)
  {
    forall i, j :: 0 <= i < j < |s| ==> Less(s[i], s[j])
  }

  /** The least string of a finite non-empty set. */
  ghost function MinOf(s: set<string>): (m: string)
    requires s != {}
    ensures m in s && forall x :: x in s && x != m ==> Less(m, x)
    decreases |s|
  {
    var x :| x in s;
    if s == {x} then x
    else
      var m' := MinOf(s - {x});
      var m := if Less(x, m') then x else m';
      assert forall y :: y in s && y != m ==> Less(m, y) by {
        forall y | y in s && y != m ensures Less(m, y) {
          LessTotal(x, m');
          if y != x && y != m' && m == x {
            LessTransitive(x, m', y);
          }
        }
      }
      m
  }

  /** `sorted(s)`: the elements of a set in increasing order. */
  ghost function SortedOf(s: set<string>): (r: seq<string>)
    ensures |r| == |s| && StrictlySorted(r)
    ensures forall x :: x in s <==> x in r
    decreases |s|
  {
    if s == {} then []
    else
      var m := MinOf(s);
      var rest := SortedOf(s - {m});
      var r := [m] + rest;
      assert forall j :: 0 < j < |r| ==> Less(m, r[j]) by {
        forall j | 0 < j < |r| ensures Less(m, r[j]) {
          assert r[j] == rest[j - 1] && r[j] in s - {m};
        }
      }
      r
  }

  lemma NotFirstOfSorted(a: seq<string>, x: string)
    requires StrictlySorted(a) && a != []
    ensures x in a[1..] <==> (x in a && x != a[0])
  {
    if x in a[1..] {
      var k :| 0 <= k < |a| - 1 && a[1..][k] == x;
      assert Less(a[0], a[k + 1]);
      LessIrreflexive(x);
    }
    if x in a && x != a[0] {
      var k :| 0 <= k < |a| && a[k] == x;
      assert a[1..][k - 1] == x;
    }
  }

  /** A strictly sorted sequence is determined by its set of elements. */
  lemma {:induction false} StrictlySortedUnique(a: seq<string>, b: seq<string>)
    requires StrictlySorted(a) && StrictlySorted(b)
    requires forall x :: x in a <==> x in b
    ensures a == b
  {
    assert a != [] ==> a[0] in b;
    assert b != [] ==> b[0] in a;
    if a != [] && b != [] {
      if a[0] != b[0] {
        var i :| 0 <= i < |b| && b[i] == a[0];
        var j :| 0 <= j < |a| && a[j] == b[0];
        assert Less(a[0], a[j]) && Less(b[0], b[i]);
        LessAsymmetric(a[0], b[0]);
      }
      forall x ensures x in a[1..] <==> x in b[1..] {
        NotFirstOfSorted(a, x);
        NotFirstOfSorted(b, x);
      }
      StrictlySortedUnique(a[1..], b[1..]);
      assert a == [a[0]] + a[1..] && b == [b[0]] + b[1..];
    }
  }

  /** `x` placed into a strictly sorted sequence at its place. */
  function InsertSorted(s: seq<string>, x: string): (r: seq<string>)
    requires StrictlySorted(s) && x !in s
    ensures StrictlySorted(r)
    ensures forall y :: y in r <==> y in s || y == x
  {
    if s == [] then [x]
    else if Less(x, s[0]) then
      assert forall j :: 0 <= j < |s| ==> Less(x, s[j]) by {
        forall j | 0 < j < |s| ensures Less(x, s[j]) {
          LessTransitive(x, s[0], s[j]);
        }
      }
      [x] + s
    else
      var rest := InsertSorted(s[1..], x);
      LessTotal(x, s[0]);
      assert forall j :: 0 <= j < |rest| ==> Less(s[0], rest[j]) by {
        forall j | 0 <= j < |rest| ensures Less(s[0], rest[j]) {
          assert rest[j] in s[1..] || rest[j] == x;
          if rest[j] in s[1..] {
            var k :| 0 <= k < |s| - 1 && s[1..][k] == rest[j];
            assert s[k + 1] == rest[j];
          }
        }
      }
      assert s == [s[0]] + s[1..];
      [s[0]] + rest
  }

  /** `variables = list(names); variables.sort()`: the names in increasing order. */
  method SortedList(names: set<string>) returns (r: seq<string>)
    ensures r == SortedOf(names)
  {
    r := [];
    var rest := names;
    while rest != {}
      invariant rest <= names
      invariant StrictlySorted(r) && forall y :: y in r <==> y in names && y !in rest
      decreases |rest|
    {
      var x :| x in rest;
      r := InsertSorted(r, x);
      rest := rest - {x};
    }
    StrictlySortedUnique(r, SortedOf(names));
  }
}
