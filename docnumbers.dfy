/**
 * What business/cnpj.py and business/cpf.py have in common: the modulo-11
 * check digit, Python's `list.insert`, `''.join(str(x) for x in digits)`,
 * `[int(x) for x in s]` over a string, `str.replace(c, '')`, and Python's
 * negative indexing of a list.
 */
module DocNumbers {
  import opened Wrappers
  import opened Text

  // ---------------------------------------------------------------------------
  // The modulo-11 rule

  /**
   * The check digit of a weighted sum: `11 - r` when the remainder `r` of the
   * sum by 11 is above 1, otherwise 0 (Python's `%` by a positive number is
   * never negative, as Dafny's).
   */
  function CheckDigit(total: int): (d: int)
    ensures 0 <= d <= 9
    ensures d == 0 <==> total % 11 <= 1
    ensures d != 0 ==> (total + d) % 11 == 0
  {
    var r := total % 11;
    if r > 1 then 11 - r else 0
  }

  /** Two sums with the same check digit above 0 have the same remainder by 11. */
  lemma CheckDigitRemainder(a: int, b: int)
    requires CheckDigit(a) == CheckDigit(b) != 0
    ensures a % 11 == b % 11
  {
  }

  // ---------------------------------------------------------------------------
  // Lists

  /** The sum of the products of the first `n` pairs of entries. */
  function Dot(xs: seq<int>, ys: seq<int>, n: nat): int
    requires n <= |xs| && n <= |ys|
  {
    if n == 0 then 0 else Dot(xs, ys, n - 1) + xs[n - 1] * ys[n - 1]
  }

  /** `s.insert(i, x)` for `i >= 0`: before position `i`, or at the end when `i` is past it. */
  function Insert<T>(s: seq<T>, i: nat, x: T): (r: seq<T>)
    ensures |r| == |s| + 1
    ensures i < |s| ==> r == s[..i] + [x] + s[i..]
    ensures i >= |s| ==> r == s + [x]
  {
    if i < |s| then s[..i] + [x] + s[i..] else s + [x]
  }

  /** The list after inserting each `(position, mark)` of `marks` in turn, as the formatting loops do. */
  function InsertAll(s: seq<string>, marks: seq<(nat, string)>): (r: seq<string>)
    ensures |r| == |s| + |marks|
  {
    if marks == [] then s
    else
      var last := marks[|marks| - 1];
      Insert(InsertAll(s, marks[..|marks| - 1]), last.0, last.1)
  }

  /** Inserting one more mark after the others. */
  lemma InsertAllSnoc(s: seq<string>, marks: seq<(nat, string)>, m: (nat, string))
    ensures InsertAll(s, marks + [m]) == Insert(InsertAll(s, marks), m.0, m.1)
  {
    assert (marks + [m])[..|marks|] == marks;
  }

  /** Inserting at the end of a front part puts the mark between it and the rest. */
  lemma InsertBetween<T>(p: seq<T>, q: seq<T>, m: T)
    ensures Insert(p + q, |p|, m) == p + [m] + q
  {
    if q != [] {
      assert (p + q)[..|p|] == p && (p + q)[|p|..] == q;
    }
  }

  /** Python's `lst[index]` on a list of length `n`: negative indices count from the end. */
  function PyIndex(n: nat, index: int): (r: Option<nat>)
    ensures r.Some? <==> -(n as int) <= index < n
    ensures r.Some? ==> r.value < n && (r.value == index || r.value == index + n)
  {
    if 0 <= index < n then Some(index)
    else if -(n as int) <= index < 0 then Some(index + n)
    else None
  }

  // ---------------------------------------------------------------------------
  // Digits as text

  /** Python 2's `str.isdigit()`: at least one character, and only decimal digits. */
  predicate IsDigitText(s: string)
  {
    |s| > 0 && AllDigits(s)
  }

  /** The single digits 0 to 9: what a digit string converts to. */
  predicate Decimal(xs: seq<int>)
  {
    forall i :: 0 <= i < |xs| ==> 0 <= xs[i] <= 9
  }

  /** `map(str, xs)`: the decimal rendering of each number. */
  function Strs(xs: seq<int>): (r: seq<string>)
    ensures |r| == |xs| && forall i :: 0 <= i < |xs| ==> r[i] == IntToString(xs[i])
  {
    seq(|xs|, i requires 0 <= i < |xs| => IntToString(xs[i]))
  }

  /** `''.join(str(x) for x in xs)`. */
  function DigitString(xs: seq<int>): (s: string)
  {
    Join("", Strs(xs))
  }

  /** The characters of single digits: what `DigitString` is on them. */
  function Chars(xs: seq<int>): (s: string)
    requires Decimal(xs)
    ensures |s| == |xs| && AllDigits(s)
    ensures forall i :: 0 <= i < |xs| ==> s[i] == DigitChar(xs[i])
  {
    seq(|xs|, i requires 0 <= i < |xs| => DigitChar(xs[i]))
  }

  /** `[int(c) for c in s]` on a string of decimal digits. */
  function Values(s: string): (xs: seq<int>)
    requires AllDigits(s)
    ensures |xs| == |s| && Decimal(xs)
    ensures forall i :: 0 <= i < |s| ==> xs[i] == DigitValue(s[i])
  {
    seq(|s|, i requires 0 <= i < |s| => DigitValue(s[i]) as int)
  }

  /** `[int(c) for c in s]` on any string: `int` of one character raises `ValueError` unless it is a digit. */
  function IntEach(s: string): (r: Result<seq<int>>)
    ensures r.Ok? ==> |r.value| == |s|
    ensures r.Err? ==> r.error == ValueError
  {
    if s == [] then Ok([])
    else
      var init :- IntEach(s[..|s| - 1]);
      var last :- ParseInt([s[|s| - 1]]);
      Ok(init + [last])
  }

  /** Converting each character succeeds exactly on a string of digits, and yields their values. */
  lemma {:induction false} IntEachSpec(s: string)
    ensures IntEach(s).Ok? <==> AllDigits(s)
    ensures IntEach(s).Ok? ==> IntEach(s).value == Values(s)
  {
    if s != [] {
      var init, c := s[..|s| - 1], s[|s| - 1];
      IntEachSpec(init);
      assert s == init + [c];
      if AllDigits(s) {
        IntEachDigitStep(init, c);
      } else {
        IntEachFailStep(init, c);
      }
    }
  }

  /** One more digit after a string of digits: its value is appended. */
  lemma IntEachDigitStep(init: string, c: char)
    requires AllDigits(init) && AllDigits(init + [c]) && IntEach(init) == Ok(Values(init))
    ensures IntEach(init + [c]) == Ok(Values(init + [c]))
  {
    var s := init + [c];
    assert s[..|s| - 1] == init && s[|s| - 1] == c;
    assert IsDigit(c);
    ParseChar(c);
    ValuesSnoc(init, c);
  }

  /** The values of a string with one more digit. */
  lemma ValuesSnoc(init: string, c: char)
    requires AllDigits(init) && IsDigit(c) && AllDigits(init + [c])
    ensures Values(init + [c]) == Values(init) + [DigitValue(c) as int]
  {
    var s := init + [c];
    assert forall i :: 0 <= i < |init| ==> s[i] == init[i];
  }

  /** A string that is not all digits fails, whether at an earlier character or at the last. */
  lemma IntEachFailStep(init: string, c: char)
    requires !AllDigits(init + [c]) && (IntEach(init).Ok? <==> AllDigits(init))
    ensures IntEach(init + [c]).Err?
  {
    var s := init + [c];
    assert s[..|s| - 1] == init && s[|s| - 1] == c;
    if AllDigits(init) {
      assert !IsDigit(c);
      ParseChar(c);
    }
  }

  /** `int(c)` of one character: its value when it is a digit, otherwise `ValueError`. */
  lemma ParseChar(c: char)
    ensures ParseInt([c]) == if IsDigit(c) then Ok(DigitValue(c) as int) else Err(ValueError)
  {
    if IsDigit(c) {
      ParseIntDigits([c]);
    } else if IsSpace(c) {
      assert StripLeft([c]) == StripLeft([]);
    } else {
      StripKeeps([c]);
    }
  }

  /** `''.join` of two lists of strings is the join of each, one after the other. */
  lemma {:induction false} JoinNothingAppend(a: seq<string>, b: seq<string>)
    ensures Join("", a + b) == Join("", a) + Join("", b)
  {
    if a != [] && b != [] {
      if |a| == 1 {
        assert (a + b)[1..] == b;
        assert Join("", a + b) == a[0] + "" + Join("", b);
      } else {
        assert (a + b)[1..] == a[1..] + b;
        JoinNothingAppend(a[1..], b);
        assert Join("", a + b) == a[0] + "" + (Join("", a[1..]) + Join("", b));
      }
    } else if a == [] {
      assert a + b == b;
    } else {
      assert a + b == a;
    }
  }

  /** The rendering of a list of numbers splits where the list does. */
  lemma DigitStringAppend(a: seq<int>, b: seq<int>)
    ensures DigitString(a + b) == DigitString(a) + DigitString(b)
  {
    assert Strs(a + b) == Strs(a) + Strs(b);
    JoinNothingAppend(Strs(a), Strs(b));
  }

  /** On single digits the rendering is one character per digit, and reads back as the same digits. */
  lemma {:induction false} DigitStringChars(xs: seq<int>)
    requires Decimal(xs)
    ensures DigitString(xs) == Chars(xs)
    ensures Values(DigitString(xs)) == xs
  {
    if xs != [] {
      var init, x := xs[..|xs| - 1], xs[|xs| - 1];
      assert xs == init + [x];
      DigitStringChars(init);
      DigitStringAppend(init, [x]);
      assert Strs([x]) == [IntToString(x)];
      assert IntToString(x) == [DigitChar(x)];
      assert Chars(xs) == Chars(init) + [DigitChar(x)];
    }
  }

  // ---------------------------------------------------------------------------
  // Removing a character

  /** `s` without any occurrence of `c`. */
  function Drop(s: string, c: char): (r: string)
    ensures c !in r && |r| <= |s|
  {
    if s == [] then [] else Drop(s[..|s| - 1], c) + (if s[|s| - 1] == c then [] else [s[|s| - 1]])
  }

  /** `s.replace(c, '')` removes every occurrence of the character `c` and keeps the rest in order. */
  lemma {:induction false} ReplaceDrops(s: string, c: char)
    ensures Replace(s, [c], "") == Drop(s, c)
    decreases |s|
  {
    if s != [] {
      ReplaceDrops(s[1..], c);
      DropCons(s[0], s[1..], c);
      assert s == [s[0]] + s[1..];
    }
  }

  lemma DropCons(x: char, s: string, c: char)
    ensures Drop([x] + s, c) == (if x == c then [] else [x]) + Drop(s, c)
  {
    DropAppend([x], s, c);
    assert Drop([x], c) == (if x == c then [] else [x]) by {
      assert [x][..0] == [];
    }
  }

  lemma {:induction false} DropAppend(a: string, b: string, c: char)
    ensures Drop(a + b, c) == Drop(a, c) + Drop(b, c)
    decreases |b|
  {
    if b != [] {
      var init := b[..|b| - 1];
      assert (a + b)[..|a + b| - 1] == a + init;
      assert (a + b)[|a + b| - 1] == b[|b| - 1];
      DropAppend(a, init, c);
      var tail := if b[|b| - 1] == c then [] else [b[|b| - 1]];
      assert Drop(a + b, c) == Drop(a, c) + Drop(init, c) + tail;
      assert Drop(b, c) == Drop(init, c) + tail;
    } else {
      assert a + b == a;
    }
  }

  /** Removing `c` from a run without it, a mark other than `c`, and a rest whose removal is known. */
  lemma DropKeep(a: string, m: char, rest: string, c: char, out: string)
    requires Drop(a, c) == a && m != c && Drop(rest, c) == out
    ensures Drop(a + ([m] + rest), c) == a + ([m] + out)
  {
    DropAppend(a, [m] + rest, c);
    DropCons(m, rest, c);
  }

  /** Removing the mark `m` itself from a run without it, the mark, and a rest whose removal is known. */
  lemma DropLose(a: string, m: char, rest: string, out: string)
    requires Drop(a, m) == a && Drop(rest, m) == out
    ensures Drop(a + ([m] + rest), m) == a + out
  {
    DropAppend(a, [m] + rest, m);
    DropCons(m, rest, m);
    assert [] + out == out;
  }

  /** Removing `c` leaves two leading runs without it alone. */
  lemma DropFront(a: string, b: string, t: string, c: char, out: string)
    requires Drop(a, c) == a && Drop(b, c) == b && Drop(t, c) == out
    ensures Drop(a + (b + t), c) == a + (b + out)
  {
    DropAppend(a, b + t, c);
    DropAppend(b, t, c);
  }

  /** Two removals one after the other, each with a known result. */
  lemma DropTwice(s0: string, s1: string, s2: string, c1: char, c2: char)
    requires Drop(s0, c1) == s1 && Drop(s1, c2) == s2
    ensures Drop(Drop(s0, c1), c2) == s2
  {
  }

  /**
   * Five runs of digits joined by the marks `p`, `p`, `s` and `h`: removing
   * `p`, then `h`, then `s` leaves the runs, one after the other.
   */
  lemma DropMarks(a: string, b: string, e: string, f: string, g: string, p: char, s: char, h: char)
    requires AllDigits(a) && AllDigits(b) && AllDigits(e) && AllDigits(f) && AllDigits(g)
    requires !IsDigit(p) && !IsDigit(s) && !IsDigit(h) && p != s && p != h && s != h
    ensures Drop(Drop(Drop(a + ([p] + (b + ([p] + (e + ([s] + (f + ([h] + g))))))), p), h), s)
         == a + (b + (e + (f + g)))
  {
    DigitsFree(a, p, s, h);
    DigitsFree(b, p, s, h);
    DigitsFree(e, p, s, h);
    DigitsFree(f, p, s, h);
    DigitsFree(g, p, s, h);
    FreeMarks(a, b, e, f, g, p, s, h);
  }

  /** Digits are free of each of three characters that are not digits. */
  lemma DigitsFree(x: string, p: char, s: char, h: char)
    requires AllDigits(x) && !IsDigit(p) && !IsDigit(s) && !IsDigit(h)
    ensures Drop(x, p) == x && Drop(x, s) == x && Drop(x, h) == x
  {
    DropDigits(x, p);
    DropDigits(x, s);
    DropDigits(x, h);
  }

  /** `DropMarks` for runs that are free of the three marks. */
  lemma FreeMarks(a: string, b: string, e: string, f: string, g: string, p: char, s: char, h: char)
    requires Drop(a, p) == a && Drop(b, p) == b && Drop(e, p) == e && Drop(f, p) == f && Drop(g, p) == g
    requires Drop(a, h) == a && Drop(b, h) == b && Drop(e, h) == e && Drop(f, h) == f && Drop(g, h) == g
    requires Drop(a, s) == a && Drop(b, s) == b && Drop(e, s) == e && Drop(f, s) == f && Drop(g, s) == g
    requires p != s && p != h && s != h
    ensures Drop(Drop(Drop(a + ([p] + (b + ([p] + (e + ([s] + (f + ([h] + g))))))), p), h), s)
         == a + (b + (e + (f + g)))
  {
    var u := e + ([s] + (f + g));
    var s2 := a + (b + u);
    var s3 := a + (b + (e + (f + g)));
    PointAndDash(a, b, e, f, g, p, s, h);
    ThirdMark(e, f, g, s);
    DropFront(a, b, u, s, e + (f + g));
    DropTwice(Drop(a + ([p] + (b + ([p] + (e + ([s] + (f + ([h] + g))))))), p), s2, s3, h, s);
  }

  /** After the `p`s and the `h` are removed, the `s` is all that is left between the runs. */
  lemma PointAndDash(a: string, b: string, e: string, f: string, g: string, p: char, s: char, h: char)
    requires Drop(a, p) == a && Drop(b, p) == b && Drop(e, p) == e && Drop(f, p) == f && Drop(g, p) == g
    requires Drop(a, h) == a && Drop(b, h) == b && Drop(e, h) == e && Drop(f, h) == f && Drop(g, h) == g
    requires p != s && p != h && s != h
    ensures Drop(Drop(a + ([p] + (b + ([p] + (e + ([s] + (f + ([h] + g))))))), p), h)
         == a + (b + (e + ([s] + (f + g))))
  {
    var t := e + ([s] + (f + ([h] + g)));
    var u := e + ([s] + (f + g));
    FirstMark(a, b, e, f, g, p, s, h);
    SecondMark(e, f, g, s, h);
    DropFront(a, b, t, h, u);
    DropTwice(a + ([p] + (b + ([p] + t))), a + (b + t), a + (b + u), p, h);
  }

  /** The two `p`s go and the other marks stay. */
  lemma FirstMark(a: string, b: string, e: string, f: string, g: string, p: char, s: char, h: char)
    requires Drop(a, p) == a && Drop(b, p) == b && Drop(e, p) == e && Drop(f, p) == f && Drop(g, p) == g && p != s && p != h
    ensures Drop(a + ([p] + (b + ([p] + (e + ([s] + (f + ([h] + g))))))), p)
         == a + (b + (e + ([s] + (f + ([h] + g)))))
  {
    var t4 := f + ([h] + g);
    var t3 := e + ([s] + t4);
    var t2 := b + ([p] + t3);
    DropKeep(f, h, g, p, g);
    DropKeep(e, s, t4, p, t4);
    DropLose(b, p, t3, t3);
    DropLose(a, p, t2, b + t3);
  }

  /** The `h` goes from what follows the first two runs. */
  lemma SecondMark(e: string, f: string, g: string, s: char, h: char)
    requires Drop(e, h) == e && Drop(f, h) == f && Drop(g, h) == g && s != h
    ensures Drop(e + ([s] + (f + ([h] + g))), h) == e + ([s] + (f + g))
  {
    var t := f + ([h] + g);
    DropLose(f, h, g, g);
    DropKeep(e, s, t, h, f + g);
  }

  /** Then the `s` goes. */
  lemma ThirdMark(e: string, f: string, g: string, s: char)
    requires Drop(e, s) == e && Drop(f, s) == f && Drop(g, s) == g
    ensures Drop(e + ([s] + (f + g)), s) == e + (f + g)
  {
    var fg := f + g;
    DropAppend(f, g, s);
    DropLose(e, s, fg, fg);
  }

  /** Digits contain no character that is not a digit. */
  lemma DropDigits(a: string, c: char)
    requires AllDigits(a) && !IsDigit(c)
    ensures Drop(a, c) == a
  {
    forall i | 0 <= i < |a|
      ensures a[i] != c
    {
      assert IsDigit(a[i]);
    }
    DropAbsent(a, c);
  }

  /** Removing a character that does not occur changes nothing. */
  lemma {:induction false} DropAbsent(s: string, c: char)
    requires c !in s
    ensures Drop(s, c) == s
  {
    if s != [] {
      DropAbsent(s[..|s| - 1], c);
    }
  }
}
