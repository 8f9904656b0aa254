/**
 * The `CPF` class of business/cpf.py: a Brazilian individual taxpayer number
 * of 11 digits, the last two of which are modulo-11 check digits, and the
 * ten numbers of one repeated digit are refused. The object never changes
 * after construction, so it is a value here.
 */
module Cpf {
  import opened Wrappers
  import opened Text
  import opened DocNumbers

  /** What the constructor is given: a string, or a list (or tuple) of numbers. */
  datatype Arg = Str(s: string) | List(xs: seq<int>)

  /** A constructed number: the list `self.cpf`, of any length. */
  datatype CPF = CPF(digits: seq<int>)

  /** Where `__str__` inserts its punctuation, in the order it does: `xrange(3, 12, 4)` paired with "..-". */
  const Marks: seq<(nat, string)> := [(3, "."), (7, "."), (11, "-")]

  // ---------------------------------------------------------------------------
  // Construction

  /** `_translate`: the decimal digits of the string, in order (`re.findall` of `\d` on a byte string). */
  function Translate(s: string): (r: string)
    ensures |r| <= |s|
  {
    if s == [] then []
    else Translate(s[..|s| - 1]) + (if IsDigit(s[|s| - 1]) then [s[|s| - 1]] else [])
  }

  /** Only digits are kept. */
  lemma {:induction false} TranslateOnlyDigits(s: string)
    ensures AllDigits(Translate(s))
  {
    if s != [] {
      TranslateOnlyDigits(s[..|s| - 1]);
    }
  }

  /** One character is kept exactly when it is a digit. */
  lemma TranslateChar(c: char)
    ensures Translate([c]) == if IsDigit(c) then [c] else []
  {
    assert [c][..0] == [];
  }

  /** `_translate` of a concatenation is the concatenation of the two results. */
  lemma {:induction false} TranslateAppend(a: string, b: string)
    ensures Translate(a + b) == Translate(a) + Translate(b)
    decreases |b|
  {
    if b == [] {
      assert a + b == a;
    } else {
      var init, c := b[..|b| - 1], b[|b| - 1];
      assert (a + b)[..|a + b| - 1] == a + init;
      TranslateAppend(a, init);
    }
  }

  /** A string of digits is left as it is, and only such a string is. */
  lemma {:induction false} TranslateDigits(s: string)
    ensures Translate(s) == s <==> AllDigits(s)
  {
    TranslateOnlyDigits(s);
    if AllDigits(s) {
      TranslateKeeps(s);
    }
  }

  lemma {:induction false} TranslateKeeps(s: string)
    requires AllDigits(s)
    ensures Translate(s) == s
  {
    if s != [] {
      TranslateKeeps(s[..|s| - 1]);
    }
  }

  /**
   * `CPF(arg)`: a string that is not all digits is reduced to its digits
   * first, so every string constructs the number of its digits; a list is
   * taken as it is. Nothing is refused, whatever the length.
   */
  function New(arg: Arg): (r: CPF)
    ensures arg.Str? ==> Decimal(r.digits) && Chars(r.digits) == Translate(arg.s)
    ensures arg.List? ==> r.digits == arg.xs
  {
    match arg
    case Str(s) =>
      var t := if IsDigitText(s) then s else Translate(s);
      TranslateDigits(s);
      TranslateOnlyDigits(s);
      ValuesChars(t);
      CPF(Values(t))
    case List(xs) => CPF(xs)
  }

  /** Reading digits and writing them back gives the same characters. */
  lemma ValuesChars(t: string)
    requires AllDigits(t)
    ensures Chars(Values(t)) == t
  {
    forall i | 0 <= i < |t|
      ensures Chars(Values(t))[i] == t[i]
    {
      assert DigitChar(DigitValue(t[i])) == t[i];
    }
  }

  /** Two strings with the same digits construct the same number. */
  lemma SameDigitsSameNumber(s: string, t: string)
    requires Translate(s) == Translate(t)
    ensures New(Str(s)) == New(Str(t))
  {
    var a, b := New(Str(s)).digits, New(Str(t)).digits;
    assert Chars(a) == Chars(b);
    forall i | 0 <= i < |a|
      ensures a[i] == b[i]
    {
      assert DigitValue(Chars(a)[i]) == DigitValue(Chars(b)[i]);
    }
  }

  // ---------------------------------------------------------------------------
  // Indexing, representation and equality

  /** `a[index]`: the entry itself (an `int`), negative indices from the end; `IndexError` outside. */
  function GetItem(c: CPF, index: int): (r: Result<int>)
    ensures r.Ok? <==> -|c.digits| <= index < |c.digits|
    ensures r.Ok? ==> r.value == c.digits[if index < 0 then index + |c.digits| else index]
    ensures r.Err? ==> r.error == IndexError
  {
    match PyIndex(|c.digits|, index)
    case None => Err(IndexError)
    case Some(i) => Ok(c.digits[i])
  }

  /** `repr(a)`: `CPF('` and the entries written one after the other, then `')`. */
  function Repr(c: CPF): string
  {
    "CPF('" + DigitString(c.digits) + "')"
  }

  /** `eval(repr(a)) == a` for a number of single digits: the quoted text constructs the same number. */
  lemma ReprRoundTrip(c: CPF)
    requires Decimal(c.digits)
    ensures var text := Repr(c)[5..|Repr(c)| - 2];
      Repr(c) == "CPF('" + text + "')" && New(Str(text)) == c
  {
    var text := DigitString(c.digits);
    assert Repr(c)[5..|Repr(c)| - 2] == text;
    PlainRoundTrip(c);
  }

  /** The digits written out without punctuation read back as the same number. */
  lemma PlainRoundTrip(c: CPF)
    requires Decimal(c.digits)
    ensures New(Str(DigitString(c.digits))) == c
  {
    var d := c.digits;
    DigitStringChars(d);
    TranslateKeeps(Chars(d));
    assert Chars(New(Str(Chars(d))).digits) == Chars(d);
    SameChars(New(Str(Chars(d))).digits, d);
  }

  /** Single digits with the same characters are the same digits. */
  lemma SameChars(a: seq<int>, b: seq<int>)
    requires Decimal(a) && Decimal(b) && Chars(a) == Chars(b)
    ensures a == b
  {
    forall i | 0 <= i < |a|
      ensures a[i] == b[i]
    {
      assert DigitValue(Chars(a)[i]) == DigitValue(Chars(b)[i]);
    }
  }

  /** `a == other`: another `CPF` with the same entries; never equal to anything else. */
  function Eq(c: CPF, other: Option<CPF>): (r: bool)
    ensures r <==> other == Some(c)
  {
    match other
    case None => false
    case Some(o) => c.digits == o.digits
  }

  // ---------------------------------------------------------------------------
  // Formatting

  /** The form xxx.xxx.xxx-xx, with any entries past the 11th after the last two. */
  function Format(d: seq<int>): string
    requires |d| >= 9
  {
    DigitString(d[..3]) + "." + DigitString(d[3..6]) + "." + DigitString(d[6..9]) + "-" + DigitString(d[9..])
  }

  /**
   * `str(a)`: the rendered entries with '.', '.' and '-' inserted at
   * positions 3, 7 and 11 (at the end of a shorter list), then joined.
   */
  method ToString(c: CPF) returns (r: string)
    ensures r == Join("", InsertAll(Strs(c.digits), Marks))
    ensures |c.digits| >= 9 ==> r == Format(c.digits)
  {
    var s := Strs(c.digits);
    for k := 0 to |Marks|
      invariant s == InsertAll(Strs(c.digits), Marks[..k])
    {
      assert Marks[..k + 1] == Marks[..k] + [Marks[k]];
      InsertAllSnoc(Strs(c.digits), Marks[..k], Marks[k]);
      s := Insert(s, Marks[k].0, Marks[k].1);
    }
    assert Marks[..|Marks|] == Marks;
    if |c.digits| >= 9 {
      MarksLayout(c.digits);
    }
    r := Join("", s);
  }

  /** Inserting the three marks into nine or more rendered entries, then joining, gives `Format`. */
  lemma MarksLayout(d: seq<int>)
    requires |d| >= 9
    ensures Join("", InsertAll(Strs(d), Marks)) == Format(d)
  {
    var s := Strs(d);
    MarksInOrder(s);
    MarksPlaced(s);
    JoinPieces(d, s, InsertAll(s, Marks));
  }

  lemma MarksInOrder(s: seq<string>)
    ensures InsertAll(s, Marks) == Insert(Insert(Insert(s, 3, "."), 7, "."), 11, "-")
  {
    var m1, m2, m3 := (3, "."), (7, "."), (11, "-");
    assert Marks == [m1, m2] + [m3];
    assert [m1] == [] + [m1] && [m1, m2] == [m1] + [m2];
    InsertAllSnoc(s, [], m1);
    InsertAllSnoc(s, [m1], m2);
    InsertAllSnoc(s, [m1, m2], m3);
  }

  /** Each mark lands after the group before it: three entries each, then the rest. */
  lemma MarksPlaced(s: seq<string>)
    requires |s| >= 9
    ensures Insert(Insert(Insert(s, 3, "."), 7, "."), 11, "-")
         == s[..3] + ["."] + s[3..6] + ["."] + s[6..9] + ["-"] + s[9..]
  {
    var a, b, e, f := s[..3], s[3..6], s[6..9], s[9..];
    assert s == a + (b + e + f);
    InsertBetween(a, b + e + f, ".");
    var l1 := a + ["."] + (b + e + f);
    assert l1 == (a + ["."] + b) + (e + f);
    InsertBetween(a + ["."] + b, e + f, ".");
    var l2 := (a + ["."] + b) + ["."] + (e + f);
    assert l2 == (a + ["."] + b + ["."] + e) + f;
    InsertBetween(a + ["."] + b + ["."] + e, f, "-");
  }

  lemma JoinPieces(d: seq<int>, s: seq<string>, l: seq<string>)
    requires |d| >= 9 && s == Strs(d)
    requires l == s[..3] + ["."] + s[3..6] + ["."] + s[6..9] + ["-"] + s[9..]
    ensures Join("", l) == Format(d)
  {
    assert s[..3] == Strs(d[..3]) && s[3..6] == Strs(d[3..6]) && s[6..9] == Strs(d[6..9]);
    assert s[9..] == Strs(d[9..]);
    var a := s[..3] + ["."] + s[3..6] + ["."] + s[6..9] + ["-"];
    JoinNothingAppend(a, s[9..]);
    var b := s[..3] + ["."] + s[3..6] + ["."] + s[6..9];
    JoinNothingAppend(b, ["-"]);
    var e := s[..3] + ["."] + s[3..6] + ["."];
    JoinNothingAppend(e, s[6..9]);
    var f := s[..3] + ["."] + s[3..6];
    JoinNothingAppend(f, ["."]);
    var g := s[..3] + ["."];
    JoinNothingAppend(g, s[3..6]);
    JoinNothingAppend(s[..3], ["."]);
  }

  /**
   * The formatted number reads back as itself, `CPF(str(a)) == a`, so the
   * punctuated and the plain forms of a number are equal.
   */
  lemma FormatRoundTrip(c: CPF)
    requires |c.digits| >= 9 && Decimal(c.digits)
    ensures New(Str(Format(c.digits))) == c
    ensures New(Str(Format(c.digits))) == New(Str(DigitString(c.digits)))
  {
    var d := c.digits;
    FormatDigits(d);
    DigitStringChars(d);
    TranslateKeeps(Chars(d));
    SameDigitsSameNumber(Format(d), DigitString(d));
    PlainRoundTrip(c);
  }

  /** The digits of the formatted number are the digits of the number. */
  lemma FormatDigits(d: seq<int>)
    requires |d| >= 9 && Decimal(d)
    ensures Translate(Format(d)) == Chars(d)
  {
    var a, b, e, f := Chars(d[..3]), Chars(d[3..6]), Chars(d[6..9]), Chars(d[9..]);
    FormatPieces(d);
    TranslatePieces(a, b, e, f);
    PiecesChars(d);
  }

  /** The formatted number is its four groups of digit characters with the marks between them. */
  lemma FormatPieces(d: seq<int>)
    requires |d| >= 9 && Decimal(d)
    ensures var a, b, e, f := Chars(d[..3]), Chars(d[3..6]), Chars(d[6..9]), Chars(d[9..]);
      Format(d) == a + ("." + (b + ("." + (e + ("-" + f)))))
  {
    DigitStringChars(d[..3]);
    DigitStringChars(d[3..6]);
    DigitStringChars(d[6..9]);
    DigitStringChars(d[9..]);
    var a, b, e, f := Chars(d[..3]), Chars(d[3..6]), Chars(d[6..9]), Chars(d[9..]);
    assert Format(d) == a + "." + b + "." + e + "-" + f;
    Reassociate(a, b, e, f);
  }

  lemma Reassociate(a: string, b: string, e: string, f: string)
    ensures a + "." + b + "." + e + "-" + f == a + ("." + (b + ("." + (e + ("-" + f)))))
  {
  }

  /** The four groups of digit characters, one after the other, are the characters of all the digits. */
  lemma PiecesChars(d: seq<int>)
    requires |d| >= 9 && Decimal(d)
    ensures Chars(d[..3]) + (Chars(d[3..6]) + (Chars(d[6..9]) + Chars(d[9..]))) == Chars(d)
  {
    var x := Chars(d[..3]) + (Chars(d[3..6]) + (Chars(d[6..9]) + Chars(d[9..])));
    forall i | 0 <= i < |d|
      ensures x[i] == Chars(d)[i]
    {
    }
  }

  /** `_translate` of four runs of digits joined by '.', '.' and '-' is the four runs. */
  lemma TranslatePieces(a: string, b: string, e: string, f: string)
    requires AllDigits(a) && AllDigits(b) && AllDigits(e) && AllDigits(f)
    ensures Translate(a + ("." + (b + ("." + (e + ("-" + f)))))) == a + (b + (e + f))
  {
    var r3 := e + ("-" + f);
    TranslateKeeps(f);
    TranslateMark(e, '-', f);
    assert Translate(r3) == e + f;
    var r2 := b + ("." + r3);
    TranslateMark(b, '.', r3);
    assert Translate(r2) == b + (e + f);
    TranslateMark(a, '.', r2);
  }

  /** A run of digits, a mark that is not one, and a rest: the mark goes, the run stays. */
  lemma TranslateMark(a: string, m: char, rest: string)
    requires AllDigits(a) && !IsDigit(m)
    ensures Translate(a + ([m] + rest)) == a + Translate(rest)
  {
    TranslateKeeps(a);
    TranslateSkip(m, rest);
    TranslateFront(a, [m] + rest, Translate(rest));
  }

  /** A leading character that is not a digit is dropped. */
  lemma TranslateSkip(m: char, rest: string)
    requires !IsDigit(m)
    ensures Translate([m] + rest) == Translate(rest)
  {
    TranslateAppend([m], rest);
    TranslateChar(m);
    assert [] + Translate(rest) == Translate(rest);
  }

  lemma TranslateFront(a: string, tail: string, out: string)
    requires Translate(tail) == out
    ensures Translate(a + tail) == Translate(a) + out
  {
    TranslateAppend(a, tail);
  }

  // ---------------------------------------------------------------------------
  // Validation

  /** The number of eleven copies of the digit `k`. */
  function Repdigit(k: nat): (s: string)
    requires k < 10
    ensures |s| == 11
  {
    seq(11, _ => DigitChar(k))
  }

  /** `_exceptions`: not eleven entries, or written out as one of "00000000000" to "99999999999". */
  predicate Exceptions(xs: seq<int>)
  {
    |xs| != 11 || exists k :: 0 <= k < 10 && DigitString(xs) == Repdigit(k)
  }

  /** One digit repeated throughout. */
  predicate AllSame(xs: seq<int>)
  {
    |xs| > 0 && 0 <= xs[0] <= 9 && forall i :: 0 <= i < |xs| ==> xs[i] == xs[0]
  }

  /** The exceptions are exactly the lists that are not eleven entries long or repeat a single digit. */
  lemma ExceptionsMeans(xs: seq<int>)
    ensures Exceptions(xs) <==> |xs| != 11 || AllSame(xs)
  {
    if |xs| == 11 {
      if k :| 0 <= k < 10 && DigitString(xs) == Repdigit(k) {
        RenderingLength(xs);
        DigitStringChars(xs);
        forall i | 0 <= i < |xs|
          ensures xs[i] == k
        {
          assert DigitValue(Chars(xs)[i]) == DigitValue(Repdigit(k)[i]);
        }
      }
      if AllSame(xs) {
        var k := xs[0];
        DigitStringChars(xs);
        forall i | 0 <= i < 11
          ensures Chars(xs)[i] == Repdigit(k)[i]
        {
        }
        assert DigitString(xs) == Repdigit(k);
      }
    }
  }

  /** Every entry renders to at least one character, and only single digits render to exactly one. */
  lemma {:induction false} RenderingLength(xs: seq<int>)
    ensures |DigitString(xs)| >= |xs|
    ensures |DigitString(xs)| == |xs| ==> Decimal(xs)
  {
    if xs != [] {
      var init, x := xs[..|xs| - 1], xs[|xs| - 1];
      assert xs == init + [x];
      RenderingLength(init);
      DigitStringAppend(init, [x]);
      assert Strs([x]) == [IntToString(x)];
      assert Join("", [IntToString(x)]) == IntToString(x);
      if |DigitString(xs)| == |xs| {
        var t := IntToString(x);
        assert |t| == 1;
        assert 0 <= x <= 9;
      }
    }
  }

  /** The weights `_gen` gives the entries of a list of `n`: n + 1 down to 2. */
  function GenWeights(n: nat): (w: seq<int>)
    ensures |w| == n && forall i :: 0 <= i < n ==> w[i] == n + 1 - i
  {
    seq(n, i requires 0 <= i < n => n + 1 - i)
  }

  /** The check digit `_gen` computes for a list. */
  function NextDigit(xs: seq<int>): (d: int)
    ensures 0 <= d <= 9
    ensures d != 0 ==> (Dot(xs, GenWeights(|xs|), |xs|) + d) % 11 == 0
    ensures d == 0 <==> Dot(xs, GenWeights(|xs|), |xs|) % 11 <= 1
  {
    CheckDigit(Dot(xs, GenWeights(|xs|), |xs|))
  }

  /** Python's `sum` of a list. */
  function Sum(xs: seq<int>): int
  {
    if xs == [] then 0 else Sum(xs[..|xs| - 1]) + xs[|xs| - 1]
  }

  /** `_gen`: lists each entry times its weight, sums the list, and turns the sum into a check digit. */
  method Gen(xs: seq<int>) returns (d: int)
    ensures d == NextDigit(xs)
  {
    var res: seq<int> := [];
    for i := 0 to |xs|
      invariant |res| == i && Sum(res) == Dot(xs, GenWeights(|xs|), i)
    {
      var b := |xs| + 1 - i;
      assert (res + [b * xs[i]])[..i] == res;
      res := res + [b * xs[i]];
    }
    var r := Sum(res) % 11;
    if r > 1 {
      d := 11 - r;
    } else {
      d := 0;
    }
  }

  /** Nine leading digits followed by their two check digits. */
  function Completed(first: seq<int>): (r: seq<int>)
    requires |first| == 9
    ensures |r| == 11 && r[..9] == first
  {
    var d1 := NextDigit(first);
    first + [d1, NextDigit(first + [d1])]
  }

  /** What `isValid` reports: not an exception, and the first nine entries with their check digits. */
  predicate Valid(d: seq<int>)
  {
    !Exceptions(d) && d == Completed(d[..9])
  }

  /** `a.isValid()`: rules out the exceptions, then appends two generated digits to the first nine and compares. */
  method IsValid(c: CPF) returns (valid: bool)
    ensures valid <==> Valid(c.digits)
  {
    if Exceptions(c.digits) {
      return false;
    }
    var s := c.digits[..9];
    var g := Gen(s);
    s := s + [g];
    g := Gen(s);
    s := s + [g];
    valid := s == c.digits;
  }

  /**
   * A valid number has exactly 11 entries, not all the same digit; the 10th
   * is the check digit of the first nine under weights 10 down to 2, and the
   * 11th that of the first ten under 11 down to 2.
   */
  lemma ValidMeans(d: seq<int>)
    ensures Valid(d) <==> |d| == 11 && !AllSame(d) && d[9] == NextDigit(d[..9]) && d[10] == NextDigit(d[..10])
  {
    ExceptionsMeans(d);
    if |d| == 11 {
      assert d[..10] == d[..9] + [d[9]];
      assert d == d[..9] + [d[9], d[10]];
    }
  }

  /** The weighted sum of 1..9 under 10..2 is 210, so the first check digit of 123456789 is 0. */
  lemma ExampleFirstSum()
    ensures Dot([1, 2, 3, 4, 5, 6, 7, 8, 9], GenWeights(9), 9) == 210
  {
    var xs, ys := [1, 2, 3, 4, 5, 6, 7, 8, 9], GenWeights(9);
    assert ys == [10, 9, 8, 7, 6, 5, 4, 3, 2];
    assert Dot(xs, ys, 1) == 10;
    assert Dot(xs, ys, 2) == 28;
    assert Dot(xs, ys, 3) == 52;
    assert Dot(xs, ys, 4) == 80;
    assert Dot(xs, ys, 5) == 110;
    assert Dot(xs, ys, 6) == 140;
    assert Dot(xs, ys, 7) == 168;
    assert Dot(xs, ys, 8) == 192;
  }

  /** With 0 appended, the weighted sum under 11..2 is 255, so the second check digit is 9. */
  lemma ExampleSecondSum()
    ensures Dot([1, 2, 3, 4, 5, 6, 7, 8, 9, 0], GenWeights(10), 10) == 255
  {
    var xs, ys := [1, 2, 3, 4, 5, 6, 7, 8, 9, 0], GenWeights(10);
    assert ys == [11, 10, 9, 8, 7, 6, 5, 4, 3, 2];
    assert Dot(xs, ys, 1) == 11;
    assert Dot(xs, ys, 2) == 31;
    assert Dot(xs, ys, 3) == 58;
    assert Dot(xs, ys, 4) == 90;
    assert Dot(xs, ys, 5) == 125;
    assert Dot(xs, ys, 6) == 161;
    assert Dot(xs, ys, 7) == 196;
    assert Dot(xs, ys, 8) == 228;
    assert Dot(xs, ys, 9) == 255;
  }

  /** 123.456.789-09 is valid: its check digits are 0 and 9. */
  lemma ExampleValid()
    ensures Valid([1, 2, 3, 4, 5, 6, 7, 8, 9, 0, 9])
  {
    var first := [1, 2, 3, 4, 5, 6, 7, 8, 9];
    var d := [1, 2, 3, 4, 5, 6, 7, 8, 9, 0, 9];
    ExampleFirstSum();
    ExampleSecondSum();
    assert first + [0] == [1, 2, 3, 4, 5, 6, 7, 8, 9, 0];
    assert d[..9] == first && d[..10] == first + [0];
    ValidMeans(d);
    assert d[0] != d[1];
  }

  /** 111.111.111-11 has the right check digits, yet it is one of the exceptions and so is not valid. */
  lemma ExampleRepdigit()
    ensures Completed([1, 1, 1, 1, 1, 1, 1, 1, 1]) == [1, 1, 1, 1, 1, 1, 1, 1, 1, 1, 1]
    ensures !Valid([1, 1, 1, 1, 1, 1, 1, 1, 1, 1, 1])
  {
    RepdigitCompleted();
    var d := [1, 1, 1, 1, 1, 1, 1, 1, 1, 1, 1];
    assert AllSame(d);
    ValidMeans(d);
  }

  lemma RepdigitCompleted()
    ensures Completed([1, 1, 1, 1, 1, 1, 1, 1, 1]) == [1, 1, 1, 1, 1, 1, 1, 1, 1, 1, 1]
  {
    var first := [1, 1, 1, 1, 1, 1, 1, 1, 1];
    var ten := [1, 1, 1, 1, 1, 1, 1, 1, 1, 1];
    RepdigitFirstSum();
    assert NextDigit(first) == 1;
    assert first + [1] == ten;
    RepdigitSecondSum();
    assert NextDigit(ten) == 1;
  }

  /** The weighted sum of nine ones under 10..2 is 54, so the first check digit is 1. */
  lemma RepdigitFirstSum()
    ensures Dot([1, 1, 1, 1, 1, 1, 1, 1, 1], GenWeights(9), 9) == 54
  {
    var xs, ys := [1, 1, 1, 1, 1, 1, 1, 1, 1], GenWeights(9);
    assert ys == [10, 9, 8, 7, 6, 5, 4, 3, 2];
    assert Dot(xs, ys, 1) == 10;
    assert Dot(xs, ys, 2) == 19;
    assert Dot(xs, ys, 3) == 27;
    assert Dot(xs, ys, 4) == 34;
    assert Dot(xs, ys, 5) == 40;
    assert Dot(xs, ys, 6) == 45;
    assert Dot(xs, ys, 7) == 49;
    assert Dot(xs, ys, 8) == 52;
  }

  /** The weighted sum of ten ones under 11..2 is 65, so the second check digit is 1 too. */
  lemma RepdigitSecondSum()
    ensures Dot([1, 1, 1, 1, 1, 1, 1, 1, 1, 1], GenWeights(10), 10) == 65
  {
    var xs, ys := [1, 1, 1, 1, 1, 1, 1, 1, 1, 1], GenWeights(10);
    assert ys == [11, 10, 9, 8, 7, 6, 5, 4, 3, 2];
    assert Dot(xs, ys, 1) == 11;
    assert Dot(xs, ys, 2) == 21;
    assert Dot(xs, ys, 3) == 30;
    assert Dot(xs, ys, 4) == 38;
    assert Dot(xs, ys, 5) == 45;
    assert Dot(xs, ys, 6) == 51;
    assert Dot(xs, ys, 7) == 56;
    assert Dot(xs, ys, 8) == 60;
    assert Dot(xs, ys, 9) == 63;
  }
}
