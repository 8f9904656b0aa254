/**
 * The `CNPJ` class of business/cnpj.py: a Brazilian company registration
 * number of 14 digits, the last two of which are modulo-11 check digits.
 * The object never changes after construction, so it is a value here.
 */
module Cnpj {
  import opened Wrappers
  import opened Text
  import opened DocNumbers

  /** What the constructor is given: a string, or a list (or tuple) of numbers. */
  datatype Arg = Str(s: string) | List(xs: seq<int>)

  /** A constructed number: the list `self.cnpj`, at least 14 entries long. */
  datatype CNPJ = CNPJ(digits: seq<int>)

  /** The weights of the first check digit; the second prepends a 6. */
  const Weights: seq<int> := [5, 4, 3, 2, 9, 8, 7, 6, 5, 4, 3, 2]

  /** Where `__str__` inserts its punctuation, in the order it does. */
  const Marks: seq<(nat, string)> := [(2, "."), (6, "."), (10, "/"), (15, "-")]

  // ---------------------------------------------------------------------------
  // Construction

  /** The string with every '.', '-' and '/' replaced by nothing, in that order. */
  function Unpunctuated(s: string): string
  {
    Replace(Replace(Replace(s, ".", ""), "-", ""), "/", "")
  }

  /**
   * `CNPJ(arg)`: a string that is not all digits loses its punctuation; fewer
   * than 14 entries raise `ValueError`, as does a character `int` refuses.
   */
  function New(arg: Arg): (r: Result<CNPJ>)
    ensures r.Ok? ==> |r.value.digits| >= 14
    ensures r.Err? ==> r.error == ValueError
    ensures arg.List? ==> (r.Ok? <==> |arg.xs| >= 14) && (r.Ok? ==> r.value.digits == arg.xs)
  {
    match arg
    case Str(s) =>
      var t := if IsDigitText(s) then s else Unpunctuated(s);
      if |t| < 14 then Err(ValueError)
      else
        var ds :- IntEach(t);
        Ok(CNPJ(ds))
    case List(xs) =>
      if |xs| < 14 then Err(ValueError) else Ok(CNPJ(xs))
  }

  /** `Unpunctuated` removes exactly the three punctuation characters and keeps the rest in order. */
  lemma UnpunctuatedDrops(s: string)
    ensures Unpunctuated(s) == Drop(Drop(Drop(s, '.'), '-'), '/')
  {
    ReplaceDrops(s, '.');
    ReplaceDrops(Drop(s, '.'), '-');
    ReplaceDrops(Drop(Drop(s, '.'), '-'), '/');
  }

  /**
   * A string is accepted exactly when, without its '.', '-' and '/', it is at
   * least 14 characters long and all digits; the number is then those digits.
   */
  lemma NewSpec(s: string)
    ensures var t := Drop(Drop(Drop(s, '.'), '-'), '/');
      (New(Str(s)).Ok? <==> |t| >= 14 && AllDigits(t)) && (New(Str(s)).Ok? ==> New(Str(s)).value.digits == Values(t))
  {
    var t := Drop(Drop(Drop(s, '.'), '-'), '/');
    Prepared(s);
    IntEachSpec(t);
  }

  /** What the constructor converts: the string itself when it is all digits, which is then its unpunctuated form too. */
  lemma Prepared(s: string)
    ensures (if IsDigitText(s) then s else Unpunctuated(s)) == Drop(Drop(Drop(s, '.'), '-'), '/')
  {
    UnpunctuatedDrops(s);
    if IsDigitText(s) {
      DropDigits(s, '.');
      DropDigits(s, '-');
      DropDigits(s, '/');
    }
  }

  // ---------------------------------------------------------------------------
  // Indexing, representation and equality

  /** `a[index]`: the entry rendered with `str`, negative indices from the end; `IndexError` outside. */
  function GetItem(c: CNPJ, index: int): (r: Result<string>)
    ensures r.Ok? <==> -|c.digits| <= index < |c.digits|
    ensures r.Err? ==> r.error == IndexError
    ensures r.Ok? && Decimal(c.digits) ==>
      var i := if index < 0 then index + |c.digits| else index;
      r.value == [DigitChar(c.digits[i])]
  {
    match PyIndex(|c.digits|, index)
    case None => Err(IndexError)
    case Some(i) => Ok(IntToString(c.digits[i]))
  }

  /** `repr(a)`: `CNPJ('` and the entries written one after the other, then `')`. */
  function Repr(c: CNPJ): string
  {
    "CNPJ('" + DigitString(c.digits) + "')"
  }

  /** `eval(repr(a)) == a` for a number of single digits: the quoted text constructs the same number. */
  lemma ReprRoundTrip(c: CNPJ)
    requires |c.digits| >= 14 && Decimal(c.digits)
    ensures var text := Repr(c)[6..|Repr(c)| - 2];
      Repr(c) == "CNPJ('" + text + "')" && New(Str(text)) == Ok(c)
  {
    var text := DigitString(c.digits);
    DigitStringChars(c.digits);
    assert Repr(c)[6..|Repr(c)| - 2] == text;
    IntEachSpec(text);
  }

  /** `a == other`: another `CNPJ` with the same entries; never equal to anything else. */
  function Eq(c: CNPJ, other: Option<CNPJ>): (r: bool)
    ensures r <==> other == Some(c)
  {
    match other
    case None => false
    case Some(o) => c.digits == o.digits
  }

  // ---------------------------------------------------------------------------
  // Formatting

  /** The form xx.xxx.xxx/xxxx-xx, with any entries past the 14th after the last two. */
  function Format(d: seq<int>): string
    requires |d| >= 14
  {
    DigitString(d[..2]) + "." + DigitString(d[2..5]) + "." + DigitString(d[5..8]) + "/"
    + DigitString(d[8..12]) + "-" + DigitString(d[12..])
  }

  /** `str(a)`: the rendered entries with the four marks inserted at their positions. */
  method ToString(c: CNPJ) returns (r: string)
    requires |c.digits| >= 14
    ensures r == Format(c.digits)
  {
    var s := Strs(c.digits);
    for k := 0 to |Marks|
      invariant s == InsertAll(Strs(c.digits), Marks[..k])
    {
      assert Marks[..k + 1] == Marks[..k] + [Marks[k]];
      InsertAllSnoc(Strs(c.digits), Marks[..k], Marks[k]);
      s := Insert(s, Marks[k].0, Marks[k].1);
    }
    assert Marks[..|Marks|] == Marks;
    MarksLayout(c.digits);
    r := Join("", s);
  }

  /** Inserting the four marks into the 14 or more rendered entries, then joining, gives `Format`. */
  lemma MarksLayout(d: seq<int>)
    requires |d| >= 14
    ensures Join("", InsertAll(Strs(d), Marks)) == Format(d)
  {
    var s := Strs(d);
    MarksInOrder(s);
    MarksPlaced(s);
    JoinPieces(d, s, InsertAll(s, Marks));
  }

  /** The four marks are inserted one after the other. */
  lemma MarksInOrder(s: seq<string>)
    ensures InsertAll(s, Marks) == Insert(Insert(Insert(Insert(s, 2, "."), 6, "."), 10, "/"), 15, "-")
  {
    var m1, m2, m3, m4 := (2, "."), (6, "."), (10, "/"), (15, "-");
    assert Marks == [m1, m2, m3] + [m4];
    assert [m1] == [] + [m1] && [m1, m2] == [m1] + [m2] && [m1, m2, m3] == [m1, m2] + [m3];
    InsertAllSnoc(s, [], m1);
    InsertAllSnoc(s, [m1], m2);
    InsertAllSnoc(s, [m1, m2], m3);
    InsertAllSnoc(s, [m1, m2, m3], m4);
  }

  /** Each mark lands after the group before it: 2, 3, 3 and 4 entries, then the rest. */
  lemma MarksPlaced(s: seq<string>)
    requires |s| >= 14
    ensures Insert(Insert(Insert(Insert(s, 2, "."), 6, "."), 10, "/"), 15, "-")
         == s[..2] + ["."] + s[2..5] + ["."] + s[5..8] + ["/"] + s[8..12] + ["-"] + s[12..]
  {
    var a, b, c, e, f := s[..2], s[2..5], s[5..8], s[8..12], s[12..];
    assert s == a + (b + c + e + f);
    InsertBetween(a, b + c + e + f, ".");
    var l1 := a + ["."] + (b + c + e + f);
    assert l1 == (a + ["."] + b) + (c + e + f);
    InsertBetween(a + ["."] + b, c + e + f, ".");
    var l2 := (a + ["."] + b) + ["."] + (c + e + f);
    assert l2 == (a + ["."] + b + ["."] + c) + (e + f);
    InsertBetween(a + ["."] + b + ["."] + c, e + f, "/");
    var l3 := (a + ["."] + b + ["."] + c) + ["/"] + (e + f);
    assert l3 == (a + ["."] + b + ["."] + c + ["/"] + e) + f;
    InsertBetween(a + ["."] + b + ["."] + c + ["/"] + e, f, "-");
  }

  lemma JoinPieces(d: seq<int>, s: seq<string>, l: seq<string>)
    requires |d| >= 14 && s == Strs(d)
    requires l == s[..2] + ["."] + s[2..5] + ["."] + s[5..8] + ["/"] + s[8..12] + ["-"] + s[12..]
    ensures Join("", l) == Format(d)
  {
    assert s[..2] == Strs(d[..2]) && s[2..5] == Strs(d[2..5]) && s[5..8] == Strs(d[5..8]);
    assert s[8..12] == Strs(d[8..12]) && s[12..] == Strs(d[12..]);
    var a := s[..2] + ["."] + s[2..5] + ["."] + s[5..8] + ["/"] + s[8..12] + ["-"];
    JoinNothingAppend(a, s[12..]);
    var b := s[..2] + ["."] + s[2..5] + ["."] + s[5..8] + ["/"] + s[8..12];
    JoinNothingAppend(b, ["-"]);
    var e := s[..2] + ["."] + s[2..5] + ["."] + s[5..8] + ["/"];
    JoinNothingAppend(e, s[8..12]);
    var f := s[..2] + ["."] + s[2..5] + ["."] + s[5..8];
    JoinNothingAppend(f, ["/"]);
    var g := s[..2] + ["."] + s[2..5] + ["."];
    JoinNothingAppend(g, s[5..8]);
    var h := s[..2] + ["."] + s[2..5];
    JoinNothingAppend(h, ["."]);
    var i := s[..2] + ["."];
    JoinNothingAppend(i, s[2..5]);
    JoinNothingAppend(s[..2], ["."]);
  }

  /**
   * The formatted number reads back as itself: `CNPJ(str(a)) == a`, so the
   * punctuated and the plain forms of a number are equal.
   */
  lemma FormatRoundTrip(c: CNPJ)
    requires |c.digits| >= 14 && Decimal(c.digits)
    ensures New(Str(Format(c.digits))) == Ok(c)
    ensures New(Str(Format(c.digits))) == New(Str(DigitString(c.digits)))
  {
    var d := c.digits;
    var s := Format(d);
    var t := Drop(Drop(Drop(s, '.'), '-'), '/');
    FormatUnpunctuated(d);
    assert t == Chars(d);
    NewSpec(s);
    DigitStringChars(d);
    PlainRoundTrip(c);
  }

  /** The digits written out without punctuation read back as the same number. */
  lemma PlainRoundTrip(c: CNPJ)
    requires |c.digits| >= 14 && Decimal(c.digits)
    ensures New(Str(DigitString(c.digits))) == Ok(c)
  {
    var text := DigitString(c.digits);
    DigitStringChars(c.digits);
    assert IsDigitText(text);
    IntEachSpec(text);
  }

  /** Without its punctuation, the formatted number is the digits one after the other. */
  lemma FormatUnpunctuated(d: seq<int>)
    requires |d| >= 14 && Decimal(d)
    ensures Drop(Drop(Drop(Format(d), '.'), '-'), '/') == Chars(d)
  {
    var a, b, e, f, g := Chars(d[..2]), Chars(d[2..5]), Chars(d[5..8]), Chars(d[8..12]), Chars(d[12..]);
    FormatPieces(d);
    Unpunctuate(a, b, e, f, g);
    PiecesChars(d);
  }

  /** The formatted number is its five groups of digit characters with the marks between them. */
  lemma FormatPieces(d: seq<int>)
    requires |d| >= 14 && Decimal(d)
    ensures var a, b, e, f, g := Chars(d[..2]), Chars(d[2..5]), Chars(d[5..8]), Chars(d[8..12]), Chars(d[12..]);
      Format(d) == a + ("." + (b + ("." + (e + ("/" + (f + ("-" + g)))))))
  {
    DigitStringChars(d[..2]);
    DigitStringChars(d[2..5]);
    DigitStringChars(d[5..8]);
    DigitStringChars(d[8..12]);
    DigitStringChars(d[12..]);
    var a, b, e, f, g := Chars(d[..2]), Chars(d[2..5]), Chars(d[5..8]), Chars(d[8..12]), Chars(d[12..]);
    assert Format(d) == a + "." + b + "." + e + "/" + f + "-" + g;
    Reassociate(a, b, e, f, g);
  }

  lemma Reassociate(a: string, b: string, e: string, f: string, g: string)
    ensures a + "." + b + "." + e + "/" + f + "-" + g == a + ("." + (b + ("." + (e + ("/" + (f + ("-" + g)))))))
  {
  }

  /** The five groups of digit characters, one after the other, are the characters of all the digits. */
  lemma PiecesChars(d: seq<int>)
    requires |d| >= 14 && Decimal(d)
    ensures Chars(d[..2]) + (Chars(d[2..5]) + (Chars(d[5..8]) + (Chars(d[8..12]) + Chars(d[12..])))) == Chars(d)
  {
    var x := Chars(d[..2]) + (Chars(d[2..5]) + (Chars(d[5..8]) + (Chars(d[8..12]) + Chars(d[12..]))));
    forall i | 0 <= i < |d|
      ensures x[i] == Chars(d)[i]
    {
    }
  }

  /** Removing the punctuation from five runs of digits joined by '.', '.', '/' and '-' leaves the runs. */
  lemma Unpunctuate(a: string, b: string, e: string, f: string, g: string)
    requires AllDigits(a) && AllDigits(b) && AllDigits(e) && AllDigits(f) && AllDigits(g)
    ensures Drop(Drop(Drop(a + ("." + (b + ("." + (e + ("/" + (f + ("-" + g))))))), '.'), '-'), '/')
         == a + (b + (e + (f + g)))
  {
    DropMarks(a, b, e, f, g, '.', '/', '-');
  }

  // ---------------------------------------------------------------------------
  // Validation

  /** `sum(x * y for x, y in zip(xs, ys))`: pairs up to the shorter list. */
  function ZipSum(xs: seq<int>, ys: seq<int>): int
  {
    Dot(xs, ys, if |xs| <= |ys| then |xs| else |ys|)
  }

  /** Twelve leading digits followed by their two check digits. */
  function Completed(first: seq<int>): (r: seq<int>)
    requires |first| == 12
    ensures |r| == 14 && r[..12] == first
  {
    var d1 := CheckDigit(ZipSum(first, Weights));
    var d2 := CheckDigit(ZipSum(first + [d1], [6] + Weights));
    first + [d1, d2]
  }

  /** What `isValid` reports: the entries are the first twelve with their check digits, and nothing more. */
  predicate Valid(d: seq<int>)
  {
    |d| >= 12 && d == Completed(d[..12])
  }

  /** `a.isValid()`: the loop appends the two check digits to the first twelve and compares. */
  method IsValid(c: CNPJ) returns (valid: bool)
    requires |c.digits| >= 14
    ensures valid <==> Valid(c.digits)
  {
    var first := c.digits[..12];
    var d1 := CheckDigit(ZipSum(first, Weights));
    var d2 := CheckDigit(ZipSum(first + [d1], [6] + Weights));
    var goal := Completed(first);
    assert goal == first + [d1, d2];
    var cnpj := first;
    var prod := Weights;
    while |cnpj| < 14
      invariant 12 <= |cnpj| <= 14 && cnpj == goal[..|cnpj|]
      invariant prod == (if |cnpj| == 12 then Weights else if |cnpj| == 13 then [6] + Weights else [6, 6] + Weights)
      decreases 14 - |cnpj|
    {
      var r := ZipSum(cnpj, prod) % 11;
      var f;
      if r > 1 {
        f := 11 - r;
      } else {
        f := 0;
      }
      assert f == CheckDigit(ZipSum(cnpj, prod));
      if |cnpj| == 12 {
        assert cnpj == first && f == d1;
      } else {
        assert cnpj == first + [d1] && f == d2;
      }
      cnpj := cnpj + [f];
      prod := [6] + prod;
    }
    valid := cnpj == c.digits;
  }

  /**
   * A valid number has exactly 14 entries; the 13th is the check digit of the
   * first twelve under weights 5,4,3,2,9,8,7,6,5,4,3,2 and the 14th that of
   * the first thirteen under 6,5,4,3,2,9,8,7,6,5,4,3,2; both are single digits.
   */
  lemma ValidMeans(d: seq<int>)
    ensures Valid(d) <==> |d| == 14 && d[12] == CheckDigit(ZipSum(d[..12], Weights))
                                    && d[13] == CheckDigit(ZipSum(d[..13], [6] + Weights))
    ensures Valid(d) ==> 0 <= d[12] <= 9 && 0 <= d[13] <= 9
  {
    if |d| == 14 {
      assert d[..13] == d[..12] + [d[12]];
      assert d == d[..12] + [d[12], d[13]];
    }
  }

  /** Any twelve entries have exactly one valid completion, and changing a check digit invalidates it. */
  lemma CheckDigitsDetermined(d: seq<int>, x: int)
    requires Valid(d)
    ensures forall e :: Valid(e) && e[..12] == d[..12] ==> e == d
    ensures x != d[13] ==> !Valid(d[13 := x])
    ensures x != d[12] ==> !Valid(d[12 := x])
  {
    assert d[13 := x][..12] == d[..12] && d[12 := x][..12] == d[..12];
  }

  /** The weighted sum of the first twelve digits of 11222333000181 is 102, so its first check digit is 8. */
  lemma ExampleFirstSum()
    ensures ZipSum([1, 1, 2, 2, 2, 3, 3, 3, 0, 0, 0, 1], Weights) == 102
  {
    var xs, ys := [1, 1, 2, 2, 2, 3, 3, 3, 0, 0, 0, 1], Weights;
    assert Dot(xs, ys, 1) == 5;
    assert Dot(xs, ys, 2) == 9;
    assert Dot(xs, ys, 3) == 15;
    assert Dot(xs, ys, 4) == 19;
    assert Dot(xs, ys, 5) == 37;
    assert Dot(xs, ys, 6) == 61;
    assert Dot(xs, ys, 7) == 82;
    assert Dot(xs, ys, 8) == 100;
    assert Dot(xs, ys, 9) == 100;
    assert Dot(xs, ys, 10) == 100;
    assert Dot(xs, ys, 11) == 100;
  }

  /** With the first check digit 8 appended, the weighted sum is 120, so the second check digit is 1. */
  lemma ExampleSecondSum()
    ensures ZipSum([1, 1, 2, 2, 2, 3, 3, 3, 0, 0, 0, 1, 8], [6, 5, 4, 3, 2, 9, 8, 7, 6, 5, 4, 3, 2]) == 120
  {
    var xs, ys := [1, 1, 2, 2, 2, 3, 3, 3, 0, 0, 0, 1, 8], [6, 5, 4, 3, 2, 9, 8, 7, 6, 5, 4, 3, 2];
    assert Dot(xs, ys, 1) == 6;
    assert Dot(xs, ys, 2) == 11;
    assert Dot(xs, ys, 3) == 19;
    assert Dot(xs, ys, 4) == 25;
    assert Dot(xs, ys, 5) == 29;
    assert Dot(xs, ys, 6) == 56;
    assert Dot(xs, ys, 7) == 80;
    assert Dot(xs, ys, 8) == 101;
    assert Dot(xs, ys, 9) == 101;
    assert Dot(xs, ys, 10) == 101;
    assert Dot(xs, ys, 11) == 101;
    assert Dot(xs, ys, 12) == 104;
  }

  /** 11222333000181 is valid: its check digits are 8 and 1. */
  lemma ExampleValid()
    ensures Valid([1, 1, 2, 2, 2, 3, 3, 3, 0, 0, 0, 1, 8, 1])
  {
    var first := [1, 1, 2, 2, 2, 3, 3, 3, 0, 0, 0, 1];
    ExampleFirstSum();
    ExampleSecondSum();
    assert [6] + Weights == [6, 5, 4, 3, 2, 9, 8, 7, 6, 5, 4, 3, 2];
    assert first + [8] == [1, 1, 2, 2, 2, 3, 3, 3, 0, 0, 0, 1, 8];
    var d := [1, 1, 2, 2, 2, 3, 3, 3, 0, 0, 0, 1, 8, 1];
    assert d[..12] == first;
    assert Completed(first) == first + [8, 1];
  }

  /** 11222333000182 is not valid: its last digit is not the second check digit. */
  lemma ExampleInvalid()
    ensures !Valid([1, 1, 2, 2, 2, 3, 3, 3, 0, 0, 0, 1, 8, 2])
  {
    var d := [1, 1, 2, 2, 2, 3, 3, 3, 0, 0, 0, 1, 8, 1];
    ExampleValid();
    CheckDigitsDetermined(d, 2);
    assert d[13 := 2] == [1, 1, 2, 2, 2, 3, 3, 3, 0, 0, 0, 1, 8, 2];
  }

  /** The string 11222333000181 and its punctuated form 11.222.333/0001-81 both construct that number. */
  lemma ExampleParse()
    ensures New(Str("11222333000181")) == Ok(CNPJ([1, 1, 2, 2, 2, 3, 3, 3, 0, 0, 0, 1, 8, 1]))
    ensures New(Str("11.222.333/0001-81")) == New(Str("11222333000181"))
  {
    var d := [1, 1, 2, 2, 2, 3, 3, 3, 0, 0, 0, 1, 8, 1];
    assert Chars(d) == "11222333000181";
    DigitStringChars(d);
    PlainRoundTrip(CNPJ(d));
    ExampleFormat(d);
    FormatRoundTrip(CNPJ(d));
  }

  lemma ExampleFormat(d: seq<int>)
    requires d == [1, 1, 2, 2, 2, 3, 3, 3, 0, 0, 0, 1, 8, 1]
    ensures Format(d) == "11.222.333/0001-81"
  {
    var p1, p2, p3, p4, p5 := [1, 1], [2, 2, 2], [3, 3, 3], [0, 0, 0, 1], [8, 1];
    assert d == p1 + p2 + p3 + p4 + p5;
    FormatGroups(p1, p2, p3, p4, p5);
    ExampleGroups();
    ExampleText();
  }

  lemma ExampleText()
    ensures "11" + ("." + ("222" + ("." + ("333" + ("/" + ("0001" + ("-" + "81")))))))
         == "11.222.333/0001-81"
  {
    assert "0001" + ("-" + "81") == "0001-81";
    assert "333" + ("/" + "0001-81") == "333/0001-81";
    assert "222" + ("." + "333/0001-81") == "222.333/0001-81";
  }

  /** `Format` of five groups of 2, 3, 3 and 4 digits and a rest. */
  lemma FormatGroups(p1: seq<int>, p2: seq<int>, p3: seq<int>, p4: seq<int>, p5: seq<int>)
    requires |p1| == 2 && |p2| == 3 && |p3| == 3 && |p4| == 4 && |p5| >= 2
    requires Decimal(p1 + p2 + p3 + p4 + p5)
    ensures Decimal(p1) && Decimal(p2) && Decimal(p3) && Decimal(p4) && Decimal(p5)
    ensures Format(p1 + p2 + p3 + p4 + p5)
         == Chars(p1) + ("." + (Chars(p2) + ("." + (Chars(p3) + ("/" + (Chars(p4) + ("-" + Chars(p5))))))))
  {
    var d := p1 + p2 + p3 + p4 + p5;
    assert d[..2] == p1 && d[2..5] == p2 && d[5..8] == p3 && d[8..12] == p4 && d[12..] == p5;
    FormatPieces(d);
  }

  lemma ExampleGroups()
    ensures Chars([1, 1]) == "11" && Chars([2, 2, 2]) == "222" && Chars([3, 3, 3]) == "333"
    ensures Chars([0, 0, 0, 1]) == "0001" && Chars([8, 1]) == "81"
  {
    assert DigitChar(0) == '0' && DigitChar(1) == '1' && DigitChar(2) == '2';
    assert DigitChar(3) == '3' && DigitChar(8) == '8';
  }

  /** `CNPJ([1,1,2,2,2,3,3,3,0,0,0,1,8,2])` is constructed but is not valid. */
  lemma ExampleList()
    ensures New(List([1, 1, 2, 2, 2, 3, 3, 3, 0, 0, 0, 1, 8, 2])).Ok?
    ensures !Valid(New(List([1, 1, 2, 2, 2, 3, 3, 3, 0, 0, 0, 1, 8, 2])).value.digits)
  {
    ExampleInvalid();
  }
}
