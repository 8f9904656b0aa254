/**
 * The names androidbak gives its backup files, `YYYYMMDD-HHMM-Npackages.ab`,
 * and `get_info`, which reads the date and the package count back from such
 * a name with a regular expression anchored at the start only.
 */
module BackupInfo {
  import opened Wrappers
  import opened Text

  /** A `datetime` to the minute: what `get_info` builds and what the name records. */
  datatype DateTime = DateTime(year: int, month: int, day: int, hour: int, minute: int)

  /** What `get_info` returns when the name matches: the date and the number of packages. */
  datatype Info = Info(date: DateTime, packages: nat)

  predicate IsLeap(year: int)
  {
    year % 4 == 0 && (year % 100 != 0 || year % 400 == 0)
  }

  function DaysInMonth(year: int, month: int): (n: int)
    requires 1 <= month <= 12
    ensures 28 <= n <= 31
  {
    if month == 2 then (if IsLeap(year) then 29 else 28)
    else if month in {4, 6, 9, 11} then 30
    else 31
  }

  /** The fields `datetime(year, month, day, hour, minute)` accepts without `ValueError`. */
  predicate ValidDateTime(t: DateTime)
  {
    && 1 <= t.year <= 9999
    && 1 <= t.month <= 12
    && 1 <= t.day <= DaysInMonth(t.year, t.month)
    && 0 <= t.hour <= 23
    && 0 <= t.minute <= 59
  }

  /** The literal text after the count: `packages`, any character but a new line, then `ab`. */
  predicate TailMatches(s: string)
  {
    |s| == 11 && s[..8] == "packages" && s[8] != '\n' && s[9..] == "ab"
  }

  /**
   * `re.match('(\d{4})(\d{2})(\d{2})-(\d{2})(\d{2})-(\d)packages.ab', name)`:
   * 26 characters at the start of the name; whatever follows is ignored.
   */
  predicate Matches(name: string)
  {
    && |name| >= 26
    && AllDigits(name[..8]) && name[8] == '-'
    && AllDigits(name[9..13]) && name[13] == '-'
    && IsDigit(name[14]) && TailMatches(name[15..26])
  }

  /** The number the digits of `name[i..j]` spell. */
  function Field(name: string, i: nat, j: nat): nat
    requires i <= j <= |name| && AllDigits(name[i..j])
  {
    DigitsValue(name[i..j])
  }

  /** The date a matching name spells, before `datetime` checks it. */
  function NameDate(name: string): DateTime
    requires Matches(name)
  {
    assert forall k :: 0 <= k < 4 ==> name[..4][k] == name[..8][k];
    assert forall k :: 0 <= k < 2 ==> name[4..6][k] == name[..8][k + 4] && name[6..8][k] == name[..8][k + 6];
    assert forall k :: 0 <= k < 2 ==> name[9..11][k] == name[9..13][k] && name[11..13][k] == name[9..13][k + 2];
    DateTime(Field(name, 0, 4), Field(name, 4, 6), Field(name, 6, 8), Field(name, 9, 11), Field(name, 11, 13))
  }

  /**
   * `get_info(backup_file)`: `(datetime, count)` for a matching name whose
   * date exists, `(None, None)` (here `None`) for a name that does not match,
   * and `ValueError` from `datetime` for a matching name whose date does not
   * exist.
   */
  function GetInfo(name: string): (r: Result<Option<Info>>)
    ensures r == Ok(None) <==> !Matches(name)
    ensures r.Err? <==> Matches(name) && !ValidDateTime(NameDate(name))
    ensures r.Err? ==> r.error == ValueError
    ensures r.Ok? && r.value.Some? ==> ValidDateTime(r.value.value.date) && r.value.value.packages <= 9
  {
    if !Matches(name) then Ok(None)
    else
      var date := NameDate(name);
      if ValidDateTime(date) then Ok(Some(Info(date, DigitValue(name[14]))))
      else Err(ValueError)
  }

  /** Only the first 26 characters matter: the pattern is anchored at the start, not at the end. */
  lemma TrailingIgnored(name: string, rest: string)
    requires |name| >= 26
    ensures GetInfo(name + rest) == GetInfo(name)
  {
    var s := name + rest;
    assert s[..8] == name[..8] && s[9..13] == name[9..13] && s[15..26] == name[15..26];
    assert s[..4] == name[..4] && s[4..6] == name[4..6] && s[6..8] == name[6..8];
    assert s[9..11] == name[9..11] && s[11..13] == name[11..13];
  }

  /** The unescaped `.` before `ab` accepts any character but a new line in place of the dot. */
  lemma DotMatchesAny(name: string, c: char)
    requires Matches(name) && c != '\n'
    ensures Matches(name[23 := c]) && GetInfo(name[23 := c]) == GetInfo(name)
  {
    var s := name[23 := c];
    assert s[..8] == name[..8] && s[9..13] == name[9..13];
    assert s[..4] == name[..4] && s[4..6] == name[4..6] && s[6..8] == name[6..8];
    assert s[9..11] == name[9..11] && s[11..13] == name[11..13];
    assert s[15..23] == name[15..23] && s[24..26] == name[24..26];
    assert s[15..26][..8] == s[15..23] && s[15..26][9..] == s[24..26];
    assert name[15..26][..8] == name[15..23] && name[15..26][9..] == name[24..26];
  }

  // ---------------------------------------------------------------------------
  // The name backup_packages gives its output

  function Pow10(n: nat): (p: nat)
    ensures p >= 1
  {
    if n == 0 then 1 else 10 * Pow10(n - 1)
  }

  /** The last `width` decimal digits of `n`, zero-padded: `strftime`'s `%Y` (4) and `%m %d %H %M` (2). */
  function Padded(n: nat, width: nat): (s: string)
    ensures |s| == width && AllDigits(s)
  {
    if width == 0 then "" else Padded(n / 10, width - 1) + [DigitChar(n % 10)]
  }

  lemma {:induction false} PaddedValue(n: nat, width: nat)
    requires n < Pow10(width)
    ensures DigitsValue(Padded(n, width)) == n
  {
    if width > 0 {
      var s := Padded(n, width);
      assert s[..|s| - 1] == Padded(n / 10, width - 1);
      assert n / 10 < Pow10(width - 1);
      PaddedValue(n / 10, width - 1);
    }
  }

  /** `'{}-{}packages.ab'.format(now.strftime('%Y%m%d-%H%M'), len(packages))`. */
  function BackupName(t: DateTime, count: nat): string
    requires ValidDateTime(t)
  {
    Padded(t.year, 4) + Padded(t.month, 2) + Padded(t.day, 2) + "-" + Padded(t.hour, 2) + Padded(t.minute, 2)
      + "-" + NatToString(count) + "packages.ab"
  }

  /** The pieces of a backup name sit at the offsets the pattern reads. */
  lemma NameLayout(t: DateTime, count: nat)
    requires ValidDateTime(t)
    ensures var name := BackupName(t, count);
      && |name| == 25 + |NatToString(count)|
      && name[..4] == Padded(t.year, 4) && name[4..6] == Padded(t.month, 2) && name[6..8] == Padded(t.day, 2)
      && name[8] == '-' && name[9..11] == Padded(t.hour, 2) && name[11..13] == Padded(t.minute, 2)
      && name[13] == '-' && name[14..14 + |NatToString(count)|] == NatToString(count)
      && name[14 + |NatToString(count)|..] == "packages.ab"
  {
    PiecesLayout(Padded(t.year, 4), Padded(t.month, 2), Padded(t.day, 2), Padded(t.hour, 2), Padded(t.minute, 2),
      NatToString(count));
  }

  lemma PiecesLayout(y: string, mo: string, d: string, h: string, mi: string, c: string)
    requires |y| == 4 && |mo| == 2 && |d| == 2 && |h| == 2 && |mi| == 2
    ensures var name := y + mo + d + "-" + h + mi + "-" + c + "packages.ab";
      && |name| == 25 + |c|
      && name[..4] == y && name[4..6] == mo && name[6..8] == d
      && name[8] == '-' && name[9..11] == h && name[11..13] == mi
      && name[13] == '-' && name[14..14 + |c|] == c
      && name[14 + |c|..] == "packages.ab"
  {
    var stamp := y + mo + d + "-" + h + mi;
    var name := y + mo + d + "-" + h + mi + "-" + c + "packages.ab";
    assert name == stamp + ("-" + c + "packages.ab");
    assert stamp[..4] == y && stamp[4..6] == mo && stamp[6..8] == d;
    assert stamp[8] == '-' && stamp[9..11] == h && stamp[11..13] == mi;
  }

  /**
   * A name built from a date and fewer than ten packages reads back as that
   * date, to the minute, and that count.
   */
  lemma NameReadsBack(t: DateTime, count: nat)
    requires ValidDateTime(t) && count <= 9
    ensures GetInfo(BackupName(t, count)) == Ok(Some(Info(t, count)))
  {
    var name := BackupName(t, count);
    NameMatches(t, count);
    NameDateIs(t, count);
    NameLayout(t, count);
    assert NatToString(count) == [DigitChar(count)];
    assert name[14] == DigitChar(count);
  }

  lemma NameMatches(t: DateTime, count: nat)
    requires ValidDateTime(t) && count <= 9
    ensures Matches(BackupName(t, count))
  {
    var name := BackupName(t, count);
    NameLayout(t, count);
    assert NatToString(count) == [DigitChar(count)];
    LayoutMatches(name, Padded(t.year, 4), Padded(t.month, 2), Padded(t.day, 2), Padded(t.hour, 2), Padded(t.minute, 2));
  }

  /** Digits, a dash, digits, a dash, one digit and `packages.ab` at those offsets match the pattern. */
  lemma LayoutMatches(name: string, y: string, mo: string, d: string, h: string, mi: string)
    requires |name| == 26 && AllDigits(y) && AllDigits(mo) && AllDigits(d) && AllDigits(h) && AllDigits(mi)
    requires name[..4] == y && name[4..6] == mo && name[6..8] == d
    requires name[8] == '-' && name[9..11] == h && name[11..13] == mi
    requires name[13] == '-' && IsDigit(name[14]) && name[15..] == "packages.ab"
    ensures Matches(name)
  {
    forall k | 0 <= k < 8 ensures IsDigit(name[..8][k]) {
      if k < 4 { assert name[k] == y[k]; }
      else if k < 6 { assert name[k] == mo[k - 4]; }
      else { assert name[k] == d[k - 6]; }
    }
    forall k | 0 <= k < 4 ensures IsDigit(name[9..13][k]) {
      if k < 2 { assert name[9 + k] == h[k]; }
      else { assert name[9 + k] == mi[k - 2]; }
    }
    assert name[15..26] == "packages.ab";
  }

  lemma NameDateIs(t: DateTime, count: nat)
    requires ValidDateTime(t) && count <= 9 && Matches(BackupName(t, count))
    ensures NameDate(BackupName(t, count)) == t
  {
    NameLayout(t, count);
    PaddedValue(t.year, 4);
    PaddedValue(t.month, 2);
    PaddedValue(t.day, 2);
    PaddedValue(t.hour, 2);
    PaddedValue(t.minute, 2);
  }

  /** With ten packages or more the count has two digits, the pattern allows one, and the name reads as `(None, None)`. */
  lemma ManyPackagesUnread(t: DateTime, count: nat)
    requires ValidDateTime(t) && count >= 10
    ensures GetInfo(BackupName(t, count)) == Ok(None)
  {
    var name := BackupName(t, count);
    var c := NatToString(count);
    NameLayout(t, count);
    assert name[15] == c[1] && IsDigit(c[1]);
    DigitAfterCountUnmatched(name);
  }

  /** A second digit where `packages.ab` should start fails the pattern. */
  lemma DigitAfterCountUnmatched(name: string)
    requires |name| > 15 && IsDigit(name[15])
    ensures !Matches(name)
  {
    if |name| >= 26 {
      assert name[15..26][0] == name[15];
      assert name[15..26][..8][0] == name[15];
    }
  }
}
