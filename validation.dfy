/** The two input validators of BankSystemGUI: the e-mail shape check and the
    date-of-birth check, with the regular expressions they use restated as
    character classes. */
module Validation {
  import opened Text

  // ---------------------------------------------------------------------
  // validate_email: ^[a-zA-Z0-9._%+-]+@[a-zA-Z0-9.-]+\.[a-zA-Z]{2,}$

  predicate IsAlnum(c: char) { IsLetter(c) || IsDigit(c) }

  /** The class of the local part, [a-zA-Z0-9._%+-]. */
  predicate LocalChar(c: char) {
    IsAlnum(c) || c == '.' || c == '_' || c == '%' || c == '+' || c == '-'
  }

  /** The class of the domain part, [a-zA-Z0-9.-]. */
  predicate DomainChar(c: char) {
    IsAlnum(c) || c == '.' || c == '-'
  }

  predicate AllLocal(s: string) { forall i :: 0 <= i < |s| ==> LocalChar(s[i]) }
  predicate AllDomain(s: string) { forall i :: 0 <= i < |s| ==> DomainChar(s[i]) }
  predicate AllLetters(s: string) { forall i :: 0 <= i < |s| ==> IsLetter(s[i]) }

  /** `s` splits as local '@' domain '.' tld, with '@' at index i and the
      last '.' at index j, every part drawn from its class and non-empty,
      and the top-level label at least two letters long. */
  predicate SplitsAt(s: string, i: int, j: int) {
    && 0 < i && i + 1 < j && j + 2 < |s|
    && s[i] == '@' && s[j] == '.'
    && AllLocal(s[..i]) && AllDomain(s[i + 1..j]) && AllLetters(s[j + 1..])
  }

  /** The strings the regular expression of validate_email matches in full. */
  ghost predicate EmailPattern(s: string) {
    exists i, j :: SplitsAt(s, i, j)
  }

  /** Length of the longest prefix of `s` drawn from the local-part class. */
  function LocalSpan(s: string): (n: nat)
    ensures n <= |s|
    ensures AllLocal(s[..n])
    ensures n < |s| ==> !LocalChar(s[n])
  {
    if s == [] || !LocalChar(s[0]) then 0
    else
      var n := 1 + LocalSpan(s[1..]);
      assert s[..n] == [s[0]] + s[1..][..n - 1];
      n
  }

  /** validate_email, as a left-to-right decision: the local part is the
      longest run of local characters and must be followed by '@'; after it
      every character must be a domain character, and the last '.' must
      leave a non-empty domain before it and two or more letters after it. */
  predicate ValidEmail(s: string) {
    var at := LocalSpan(s);
    && 0 < at < |s| && s[at] == '@'
    && var rest := s[at + 1..];
    && AllDomain(rest)
    && var dot := LastIndexOf(rest, '.');
    && 0 < dot && dot + 2 < |rest| && AllLetters(rest[dot + 1..])
  }

  /** The decision procedure accepts exactly the strings the regular
      expression matches. */
  lemma ValidEmailMatchesPattern(s: string)
    ensures ValidEmail(s) <==> EmailPattern(s)
  {
    if ValidEmail(s) {
      ValidEmailSplits(s);
    }
    if EmailPattern(s) {
      var i, j :| SplitsAt(s, i, j);
      SplitIsValidEmail(s, i, j);
    }
  }

  /** An accepted string splits where the decision found the '@' and the
      last '.'. */
  lemma ValidEmailSplits(s: string)
    requires ValidEmail(s)
    ensures SplitsAt(s, LocalSpan(s), LocalSpan(s) + 1 + LastIndexOf(s[LocalSpan(s) + 1..], '.'))
  {
    var at := LocalSpan(s);
    var rest := s[at + 1..];
    var dot := LastIndexOf(rest, '.');
    var j := at + 1 + dot;
    assert s[at + 1..j] == rest[..dot];
    assert s[j + 1..] == rest[dot + 1..];
  }

  /** Any split the pattern allows is the one the decision finds: the
      local part cannot run past the '@', and no '.' follows the last one. */
  lemma SplitIsValidEmail(s: string, i: int, j: int)
    requires SplitsAt(s, i, j)
    ensures ValidEmail(s)
  {
    assert !LocalChar(s[i]);
    LocalSpanOfSplit(s, i);
    var rest := s[i + 1..];
    assert rest[..j - i - 1] == s[i + 1..j];
    assert rest[j - i..] == s[j + 1..];
    assert AllDomain(rest) by {
      forall k | 0 <= k < |rest| ensures DomainChar(rest[k]) {
        if k < j - i - 1 {
          assert rest[k] == s[i + 1..j][k];
        } else if k > j - i - 1 {
          assert rest[k] == s[j + 1..][k - (j - i)];
        }
      }
    }
    assert rest[j - i - 1] == '.';
    assert forall k :: j - i - 1 < k < |rest| ==> rest[k] == s[j + 1..][k - (j - i)];
  }

  lemma LocalSpanOfSplit(s: string, i: nat)
    requires i < |s| && AllLocal(s[..i]) && !LocalChar(s[i])
    ensures LocalSpan(s) == i
  {
    var n := LocalSpan(s);
    assert forall k :: 0 <= k < i ==> s[k] == s[..i][k];
    assert forall k :: 0 <= k < n ==> s[k] == s[..n][k];
  }

  /** A valid address starts with a local-part character and ends with a
      letter, so it has no whitespace at either end. */
  lemma ValidEmailUnpadded(s: string)
    requires ValidEmail(s)
    ensures !IsSpace(s[0]) && !IsSpace(s[|s| - 1])
  {
    var at := LocalSpan(s);
    assert s[..at][0] == s[0];
    var rest := s[at + 1..];
    var dot := LastIndexOf(rest, '.');
    assert rest[dot + 1..][|rest| - dot - 2] == s[|s| - 1];
  }

  /** Lower-casing a valid address keeps it valid (the stored form). */
  lemma LowerKeepsValidEmail(s: string)
    requires ValidEmail(s)
    ensures ValidEmail(Lower(s))
  {
    ValidEmailMatchesPattern(s);
    var i, j :| SplitsAt(s, i, j);
    var t := Lower(s);
    LowerSlices(s, i, j);
    assert SplitsAt(t, i, j);
    ValidEmailMatchesPattern(t);
  }

  /** Lower-casing maps each class of the pattern into itself. */
  lemma LowerSlices(s: string, i: int, j: int)
    requires SplitsAt(s, i, j)
    ensures Lower(s)[i] == '@' && Lower(s)[j] == '.'
    ensures AllLocal(Lower(s)[..i]) && AllDomain(Lower(s)[i + 1..j]) && AllLetters(Lower(s)[j + 1..])
  {
    var t := Lower(s);
    forall k | 0 <= k < i ensures LocalChar(t[..i][k]) {
      assert s[..i][k] == s[k];
    }
    forall k | i + 1 <= k < j ensures DomainChar(t[k]) {
      assert s[i + 1..j][k - i - 1] == s[k];
    }
    forall k | j + 1 <= k < |s| ensures IsLetter(t[k]) {
      assert s[j + 1..][k - j - 1] == s[k];
    }
  }

  // ---------------------------------------------------------------------
  // validate_dob: ^(\d{4})-(0[1-9]|1[0-2])-([0-2][0-9]|3[01])$ and < "2025"

  /** The shape the regular expression of validate_dob accepts. */
  predicate DobShape(s: string) {
    && |s| == 10
    && IsDigit(s[0]) && IsDigit(s[1]) && IsDigit(s[2]) && IsDigit(s[3])
    && s[4] == '-'
    && ((s[5] == '0' && '1' <= s[6] <= '9') || (s[5] == '1' && '0' <= s[6] <= '2'))
    && s[7] == '-'
    && (('0' <= s[8] <= '2' && IsDigit(s[9])) || (s[8] == '3' && '0' <= s[9] <= '1'))
  }

  /** validate_dob: the shape matches and the whole matched text compares
      below "2025" as a string. */
  predicate ValidDob(s: string) {
    DobShape(s) && LexLess(s, "2025")
  }

  /** YYYY-MM-DD with digits in every numeric position. */
  predicate IsoDigits(s: string) {
    |s| == 10 && s[4] == '-' && s[7] == '-' &&
    AllDigits(s[..4]) && AllDigits(s[5..7]) && AllDigits(s[8..10])
  }

  function Year(s: string): nat requires IsoDigits(s) { DigitsValue(s[..4]) }
  function Month(s: string): nat requires IsoDigits(s) { DigitsValue(s[5..7]) }
  function Day(s: string): nat requires IsoDigits(s) { DigitsValue(s[8..10]) }

  lemma TwoDigits(t: string)
    requires |t| == 2 && AllDigits(t)
    ensures DigitsValue(t) == 10 * DigitValue(t[0]) + DigitValue(t[1])
  {
    var h := t[..1];
    assert h[..0] == [] && h[0] == t[0] && t[1] == t[|t| - 1];
    assert DigitsValue(h) == DigitValue(t[0]);
  }

  lemma FourDigits(t: string)
    requires |t| == 4 && AllDigits(t)
    ensures DigitsValue(t) == 1000 * DigitValue(t[0]) + 100 * DigitValue(t[1])
                              + 10 * DigitValue(t[2]) + DigitValue(t[3])
  {
    assert t[..3][..2] == t[..2];
    TwoDigits(t[..2]);
  }

  /** For a string starting with four digits, comparing it with "2025" as
      text is comparing the four-digit year with 2025 as a number. */
  lemma LexLessIsYearBefore(s: string)
    requires |s| > 4 && AllDigits(s[..4])
    ensures LexLess(s, "2025") <==> DigitsValue(s[..4]) < 2025
  {
    assert IsDigit(s[0]) && IsDigit(s[1]) && IsDigit(s[2]) && IsDigit(s[3]) by {
      assert forall k :: 0 <= k < 4 ==> s[..4][k] == s[k];
    }
    FourDigits(s[..4]);
    var c := "2025";
    assert LexLess(s, c) == (if s[0] != '2' then s[0] < '2' else LexLess(s[1..], c[1..]));
    assert LexLess(s[1..], c[1..]) == (if s[1] != '0' then s[1] < '0' else LexLess(s[2..], c[2..]));
    assert LexLess(s[2..], c[2..]) == (if s[2] != '2' then s[2] < '2' else LexLess(s[3..], c[3..]));
    assert LexLess(s[3..], c[3..]) == (if s[3] != '5' then s[3] < '5' else LexLess(s[4..], c[4..]));
    assert c[4..] == [];
  }

  /** validate_dob accepts exactly YYYY-MM-DD with month 1 to 12, day 0 to
      31 whatever the month, and a year before 2025. */
  lemma ValidDobMeaning(s: string)
    ensures ValidDob(s) <==>
              IsoDigits(s) && 1 <= Month(s) <= 12 && Day(s) <= 31 && Year(s) < 2025
  {
    if |s| == 10 {
      var y, m, d := s[..4], s[5..7], s[8..10];
      if IsoDigits(s) {
        assert m[0] == s[5] && m[1] == s[6] && d[0] == s[8] && d[1] == s[9];
        TwoDigits(m);
        TwoDigits(d);
        LexLessIsYearBefore(s);
        assert forall k :: 0 <= k < 4 ==> y[k] == s[k];
      }
      if DobShape(s) {
        assert AllDigits(y) by { assert forall k :: 0 <= k < 4 ==> y[k] == s[k]; }
        assert AllDigits(m) && AllDigits(d);
      }
    }
  }

  // ---------------------------------------------------------------------
  // The numeric fields of the form: `not x.isdigit() or int(x) <= 0`

  /** The loan amount, rate and term are accepted when they are digits
      only and denote a number above zero. */
  predicate PositiveNumber(s: string) {
    IsDigits(s) && DigitsValue(s) > 0
  }

  // ---------------------------------------------------------------------
  // The cases the application's tests state. Each is stated about a
  // parameter required to equal the text, rather than about the literal
  // itself: the verifier then looks at the text one character at a time
  // instead of unfolding every definition over the whole literal at once.

  lemma EmailAcceptedExample1(s: string)
    requires s == "test@example.com"
    ensures ValidEmail(s)
  {
    assert s[..4] == "test" && s[5..12] == "example" && s[13..] == "com";
    assert SplitsAt(s, 4, 12);
    ValidEmailMatchesPattern(s);
  }

  lemma EmailAcceptedExample2(s: string)
    requires s == "user.name+tag@domain.co"
    ensures ValidEmail(s)
  {
    assert s[..13] == "user.name+tag" && s[14..20] == "domain" && s[21..] == "co";
    assert SplitsAt(s, 13, 20);
    ValidEmailMatchesPattern(s);
  }

  /** No '@': the local part runs to the end. */
  lemma EmailRejectedExample1(s: string)
    requires s == "invalid.email"
    ensures !ValidEmail(s)
  {
  }

  /** The domain before the last '.' is empty. */
  lemma EmailRejectedExample2(s: string)
    requires s == "user@.com"
    ensures !ValidEmail(s)
  {
  }

  /** The local part is empty. */
  lemma EmailRejectedExample3(s: string)
    requires s == "@example.com"
    ensures !ValidEmail(s)
  {
  }

  /** An address and its upper-case spelling: both are their own strip(),
      the upper-case one is valid too, and they are equal up to case. */
  lemma EmailCaseExample(s: string, t: string)
    requires s == "a@b.com" && t == "A@B.com"
    ensures Strip(s) == s && Strip(t) == t
    ensures ValidEmail(t) && Lower(t) == Lower(s)
  {
    StripUnpadded(s);
    StripUnpadded(t);
    assert t[..1] == "A" && t[2..3] == "B" && t[4..] == "com";
    assert SplitsAt(t, 1, 3);
    ValidEmailMatchesPattern(t);
    LowerCaseExample(s, t);
  }

  lemma LowerCaseExample(s: string, t: string)
    requires s == "a@b.com" && t == "A@B.com"
    ensures Lower(t) == Lower(s)
  {
    assert forall i :: 0 <= i < |t| ==> ToLower(t[i]) == s[i] && ToLower(s[i]) == s[i];
  }

  lemma DobAcceptedExamples(a: string, b: string)
    requires a == "2000-01-01" && b == "1999-12-31"
    ensures ValidDob(a) && ValidDob(b)
  {
  }

  /** There is no days-per-month check, and day 00 is accepted. */
  lemma DobCalendarExamples(a: string, b: string)
    requires a == "2020-02-31" && b == "2000-01-00"
    ensures ValidDob(a) && ValidDob(b)
  {
    YearExample(a, 2020);
  }

  lemma DobRejectedExamples(a: string, b: string, c: string)
    requires a == "2025-01-01" && b == "01-01-2000" && c == "2000-13-01"
    ensures !ValidDob(a) && !ValidDob(b) && !ValidDob(c)
  {
    YearExample(a, 2025);
  }

  /** The year written in the first four characters of a literal date. */
  lemma YearExample(s: string, y: nat)
    requires |s| > 4 && AllDigits(s[..4])
    requires DigitValue(s[0]) * 1000 + DigitValue(s[1]) * 100 + DigitValue(s[2]) * 10 + DigitValue(s[3]) == y
    ensures LexLess(s, "2025") <==> y < 2025
  {
    FourDigits(s[..4]);
    LexLessIsYearBefore(s);
  }
}
