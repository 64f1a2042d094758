/** The checks of MainPage.submit_data: a fixed chain of early returns in
    which the first failing check decides the warning shown, and a form that
    passes them all becomes a normalised loan record. */
module Submission {
  import opened Text
  import opened Validation
  import opened Interest
  import opened Records

  /** The six entries of the loan form, as typed (before strip()). */
  datatype Form = Form(
    name: string, email: string, dob: string,
    loan: string, rate: string, months: string)

  /** The warnings submit_data can show, one per check. */
  datatype Rejection =
    | MissingName | MissingEmail | InvalidEmail | DuplicateEmail
    | MissingDob | InvalidDob
    | MissingLoan | InvalidLoan | MissingRate | InvalidRate
    | MissingTerm | InvalidTerm

  /** The position of each check in the chain. */
  function Rank(k: Rejection): nat {
    match k
    case MissingName => 0
    case MissingEmail => 1
    case InvalidEmail => 2
    case DuplicateEmail => 3
    case MissingDob => 4
    case InvalidDob => 5
    case MissingLoan => 6
    case InvalidLoan => 7
    case MissingRate => 8
    case InvalidRate => 9
    case MissingTerm => 10
    case InvalidTerm => 11
  }

  /** The answer of every check of submit_data for one form. */
  datatype Answers = Answers(
    nameGiven: bool, emailGiven: bool, emailValid: bool, notDuplicate: bool,
    dobGiven: bool, dobValid: bool,
    loanGiven: bool, loanValid: bool, rateGiven: bool, rateValid: bool,
    termGiven: bool, termValid: bool)

  /** Whether check `k` lets the form through, according to `a`. */
  predicate Passed(a: Answers, k: Rejection) {
    match k
    case MissingName => a.nameGiven
    case MissingEmail => a.emailGiven
    case InvalidEmail => a.emailValid
    case DuplicateEmail => a.notDuplicate
    case MissingDob => a.dobGiven
    case InvalidDob => a.dobValid
    case MissingLoan => a.loanGiven
    case InvalidLoan => a.loanValid
    case MissingRate => a.rateGiven
    case InvalidRate => a.rateValid
    case MissingTerm => a.termGiven
    case InvalidTerm => a.termValid
  }

  /** The checks, each judged on the stripped entry it looks at (lines
      191-196 strip every entry first): non-empty, then valid, for the
      e-mail and the date of birth; non-empty, then digits denoting a
      number above zero, for the three amounts. The duplicate check passes
      when email_exists answers False, which it also does when the file
      cannot be read. */
  function Assess(f: Form, lookup: Lookup): Answers {
    var name, email, dob := Strip(f.name), Strip(f.email), Strip(f.dob);
    var loan, rate, months := Strip(f.loan), Strip(f.rate), Strip(f.months);
    Answers(
      name != [], email != [], ValidEmail(email), lookup == Absent || lookup == Unreadable,
      dob != [], ValidDob(dob),
      loan != [], PositiveNumber(loan), rate != [], PositiveNumber(rate),
      months != [], PositiveNumber(months))
  }

  /** Where the chain of checks stops: at the first failing check, at an
      exception out of the duplicate check, or past the last check. */
  datatype Decision = Stop(reason: Rejection) | Abort | Proceed

  /** The chain of early returns in submit_data: each check is consulted
      only when every earlier one passed. The duplicate check stops the
      chain with a warning when the e-mail is found and with an exception
      when the lookup raised. */
  function Decide(a: Answers, lookup: Lookup): Decision {
    if !a.nameGiven then Stop(MissingName)
    else if !a.emailGiven then Stop(MissingEmail)
    else if !a.emailValid then Stop(InvalidEmail)
    else if lookup == Found then Stop(DuplicateEmail)
    else if lookup == Raised then Abort
    else if !a.dobGiven then Stop(MissingDob)
    else if !a.dobValid then Stop(InvalidDob)
    else if !a.loanGiven then Stop(MissingLoan)
    else if !a.loanValid then Stop(InvalidLoan)
    else if !a.rateGiven then Stop(MissingRate)
    else if !a.rateValid then Stop(InvalidRate)
    else if !a.termGiven then Stop(MissingTerm)
    else if !a.termValid then Stop(InvalidTerm)
    else Proceed
  }

  /** Answers that agree with the lookup they were given. */
  predicate Coherent(a: Answers, lookup: Lookup) {
    a.notDuplicate == (lookup == Absent || lookup == Unreadable)
  }

  /** Check `k` shows its warning: it does not pass and, for the duplicate
      check, the e-mail was found (rather than the lookup raising). */
  predicate Fails(a: Answers, lookup: Lookup, k: Rejection) {
    !Passed(a, k) && (k == DuplicateEmail ==> lookup == Found)
  }

  /** The first failing check wins: the chain stops at `k` exactly when `k`
      fails and every check before it passes, whatever the later checks
      would answer. */
  lemma DecideFirstFailure(a: Answers, lookup: Lookup, k: Rejection)
    requires Coherent(a, lookup)
    ensures Decide(a, lookup) == Stop(k) <==>
              Fails(a, lookup, k) && forall j :: Rank(j) < Rank(k) ==> Passed(a, j)
  {
    if Decide(a, lookup) == Stop(k) {
      forall j | Rank(j) < Rank(k) ensures Passed(a, j) {
        match j
        case MissingName =>
        case MissingEmail =>
        case InvalidEmail =>
        case DuplicateEmail =>
        case MissingDob =>
        case InvalidDob =>
        case MissingLoan =>
        case InvalidLoan =>
        case MissingRate =>
        case InvalidRate =>
        case MissingTerm =>
        case InvalidTerm =>
      }
    }
    if Fails(a, lookup, k) && forall j :: Rank(j) < Rank(k) ==> Passed(a, j) {
      DecideStopsAt(a, lookup, k);
    }
  }

  lemma DecideStopsAt(a: Answers, lookup: Lookup, k: Rejection)
    requires Coherent(a, lookup)
    requires forall j :: Rank(j) < Rank(k) ==> Passed(a, j)
    requires Fails(a, lookup, k)
    ensures Decide(a, lookup) == Stop(k)
  {
    assert Rank(k) > 0 ==> Passed(a, MissingName);
    assert Rank(k) > 1 ==> Passed(a, MissingEmail);
    assert Rank(k) > 2 ==> Passed(a, InvalidEmail);
    assert Rank(k) > 3 ==> Passed(a, DuplicateEmail);
    assert Rank(k) > 4 ==> Passed(a, MissingDob);
    assert Rank(k) > 5 ==> Passed(a, InvalidDob);
    assert Rank(k) > 6 ==> Passed(a, MissingLoan);
    assert Rank(k) > 7 ==> Passed(a, InvalidLoan);
    assert Rank(k) > 8 ==> Passed(a, MissingRate);
    assert Rank(k) > 9 ==> Passed(a, InvalidRate);
    assert Rank(k) > 10 ==> Passed(a, MissingTerm);
  }

  /** The duplicate check raising ends the flow only once the e-mail has
      passed its own checks. */
  lemma DecideAborts(a: Answers, lookup: Lookup)
    requires Coherent(a, lookup)
    ensures Decide(a, lookup) == Abort <==>
              a.nameGiven && a.emailGiven && a.emailValid && lookup == Raised
  {
  }

  /** The chain runs to its end exactly when every check passes. */
  lemma DecideProceeds(a: Answers, lookup: Lookup)
    requires Coherent(a, lookup)
    ensures Decide(a, lookup) == Proceed <==> forall k :: Passed(a, k)
  {
    if Decide(a, lookup) == Proceed {
      forall k ensures Passed(a, k) {
        match k
        case MissingName =>
        case MissingEmail =>
        case InvalidEmail =>
        case DuplicateEmail =>
        case MissingDob =>
        case InvalidDob =>
        case MissingLoan =>
        case InvalidLoan =>
        case MissingRate =>
        case InvalidRate =>
        case MissingTerm =>
        case InvalidTerm =>
      }
    }
    if forall k :: Passed(a, k) {
      assert Passed(a, MissingName) && Passed(a, MissingEmail) && Passed(a, InvalidEmail) && Passed(a, DuplicateEmail) && Passed(a, MissingDob) && Passed(a, InvalidDob) && Passed(a, MissingLoan) && Passed(a, InvalidLoan) && Passed(a, MissingRate) && Passed(a, InvalidRate) && Passed(a, MissingTerm) && Passed(a, InvalidTerm);
    }
  }

  /** What submit_data decides before writing: a warning, an exception out
      of the duplicate check, or the record to store. */
  datatype Verdict = Rejected(reason: Rejection) | Aborted | Accepted(record: LoanRecord)

  /** The record stored for a form whose checks all pass: name
      title-cased, e-mail lower-cased, date of birth verbatim, the amounts
      as the numbers their digits denote, and the two derived amounts. */
  function Normalize(name: string, email: string, dob: string, loan: nat, rate: nat, months: nat): (r: LoanRecord)
    requires name != [] && ValidEmail(email) && ValidDob(dob)
    requires loan > 0 && rate > 0 && months > 0
  {
    var interest := CalculateInterest(loan, rate);
    LoanRecord(Title(name), Lower(email), dob, loan, rate, interest, months,
               CalculateMonthlyInterest(interest, months))
  }

  /** The normalised record keeps every invariant of a stored record. */
  lemma NormalizeConsistent(name: string, email: string, dob: string, loan: nat, rate: nat, months: nat)
    requires name != [] && Strip(name) == name && ValidEmail(email) && ValidDob(dob)
    requires loan > 0 && rate > 0 && months > 0
    ensures ConsistentRecord(Normalize(name, email, dob, loan, rate, months))
  {
    TitleIdempotent(name);
    TitleKeepsUnpadded(name);
    LowerKeepsValidEmail(email);
    LowerIdempotent(email);
  }

  /** submit_data up to the write. `lookup` is the answer email_exists
      gives for the stripped e-mail; it is consulted only once the e-mail
      has passed its own checks. */
  function Screen(f: Form, lookup: Lookup): (v: Verdict)
  {
    var a := Assess(f, lookup);
    match Decide(a, lookup)
    case Stop(k) => Rejected(k)
    case Abort => Aborted
    case Proceed =>
      DecideProceeds(a, lookup);
      assert Passed(a, MissingName) && Passed(a, InvalidEmail) && Passed(a, InvalidDob);
      assert Passed(a, InvalidLoan) && Passed(a, InvalidRate) && Passed(a, InvalidTerm);
      var loan, rate, months := Strip(f.loan), Strip(f.rate), Strip(f.months);
      Accepted(Normalize(Strip(f.name), Strip(f.email), Strip(f.dob),
                         DigitsValue(loan), DigitsValue(rate), DigitsValue(months)))
  }

  /** A record that gets stored is consistent, and normalised from the
      stripped entries: title-cased name, lower-cased e-mail, date of birth
      as typed. */
  lemma ScreenAcceptedRecord(f: Form, lookup: Lookup)
    requires Screen(f, lookup).Accepted?
    ensures ConsistentRecord(Screen(f, lookup).record)
    ensures Screen(f, lookup).record.name == Title(Strip(f.name))
    ensures Screen(f, lookup).record.email == Lower(Strip(f.email))
    ensures Screen(f, lookup).record.dob == Strip(f.dob)
  {
    StripUnpadded(Strip(f.name));
    var a := Assess(f, lookup);
    DecideProceeds(a, lookup);
    assert Passed(a, MissingName) && Passed(a, InvalidEmail) && Passed(a, InvalidDob);
    assert Passed(a, InvalidLoan) && Passed(a, InvalidRate) && Passed(a, InvalidTerm);
    NormalizeConsistent(Strip(f.name), Strip(f.email), Strip(f.dob),
                        DigitsValue(Strip(f.loan)), DigitsValue(Strip(f.rate)), DigitsValue(Strip(f.months)));
  }

  /** The amounts of a stored record are the numbers int() reads from the
      stripped entries. */
  lemma ScreenAcceptedAmounts(f: Form, lookup: Lookup)
    requires Screen(f, lookup).Accepted?
    ensures Screen(f, lookup).record.loan == DigitsValue(Strip(f.loan))
    ensures Screen(f, lookup).record.rate == DigitsValue(Strip(f.rate))
    ensures Screen(f, lookup).record.months == DigitsValue(Strip(f.months))
  {
    var a := Assess(f, lookup);
    DecideProceeds(a, lookup);
    assert Passed(a, InvalidLoan) && Passed(a, InvalidRate) && Passed(a, InvalidTerm);
  }

  /** The form is rejected for `k` exactly when check `k` fails on it and
      every check before it passes. */
  lemma ScreenFirstFailure(f: Form, lookup: Lookup, k: Rejection)
    ensures Screen(f, lookup) == Rejected(k) <==>
              Fails(Assess(f, lookup), lookup, k) &&
              forall j :: Rank(j) < Rank(k) ==> Passed(Assess(f, lookup), j)
  {
    var a := Assess(f, lookup);
    assert Screen(f, lookup) == Rejected(k) <==> Decide(a, lookup) == Stop(k);
    DecideFirstFailure(a, lookup, k);
  }

  /** A form is accepted exactly when it passes every check. */
  lemma ScreenAccepts(f: Form, lookup: Lookup)
    ensures Screen(f, lookup).Accepted? <==> forall k :: Passed(Assess(f, lookup), k)
  {
    DecideProceeds(Assess(f, lookup), lookup);
  }
}
