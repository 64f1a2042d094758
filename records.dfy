/** The contents of database.csv as rows of cells, read the way csv.DictReader
    reads them, and the pure operations the application performs on them:
    formatting a loan record as a row, looking an e-mail up, and filtering
    out the rows of one e-mail. */
module Records {
  import opened Text
  import opened Interest
  import opened Validation

  datatype Option<T> = None | Some(value: T)

  /** One line of the file, as csv.reader yields it. */
  type Row = seq<string>

  /** The eight column names, in order. */
  const RequiredHeader: Row := [
    "Name", "Email", "Date of Birth", "Loan amount",
    "Interest amount", "Interest money", "Month",
    "Interest money per month"
  ]

  /** One loan application, with its two derived amounts. */
  datatype LoanRecord = LoanRecord(
    name: string, email: string, dob: string,
    loan: nat, rate: nat, interest: nat, months: nat, total: nat)

  /** What holds of every record the submit flow stores: a name present,
      stripped and title-cased, a valid lower-case e-mail, a valid date of
      birth, positive amounts, and derived amounts recomputed from the
      inputs. */
  predicate ConsistentRecord(r: LoanRecord) {
    && r.name != [] && Strip(r.name) == r.name && Title(r.name) == r.name
    && ValidEmail(r.email) && Lower(r.email) == r.email
    && ValidDob(r.dob)
    && r.loan > 0 && r.rate > 0 && r.months > 0
    && r.interest == CalculateInterest(r.loan, r.rate)
    && r.total == CalculateMonthlyInterest(r.interest, r.months)
  }

  /** f"{n}{unit}", the way amounts are written: "<n> $", "<n> %",
      "<n> months". */
  function Amount(n: nat, unit: string): string {
    NatToString(n) + unit
  }

  /** The row submit_data writes for a record, in the column order of
      RequiredHeader. */
  function FormatRow(r: LoanRecord): (row: Row)
    ensures |row| == |RequiredHeader|
  {
    [ r.name, r.email, r.dob,
      Amount(r.loan, " $"), Amount(r.rate, " %"), Amount(r.interest, " $"),
      Amount(r.months, " months"), Amount(r.total, " $") ]
  }

  /** Reads "<digits><unit>" back as a number. */
  function ParseAmount(cell: string, unit: string): (v: Option<nat>)
    ensures v.Some? ==> |cell| > |unit| && cell[|cell| - |unit|..] == unit
  {
    var k := |cell| - |unit|;
    if k > 0 && cell[k..] == unit && IsDigits(cell[..k]) then Some(DigitsValue(cell[..k]))
    else None
  }

  /** Reads a stored row back as a record. */
  function ParseRow(row: Row): Option<LoanRecord> {
    if |row| != |RequiredHeader| then None
    else
      var loan, rate, interest := ParseAmount(row[3], " $"), ParseAmount(row[4], " %"), ParseAmount(row[5], " $");
      var months, total := ParseAmount(row[6], " months"), ParseAmount(row[7], " $");
      if loan.Some? && rate.Some? && interest.Some? && months.Some? && total.Some? then
        Some(LoanRecord(row[0], row[1], row[2], loan.value, rate.value, interest.value, months.value, total.value))
      else None
  }

  lemma AmountRoundTrip(n: nat, unit: string)
    ensures ParseAmount(Amount(n, unit), unit) == Some(n)
  {
    var cell := Amount(n, unit);
    var k := |cell| - |unit|;
    assert cell[..k] == NatToString(n);
    assert cell[k..] == unit;
    NatToStringRoundTrip(n);
  }

  /** Every field of a stored record is read back as it was written. */
  lemma RowRoundTrip(r: LoanRecord)
    ensures ParseRow(FormatRow(r)) == Some(r)
  {
    AmountRoundTrip(r.loan, " $");
    AmountRoundTrip(r.rate, " %");
    AmountRoundTrip(r.interest, " $");
    AmountRoundTrip(r.months, " months");
    AmountRoundTrip(r.total, " $");
  }

  // ---------------------------------------------------------------------
  // csv.DictReader

  /** The file as csv.DictReader sees it: the first row names the columns,
      and every later row that is not blank is a record. */
  datatype Table = Table(header: Row, records: seq<Row>)

  /** The rows that are not blank, in order. */
  function NonBlank(rows: seq<Row>): (r: seq<Row>)
    ensures |r| <= |rows|
    ensures forall x :: x in r <==> x in rows && x != []
  {
    if rows == [] then []
    else if rows[0] == [] then NonBlank(rows[1..])
    else [rows[0]] + NonBlank(rows[1..])
  }

  lemma {:induction false} NonBlankAppend(a: seq<Row>, b: seq<Row>)
    ensures NonBlank(a + b) == NonBlank(a) + NonBlank(b)
  {
    if a != [] {
      assert (a + b)[1..] == a[1..] + b;
      NonBlankAppend(a[1..], b);
    } else {
      assert a + b == b;
    }
  }

  function Parse(rows: seq<Row>): Table {
    if rows == [] then Table([], []) else Table(rows[0], NonBlank(rows[1..]))
  }

  /** record['Email'] for a row, taken from the last column called Email
      (a later duplicate column overwrites an earlier one in the record
      dictionary): None when the header has no Email column
      (a KeyError) or the row is too short to reach it (the None that
      DictReader fills in, on which .lower() raises). */
  function EmailCell(header: Row, row: Row): (e: Option<string>)
    ensures e.Some? ==> e.value in row
  {
    var k := LastIndexOf(header, "Email");
    if 0 <= k < |row| then Some(row[k]) else None
  }

  /** Column `j` is the last one the header names Email. */
  predicate LastEmailColumn(header: Row, j: int) {
    0 <= j < |header| && header[j] == "Email"
    && forall j' :: j < j' < |header| ==> header[j'] != "Email"
  }

  /** record['Email'] is present exactly when the header has an Email
      column and the row reaches the last such column, and then it is the
      row's cell in that column. */
  lemma EmailCellColumn(header: Row, row: Row)
    ensures EmailCell(header, row).Some? <==> exists j :: LastEmailColumn(header, j) && j < |row|
    ensures forall j :: LastEmailColumn(header, j) && j < |row| ==> EmailCell(header, row) == Some(row[j])
  {
    var k := LastIndexOf(header, "Email");
    forall j | LastEmailColumn(header, j) ensures j == k {
    }
    if 0 <= k {
      assert LastEmailColumn(header, k);
    }
  }

  /** Under the standard header the e-mail is the second cell. */
  lemma EmailCellStandard(row: Row)
    requires |row| >= 2
    ensures EmailCell(RequiredHeader, row) == Some(row[1])
  {
    var k := LastIndexOf(RequiredHeader, "Email");
    assert RequiredHeader[1] == "Email";
    assert k == 1 by {
      assert forall j :: 0 <= j < |RequiredHeader| && j != 1 ==> RequiredHeader[j] != "Email";
    }
  }

  /** The row of a record has the record's e-mail in its Email column. */
  lemma FormatRowEmail(r: LoanRecord)
    ensures EmailCell(RequiredHeader, FormatRow(r)) == Some(r.email)
  {
    EmailCellStandard(FormatRow(r));
  }

  predicate HasEmail(header: Row, row: Row) {
    EmailCell(header, row).Some?
  }

  // ---------------------------------------------------------------------
  // email_exists

  /** The outcome of the duplicate check: a record has the e-mail; none
      has; the file could not be read (email_exists then answers False); a
      record without an Email value was reached first (an exception the
      application does not catch). */
  datatype Lookup = Found | Absent | Unreadable | Raised

  /** Record `row` has e-mail `email` up to case, as email_exists compares. */
  predicate SameEmail(header: Row, row: Row, email: string) {
    var e := EmailCell(header, row);
    e.Some? && Lower(e.value) == Lower(email)
  }

  /** any(record['Email'].lower() == email.lower() for record in records),
      scanning in file order. */
  function ScanEmail(header: Row, records: seq<Row>, email: string): (r: Lookup)
    ensures r != Unreadable
    ensures r == Found ==> exists k :: 0 <= k < |records| && SameEmail(header, records[k], email)
    ensures r == Absent <==>
              forall k :: 0 <= k < |records| ==>
                HasEmail(header, records[k]) && !SameEmail(header, records[k], email)
    ensures r == Raised ==> exists k :: 0 <= k < |records| && !HasEmail(header, records[k])
  {
    if records == [] then Absent
    else
      var e := EmailCell(header, records[0]);
      if e.None? then Raised
      else if Lower(e.value) == Lower(email) then Found
      else
        var r := ScanEmail(header, records[1..], email);
        assert forall k :: 1 <= k < |records| ==> records[k] == records[1..][k - 1];
        r
  }

  /** The first `k` records all have an Email value. */
  predicate EmailsBefore(header: Row, records: seq<Row>, k: nat)
    requires k <= |records|
  {
    forall j :: 0 <= j < k ==> HasEmail(header, records[j])
  }

  /** The first `k` records all have an Email value other than `email`. */
  predicate OthersBefore(header: Row, records: seq<Row>, email: string, k: nat)
    requires k <= |records|
  {
    forall j :: 0 <= j < k ==> HasEmail(header, records[j]) && !SameEmail(header, records[j], email)
  }

  lemma BeforeShift(header: Row, records: seq<Row>, email: string, k: nat)
    requires k < |records|
    ensures EmailsBefore(header, records, k + 1) <==>
              HasEmail(header, records[0]) && EmailsBefore(header, records[1..], k)
    ensures OthersBefore(header, records, email, k + 1) <==>
              HasEmail(header, records[0]) && !SameEmail(header, records[0], email)
              && OthersBefore(header, records[1..], email, k)
  {
    assert forall j :: 0 <= j < k ==> records[1..][j] == records[j + 1];
  }

  /** any() stops at the first record that decides it: the check finds the
      e-mail exactly when some record holds it and every record before it
      has an Email value. */
  lemma {:induction false} ScanEmailFound(header: Row, records: seq<Row>, email: string)
    ensures ScanEmail(header, records, email) == Found <==>
              exists k :: 0 <= k < |records| && SameEmail(header, records[k], email)
                && EmailsBefore(header, records, k)
  {
    if records == [] {
      return;
    }
    var rest := records[1..];
    if !HasEmail(header, records[0]) || SameEmail(header, records[0], email) {
      assert EmailsBefore(header, records, 0);
      return;
    }
    ScanEmailFound(header, rest, email);
    forall k | 0 < k < |records|
      ensures SameEmail(header, records[k], email) == SameEmail(header, rest[k - 1], email)
      ensures EmailsBefore(header, records, k) == EmailsBefore(header, rest, k - 1)
    {
      BeforeShift(header, records, email, k - 1);
    }
    if ScanEmail(header, rest, email) == Found {
      var k :| 0 <= k < |rest| && SameEmail(header, rest[k], email) && EmailsBefore(header, rest, k);
      assert SameEmail(header, records[k + 1], email) && EmailsBefore(header, records, k + 1);
    }
  }

  /** The duplicate check raises exactly when some record lacks an Email
      value and every record before it has one that differs. */
  lemma {:induction false} ScanEmailRaised(header: Row, records: seq<Row>, email: string)
    ensures ScanEmail(header, records, email) == Raised <==>
              exists k :: 0 <= k < |records| && !HasEmail(header, records[k])
                && OthersBefore(header, records, email, k)
  {
    if records == [] {
      return;
    }
    var rest := records[1..];
    if !HasEmail(header, records[0]) || SameEmail(header, records[0], email) {
      assert OthersBefore(header, records, email, 0);
      return;
    }
    ScanEmailRaised(header, rest, email);
    forall k | 0 < k < |records|
      ensures HasEmail(header, records[k]) == HasEmail(header, rest[k - 1])
      ensures OthersBefore(header, records, email, k) == OthersBefore(header, rest, email, k - 1)
    {
      BeforeShift(header, records, email, k - 1);
    }
    if ScanEmail(header, rest, email) == Raised {
      var k :| 0 <= k < |rest| && !HasEmail(header, rest[k]) && OthersBefore(header, rest, email, k);
      assert !HasEmail(header, records[k + 1]) && OthersBefore(header, records, email, k + 1);
    }
  }

  /** No two records hold the same e-mail, up to case. */
  predicate NoDuplicates(header: Row, records: seq<Row>) {
    forall i, j :: 0 <= i < j < |records| && HasEmail(header, records[i]) ==>
      !SameEmail(header, records[j], EmailCell(header, records[i]).value)
  }

  /** Adding a record whose address the duplicate check did not find keeps
      the records free of duplicates. */
  lemma NoDuplicatesAppend(header: Row, records: seq<Row>, row: Row, email: string)
    requires NoDuplicates(header, records)
    requires ScanEmail(header, records, email) == Absent
    requires HasEmail(header, row) && Lower(EmailCell(header, row).value) == Lower(email)
    ensures NoDuplicates(header, records + [row])
  {
    var all := records + [row];
    forall i, j | 0 <= i < j < |all| && HasEmail(header, all[i])
      ensures !SameEmail(header, all[j], EmailCell(header, all[i]).value)
    {
      assert all[i] == records[i];
      if j == |records| {
        assert all[j] == row;
        assert !SameEmail(header, records[i], email);
      } else {
        assert all[j] == records[j];
      }
    }
  }

  // ---------------------------------------------------------------------
  // The filter of delete_record

  /** r["Email"].strip().lower() == email.lower() */
  predicate Matches(header: Row, row: Row, email: string) {
    var e := EmailCell(header, row);
    e.Some? && Lower(Strip(e.value)) == Lower(email)
  }

  /** A record email_exists finds for a valid address is one the delete
      filter removes: the cell equals the address up to case, so it has no
      whitespace for strip() to remove. */
  lemma SameEmailMatches(header: Row, row: Row, email: string)
    requires ValidEmail(email) && SameEmail(header, row, email)
    ensures Matches(header, row, email)
  {
    ValidEmailUnpadded(email);
    LowerSameUnpadded(EmailCell(header, row).value, email);
  }

  /** Records none of which the delete filter would remove for a valid
      address hold no duplicate of it, in any case. */
  lemma NoMatchNoDuplicate(header: Row, records: seq<Row>, deleted: string, email: string)
    requires ValidEmail(deleted) && Lower(email) == Lower(deleted)
    requires forall x :: x in records ==> HasEmail(header, x) && !Matches(header, x, deleted)
    ensures ScanEmail(header, records, email) == Absent
  {
    forall k | 0 <= k < |records|
      ensures HasEmail(header, records[k]) && !SameEmail(header, records[k], email)
    {
      assert records[k] in records;
      if SameEmail(header, records[k], email) {
        SameEmailMatches(header, records[k], deleted);
      }
    }
  }

  /** [r for r in records if not Matches(r)]: every matching record goes,
      the others stay. */
  function RemoveMatching(header: Row, records: seq<Row>, email: string): (kept: seq<Row>)
    ensures |kept| <= |records|
    ensures forall x :: x in kept <==> x in records && !Matches(header, x, email)
  {
    if records == [] then []
    else
      var rest := RemoveMatching(header, records[1..], email);
      assert forall x :: x in records <==> x == records[0] || x in records[1..];
      if Matches(header, records[0], email) then rest else [records[0]] + rest
  }

  /** A record in front keeps the records free of duplicates exactly when
      the others are, and none of them holds its address. */
  lemma NoDuplicatesCons(header: Row, x: Row, rest: seq<Row>)
    ensures NoDuplicates(header, [x] + rest) <==>
              && NoDuplicates(header, rest)
              && (HasEmail(header, x) ==>
                    forall y :: y in rest ==> !SameEmail(header, y, EmailCell(header, x).value))
  {
    var all := [x] + rest;
    assert forall i :: 0 <= i < |rest| ==> all[i + 1] == rest[i];
    if NoDuplicates(header, all) {
      forall i, j | 0 <= i < j < |rest| && HasEmail(header, rest[i])
        ensures !SameEmail(header, rest[j], EmailCell(header, rest[i]).value)
      {
        assert all[i + 1] == rest[i] && all[j + 1] == rest[j];
      }
      if HasEmail(header, x) {
        forall y | y in rest ensures !SameEmail(header, y, EmailCell(header, x).value) {
          var j :| 0 <= j < |rest| && rest[j] == y;
          assert all[0] == x && all[j + 1] == y;
        }
      }
    }
  }

  /** The delete filter keeps records free of duplicates: what it keeps
      is a part of what was there. */
  lemma {:induction false} RemoveMatchingKeepsNoDuplicates(header: Row, records: seq<Row>, email: string)
    requires NoDuplicates(header, records)
    ensures NoDuplicates(header, RemoveMatching(header, records, email))
  {
    if records != [] {
      var tail := records[1..];
      assert records == [records[0]] + tail;
      NoDuplicatesCons(header, records[0], tail);
      RemoveMatchingKeepsNoDuplicates(header, tail, email);
      var kept := RemoveMatching(header, tail, email);
      if !Matches(header, records[0], email) {
        NoDuplicatesCons(header, records[0], kept);
      }
    }
  }

  /** The surviving records keep their order: filtering a concatenation
      filters each part. */
  lemma {:induction false} RemoveMatchingAppend(header: Row, a: seq<Row>, b: seq<Row>, email: string)
    ensures RemoveMatching(header, a + b, email)
         == RemoveMatching(header, a, email) + RemoveMatching(header, b, email)
  {
    if a == [] {
      assert a + b == b;
    } else {
      assert (a + b)[1..] == a[1..] + b;
      RemoveMatchingAppend(header, a[1..], b, email);
    }
  }

  /** Nothing is removed exactly when no record matches, and then nothing
      changes at all. */
  lemma {:induction false} RemoveMatchingNone(header: Row, records: seq<Row>, email: string)
    ensures |RemoveMatching(header, records, email)| == |records| <==>
              forall k :: 0 <= k < |records| ==> !Matches(header, records[k], email)
    ensures (forall k :: 0 <= k < |records| ==> !Matches(header, records[k], email)) ==>
              RemoveMatching(header, records, email) == records
  {
    if records != [] {
      RemoveMatchingNone(header, records[1..], email);
      assert forall k :: 1 <= k < |records| ==> records[k] == records[1..][k - 1];
    }
  }

  // ---------------------------------------------------------------------
  // The tail of submit_data: append one row

  /** The file after appending `row`: the header first when the file is
      empty, then the row after every existing row. */
  function AppendRow(rows: seq<Row>, row: Row): (r: seq<Row>) {
    (if rows == [] then [RequiredHeader] else rows) + [row]
  }

  /** Appending keeps the header and every record, and adds the row as the
      last record. */
  lemma ParseAfterAppend(rows: seq<Row>, row: Row)
    requires row != []
    ensures Parse(AppendRow(rows, row)).header == (if rows == [] then RequiredHeader else rows[0])
    ensures Parse(AppendRow(rows, row)).records == Parse(rows).records + [row]
  {
    var r := AppendRow(rows, row);
    if rows == [] {
      assert r[1..] == [row];
      assert NonBlank([row])[1..] == [];
    } else {
      assert r[1..] == rows[1..] + [row];
      NonBlankAppend(rows[1..], [row]);
      assert NonBlank([row]) == [row] by {
        assert [row][1..] == [];
      }
    }
  }

  // ---------------------------------------------------------------------
  // The rewrite of delete_record

  /** A row as csv.DictWriter writes it under `n` column names: a value
      the row lacks (the None DictReader filled in) becomes an empty cell. */
  function Padded(row: Row, n: nat): (r: Row)
    ensures |r| == if |row| < n then n else |row|
    ensures r[..|row|] == row
    ensures forall i :: |row| <= i < |r| ==> r[i] == ""
    decreases n - |row|
  {
    if |row| >= n then row
    else
      var r := Padded(row + [""], n);
      assert r[..|row|] == r[..|row| + 1][..|row|];
      r
  }

  function PadAll(rows: seq<Row>, n: nat): (r: seq<Row>)
    ensures |r| == |rows|
    ensures forall i :: 0 <= i < |rows| ==> r[i] == Padded(rows[i], n)
  {
    if rows == [] then [] else [Padded(rows[0], n)] + PadAll(rows[1..], n)
  }

  /** Rows that already fill every column are written as they are. */
  lemma PadAllFull(rows: seq<Row>, n: nat)
    requires forall i :: 0 <= i < |rows| ==> |rows[i]| >= n
    ensures PadAll(rows, n) == rows
  {
  }

  /** Padding leaves the Email cell of a record that has one as it was. */
  lemma PaddedEmailCell(header: Row, row: Row)
    requires HasEmail(header, row)
    ensures EmailCell(header, Padded(row, |header|)) == EmailCell(header, row)
  {
    var k := LastIndexOf(header, "Email");
    var r := Padded(row, |header|);
    assert r[k] == r[..|row|][k];
  }

  /** The file delete_record writes: the header, then the records that do
      not match, in their order, each padded to the header's width. */
  function Rewrite(t: Table, email: string): (rows: seq<Row>)
    ensures |rows| == 1 + |RemoveMatching(t.header, t.records, email)|
    ensures rows[0] == t.header
  {
    [t.header] + PadAll(RemoveMatching(t.header, t.records, email), |t.header|)
  }

  /** Dropping blank rows from rows that have none changes nothing. */
  lemma {:induction false} NonBlankNone(rows: seq<Row>)
    requires forall i :: 0 <= i < |rows| ==> rows[i] != []
    ensures NonBlank(rows) == rows
  {
    if rows != [] {
      NonBlankNone(rows[1..]);
    }
  }

  /** Reading the rewritten file back gives the header and the surviving
      records, padded, in their order. */
  lemma RewriteParse(t: Table, email: string)
    requires forall i :: 0 <= i < |t.records| ==> t.records[i] != []
    ensures Parse(Rewrite(t, email))
         == Table(t.header, PadAll(RemoveMatching(t.header, t.records, email), |t.header|))
  {
    var kept := RemoveMatching(t.header, t.records, email);
    var padded := PadAll(kept, |t.header|);
    forall i | 0 <= i < |padded| ensures padded[i] != [] {
      assert kept[i] in t.records;
    }
    NonBlankNone(padded);
    assert Rewrite(t, email)[1..] == padded;
  }

  /** No record of the rewritten file matches the deleted e-mail, when
      every record had an Email value. */
  lemma RewriteRemovesAll(t: Table, email: string)
    requires forall i :: 0 <= i < |t.records| ==> HasEmail(t.header, t.records[i])
    ensures forall x :: x in PadAll(RemoveMatching(t.header, t.records, email), |t.header|) ==>
              HasEmail(t.header, x) && !Matches(t.header, x, email)
  {
    var kept := RemoveMatching(t.header, t.records, email);
    var padded := PadAll(kept, |t.header|);
    forall x | x in padded ensures HasEmail(t.header, x) && !Matches(t.header, x, email) {
      var i :| 0 <= i < |padded| && padded[i] == x;
      assert kept[i] in t.records;
      PaddedEmailCell(t.header, kept[i]);
    }
  }
}
