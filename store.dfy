/** database.csv and the three operations of BankSystemGUI that change it:
    initialize_database overwrites it, submit_data appends to it and
    delete_record rewrites it. The file is a field of rows, as csv.reader
    reads them, beside a flag saying whether it exists; a failure to read
    or write it is a parameter of each operation. */
module Store {
  import opened Text
  import opened Validation
  import opened Records
  import opened Submission
  import opened Deletion

  /** How initialize_database ends: the file is kept, it is replaced by
      the header alone, reading it failed (an error dialog), or writing the
      new header failed (an exception the method does not catch). */
  datatype InitOutcome = Kept | Recreated | ReadError | WriteError

  /** How submit_data ends: a validation warning, the exception out of the
      duplicate check, an error dialog because the append failed, or the
      record stored. */
  datatype SubmitOutcome =
    | Refused(reason: Rejection) | CheckRaised | SaveFailed | Submitted(record: LoanRecord)

  /** How the verdict of the checks and the fate of the append end
      submit_data: only an accepted form whose row is written is stored. */
  function Ending(v: Verdict, writeFault: bool): (o: SubmitOutcome)
    ensures o.Submitted? <==> v.Accepted? && !writeFault
    ensures o.Submitted? ==> o.record == v.record
  {
    match v
    case Rejected(k) => Refused(k)
    case Aborted => CheckRaised
    case Accepted(rec) => if writeFault then SaveFailed else Submitted(rec)
  }

  /** email_exists on what load_database returned: whether a record has
      the address up to case; a file that could not be loaded counts as
      "no". */
  function EmailExists(file: Option<seq<Row>>, email: string): (r: Lookup)
    ensures r == Unreadable <==> file.None?
    ensures r == Found ==>
              exists k :: 0 <= k < |Parse(file.value).records| &&
                SameEmail(Parse(file.value).header, Parse(file.value).records[k], email)
    ensures file.Some? && AllHaveEmail(Parse(file.value)) ==>
              (r == Found <==>
                exists k :: 0 <= k < |Parse(file.value).records| &&
                  SameEmail(Parse(file.value).header, Parse(file.value).records[k], email))
  {
    match file
    case None => Unreadable
    case Some(rows) =>
      var t := Parse(rows);
      ScanEmail(t.header, t.records, email)
  }

  /** The case the application's tests state: a file whose one record
      holds test@example.com has that address and not another. As with the
      examples of Validation, the texts are parameters required to equal
      them, which keeps the proof small. */
  lemma EmailExistsExample(file: seq<Row>, hit: string, miss: string)
    requires file == [["Name", "Email", "Date of Birth"], ["Test User", "test@example.com", "2000-01-01"]]
    requires hit == "test@example.com" && miss == "nonexistent@example.com"
    ensures EmailExists(Some(file), hit) == Found
    ensures EmailExists(Some(file), miss) == Absent
  {
    var header, row := file[0], file[1];
    assert Parse(file) == Table(header, [row]) by {
      assert file[1..] == [row];
    }
    assert EmailCell(header, row) == Some(hit) by {
      assert LastIndexOf(header, "Email") == 1;
    }
    assert ScanEmail(header, [row], hit) == Found;
    assert |Lower(miss)| != |Lower(hit)|;
    assert [row][1..] == [];
    assert ScanEmail(header, [row], miss) == Absent;
  }

  /** The first row is the eight required column names. */
  predicate HeaderOk(rows: seq<Row>) {
    rows != [] && rows[0] == RequiredHeader
  }

  /** A row submit_data could have written: it reads back as a consistent
      loan record and is that record's row, cell for cell (no leading
      zeros, no other spelling of an amount). */
  predicate StoredRecord(x: Row) {
    ParseRow(x).Some? && ConsistentRecord(ParseRow(x).value) && x == FormatRow(ParseRow(x).value)
  }

  /** The file as the application keeps it when only it writes the file:
      the required header, and every record one that submit_data wrote. */
  predicate Sound(rows: seq<Row>) {
    HeaderOk(rows) && forall x :: x in Parse(rows).records ==> StoredRecord(x)
  }

  /** The file initialize_database writes is sound. */
  lemma SoundInitial()
    ensures Sound([RequiredHeader])
  {
    assert [RequiredHeader][1..] == [];
  }

  /** In a sound file every record has an Email value, so neither the
      duplicate check nor the delete filter raises. */
  lemma SoundHasEmail(rows: seq<Row>)
    requires Sound(rows)
    ensures AllHaveEmail(Parse(rows))
  {
    var t := Parse(rows);
    forall i | 0 <= i < |t.records| ensures HasEmail(t.header, t.records[i]) {
      assert t.records[i] in t.records;
      EmailCellStandard(t.records[i]);
    }
  }

  /** Appending the row of a consistent record keeps the file sound. */
  lemma SoundAppend(rows: seq<Row>, rec: LoanRecord)
    requires Sound(rows) && ConsistentRecord(rec)
    ensures Sound(AppendRow(rows, FormatRow(rec)))
  {
    var after := AppendRow(rows, FormatRow(rec));
    ParseAfterAppend(rows, FormatRow(rec));
    RowRoundTrip(rec);
    forall x | x in Parse(after).records ensures StoredRecord(x) {
      if x != FormatRow(rec) {
        assert x in Parse(rows).records;
      }
    }
  }

  /** The rewrite of delete_record keeps a sound file sound: the records
      that stay are written back unchanged. */
  lemma SoundRewrite(rows: seq<Row>, email: string)
    requires Sound(rows)
    ensures Sound(Rewrite(Parse(rows), email))
    ensures Parse(Rewrite(Parse(rows), email)).records
         == RemoveMatching(Parse(rows).header, Parse(rows).records, email)
  {
    var t := Parse(rows);
    var kept := RemoveMatching(t.header, t.records, email);
    forall i | 0 <= i < |t.records| ensures t.records[i] != [] {
      assert t.records[i] in t.records;
    }
    RewriteParse(t, email);
    forall i | 0 <= i < |kept| ensures |kept[i]| >= |t.header| {
      assert kept[i] in t.records;
    }
    PadAllFull(kept, |t.header|);
  }

  /** The delete rewrite keeps a sound file without duplicates free of
      them. */
  lemma DeleteKeepsUnique(rows: seq<Row>, email: string)
    requires Sound(rows) && Unique(rows)
    ensures Unique(Rewrite(Parse(rows), email))
  {
    SoundRewrite(rows, email);
    var t := Parse(rows);
    assert Parse(Rewrite(t, email)).header == t.header by {
      assert Rewrite(t, email)[0] == t.header;
    }
    RemoveMatchingKeepsNoDuplicates(t.header, t.records, email);
  }

  /** Storing the record of an accepted form keeps the file sound. */
  lemma SubmitKeepsSound(rows: seq<Row>, f: Form, lookup: Lookup, writeFault: bool)
    requires Ending(Screen(f, lookup), writeFault).Submitted?
    ensures Sound(rows) ==> Sound(AppendRow(rows, FormatRow(Ending(Screen(f, lookup), writeFault).record)))
  {
    if Sound(rows) {
      ScreenAcceptedRecord(f, lookup);
      SoundAppend(rows, Screen(f, lookup).record);
    }
  }

  /** A stored record reads back equal in every field, as the last record,
      after the records that were there. */
  lemma AppendReadsBack(rows: seq<Row>, rec: LoanRecord)
    ensures var t := Parse(AppendRow(rows, FormatRow(rec)));
            && |t.records| == |Parse(rows).records| + 1
            && t.records[..|Parse(rows).records|] == Parse(rows).records
            && ParseRow(t.records[|Parse(rows).records|]) == Some(rec)
  {
    ParseAfterAppend(rows, FormatRow(rec));
    RowRoundTrip(rec);
    var t := Parse(AppendRow(rows, FormatRow(rec)));
    assert t.records[..|Parse(rows).records|] == Parse(rows).records;
  }

  /** Once a record is appended to an empty file or to one with the
      required header whose records all have an Email value, the duplicate
      check finds its address, in any case. */
  lemma AppendedEmailFound(rows: seq<Row>, rec: LoanRecord, email: string)
    requires rows == [] || (HeaderOk(rows) && AllHaveEmail(Parse(rows)))
    requires Lower(email) == Lower(rec.email)
    ensures var t := Parse(AppendRow(rows, FormatRow(rec)));
            ScanEmail(t.header, t.records, email) == Found
  {
    var row := FormatRow(rec);
    var t := Parse(AppendRow(rows, row));
    ParseAfterAppend(rows, row);
    EmailCellStandard(row);
    assert t.records[|t.records| - 1] == row;
    forall i | 0 <= i < |t.records| ensures HasEmail(t.header, t.records[i]) {
      if i < |t.records| - 1 {
        assert t.records[i] == Parse(rows).records[i];
      }
    }
  }

  /** No two records of the file hold the same e-mail, up to case. */
  predicate Unique(rows: seq<Row>) {
    NoDuplicates(Parse(rows).header, Parse(rows).records)
  }

  /** Appending a row whose address the duplicate check did not find keeps
      the file free of duplicates. */
  lemma AppendKeepsUnique(rows: seq<Row>, row: Row, email: string)
    requires rows != [] && row != [] && Unique(rows)
    requires ScanEmail(Parse(rows).header, Parse(rows).records, email) == Absent
    requires HasEmail(rows[0], row) && Lower(EmailCell(rows[0], row).value) == Lower(email)
    ensures Unique(AppendRow(rows, row))
  {
    var t := Parse(rows);
    ParseAfterAppend(rows, row);
    NoDuplicatesAppend(t.header, t.records, row, email);
  }

  /** A form accepted on a file that was read has an address the
      duplicate check did not find. */
  lemma AcceptedIsAbsent(rows: seq<Row>, f: Form)
    requires Screen(f, EmailExists(Some(rows), Strip(f.email))).Accepted?
    ensures ScanEmail(Parse(rows).header, Parse(rows).records, Strip(f.email)) == Absent
  {
    var lookup := EmailExists(Some(rows), Strip(f.email));
    ScreenAccepts(f, lookup);
    assert Passed(Assess(f, lookup), DuplicateEmail);
  }

  /** A submit whose read of the file succeeded stores an address only when
      no record holds it, so a sound file without duplicates keeps none.
      When the read fails the duplicate check answers "no" and a duplicate
      can be stored. */
  lemma SubmitKeepsUnique(rows: seq<Row>, f: Form)
    requires Sound(rows) && Unique(rows)
    requires Screen(f, EmailExists(Some(rows), Strip(f.email))).Accepted?
    ensures Unique(AppendRow(rows, FormatRow(Screen(f, EmailExists(Some(rows), Strip(f.email))).record)))
  {
    var rec := Screen(f, EmailExists(Some(rows), Strip(f.email))).record;
    ScreenAcceptedRecord(f, EmailExists(Some(rows), Strip(f.email)));
    AcceptedIsAbsent(rows, f);
    LowerIdempotent(Strip(f.email));
    FormatRowEmail(rec);
    assert HeaderOk(rows);
    AppendKeepsUnique(rows, FormatRow(rec), Strip(f.email));
  }

  /** Submitting the same form again after it was stored is refused as a
      duplicate. */
  lemma ResubmitIsDuplicate(f: Form, lookup: Lookup, rows: seq<Row>)
    requires Screen(f, lookup).Accepted?
    requires rows == [] || (HeaderOk(rows) && AllHaveEmail(Parse(rows)))
    ensures var t := Parse(AppendRow(rows, FormatRow(Screen(f, lookup).record)));
            var again := ScanEmail(t.header, t.records, Strip(f.email));
            again == Found && Screen(f, again) == Rejected(DuplicateEmail)
  {
    var rec := Screen(f, lookup).record;
    ScreenAcceptedRecord(f, lookup);
    LowerIdempotent(Strip(f.email));
    AppendedEmailFound(rows, rec, Strip(f.email));
    ScreenAccepts(f, lookup);
    var a := Assess(f, lookup);
    assert Passed(a, MissingName) && Passed(a, MissingEmail) && Passed(a, InvalidEmail);
    ScreenFirstFailure(f, Found, DuplicateEmail);
  }

  /** Once a form is stored, any later form whose address equals it up to
      case, and whose name and address pass their own checks, is refused
      as a duplicate. */
  lemma DuplicateUpToCase(f: Form, g: Form, lookup: Lookup, rows: seq<Row>)
    requires Screen(f, lookup).Accepted?
    requires rows == [] || (HeaderOk(rows) && AllHaveEmail(Parse(rows)))
    requires Strip(g.name) != [] && ValidEmail(Strip(g.email))
    requires Lower(Strip(g.email)) == Lower(Strip(f.email))
    ensures var t := Parse(AppendRow(rows, FormatRow(Screen(f, lookup).record)));
            var again := ScanEmail(t.header, t.records, Strip(g.email));
            again == Found && Screen(g, again) == Rejected(DuplicateEmail)
  {
    var rec := Screen(f, lookup).record;
    ScreenAcceptedRecord(f, lookup);
    LowerIdempotent(Strip(f.email));
    AppendedEmailFound(rows, rec, Strip(g.email));
    var a := Assess(g, Found);
    assert Passed(a, MissingName) && Passed(a, MissingEmail) && Passed(a, InvalidEmail);
    ScreenFirstFailure(g, Found, DuplicateEmail);
  }

  /** Case-insensitive uniqueness: once a@b.com is stored, A@B.com is
      refused. As with the examples of Validation, the addresses are
      parameters required to equal the texts. */
  lemma DuplicateCaseExample(f: Form, g: Form, lookup: Lookup, rows: seq<Row>)
    requires f.email == "a@b.com" && g.email == "A@B.com" && Strip(g.name) != []
    requires Screen(f, lookup).Accepted?
    requires rows == [] || (HeaderOk(rows) && AllHaveEmail(Parse(rows)))
    ensures var t := Parse(AppendRow(rows, FormatRow(Screen(f, lookup).record)));
            Screen(g, ScanEmail(t.header, t.records, Strip(g.email))) == Rejected(DuplicateEmail)
  {
    EmailCaseExample(f.email, g.email);
    DuplicateUpToCase(f, g, lookup, rows);
  }

  class Database {
    /** Whether database.csv exists. */
    var present: bool
    /** Its lines, as csv.reader yields them (a blank line is []). */
    var rows: seq<Row>

    /** A file that does not exist has no lines. */
    ghost predicate Valid()
      reads this
    {
      !present ==> rows == []
    }

    constructor (present: bool, rows: seq<Row>)
      requires !present ==> rows == []
      ensures Valid() && this.present == present && this.rows == rows
    {
      this.present := present;
      this.rows := rows;
    }

    /** load_database: the lines of the file, or None when it is missing
        or cannot be read (the error dialog). */
    function Load(readFault: bool): (file: Option<seq<Row>>)
      reads this
      ensures file.Some? <==> present && !readFault
      ensures file.Some? ==> file.value == rows
    {
      if present && !readFault then Some(rows) else None
    }

    /** initialize_database: a file whose first line is the required header
        is kept; a missing file, an empty one, one with another first line
        or one whose first chunk read cannot be decoded (`decodeFault`: the
        UnicodeDecodeError is a ValueError) is replaced by the header
        alone, its records dropped. Run without faults it always leaves the
        header in place, and run again it keeps the file as it is. */
    method InitializeDatabase(readFault: bool, decodeFault: bool, writeFault: bool)
      returns (outcome: InitOutcome)
      requires Valid()
      modifies this
      ensures Valid()
      ensures outcome == Kept <==>
                old(present) && !readFault && !decodeFault && HeaderOk(old(rows))
      ensures outcome == ReadError <==> old(present) && readFault
      ensures outcome == Recreated <==>
                (!old(present) || (!readFault && (decodeFault || !HeaderOk(old(rows))))) && !writeFault
      ensures outcome == Recreated ==> present && rows == [RequiredHeader]
      ensures outcome != Recreated ==> present == old(present) && rows == old(rows)
      ensures !readFault && !writeFault ==> present && HeaderOk(rows)
    {
      if present && readFault {
        return ReadError;
      }
      if present && !decodeFault && HeaderOk(rows) {
        return Kept;
      }
      if writeFault {
        return WriteError;
      }
      rows := [RequiredHeader];
      present := true;
      return Recreated;
    }

    /** submit_data: the checks of Screen, with email_exists asked about
        the stripped address, and on acceptance one row appended after all
        existing lines (the header first when the file is empty). Nothing
        changes otherwise. A sound file stays sound, and when the read
        succeeded a sound file without duplicates keeps none. */
    method SubmitData(form: Form, readFault: bool, writeFault: bool) returns (outcome: SubmitOutcome)
      requires Valid()
      modifies this
      ensures Valid()
      ensures outcome == Ending(Screen(form, EmailExists(old(Load(readFault)), Strip(form.email))), writeFault)
      ensures outcome.Submitted? ==>
                present && rows == AppendRow(old(rows), FormatRow(outcome.record))
      ensures !outcome.Submitted? ==> present == old(present) && rows == old(rows)
      ensures old(Sound(rows)) ==> Sound(rows)
      ensures !readFault && old(Sound(rows) && Unique(rows)) ==> Unique(rows)
    {
      var lookup := EmailExists(Load(readFault), Strip(form.email));
      outcome := Ending(Screen(form, lookup), writeFault);
      if outcome.Submitted? {
        SubmitKeepsSound(rows, form, lookup, writeFault);
        if !readFault && Sound(rows) && Unique(rows) {
          SubmitKeepsUnique(rows, form);
        }
        rows := AppendRow(rows, FormatRow(outcome.record));
        present := true;
      }
    }

    /** delete_record: the checks of PlanDelete on the file as loaded, and
        when some record matches, the file rewritten with the header and
        the other records. Nothing changes otherwise. A sound file stays
        sound, and one without duplicates keeps none. */
    method DeleteRecord(input: string, confirmed: bool, readFault: bool, writeFault: bool)
      returns (outcome: DeleteOutcome)
      requires Valid()
      modifies this
      ensures Valid()
      ensures var p := PlanDelete(input, confirmed, old(Load(readFault)));
              && (p.Halt? ==> outcome == p.outcome)
              && (p.Write? ==> outcome == (if writeFault then DeleteFailed else Deleted))
      ensures outcome == Deleted ==>
                present && rows == PlanDelete(input, confirmed, old(Load(readFault))).rows
      ensures outcome != Deleted ==> present == old(present) && rows == old(rows)
      ensures old(Sound(rows)) ==> Sound(rows)
      ensures old(Sound(rows) && Unique(rows)) ==> Unique(rows)
    {
      var plan := PlanDelete(input, confirmed, Load(readFault));
      match plan
      case Halt(o) =>
        outcome := o;
      case Write(written) =>
        if writeFault {
          outcome := DeleteFailed;
        } else {
          if Sound(rows) {
            SoundRewrite(rows, Strip(input));
            if Unique(rows) {
              DeleteKeepsUnique(rows, Strip(input));
            }
          }
          rows := written;
          present := true;
          outcome := Deleted;
        }
    }
  }
}
