/** The checks of DatabasePage.delete_record: a chain of early returns on the
    typed e-mail, the confirmation and the loaded file, ending in the file
    to write back when some record matches. */
module Deletion {
  import opened Text
  import opened Validation
  import opened Records

  /** The dialogs delete_record can end with; FilterRaised is the exception the
      filter raises on a record without an Email value. */
  datatype DeleteOutcome =
    | NoInput | BadEmail | Declined | LoadFailed | FilterRaised
    | NotFound | DeleteFailed | Deleted

  /** Where the chain stops: with a dialog, or with the rows to write. */
  datatype Plan = Halt(outcome: DeleteOutcome) | Write(rows: seq<Row>)

  /** Every record has an Email value, so the filter does not raise. */
  predicate AllHaveEmail(t: Table) {
    EmailsBefore(t.header, t.records, |t.records|)
  }

  /** Some record holds `email`, as the delete filter compares. */
  predicate AnyMatches(t: Table, email: string) {
    exists i :: 0 <= i < |t.records| && Matches(t.header, t.records[i], email)
  }

  /** delete_record up to the write. `file` is the content load_database
      reads, or None when it fails; the input is stripped first. */
  function PlanDelete(input: string, confirmed: bool, file: Option<seq<Row>>): (p: Plan)
    ensures p.Write? ==> file.Some? && p.rows == Rewrite(Parse(file.value), Strip(input))
  {
    var email := Strip(input);
    if email == [] then Halt(NoInput)
    else if !ValidEmail(email) then Halt(BadEmail)
    else if !confirmed then Halt(Declined)
    else if file.None? then Halt(LoadFailed)
    else
      var t := Parse(file.value);
      if !AllHaveEmail(t) then Halt(FilterRaised)
      else if |RemoveMatching(t.header, t.records, email)| == |t.records| then Halt(NotFound)
      else Write(Rewrite(t, email))
  }

  /** The input is checked before the file is read: empty, then not an
      e-mail address, then not confirmed; only then does a failed load
      end the flow. */
  lemma PlanDeleteInputFirst(input: string, confirmed: bool, file: Option<seq<Row>>)
    ensures PlanDelete(input, confirmed, file) == Halt(NoInput) <==> Strip(input) == []
    ensures PlanDelete(input, confirmed, file) == Halt(BadEmail) <==>
              Strip(input) != [] && !ValidEmail(Strip(input))
    ensures PlanDelete(input, confirmed, file) == Halt(Declined) <==>
              ValidEmail(Strip(input)) && !confirmed
    ensures PlanDelete(input, confirmed, file) == Halt(LoadFailed) <==>
              ValidEmail(Strip(input)) && confirmed && file.None?
  {
    if ValidEmail(Strip(input)) {
      assert Strip(input) != [];
    }
  }

  /** Nothing is written exactly when no record matches, the empty file
      included: the flow then ends with "not found". */
  lemma PlanDeleteNotFound(input: string, confirmed: bool, file: Option<seq<Row>>)
    ensures PlanDelete(input, confirmed, file) == Halt(NotFound) <==>
              && ValidEmail(Strip(input)) && confirmed && file.Some?
              && AllHaveEmail(Parse(file.value))
              && !AnyMatches(Parse(file.value), Strip(input))
  {
    if ValidEmail(Strip(input)) && file.Some? {
      var t := Parse(file.value);
      RemoveMatchingNone(t.header, t.records, Strip(input));
    }
  }

  /** The file is rewritten exactly when the input is a confirmed valid
      address, the file loads, and some record matches it. */
  lemma PlanDeleteWrites(input: string, confirmed: bool, file: Option<seq<Row>>)
    ensures PlanDelete(input, confirmed, file).Write? <==>
              && ValidEmail(Strip(input)) && confirmed && file.Some?
              && AllHaveEmail(Parse(file.value))
              && AnyMatches(Parse(file.value), Strip(input))
  {
    PlanDeleteNotFound(input, confirmed, file);
  }

  /** The rewritten file keeps the header and, in their order, exactly the
      records that do not match, padded to the header's width; no record
      of it matches the address. */
  lemma PlanDeleteRemovesAll(input: string, confirmed: bool, file: Option<seq<Row>>)
    requires PlanDelete(input, confirmed, file).Write?
    ensures var t := Parse(file.value);
            var after := Parse(PlanDelete(input, confirmed, file).rows);
            && after.header == t.header
            && after.records == PadAll(RemoveMatching(t.header, t.records, Strip(input)), |t.header|)
            && |after.records| < |t.records|
            && forall x :: x in after.records ==> HasEmail(t.header, x) && !Matches(t.header, x, Strip(input))
  {
    var t := Parse(file.value);
    var email := Strip(input);
    forall i | 0 <= i < |t.records| ensures t.records[i] != [] {
      assert t.records[i] in NonBlank(file.value[1..]);
    }
    RewriteParse(t, email);
    RewriteRemovesAll(t, email);
  }

  /** After a deletion the address, in any case, is no longer a duplicate
      for the submit flow. */
  lemma DeletedEmailIsFree(input: string, confirmed: bool, file: Option<seq<Row>>, email: string)
    requires PlanDelete(input, confirmed, file).Write?
    requires Lower(email) == Lower(Strip(input))
    ensures var after := Parse(PlanDelete(input, confirmed, file).rows);
            ScanEmail(after.header, after.records, email) == Absent
  {
    var after := Parse(PlanDelete(input, confirmed, file).rows);
    PlanDeleteRemovesAll(input, confirmed, file);
    NoMatchNoDuplicate(after.header, after.records, Strip(input), email);
  }
}
