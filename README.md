# Bank loan records: a Dafny model

The Bank-System application keeps loan applications in `database.csv`. It
validates a form (name, e-mail, date of birth, loan amount, interest rate,
term) and computes the interest. It stores one row per accepted
application, refuses a second application for an address already on file,
and deletes every row of an address on request. This project models that
logic without the Tkinter front end. The warnings and dialogs become
returned outcome values. The yes/no confirmation of a deletion becomes a
boolean parameter. The file becomes a sequence of rows of cells, as
`csv.reader` yields them.

Modules, one per file:

- `Text` (`text.dfy`): the ASCII behaviour of `str.lower`, `str.strip`,
  `str.title`, `str.isdigit` with `int`, `f"{n}"` and `<` on `str`.
- `Validation` (`validation.dfy`): `validate_email` and `validate_dob`.
  The regular expressions are restated as character classes. Each is tied
  to a declarative reading of its pattern.
- `Interest` (`interest.dfy`): `calculate_interest` and
  `calculate_monthly_interest`.
- `Records` (`records.dfy`): the row written for a record and how it reads
  back; the table `csv.DictReader` sees; the scan of `email_exists`; the
  filter and the rewrite of `delete_record`.
- `Submission` (`submission.dfy`): the chain of checks of `submit_data`.
  The first failing check wins. A form that passes every check becomes a
  normalised record.
- `Deletion` (`deletion.dfy`): the chain of checks of `delete_record`. It
  ends in the rows to write back.
- `Store` (`store.dfy`): class `Database`, holding whether the file exists
  and its rows. Its methods `InitializeDatabase`, `SubmitData` and
  `DeleteRecord` change the file. The module also holds the invariant the
  three methods keep: a `Sound` file has the required header and only
  records that `submit_data` could have written (stripped, title-cased
  name, lower-case valid address, valid date of birth, positive amounts
  written without leading zeros, derived amounts recomputed).

A read or write failure is a boolean parameter of each operation, and so is a first chunk of the file that cannot be decoded, for `initialize_database`. A missing
file is the `present` field.

The model follows the code in these cases:

- A write failure while `initialize_database` recreates the file is not
  caught. The model returns `WriteError` and leaves the file unchanged.
- A record without an `Email` value makes `email_exists` raise. It does the
  same inside the delete filter. These exceptions are not caught; the model
  returns `Aborted`/`CheckRaised` and `FilterRaised`.
- `email_exists` compares the stored address without stripping it. The
  delete filter strips it first.
- `email_exists` answers "no" when the file cannot be read, so the submit
  flow then goes on. A duplicate address can then be stored: the file stays
  free of duplicates (`Unique`) across every delete, and across the submits
  whose read succeeds.

## Model

| member | source | states |
|---|---|---|
| Text.Lower | src/bank_system.py:102 | str.lower() keeps the length and lowers each ASCII capital, leaving every other character |
| Text.LowerIdempotent | src/bank_system.py:265 | lowering an already lowered address changes nothing |
| Text.Strip | src/bank_system.py:191-196 | str.strip() is the infix left once whitespace is removed from both ends; what it removes is whitespace and it ends on non-whitespace |
| Text.StripUnpadded | src/bank_system.py:427 | a string without whitespace at its ends is its own strip() |
| Text.LowerSameUnpadded | src/bank_system.py:427 | a string equal up to case to one without whitespace at its ends is its own strip() |
| Text.TitleAt | src/bank_system.py:264 | str.title() upper-cases exactly the letters that start a run of letters, lowers the other letters and keeps every other character |
| Text.TitleIdempotent | src/bank_system.py:264 | title-casing a title-cased name changes nothing |
| Text.TitleKeepsUnpadded | src/bank_system.py:264 | title-casing a stripped name leaves it stripped |
| Text.Title | src/bank_system.py:264 | str.title() keeps the length; its characters are given by TitleAt |
| Text.IsDigits | src/bank_system.py:228-244 | str.isdigit() on ASCII: non-empty and every character a digit |
| Text.DigitsValue | src/bank_system.py:228-251 | int() of a digit string, leading zeros allowed; NatToStringRoundTrip inverts f"{n}" with it |
| Text.LexLess | src/bank_system.py:79 | the `<` of Python strings: code point by code point, a proper prefix first; LexLessIsYearBefore gives its meaning against "2025" |
| Text.NatToString | src/bank_system.py:267-271 | f"{n}" is a non-empty run of digits with no leading zero unless n is 0 |
| Text.NatToStringRoundTrip | src/bank_system.py:267-271 | int() of f"{n}" is n |
| Validation.ValidEmailMatchesPattern | src/bank_system.py:73-75 | the left-to-right decision accepts exactly the strings of the form local '@' domain '.' tld, with non-empty local and domain parts drawn from their classes and a tld of two or more letters |
| Validation.ValidEmailSplits | src/bank_system.py:73-75 | an address the decision accepts splits, at its local-part end and its last dot, into the three parts the regular expression requires |
| Validation.SplitIsValidEmail | src/bank_system.py:73-75 | any split of the form local '@' domain '.' tld that the regular expression allows makes the decision accept |
| Validation.ValidEmailUnpadded | src/bank_system.py:73-75 | an accepted address has no whitespace at either end |
| Validation.LowerKeepsValidEmail | src/bank_system.py:265 | the lower-cased address stored for a valid address is valid too |
| Validation.LexLessIsYearBefore | src/bank_system.py:79 | for a string starting with four digits, comparing it with "2025" as text is comparing the year with 2025 as a number |
| Validation.ValidEmail | src/bank_system.py:73-75 | validate_email as a left-to-right decision: the longest run of local characters, then '@', then domain characters with a last '.' followed by two or more letters; its meaning is ValidEmailMatchesPattern |
| Validation.ValidDob | src/bank_system.py:77-79 | validate_dob: the YYYY-MM-DD shape and a string comparison below "2025"; its meaning is ValidDobMeaning |
| Validation.PositiveNumber | src/bank_system.py:228-244 | `s.isdigit() and int(s) > 0`, the test each amount must pass |
| Validation.ValidDobMeaning | src/bank_system.py:77-79 | validate_dob holds exactly for YYYY-MM-DD with month 1 to 12, day 0 to 31 in every month, and year before 2025 |
| Validation.EmailAcceptedExample1 | tests/test_bank_system.py:18 | "test@example.com" is accepted |
| Validation.EmailAcceptedExample2 | tests/test_bank_system.py:19 | "user.name+tag@domain.co" is accepted |
| Validation.EmailRejectedExample1 | tests/test_bank_system.py:22 | "invalid.email" is rejected |
| Validation.EmailRejectedExample2 | tests/test_bank_system.py:23 | "user@.com" is rejected |
| Validation.EmailRejectedExample3 | tests/test_bank_system.py:24 | "@example.com" is rejected |
| Validation.EmailCaseExample | src/bank_system.py:73-75 | A@B.com is valid, both it and a@b.com are their own strip(), and they are equal up to case |
| Validation.DobAcceptedExamples | tests/test_bank_system.py:38-39 | "2000-01-01" and "1999-12-31" are accepted |
| Validation.DobCalendarExamples | src/bank_system.py:78 | "2020-02-31" and "2000-01-00" are accepted: there is no calendar check |
| Validation.DobRejectedExamples | tests/test_bank_system.py:42-44 | "2025-01-01", "01-01-2000" and "2000-13-01" are rejected |
| Interest.CalculateInterest | src/bank_system.py:81-82 | the interest is amount * rate / 100 truncated: r * 100 <= amount * rate < r * 100 + 100 |
| Interest.CalculateMonthlyInterest | src/bank_system.py:84-85 | the total is at least the one-off interest for a term of a month or more, and at least the term for a positive interest |
| Interest.TotalInterestBounds | src/bank_system.py:81-85 | the stored total lies within one unit per month below the exact amount * rate * months / 100 |
| Interest.InterestExamples | tests/test_bank_system.py:52-57 | 1000 at 5% gives 50, 5000 at 10% gives 500, 100 over 12 months gives 1200, 50 over 6 gives 300 |
| Records.Amount | src/bank_system.py:267-271 | f"{n} $", f"{n} %" and f"{n} months": the numeral then the unit; AmountRoundTrip reads it back |
| Records.FormatRow | src/bank_system.py:263-272 | the row written for a record has one cell per required column |
| Records.AmountRoundTrip | src/bank_system.py:267-271 | an amount written as "<n><unit>" reads back as n |
| Records.RowRoundTrip | src/bank_system.py:263-272 | every field of a written row reads back as the record's field |
| Records.Parse | src/bank_system.py:87-91 | the first row is the header and the records are the later rows that are not blank; its properties are NonBlank's |
| Records.NonBlank | src/bank_system.py:87-91 | DictReader keeps exactly the rows that are not blank |
| Records.NonBlankAppend | src/bank_system.py:87-91 | blank rows are dropped part by part, in order |
| Text.LastIndexOf | src/bank_system.py:102 | the index of the last occurrence, or -1 when there is none: the Email column DictReader uses, and the last '.' of an address |
| Records.EmailCell | src/bank_system.py:102 | record['Email'], when present, is one of the row's cells; EmailCellColumn says which |
| Records.EmailCellColumn | src/bank_system.py:90-102 | record['Email'] is present exactly when the header names an Email column and the row reaches the last such column, and it is then the row's cell in that column |
| Records.EmailCellStandard | src/bank_system.py:44-48 | under the required header the e-mail is the second cell |
| Records.SameEmail | src/bank_system.py:102 | record['Email'].lower() == email.lower(), false when the record has no Email value |
| Records.ScanEmail | src/bank_system.py:97-102 | the scan finds the address only when a record holds it up to case; it answers "absent" exactly when every record has an Email value and none holds it; it raises only on a record without an Email value |
| Records.ScanEmailFound | src/bank_system.py:102 | any() stops at the first deciding record: the address is found exactly when some record holds it up to case and every record before it has an Email value |
| Records.ScanEmailRaised | src/bank_system.py:102 | the check raises exactly when some record has no Email value and every record before it has one that differs from the address |
| Records.NoDuplicatesAppend | src/bank_system.py:207-210 | adding a record whose address the duplicate check did not find keeps the records free of duplicates up to case |
| Records.FormatRowEmail | src/bank_system.py:263-265 | under the required header, a written row's Email value is the record's address |
| Records.SameEmailMatches | src/bank_system.py:427 | a record the duplicate check finds for a valid address is one the delete filter removes |
| Records.NoMatchNoDuplicate | src/bank_system.py:97-102 | records none of which the delete filter removes hold no duplicate of the address, in any case |
| Records.Matches | src/bank_system.py:427 | r["Email"].strip().lower() == email.lower(); SameEmailMatches relates it to the duplicate check |
| Records.NoDuplicatesCons | src/bank_system.py:427 | a record in front keeps the records duplicate-free exactly when the others are and none of them holds its address |
| Records.RemoveMatchingKeepsNoDuplicates | src/bank_system.py:427 | the records the delete filter keeps are free of duplicates when the records were |
| Records.RemoveMatching | src/bank_system.py:427 | the filter keeps exactly the records that do not match and never adds one |
| Records.RemoveMatchingAppend | src/bank_system.py:427 | the kept records keep their order |
| Records.RemoveMatchingNone | src/bank_system.py:426-429 | the count is unchanged exactly when no record matches, and then nothing changes |
| Records.AppendRow | src/bank_system.py:276-280 | the file after the append in mode "a": the header first when the file was empty, then the row after every existing line; ParseAfterAppend states how it reads back |
| Records.ParseAfterAppend | src/bank_system.py:276-280 | an append keeps the header (writing it when the file is empty) and every record, and adds the row last |
| Records.Padded | src/bank_system.py:436-438 | DictWriter fills the values a short row lacks with empty cells and keeps the rest |
| Records.PadAllFull | src/bank_system.py:436-438 | rows that fill every column are written as they are |
| Records.PaddedEmailCell | src/bank_system.py:436-438 | padding keeps a record's Email value |
| Records.Rewrite | src/bank_system.py:435-438 | the rewritten file starts with the header, then one row per kept record |
| Records.RewriteParse | src/bank_system.py:433-438 | the rewritten file reads back as the header and the kept records, padded, in order |
| Records.RewriteRemovesAll | src/bank_system.py:427-438 | no record of the rewritten file matches the address |
| Submission.Assess | src/bank_system.py:191-246 | the answer of each of the twelve checks on the stripped entries, the duplicate check passing when the lookup found nothing or could not read the file |
| Submission.Decide | src/bank_system.py:198-246 | the early returns in their order; DecideFirstFailure, DecideAborts and DecideProceeds state their meaning |
| Submission.Screen | src/bank_system.py:189-272 | submit_data up to the write; ScreenFirstFailure, ScreenAccepts and ScreenAcceptedRecord state its meaning |
| Submission.Normalize | src/bank_system.py:248-272 | the record built from accepted entries; NormalizeConsistent states what holds of it |
| Submission.DecideFirstFailure | src/bank_system.py:198-246 | the chain stops at check k exactly when k fails and every earlier check passes, whatever the later checks would say |
| Submission.DecideAborts | src/bank_system.py:207-210 | an exception out of the duplicate check ends the flow only once name and e-mail have passed |
| Submission.DecideProceeds | src/bank_system.py:198-246 | the chain runs to its end exactly when every check passes |
| Submission.NormalizeConsistent | src/bank_system.py:248-272 | for a stripped name the normalised record has a stripped, title-cased name, a valid lower-case address, a valid date of birth, positive amounts and the derived amounts recomputed |
| Submission.ScreenAcceptedRecord | src/bank_system.py:248-272 | an accepted form yields a consistent record with the title-cased name, the lower-cased address and the date of birth as typed |
| Submission.ScreenAcceptedAmounts | src/bank_system.py:248-251 | the loan, rate and months of an accepted form's record are the numbers int() reads from the stripped entries |
| Submission.ScreenFirstFailure | src/bank_system.py:189-246 | a form is refused for check k exactly when k fails on its stripped entries and every earlier check passes |
| Submission.ScreenAccepts | src/bank_system.py:189-246 | a form is accepted exactly when it passes every check |
| Deletion.PlanDelete | src/bank_system.py:406-438 | when delete_record writes, it writes the rewrite of the loaded file for the stripped address |
| Deletion.PlanDeleteInputFirst | src/bank_system.py:407-423 | empty input, then a malformed address, then a refused confirmation, then a failed load end the flow, in that order |
| Deletion.AllHaveEmail | src/bank_system.py:427 | every record has an Email value, so the filter does not raise |
| Deletion.PlanDeleteNotFound | src/bank_system.py:426-431 | "not found", with nothing written, happens exactly when the address is a confirmed valid one, the file loads, every record has an Email value, and no record matches, the empty file included |
| Deletion.PlanDeleteWrites | src/bank_system.py:406-438 | the file is rewritten exactly when a confirmed valid address matches some record of a loaded file whose records all have an Email value |
| Deletion.PlanDeleteRemovesAll | src/bank_system.py:426-438 | the rewritten file keeps the header and, in order, exactly the non-matching records; it has fewer records and none matches |
| Deletion.DeletedEmailIsFree | src/bank_system.py:97-102 | after a deletion the address, in any case, is no longer a duplicate |
| Store.Ending | src/bank_system.py:274-287 | only an accepted form whose row is written ends as stored |
| Store.EmailExists | src/bank_system.py:97-102 | "unreadable" exactly when the file was not loaded; "found" only when a record holds the address up to case, and exactly then when every record has an Email value |
| Store.EmailExistsExample | tests/test_bank_system.py:59-80 | a file whose record holds test@example.com has that address and not nonexistent@example.com |
| Store.HeaderOk | src/bank_system.py:43-52 | the file's first row equals the required header, the comparison of line 50 |
| Store.SoundInitial | src/bank_system.py:56-62 | the file of the header alone is sound |
| Store.SoundHasEmail | src/bank_system.py:102 | in a sound file every record has an Email value |
| Store.SoundAppend | src/bank_system.py:276-280 | appending a consistent record keeps the file sound |
| Store.DeleteKeepsUnique | src/bank_system.py:426-438 | the delete rewrite keeps a sound file without duplicates free of them |
| Store.SoundRewrite | src/bank_system.py:433-438 | the delete rewrite keeps a sound file sound, and its records are exactly the kept records, unchanged and in order |
| Store.SubmitKeepsSound | src/bank_system.py:248-280 | storing an accepted form keeps the file sound |
| Store.AppendReadsBack | src/bank_system.py:263-280 | a stored record reads back equal in every field, as the last record, after the records already there |
| Store.AppendedEmailFound | src/bank_system.py:97-102 | once stored, the address is found by the duplicate check, in any case |
| Store.ResubmitIsDuplicate | src/bank_system.py:207-210 | submitting an accepted form again after it was stored is refused as a duplicate |
| Store.DuplicateUpToCase | src/bank_system.py:207-210 | after a form is stored, a form whose address equals it up to case and whose name and address pass their checks is refused as a duplicate |
| Store.DuplicateCaseExample | src/bank_system.py:207-210 | once a@b.com is stored, A@B.com is refused as a duplicate |
| Store.AppendKeepsUnique | src/bank_system.py:276-280 | appending a row whose address the duplicate check did not find keeps the file free of duplicates |
| Store.AcceptedIsAbsent | src/bank_system.py:207-210 | a form accepted on a file that was read has an address no record holds, up to case, and every record has an Email value |
| Store.SubmitKeepsUnique | src/bank_system.py:207-280 | storing a form accepted on a sound file that was read and has no duplicates leaves no two records with the same address up to case |
| Store.Database.Load | src/bank_system.py:87-95 | the file is loaded exactly when it exists and can be read |
| Store.Database.InitializeDatabase | src/bank_system.py:37-65 | a file whose first row is the required header is kept; a missing, empty or differently headed file, or one whose first chunk read (the buffer `next(reader)` decodes, records included) cannot be decoded, becomes the header alone; a read failure shows an error; run without faults it leaves the header in place, so a second run keeps the file |
| Store.Database.SubmitData | src/bank_system.py:189-287 | the outcome is that of the checks on the file as loaded; an accepted form whose write succeeds appends one row after all lines and nothing else changes; a sound file stays sound, and when the read succeeded a sound file without duplicates keeps none |
| Store.Database.DeleteRecord | src/bank_system.py:406-444 | the outcome is that of the delete checks on the file as loaded; when some record matches and the write succeeds the file becomes the rewrite, otherwise nothing changes; a sound file stays sound, and a sound file without duplicates keeps none |

## Left out

- The Tkinter interface: layout, styling, `show_frame`, the `Treeview` listing (`load_data`), `clear_fields`, and the result labels with thousands separators. Warnings and dialogs are outcome values.
- CSV quoting and escaping: a row is a sequence of cells as `csv.reader` yields them.
- Rows with more cells than the header, and headers naming a column twice. `DictWriter` then writes another header, or raises after the file was truncated. The model writes such rows unchanged under the existing first row.
- Partial writes: a write that fails after it started, such as a truncated file on the delete path, is modelled as a write that changes nothing.
- Interest.CalculateInterest: uses exact integer truncation. The application computes `int(amount / 100 * rate)` in double-precision floating point. For small amounts that can be one lower (amount 29 at rate 100 gives 28). Above 2^53 the rounding can be off by more than one in either direction (amount 10^20 + 9900 at rate 1 gives 10^18 + 128, not 10^18 + 99). An entry, or `amount / 100 * rate`, beyond the float range (about 310 digits, or two 200-digit entries) raises OverflowError, which `submit_data` does not catch, so nothing is written; the model stores such a record.
- Python's limit of 4300 digits on conversions between `int` and `str`: where it applies, `int()` of a longer entry raises ValueError, and so does formatting a longer amount or total into the row. `submit_data` catches neither, so nothing is written; the model's numbers are unbounded and such a form is stored.
- Unicode: `\d`, `isdigit`, `strip`, `lower` and `title` are modelled on ASCII only (`strip` also removes U+00A0, U+0085, U+3000 and other Unicode spaces, which `Text.IsSpace` does not include).
- The regular expressions' `$` also matches before a final newline. The entries are stripped first, so both patterns are modelled as full matches.
- `validate_dob` returns `None` rather than `False` when the shape does not match. It is modelled as a boolean.
- The error dialog that `load_database` shows when the file cannot be read is not an outcome of `SubmitData`. The answer `Unreadable` stands for it.
- Store.EmailExists: the model computes the lookup before the checks that precede it. It is pure, so only the skipped error dialog differs.
