/** `contact/enhanced_contacts_csv_validator.py`: the same four contact rules
    as `src/contacts/contacts_csv_validator.py`, with bare row messages that
    `validate` wraps together with the row's text. It opens the file without
    `utf-8-sig`, so a byte order mark stays in the first line. */
module EnhancedContacts {
  import opened Wrappers
  import opened PyText
  import opened LegacyFiles
  import ContactsLegacy

  /** `_validate_row(values)`: the first failing rule's bare message. */
  function ValidateRow(values: seq<string>, now: int): (r: Checked<Outcome>)
    ensures r.Raised? ==> r.exception == IndexError && |values| < 7
    ensures r.Done? && r.value.valid ==> r.value.message == ""
  {
    if |values| < 2 then Raised(IndexError)
    else if values[1] != "TRUE" then Done(Outcome(false, ContactsLegacy.RowFailure.ShouldJoinNotTrue.Text()))
    else if |values| < 3 then Raised(IndexError)
    else match ParseInt(values[2])
      case None => Done(Outcome(false, ContactsLegacy.RowFailure.JoinDateNotInteger.Text()))
      case Some(joinDate) =>
        if !(joinDate < now) then Done(Outcome(false, ContactsLegacy.RowFailure.JoinDateNotPast.Text()))
        else if |values| < 5 then Raised(IndexError)
        else if values[4] != "" || (|values| > 5 && values[5] != "") then
          Done(Outcome(false, ContactsLegacy.RowFailure.TierDatesSet.Text()))
        else if |values| < 6 then Raised(IndexError)
        else if |values| < 7 then Raised(IndexError)
        else if values[6] != "TRUE" && values[6] != "FALSE" then
          Done(Outcome(false, ContactsLegacy.RowFailure.ShouldRewardNotBoolean.Text()))
        else Done(Outcome(true, ""))
  }

  /** Row for row the two contact validators agree: they raise on the same
      rows, accept the same rows, and the legacy message is this one with
      the line prefix in front. */
  lemma AgreesWithLegacy(values: seq<string>, rowNumber: nat, rowContent: string, now: int)
    ensures var mine := ValidateRow(values, now);
      var legacy := ContactsLegacy.ValidateRow(values, rowNumber, rowContent, now);
      && (mine.Raised? <==> legacy.Raised?)
      && (mine.Done? ==> (mine.value.valid <==> legacy.value.valid))
      && (mine.Done? && !mine.value.valid ==>
            legacy.value.message == ContactsLegacy.LinePrefix(rowNumber, rowContent) + mine.value.message)
  {
  }

  /** A row is accepted exactly when every contact rule holds. */
  lemma AcceptsExactly(values: seq<string>, now: int)
    ensures ValidateRow(values, now) == Done(Outcome(true, "")) <==> ContactsLegacy.RowAcceptable(values, now)
  {
    AgreesWithLegacy(values, 0, "", now);
  }

  /** A joinDate equal to the current time is not in the past. */
  lemma JoinDateNowRejected(values: seq<string>, now: int)
    requires |values| >= 7 && values[1] == "TRUE" && ParseInt(values[2]) == Some(now)
    ensures ValidateRow(values, now) == Done(Outcome(false, ContactsLegacy.RowFailure.JoinDateNotPast.Text()))
  {
  }

  /** The message of a failing row: the raw line, then the rule's message. */
  function RowMessage(row: string, message: string): string {
    "Incorrect data in row: " + row + ". " + message
  }

  /** One iteration of the row loop: a failing row's message is wrapped
      with the row's text. */
  function CheckRow(row: string, now: int): (r: Checked<Outcome>)
    ensures r.Done? && r.value.valid <==> ContactsLegacy.RowAcceptable(FieldsOf(row), now)
    ensures r.Done? <==> ValidateRow(FieldsOf(row), now).Done?
    ensures r.Done? && !r.value.valid ==>
              r.value.message == RowMessage(row, ValidateRow(FieldsOf(row), now).value.message)
  {
    AcceptsExactly(FieldsOf(row), now);
    match ValidateRow(FieldsOf(row), now)
    case Raised(e) => Raised(e)
    case Done(o) => if o.valid then Done(o) else Done(Outcome(false, RowMessage(row, o.message)))
  }

  function RowCheck(now: int): LineCheck {
    (row: string, index: nat) => CheckRow(row, now)
  }

  /** `EnhancedContactsCSVValidator.validate` on the file's decoded lines. */
  function Validate(lines: seq<string>, now: int): (r: Checked<Outcome>)
    ensures NonBlankLines(lines) == [] ==> r == Raised(IndexError)
    ensures var content := NonBlankLines(lines);
      content != [] && FieldsOf(content[0]) != ContactsLegacy.Columns ==>
        r == Done(Outcome(false, ContactsLegacy.HeaderMessage))
  {
    var content := NonBlankLines(lines);
    if content == [] then Raised(IndexError)
    else if FieldsOf(content[0]) != ContactsLegacy.Columns then Done(Outcome(false, ContactsLegacy.HeaderMessage))
    else CheckLines(content[1..], 2, RowCheck(now))
  }

  /** A line after the header passes exactly when every rule accepts it. */
  lemma LinesPassIffAcceptable(content: seq<string>, now: int)
    ensures forall k :: 1 <= k < |content| ==>
              (Passes(RowCheck(now), content[k], k + 1) <==> ContactsLegacy.RowAcceptable(FieldsOf(content[k]), now))
  {
    forall k | 1 <= k < |content|
      ensures Passes(RowCheck(now), content[k], k + 1) <==> ContactsLegacy.RowAcceptable(FieldsOf(content[k]), now)
    {
      assert RowCheck(now)(content[k], k + 1) == CheckRow(content[k], now);
    }
  }

  /** A file passes exactly when its first non-blank line is the exact
      header and every later line is an acceptable row. */
  lemma ValidateAcceptsExactly(lines: seq<string>, now: int)
    ensures Validate(lines, now).Done? && Validate(lines, now).value.valid <==>
      && NonBlankLines(lines) != []
      && FieldsOf(NonBlankLines(lines)[0]) == ContactsLegacy.Columns
      && forall k :: 1 <= k < |NonBlankLines(lines)| ==>
           ContactsLegacy.RowAcceptable(FieldsOf(NonBlankLines(lines)[k]), now)
  {
    var content := NonBlankLines(lines);
    if content != [] && FieldsOf(content[0]) == ContactsLegacy.Columns {
      RowsAfterHeaderPass(content, RowCheck(now));
      LinesPassIffAcceptable(content, now);
    }
  }

  /** On a file without a leading byte order mark the two validators give
      the same verdict. */
  lemma SameVerdictAsLegacy(lines: seq<string>, now: int)
    requires !(|lines| > 0 && |lines[0]| > 0 && lines[0][0] == BomChar)
    ensures Validate(lines, now).Done? && Validate(lines, now).value.valid <==>
              ContactsLegacy.Validate(lines, now).Done? && ContactsLegacy.Validate(lines, now).value.valid
  {
    ValidateAcceptsExactly(lines, now);
    ContactsLegacy.ValidateAcceptsExactly(lines, now);
  }
}
