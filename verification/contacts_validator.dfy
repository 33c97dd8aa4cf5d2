/** `src/contacts/contacts_csv_validator.py`: the first-failure Contacts
    validator. The header must be exactly the seven contact columns; data
    rows are checked in file order and the first failing row ends the run.
    Indexing a field the row does not have raises `IndexError`, which is not
    caught. The wall clock is the parameter `now`. */
module ContactsLegacy {
  import opened Wrappers
  import opened PyText
  import opened LegacyFiles

  const Columns: seq<string> := [
    "userId", "shouldJoin", "joinDate", "tierName", "tierEntryAt", "tierCalcAt", "shouldReward"]

  /** The four rules, in the order they are checked. */
  datatype RowFailure =
    | ShouldJoinNotTrue
    | JoinDateNotPast
    | JoinDateNotInteger
    | TierDatesSet
    | ShouldRewardNotBoolean
  {
    function Text(): string {
      match this
      case ShouldJoinNotTrue => "Column 'shouldJoin' should be 'TRUE'"
      case JoinDateNotPast => "Column 'joinDate' should be a past UNIX timestamp in milliseconds"
      case JoinDateNotInteger => "Column 'joinDate' should be an integer (UNIX timestamp in milliseconds)"
      case TierDatesSet => "Columns 'tierEntryAt' and 'tierCalcAt' should be empty"
      case ShouldRewardNotBoolean => "Column 'shouldReward' should be 'TRUE' or 'FALSE'"
    }
  }

  /** A data row every rule accepts. */
  predicate RowAcceptable(values: seq<string>, now: int) {
    && |values| >= 7
    && values[1] == "TRUE"
    && ParseInt(values[2]).Some? && ParseInt(values[2]).value < now
    && values[4] == "" && values[5] == ""
    && (values[6] == "TRUE" || values[6] == "FALSE")
  }

  /** The rule chain: the first failing rule, `None` when all pass. A rule
      that reads a missing field raises; `values[4] or values[5]` reads the
      sixth field only when the fifth is empty. */
  function FirstFailure(values: seq<string>, now: int): (r: Checked<Option<RowFailure>>)
    ensures r == Done(None) <==> RowAcceptable(values, now)
    ensures r.Raised? ==> r.exception == IndexError && |values| < 7
    ensures |values| >= 7 ==> r.Done?
    ensures r == Done(Some(ShouldJoinNotTrue)) <==> |values| > 1 && values[1] != "TRUE"
  {
    if |values| < 2 then Raised(IndexError)
    else if values[1] != "TRUE" then Done(Some(ShouldJoinNotTrue))
    else if |values| < 3 then Raised(IndexError)
    else match ParseInt(values[2])
      case None => Done(Some(JoinDateNotInteger))
      case Some(joinDate) =>
        if !(joinDate < now) then Done(Some(JoinDateNotPast))
        else if |values| < 5 then Raised(IndexError)
        else if values[4] != "" then Done(Some(TierDatesSet))
        else if |values| < 6 then Raised(IndexError)
        else if values[5] != "" then Done(Some(TierDatesSet))
        else if |values| < 7 then Raised(IndexError)
        else if values[6] != "TRUE" && values[6] != "FALSE" then Done(Some(ShouldRewardNotBoolean))
        else Done(None)
  }

  /** The rules are tried in order: a reported failure means every earlier
      rule passed. */
  lemma FailureOrder(values: seq<string>, now: int)
    requires FirstFailure(values, now).Done? && FirstFailure(values, now).value.Some?
    ensures var f := FirstFailure(values, now).value.value;
      && (f != ShouldJoinNotTrue ==> values[1] == "TRUE")
      && (f == JoinDateNotPast ==> ParseInt(values[2]).Some? && ParseInt(values[2]).value >= now)
      && (f == TierDatesSet ==>
            ParseInt(values[2]).Some? && ParseInt(values[2]).value < now
            && (values[4] != "" || (|values| > 5 && values[5] != "")))
      && (f == ShouldRewardNotBoolean ==>
            ParseInt(values[2]).Some? && ParseInt(values[2]).value < now
            && values[4] == "" && values[5] == "" && values[6] != "TRUE" && values[6] != "FALSE")
  {
  }

  /** The userId and tierName fields are never read. */
  lemma IgnoresUserIdAndTierName(values: seq<string>, other: seq<string>, now: int)
    requires |values| == |other|
    requires forall k :: 0 <= k < |values| && k != 0 && k != 3 ==> values[k] == other[k]
    ensures FirstFailure(values, now) == FirstFailure(other, now)
  {
    if |values| > 1 { assert values[1] == other[1]; }
    if |values| > 2 { assert values[2] == other[2]; }
    if |values| > 4 { assert values[4] == other[4]; }
    if |values| > 5 { assert values[5] == other[5]; }
    if |values| > 6 { assert values[6] == other[6]; }
  }

  /** The prefix of every row message. */
  function LinePrefix(rowNumber: nat, rowContent: string): string {
    "Error in line " + NatToString(rowNumber) + " (" + rowContent + "): "
  }

  /** `_validate_row(values, row_number, row_content)`. */
  function ValidateRow(values: seq<string>, rowNumber: nat, rowContent: string, now: int): (r: Checked<Outcome>)
    ensures r.Raised? <==> FirstFailure(values, now).Raised?
    ensures r.Done? ==> (r.value.valid <==> RowAcceptable(values, now))
    ensures r.Done? && r.value.valid ==> r.value.message == ""
    ensures r.Done? && !r.value.valid ==>
              r.value.message == LinePrefix(rowNumber, rowContent) + FirstFailure(values, now).value.value.Text()
  {
    match FirstFailure(values, now)
    case Raised(e) => Raised(e)
    case Done(None) => Done(Outcome(true, ""))
    case Done(Some(f)) => Done(Outcome(false, LinePrefix(rowNumber, rowContent) + f.Text()))
  }

  const HeaderMessage := "Incorrect column order or missing columns"

  /** One iteration of the row loop: the line is stripped and split, and
      its text goes into the message. */
  function RowCheck(now: int): LineCheck {
    (row: string, index: nat) => ValidateRow(FieldsOf(row), index, row, now)
  }

  /** `ContactsValidator.validate` on the file's decoded lines: an empty file
      raises `IndexError` at `content[0]`; a wrong header fails; otherwise
      the data rows are checked from line 2 and the first failing one ends
      the run. */
  function Validate(lines: seq<string>, now: int): (r: Checked<Outcome>)
    ensures Content(lines) == [] ==> r == Raised(IndexError)
    ensures var content := Content(lines);
      content != [] && FieldsOf(content[0]) != Columns ==> r == Done(Outcome(false, HeaderMessage))
  {
    var content := Content(lines);
    if content == [] then Raised(IndexError)
    else if FieldsOf(content[0]) != Columns then Done(Outcome(false, HeaderMessage))
    else CheckLines(content[1..], 2, RowCheck(now))
  }

  lemma PassesIffAcceptable(row: string, index: nat, now: int)
    ensures Passes(RowCheck(now), row, index) <==> RowAcceptable(FieldsOf(row), now)
  {
  }

  /** A line after the header passes exactly when every rule accepts it. */
  lemma LinesPassIffAcceptable(content: seq<string>, now: int)
    ensures forall k :: 1 <= k < |content| ==>
              (Passes(RowCheck(now), content[k], k + 1) <==> RowAcceptable(FieldsOf(content[k]), now))
  {
    forall k | 1 <= k < |content|
      ensures Passes(RowCheck(now), content[k], k + 1) <==> RowAcceptable(FieldsOf(content[k]), now)
    {
      PassesIffAcceptable(content[k], k + 1, now);
    }
  }

  /** A file passes exactly when it has the exact header and every data row
      is acceptable. */
  lemma ValidateAcceptsExactly(lines: seq<string>, now: int)
    ensures Validate(lines, now).Done? && Validate(lines, now).value.valid <==>
      && Content(lines) != []
      && FieldsOf(Content(lines)[0]) == Columns
      && forall k :: 1 <= k < |Content(lines)| ==> RowAcceptable(FieldsOf(Content(lines)[k]), now)
  {
    var content := Content(lines);
    if content != [] && FieldsOf(content[0]) == Columns {
      RowsAfterHeaderPass(content, RowCheck(now));
      LinesPassIffAcceptable(content, now);
    }
  }

  /** The row loop's first line that is not acceptable, and its result. */
  lemma RowsFirstFailure(content: seq<string>, now: int) returns (k: nat)
    requires |content| > 0
    requires !(CheckLines(content[1..], 2, RowCheck(now)).Done? && CheckLines(content[1..], 2, RowCheck(now)).value.valid)
    ensures 1 <= k < |content|
    ensures forall j :: 1 <= j < k ==> RowAcceptable(FieldsOf(content[j]), now)
    ensures !RowAcceptable(FieldsOf(content[k]), now)
    ensures CheckLines(content[1..], 2, RowCheck(now)) == ValidateRow(FieldsOf(content[k]), k + 1, content[k], now)
  {
    k := RowsAfterHeaderFirstFailure(content, RowCheck(now));
    forall j | 1 <= j < k ensures RowAcceptable(FieldsOf(content[j]), now) {
      PassesIffAcceptable(content[j], j + 1, now);
    }
    PassesIffAcceptable(content[k], k + 1, now);
    assert RowCheck(now)(content[k], k + 1) == ValidateRow(FieldsOf(content[k]), k + 1, content[k], now);
  }

  /** When a data row fails or raises, the result is that of the first such
      row, numbered as its line in the file with the header as line 1. */
  lemma ValidateReportsFirstFailure(lines: seq<string>, now: int)
    requires Content(lines) != [] && FieldsOf(Content(lines)[0]) == Columns
    requires !(Validate(lines, now).Done? && Validate(lines, now).value.valid)
    ensures exists k ::
      && 1 <= k < |Content(lines)|
      && (forall j :: 1 <= j < k ==> RowAcceptable(FieldsOf(Content(lines)[j]), now))
      && Validate(lines, now) == ValidateRow(FieldsOf(Content(lines)[k]), k + 1, Content(lines)[k], now)
  {
    var content := Content(lines);
    var k := RowsFirstFailure(content, now);
    assert 1 <= k < |content|
      && (forall j :: 1 <= j < k ==> RowAcceptable(FieldsOf(content[j]), now))
      && Validate(lines, now) == ValidateRow(FieldsOf(content[k]), k + 1, content[k], now);
  }
}
