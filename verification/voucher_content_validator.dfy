/** `src/vouchers/voucher_csv_validator_content.py`: the first-failure
    Voucher validator. The header is compared as a set of names, the id
    columns must both be present, and the data rows are checked in order
    until the first failure. The wall clock is the parameter `now`. */
module VoucherContent {
  import opened Wrappers
  import opened PyText
  import opened LegacyFiles

  const Columns: seq<string> := [
    "userId", "externalId", "voucherType", "voucherName", "iconName", "code", "expiration"]

  const IdColumns: set<string> := {"userId", "externalId"}

  /** What is wrong with a header line, if anything. */
  datatype HeaderProblem = MissingId | WrongColumns

  function NameSet(names: seq<string>): set<string> {
    set k | 0 <= k < |names| :: names[k]
  }

  /** Comparing the name sets without the ids means: every other header
      name is expected, and every other expected name is in the header. */
  lemma NameSetsMeaning(headers: seq<string>)
    ensures NameSet(headers) - IdColumns == NameSet(Columns) - IdColumns <==>
              && (forall name :: name in headers && name !in IdColumns ==> name in Columns)
              && (forall name :: name in Columns && name !in IdColumns ==> name in headers)
  {
    forall name ensures name in NameSet(headers) <==> name in headers {
      if name in headers {
        var k :| 0 <= k < |headers| && headers[k] == name;
      }
    }
    forall name ensures name in NameSet(Columns) <==> name in Columns {
      if name in Columns {
        var k :| 0 <= k < |Columns| && Columns[k] == name;
      }
    }
    var left := NameSet(headers) - IdColumns;
    var right := NameSet(Columns) - IdColumns;
    if && (forall name :: name in headers && name !in IdColumns ==> name in Columns)
       && (forall name :: name in Columns && name !in IdColumns ==> name in headers)
    {
      assert forall name :: name in left <==> name in right;
    }
    if left == right {
      forall name | name in headers && name !in IdColumns ensures name in Columns {
        assert name in left;
      }
      forall name | name in Columns && name !in IdColumns ensures name in headers {
        assert name in right;
      }
    }
  }

  /** Lines 18-21: both ids must be present, and apart from them the header
      must name exactly the other expected columns, in any order and with
      any repetition. */
  function HeaderCheck(headers: seq<string>): (r: Option<HeaderProblem>)
    ensures r == None <==>
              && "userId" in headers && "externalId" in headers
              && (forall name :: name in headers ==> name in Columns)
              && (forall name :: name in Columns ==> name in headers)
    ensures r == Some(MissingId) <==> "userId" !in headers || "externalId" !in headers
  {
    NameSetsMeaning(headers);
    if "userId" !in headers || "externalId" !in headers then Some(MissingId)
    else if NameSet(headers) - IdColumns != NameSet(Columns) - IdColumns then Some(WrongColumns)
    else None
  }

  /** Only the set of header names matters, not their order or repetition. */
  lemma HeaderIgnoresOrder(headers: seq<string>, other: seq<string>)
    requires forall name :: name in headers <==> name in other
    ensures HeaderCheck(headers) == HeaderCheck(other)
  {
  }

  /** The row rules, in the order they are checked. */
  datatype RowFailure =
    | BadVoucherType
    | EmptyName
    | EmptyIcon
    | EmptyCode
    | ExpirationPast
    | ExpirationNotInteger
  {
    function Text(): string {
      match this
      case BadVoucherType => "Column 'voucherType' should be either 'one_time' or 'yearly'"
      case EmptyName => "Column 'voucherName' should not be empty"
      case EmptyIcon => "Column 'iconName' should not be empty"
      case EmptyCode => "Column 'code' should not be empty"
      case ExpirationPast => "Column 'expiration' should be a future UNIX timestamp in milliseconds"
      case ExpirationNotInteger => "Column 'expiration' should be an integer (UNIX timestamp in milliseconds)"
    }
  }

  /** A data row every rule accepts. */
  predicate RowAcceptable(values: seq<string>, now: int) {
    && |values| >= 7
    && (values[2] == "one_time" || values[2] == "yearly")
    && values[3] != "" && values[4] != "" && values[5] != ""
    && ParseInt(values[6]).Some? && !(ParseInt(values[6]).value < now)
  }

  /** `_validate_row`: the first failing rule; reading a missing field
      raises `IndexError`. */
  function FirstFailure(values: seq<string>, now: int): (r: Checked<Option<RowFailure>>)
    ensures r == Done(None) <==> RowAcceptable(values, now)
    ensures r.Raised? ==> r.exception == IndexError && |values| < 7
    ensures |values| >= 7 ==> r.Done?
  {
    if |values| < 3 then Raised(IndexError)
    else if values[2] != "one_time" && values[2] != "yearly" then Done(Some(BadVoucherType))
    else if |values| < 4 then Raised(IndexError)
    else if values[3] == "" then Done(Some(EmptyName))
    else if |values| < 5 then Raised(IndexError)
    else if values[4] == "" then Done(Some(EmptyIcon))
    else if |values| < 6 then Raised(IndexError)
    else if values[5] == "" then Done(Some(EmptyCode))
    else if |values| < 7 then Raised(IndexError)
    else match ParseInt(values[6])
      case None => Done(Some(ExpirationNotInteger))
      case Some(expiration) =>
        if expiration < now then Done(Some(ExpirationPast)) else Done(None)
  }

  /** The userId and externalId values are never read. */
  lemma IgnoresIds(values: seq<string>, other: seq<string>, now: int)
    requires |values| == |other|
    requires forall k :: 2 <= k < |values| ==> values[k] == other[k]
    ensures FirstFailure(values, now) == FirstFailure(other, now)
  {
    if |values| > 2 { assert values[2] == other[2]; }
    if |values| > 3 { assert values[3] == other[3]; }
    if |values| > 4 { assert values[4] == other[4]; }
    if |values| > 5 { assert values[5] == other[5]; }
    if |values| > 6 { assert values[6] == other[6]; }
  }

  /** An expiration equal to the current time is accepted: only a strictly
      earlier one is past. */
  lemma ExpirationNowAccepted(values: seq<string>, now: int)
    requires |values| >= 7 && (values[2] == "one_time" || values[2] == "yearly")
    requires values[3] != "" && values[4] != "" && values[5] != ""
    requires ParseInt(values[6]) == Some(now)
    ensures FirstFailure(values, now) == Done(None)
  {
  }

  function MissingIdMessage(headerLine: string): string {
    "Line 1: Both 'userId' and 'externalId' should be present: " + headerLine
  }

  function WrongColumnsMessage(headerLine: string): string {
    "Line 1: Incorrect or missing columns. Line content: " + headerLine
  }

  /** One iteration of the row loop: the message names the line number and
      carries the raw line. */
  function CheckRow(row: string, index: nat, now: int): (r: Checked<Outcome>)
    ensures r.Raised? <==> FirstFailure(FieldsOf(row), now).Raised?
    ensures r.Done? && r.value.valid <==> RowAcceptable(FieldsOf(row), now)
    ensures r.Done? && !r.value.valid ==>
              r.value.message == "Line " + NatToString(index) + ": "
                + FirstFailure(FieldsOf(row), now).value.value.Text() + ". Line content: " + row
  {
    match FirstFailure(FieldsOf(row), now)
    case Raised(e) => Raised(e)
    case Done(None) => Done(Outcome(true, ""))
    case Done(Some(f)) =>
      Done(Outcome(false, "Line " + NatToString(index) + ": " + f.Text() + ". Line content: " + row))
  }

  function RowCheck(now: int): LineCheck {
    (row: string, index: nat) => CheckRow(row, index, now)
  }

  /** `VoucherCSVValidatorBOM.validate` on the file's decoded lines. */
  function Validate(lines: seq<string>, now: int): (r: Checked<Outcome>)
    ensures Content(lines) == [] ==> r == Raised(IndexError)
    ensures var content := Content(lines);
      content != [] && HeaderCheck(FieldsOf(content[0])) == Some(MissingId) ==>
        r == Done(Outcome(false, MissingIdMessage(content[0])))
    ensures var content := Content(lines);
      content != [] && HeaderCheck(FieldsOf(content[0])) == Some(WrongColumns) ==>
        r == Done(Outcome(false, WrongColumnsMessage(content[0])))
  {
    var content := Content(lines);
    if content == [] then Raised(IndexError)
    else match HeaderCheck(FieldsOf(content[0]))
      case Some(MissingId) => Done(Outcome(false, MissingIdMessage(content[0])))
      case Some(WrongColumns) => Done(Outcome(false, WrongColumnsMessage(content[0])))
      case None => CheckLines(content[1..], 2, RowCheck(now))
  }

  lemma PassesIffAcceptable(row: string, index: nat, now: int)
    ensures Passes(RowCheck(now), row, index) <==> RowAcceptable(FieldsOf(row), now)
  {
    assert RowCheck(now)(row, index) == CheckRow(row, index, now);
  }

  /** A line after the header passes exactly when every rule accepts it. */
  lemma LinesPassIffAcceptable(content: seq<string>, now: int)
    ensures forall k :: 1 <= k < |content| ==>
              (Passes(RowCheck(now), content[k], k + 1) <==> RowAcceptable(FieldsOf(content[k]), now))
  {
    forall k | 1 <= k < |content|
      ensures Passes(RowCheck(now), content[k], k + 1) <==> RowAcceptable(FieldsOf(content[k]), now)
    {
      PassesIffAcceptable(content[k], k + 1, now);
    }
  }

  /** A file passes exactly when its header is accepted and every data row
      is acceptable. */
  lemma ValidateAcceptsExactly(lines: seq<string>, now: int)
    ensures Validate(lines, now).Done? && Validate(lines, now).value.valid <==>
      && Content(lines) != []
      && HeaderCheck(FieldsOf(Content(lines)[0])) == None
      && forall k :: 1 <= k < |Content(lines)| ==> RowAcceptable(FieldsOf(Content(lines)[k]), now)
  {
    var content := Content(lines);
    if content != [] && HeaderCheck(FieldsOf(content[0])) == None {
      RowsAfterHeaderPass(content, RowCheck(now));
      LinesPassIffAcceptable(content, now);
    }
  }

  /** The row loop's first line that is not acceptable, and its result. */
  lemma RowsFirstFailure(content: seq<string>, now: int) returns (k: nat)
    requires |content| > 0
    requires !(CheckLines(content[1..], 2, RowCheck(now)).Done? && CheckLines(content[1..], 2, RowCheck(now)).value.valid)
    ensures 1 <= k < |content|
    ensures forall j :: 1 <= j < k ==> RowAcceptable(FieldsOf(content[j]), now)
    ensures !RowAcceptable(FieldsOf(content[k]), now)
    ensures CheckLines(content[1..], 2, RowCheck(now)) == CheckRow(content[k], k + 1, now)
  {
    k := RowsAfterHeaderFirstFailure(content, RowCheck(now));
    forall j | 1 <= j < k ensures RowAcceptable(FieldsOf(content[j]), now) {
      PassesIffAcceptable(content[j], j + 1, now);
    }
    PassesIffAcceptable(content[k], k + 1, now);
    assert RowCheck(now)(content[k], k + 1) == CheckRow(content[k], k + 1, now);
  }

  /** When a data row fails or raises, the result is that of the first such
      row, numbered as its line in the file with the header as line 1. */
  lemma ValidateReportsFirstFailure(lines: seq<string>, now: int)
    requires Content(lines) != [] && HeaderCheck(FieldsOf(Content(lines)[0])) == None
    requires !(Validate(lines, now).Done? && Validate(lines, now).value.valid)
    ensures exists k ::
      && 1 <= k < |Content(lines)|
      && (forall j :: 1 <= j < k ==> RowAcceptable(FieldsOf(Content(lines)[j]), now))
      && Validate(lines, now) == CheckRow(Content(lines)[k], k + 1, now)
  {
    var content := Content(lines);
    var k := RowsFirstFailure(content, now);
    assert 1 <= k < |content|
      && (forall j :: 1 <= j < k ==> RowAcceptable(FieldsOf(content[j]), now))
      && Validate(lines, now) == CheckRow(content[k], k + 1, now);
  }
}
