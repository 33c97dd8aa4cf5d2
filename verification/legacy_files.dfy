/** The line-based loading shared by the three first-failure validators
    (`src/contacts/contacts_csv_validator.py`,
    `contact/enhanced_contacts_csv_validator.py`,
    `src/vouchers/voucher_csv_validator_content.py`): the file is read as
    text lines, lines blank after stripping are dropped, and each line is cut
    into fields with a plain `split(",")`, quotes and all. Reading the file is
    left out; its decoded lines are the input. Each line keeps its trailing
    "\n" as `readlines()` returns it, because the contacts and voucher-content
    messages quote that raw line. */
module LegacyFiles {
  import opened Wrappers
  import opened PyText

  /** What `validate` returns: a verdict and its message. */
  datatype Outcome = Outcome(valid: bool, message: string)

  /** The byte order mark as a decoded character. */
  const BomChar: char := '\U{FEFF}'

  /** Opening with `encoding='utf-8-sig'`: a byte order mark at the very
      start of the file is dropped; nothing else changes. */
  function DropSigBom(lines: seq<string>): (r: seq<string>)
    ensures |r| == |lines|
    ensures |lines| > 0 ==> r[1..] == lines[1..]
    ensures |lines| > 0 && |lines[0]| > 0 && lines[0][0] == BomChar ==> r[0] == lines[0][1..]
    ensures !(|lines| > 0 && |lines[0]| > 0 && lines[0][0] == BomChar) ==> r == lines
  {
    if |lines| > 0 && |lines[0]| > 0 && lines[0][0] == BomChar then [lines[0][1..]] + lines[1..]
    else lines
  }

  predicate IsBlankLine(line: string) {
    Strip(line) == ""
  }

  /** `[line for line in lines if line.strip()]`. */
  function NonBlankLines(lines: seq<string>): (r: seq<string>)
    ensures |r| <= |lines|
    ensures forall k :: 0 <= k < |r| ==> !IsBlankLine(r[k])
    decreases |lines|
  {
    if |lines| == 0 then []
    else (if IsBlankLine(lines[0]) then [] else [lines[0]]) + NonBlankLines(lines[1..])
  }

  /** The lines a first-failure validator works on: the file read as
      `utf-8-sig`, blank lines skipped. */
  function Content(lines: seq<string>): seq<string> {
    NonBlankLines(DropSigBom(lines))
  }

  /** A line survives exactly when it was read and is not blank. */
  lemma {:induction false} NonBlankLinesKeeps(lines: seq<string>, line: string)
    ensures line in NonBlankLines(lines) <==> line in lines && !IsBlankLine(line)
    decreases |lines|
  {
    if |lines| > 0 {
      NonBlankLinesKeeps(lines[1..], line);
      assert lines == [lines[0]] + lines[1..];
    }
  }

  /** `line.strip().split(",")`. */
  function FieldsOf(line: string): (values: seq<string>)
    ensures |values| >= 1
    ensures forall k :: 0 <= k < |values| ==> ',' !in values[k]
    ensures Join(",", values) == Strip(line)
  {
    JoinSplit(Strip(line), ',');
    Split(Strip(line), ',')
  }

  const ValidMessage := "CSV is valid"

  /** A row check: the row's text and its line number in, the row's verdict
      or an escaping exception out. */
  type LineCheck = (string, nat) -> Checked<Outcome>

  predicate Passes(check: LineCheck, row: string, index: nat) {
    check(row, index).Done? && check(row, index).value.valid
  }

  /** The `for index, row in enumerate(rows, start=index)` loop of all three
      validators: the first row that fails or raises ends it. */
  function CheckLines(rows: seq<string>, index: nat, check: LineCheck): Checked<Outcome>
    decreases |rows|
  {
    if |rows| == 0 then Done(Outcome(true, ValidMessage))
    else if !Passes(check, rows[0], index) then check(rows[0], index)
    else CheckLines(rows[1..], index + 1, check)
  }

  /** The position of the first row that does not pass, `|rows|` when every
      row passes. */
  function FirstFailingIndex(rows: seq<string>, index: nat, check: LineCheck): (k: nat)
    ensures k <= |rows|
    decreases |rows|
  {
    if |rows| == 0 || !Passes(check, rows[0], index) then 0
    else FirstFailingIndex(rows[1..], index + 1, check) + 1
  }

  /** Every row before that position passes and the row at it does not. */
  lemma {:induction false} FirstFailingIndexSpec(rows: seq<string>, index: nat, check: LineCheck)
    ensures var k := FirstFailingIndex(rows, index, check);
      && (forall j :: 0 <= j < k ==> Passes(check, rows[j], index + j))
      && (k < |rows| ==> !Passes(check, rows[k], index + k))
    decreases |rows|
  {
    if |rows| > 0 && Passes(check, rows[0], index) {
      var tail := rows[1..];
      FirstFailingIndexSpec(tail, index + 1, check);
      var k := FirstFailingIndex(tail, index + 1, check);
      forall j | 1 <= j < k + 1 ensures Passes(check, rows[j], index + j) {
        assert rows[j] == tail[j - 1];
        assert Passes(check, tail[j - 1], index + 1 + (j - 1));
      }
      if k < |tail| {
        assert rows[k + 1] == tail[k];
      }
    }
  }

  /** The loop's result is the valid outcome when every row passes, and
      otherwise the result of the first row that does not. */
  lemma {:induction false} CheckLinesAtFirstFailing(rows: seq<string>, index: nat, check: LineCheck)
    ensures var k := FirstFailingIndex(rows, index, check);
      CheckLines(rows, index, check)
        == if k == |rows| then Done(Outcome(true, ValidMessage)) else check(rows[k], index + k)
    decreases |rows|
  {
    if |rows| > 0 && Passes(check, rows[0], index) {
      var k := FirstFailingIndex(rows[1..], index + 1, check);
      CheckLinesAtFirstFailing(rows[1..], index + 1, check);
      if k < |rows[1..]| {
        assert rows[1..][k] == rows[k + 1];
      }
    }
  }

  /** The loop passes exactly when every row passes, numbered from `index`. */
  lemma CheckLinesAllPass(rows: seq<string>, index: nat, check: LineCheck)
    ensures var r := CheckLines(rows, index, check);
      r.Done? && r.value.valid <==> forall k :: 0 <= k < |rows| ==> Passes(check, rows[k], index + k)
  {
    CheckLinesAtFirstFailing(rows, index, check);
    FirstFailingIndexSpec(rows, index, check);
  }

  /** The loop passes exactly when every row passes; otherwise its result is
      that of the first row that does not, numbered from `index`. */
  lemma CheckLinesFirstFailure(rows: seq<string>, index: nat, check: LineCheck)
    ensures var r := CheckLines(rows, index, check);
      && (r.Done? && r.value.valid <==> forall k :: 0 <= k < |rows| ==> Passes(check, rows[k], index + k))
      && (r.Done? && r.value.valid ==> r.value.message == ValidMessage)
      && (!(r.Done? && r.value.valid) ==>
            exists k :: 0 <= k < |rows|
              && (forall j :: 0 <= j < k ==> Passes(check, rows[j], index + j))
              && r == check(rows[k], index + k))
  {
    CheckLinesAtFirstFailing(rows, index, check);
    FirstFailingIndexSpec(rows, index, check);
    var k := FirstFailingIndex(rows, index, check);
    if k < |rows| {
      assert forall j :: 0 <= j < k ==> Passes(check, rows[j], index + j);
    }
  }

  /** The loop over the lines after a header, numbered from line 2: it
      passes exactly when every such line passes under its own number. */
  lemma RowsAfterHeaderPass(content: seq<string>, check: LineCheck)
    requires |content| > 0
    ensures var r := CheckLines(content[1..], 2, check);
      r.Done? && r.value.valid <==> forall k :: 1 <= k < |content| ==> Passes(check, content[k], k + 1)
  {
    var rows := content[1..];
    CheckLinesAllPass(rows, 2, check);
    forall k | 1 <= k < |content| ensures content[k] == rows[k - 1] && k + 1 == 2 + (k - 1) { }
  }

  /** Otherwise its result is that of the first line `k` after the header
      that does not pass. */
  lemma RowsAfterHeaderFirstFailure(content: seq<string>, check: LineCheck) returns (k: nat)
    requires |content| > 0
    requires var r := CheckLines(content[1..], 2, check); !(r.Done? && r.value.valid)
    ensures 1 <= k < |content|
    ensures forall j :: 1 <= j < k ==> Passes(check, content[j], j + 1)
    ensures !Passes(check, content[k], k + 1)
    ensures CheckLines(content[1..], 2, check) == check(content[k], k + 1)
  {
    var rows := content[1..];
    CheckLinesAtFirstFailing(rows, 2, check);
    FirstFailingIndexSpec(rows, 2, check);
    var i := FirstFailingIndex(rows, 2, check);
    forall j | 1 <= j < i + 1 ensures Passes(check, content[j], j + 1) {
      assert content[j] == rows[j - 1];
      assert Passes(check, rows[j - 1], 2 + (j - 1));
    }
    if i < |rows| {
      assert rows[i] == content[i + 1];
    }
    k := i + 1;
  }
}
