/** `src/core/validator.py`: the shared validation driver. It loads the parsed
    rows, drops blank ones, takes the first as the header, runs a row validator
    over every data row without stopping, and collects one detail line per
    failing row plus one line per timestamp error. The row validator is a
    parameter; progress printing and the error logger are left out. */
module Validation {
  import opened Wrappers
  import opened PyText

  /** What a row validator returns. The base validator's two-element result is
      the same with an empty `stamps` list. */
  datatype RowVerdict = RowVerdict(valid: bool, message: string, stamps: seq<string>)

  /** A row validator; `Raised` is an exception escaping from it. */
  type RowCheck = seq<string> -> Checked<RowVerdict>

  /** `not any(row)`: every field is empty. */
  predicate IsBlankRow(row: seq<string>) {
    forall k :: 0 <= k < |row| ==> row[k] == ""
  }

  /** `_load_csv`: the parsed rows without the blank ones, in file order. */
  function LoadRows(parsed: seq<seq<string>>): (rows: seq<seq<string>>)
    ensures |rows| <= |parsed|
    ensures forall k :: 0 <= k < |rows| ==> !IsBlankRow(rows[k])
    decreases |parsed|
  {
    if |parsed| == 0 then []
    else
      var last := parsed[|parsed| - 1];
      LoadRows(parsed[..|parsed| - 1]) + (if IsBlankRow(last) then [] else [last])
  }

  /** A row survives loading exactly when it was parsed and is not blank. */
  lemma {:induction false} LoadRowsKeeps(parsed: seq<seq<string>>, row: seq<string>)
    ensures row in LoadRows(parsed) <==> row in parsed && !IsBlankRow(row)
    decreases |parsed|
  {
    if |parsed| > 0 {
      var init := parsed[..|parsed| - 1];
      LoadRowsKeeps(init, row);
      assert parsed == init + [parsed[|parsed| - 1]];
    }
  }

  /** Dropping blank rows keeps the survivors in their original order. */
  lemma {:induction false} LoadRowsAppend(a: seq<seq<string>>, b: seq<seq<string>>)
    ensures LoadRows(a + b) == LoadRows(a) + LoadRows(b)
    decreases |b|
  {
    if |b| == 0 {
      assert a + b == a;
    } else {
      var b' := b[..|b| - 1];
      var last := b[|b| - 1];
      assert (a + b)[..|a + b| - 1] == a + b';
      assert (a + b)[|a + b| - 1] == last;
      LoadRowsAppend(a, b');
      var tail := if IsBlankRow(last) then [] else [last];
      calc {
        LoadRows(a + b);
        LoadRows(a + b') + tail;
        LoadRows(a) + LoadRows(b') + tail;
        LoadRows(a) + (LoadRows(b') + tail);
      }
    }
  }

  /** The detail entry for one message about row `index`. */
  function DetailLine(message: string, index: nat, row: seq<string>): string {
    "Error: " + message + " -> Row " + NatToString(index) + ": " + ReprRow(row)
  }

  /** A data row that reported timestamp errors, kept for the second pass. */
  datatype StampRow = StampRow(index: nat, row: seq<string>, stamps: seq<string>)

  /** The state of the row loop. */
  datatype Progress = Progress(hasErrors: bool, details: seq<string>, stampRows: seq<StampRow>)

  /** One iteration of the row loop on file row `index`. */
  function Step(p: Progress, index: nat, row: seq<string>, v: RowVerdict): Progress {
    Progress(
      p.hasErrors || !v.valid,
      p.details + (if v.valid then [] else [DetailLine(v.message, index, row)]),
      p.stampRows + (if v.stamps == [] then [] else [StampRow(index, row, v.stamps)]))
  }

  /** The row loop over the first `n` data rows; data row `k` is file row
      `k + 2`. The first exception ends the loop and escapes. */
  function Scan(data: seq<seq<string>>, n: nat, check: RowCheck): Checked<Progress>
    requires n <= |data|
    decreases n
  {
    if n == 0 then Done(Progress(false, [], []))
    else
      match Scan(data, n - 1, check)
      case Raised(e) => Raised(e)
      case Done(p) =>
        match check(data[n - 1])
        case Raised(e) => Raised(e)
        case Done(v) => Done(Step(p, n + 1, data[n - 1], v))
  }

  function StampRowLines(s: StampRow): seq<string> {
    seq(|s.stamps|, j requires 0 <= j < |s.stamps| => DetailLine(s.stamps[j], s.index, s.row))
  }

  /** The timestamp detail entries, row by row and error by error. */
  function StampLines(rows: seq<StampRow>): seq<string>
    decreases |rows|
  {
    if |rows| == 0 then []
    else StampLines(rows[..|rows| - 1]) + StampRowLines(rows[|rows| - 1])
  }

  /** The result of `validate`: its return value, `validation_error_details`,
      `timestamp_error_details` and `_timestamp_error_count` (absent when the
      attribute is never set). */
  datatype Report = Report(
    valid: bool,
    details: seq<string>,
    stampDetails: seq<string>,
    stampRowCount: Option<nat>)

  // ---- Reference counts over the data rows ----

  predicate AllChecked(data: seq<seq<string>>, n: nat, check: RowCheck)
    requires n <= |data|
  {
    forall k :: 0 <= k < n ==> check(data[k]).Done?
  }

  function InvalidCount(data: seq<seq<string>>, n: nat, check: RowCheck): nat
    requires n <= |data| && AllChecked(data, n, check)
    decreases n
  {
    if n == 0 then 0
    else InvalidCount(data, n - 1, check) + (if check(data[n - 1]).value.valid then 0 else 1)
  }

  function StampedCount(data: seq<seq<string>>, n: nat, check: RowCheck): nat
    requires n <= |data| && AllChecked(data, n, check)
    decreases n
  {
    if n == 0 then 0
    else StampedCount(data, n - 1, check) + (if check(data[n - 1]).value.stamps == [] then 0 else 1)
  }

  function StampTotal(data: seq<seq<string>>, n: nat, check: RowCheck): nat
    requires n <= |data| && AllChecked(data, n, check)
    decreases n
  {
    if n == 0 then 0
    else StampTotal(data, n - 1, check) + |check(data[n - 1]).value.stamps|
  }

  // ---- Reference detail lines, row by row ----

  /** The detail line of data row `k` (file row `k + 2`) when it is
      invalid. */
  function RowDetails(data: seq<seq<string>>, k: nat, check: RowCheck): seq<string>
    requires k < |data| && check(data[k]).Done?
  {
    var v := check(data[k]).value;
    if v.valid then [] else [DetailLine(v.message, k + 2, data[k])]
  }

  /** The detail lines of the first `n` data rows, in row order. */
  function DetailsOf(data: seq<seq<string>>, n: nat, check: RowCheck): seq<string>
    requires n <= |data| && AllChecked(data, n, check)
    decreases n
  {
    if n == 0 then [] else DetailsOf(data, n - 1, check) + RowDetails(data, n - 1, check)
  }

  /** One timestamp line per timestamp error of data row `k`, in order. */
  function RowStampDetails(data: seq<seq<string>>, k: nat, check: RowCheck): seq<string>
    requires k < |data| && check(data[k]).Done?
  {
    var stamps := check(data[k]).value.stamps;
    seq(|stamps|, j requires 0 <= j < |stamps| => DetailLine(stamps[j], k + 2, data[k]))
  }

  /** The timestamp lines of the first `n` data rows: row by row, and within
      a row error by error. */
  function StampDetailsOf(data: seq<seq<string>>, n: nat, check: RowCheck): seq<string>
    requires n <= |data| && AllChecked(data, n, check)
    decreases n
  {
    if n == 0 then [] else StampDetailsOf(data, n - 1, check) + RowStampDetails(data, n - 1, check)
  }

  /** The kept row `s` is data row `s.index - 2`, among the first `n`, with
      the timestamp errors its check reported. */
  predicate KeptRow(data: seq<seq<string>>, n: nat, check: RowCheck, s: StampRow)
    requires n <= |data| && AllChecked(data, n, check)
  {
    && 2 <= s.index < n + 2
    && s.row == data[s.index - 2]
    && s.stamps == check(data[s.index - 2]).value.stamps
    && s.stamps != []
  }

  // ---- Facts about the row loop ----

  lemma {:induction false} ScanDoneIffAllChecked(data: seq<seq<string>>, n: nat, check: RowCheck)
    requires n <= |data|
    ensures Scan(data, n, check).Done? <==> AllChecked(data, n, check)
    decreases n
  {
    if n > 0 {
      ScanDoneIffAllChecked(data, n - 1, check);
    }
  }

  /** Once an exception has escaped, later rows do not change the outcome. */
  lemma {:induction false} ScanRaisedStays(data: seq<seq<string>>, n: nat, m: nat, check: RowCheck)
    requires n <= m <= |data|
    requires Scan(data, n, check).Raised?
    ensures Scan(data, m, check) == Scan(data, n, check)
    decreases m - n
  {
    if m > n {
      ScanRaisedStays(data, n, m - 1, check);
    }
  }

  /** The timestamp pass over two groups of kept rows writes the first
      group's lines, then the second's. */
  lemma {:induction false} StampLinesAppend(rows: seq<StampRow>, extra: seq<StampRow>)
    ensures StampLines(rows + extra) == StampLines(rows) + StampLines(extra)
    decreases |extra|
  {
    if |extra| == 0 {
      assert rows + extra == rows;
    } else {
      var e' := extra[..|extra| - 1];
      var last := extra[|extra| - 1];
      assert (rows + extra)[..|rows + extra| - 1] == rows + e';
      assert (rows + extra)[|rows + extra| - 1] == last;
      StampLinesAppend(rows, e');
      assert StampLines(rows + extra) == StampLines(rows + e') + StampRowLines(last);
      assert StampLines(extra) == StampLines(e') + StampRowLines(last);
    }
  }

  lemma StampLinesLength(rows: seq<StampRow>, extra: seq<StampRow>)
    ensures |StampLines(rows + extra)| == |StampLines(rows)| + |StampLines(extra)|
  {
    StampLinesAppend(rows, extra);
  }

  /** The loop's error flag is raised exactly when some row was invalid, and
      exactly then a detail line exists. */
  lemma {:induction false} ScanErrorFlag(data: seq<seq<string>>, n: nat, check: RowCheck)
    requires n <= |data| && AllChecked(data, n, check)
    ensures Scan(data, n, check).Done?
    ensures Scan(data, n, check).value.hasErrors <==> exists k :: 0 <= k < n && !check(data[k]).value.valid
    ensures Scan(data, n, check).value.hasErrors <==> Scan(data, n, check).value.details != []
    decreases n
  {
    ScanDoneIffAllChecked(data, n, check);
    if n > 0 {
      ScanErrorFlag(data, n - 1, check);
    }
  }

  /** One detail line per invalid row, carrying its message and row number. */
  lemma {:induction false} ScanDetails(data: seq<seq<string>>, n: nat, check: RowCheck)
    requires n <= |data| && AllChecked(data, n, check)
    ensures Scan(data, n, check).Done?
    ensures Scan(data, n, check).value.details == DetailsOf(data, n, check)
    ensures |Scan(data, n, check).value.details| == InvalidCount(data, n, check)
    ensures forall k :: 0 <= k < n && !check(data[k]).value.valid ==>
              DetailLine(check(data[k]).value.message, k + 2, data[k]) in Scan(data, n, check).value.details
    decreases n
  {
    ScanDoneIffAllChecked(data, n, check);
    if n > 0 {
      ScanDetails(data, n - 1, check);
      ScanStep(data, n, check);
      var before := Scan(data, n - 1, check).value.details;
      var details := Scan(data, n, check).value.details;
      assert details == before + RowDetails(data, n - 1, check);
      forall k | 0 <= k < n && !check(data[k]).value.valid
        ensures DetailLine(check(data[k]).value.message, k + 2, data[k]) in details
      {
        if k < n - 1 {
          assert DetailLine(check(data[k]).value.message, k + 2, data[k]) in before;
        } else {
          assert details[|before|] == DetailLine(check(data[k]).value.message, k + 2, data[k]);
        }
      }
    }
  }

  /** The loop's state after `n` rows is one step from its state after
      `n - 1`. */
  lemma ScanStep(data: seq<seq<string>>, n: nat, check: RowCheck)
    requires 0 < n <= |data| && AllChecked(data, n, check)
    ensures Scan(data, n - 1, check).Done? && Scan(data, n, check).Done?
    ensures Scan(data, n, check).value
              == Step(Scan(data, n - 1, check).value, n + 1, data[n - 1], check(data[n - 1]).value)
  {
    ScanDoneIffAllChecked(data, n - 1, check);
  }

  /** A row kept among the first `n - 1` rows is kept among the first `n`. */
  lemma KeptRowGrows(data: seq<seq<string>>, n: nat, check: RowCheck, s: StampRow)
    requires 0 < n <= |data| && AllChecked(data, n, check)
    requires KeptRow(data, n - 1, check, s)
    ensures KeptRow(data, n, check, s)
  {
  }

  /** Every kept row is a data row with its own timestamp errors, and the
      kept rows are in row order. */
  lemma {:induction false} ScanKeptSound(data: seq<seq<string>>, n: nat, check: RowCheck)
    requires n <= |data| && AllChecked(data, n, check)
    ensures Scan(data, n, check).Done?
    ensures var kept := Scan(data, n, check).value.stampRows;
      && (forall i :: 0 <= i < |kept| ==> KeptRow(data, n, check, kept[i]))
      && (forall i, j :: 0 <= i < j < |kept| ==> kept[i].index < kept[j].index)
    decreases n
  {
    ScanDoneIffAllChecked(data, n, check);
    if n > 0 {
      ScanKeptSound(data, n - 1, check);
      ScanStep(data, n, check);
      var before := Scan(data, n - 1, check).value.stampRows;
      var kept := Scan(data, n, check).value.stampRows;
      var v := check(data[n - 1]).value;
      assert kept == before + (if v.stamps == [] then [] else [StampRow(n + 1, data[n - 1], v.stamps)]);
      forall i | 0 <= i < |before| ensures kept[i] == before[i] && KeptRow(data, n, check, kept[i]) {
        KeptRowGrows(data, n, check, before[i]);
      }
      forall i, j | 0 <= i < j < |kept| ensures kept[i].index < kept[j].index {
        if j == |before| {
          assert KeptRow(data, n - 1, check, before[i]);
        }
      }
    }
  }

  /** Every data row whose check reported timestamp errors is kept. */
  lemma {:induction false} ScanKeptComplete(data: seq<seq<string>>, n: nat, check: RowCheck)
    requires n <= |data| && AllChecked(data, n, check)
    ensures Scan(data, n, check).Done?
    ensures var kept := Scan(data, n, check).value.stampRows;
      forall k :: 0 <= k < n && check(data[k]).value.stamps != [] ==>
        exists i :: 0 <= i < |kept| && kept[i].index == k + 2
    decreases n
  {
    ScanDoneIffAllChecked(data, n, check);
    if n > 0 {
      ScanKeptComplete(data, n - 1, check);
      ScanStep(data, n, check);
      var before := Scan(data, n - 1, check).value.stampRows;
      var kept := Scan(data, n, check).value.stampRows;
      var v := check(data[n - 1]).value;
      assert kept == before + (if v.stamps == [] then [] else [StampRow(n + 1, data[n - 1], v.stamps)]);
      forall k | 0 <= k < n && check(data[k]).value.stamps != []
        ensures exists i :: 0 <= i < |kept| && kept[i].index == k + 2
      {
        if k < n - 1 {
          var i :| 0 <= i < |before| && before[i].index == k + 2;
          assert kept[i] == before[i];
        } else {
          assert kept[|before|].index == k + 2;
        }
      }
    }
  }

  lemma {:induction false} ScanStampCount(data: seq<seq<string>>, n: nat, check: RowCheck)
    requires n <= |data| && AllChecked(data, n, check)
    ensures Scan(data, n, check).Done?
    ensures |Scan(data, n, check).value.stampRows| == StampedCount(data, n, check)
    decreases n
  {
    ScanDoneIffAllChecked(data, n, check);
    if n > 0 {
      ScanStampCount(data, n - 1, check);
    }
  }

  /** The rows kept for the timestamp pass are exactly the data rows whose
      check reported timestamp errors, each with its file row number, its
      fields and its errors, in row order. */
  lemma ScanStampRows(data: seq<seq<string>>, n: nat, check: RowCheck)
    requires n <= |data| && AllChecked(data, n, check)
    ensures Scan(data, n, check).Done?
    ensures var kept := Scan(data, n, check).value.stampRows;
      && (forall i :: 0 <= i < |kept| ==> KeptRow(data, n, check, kept[i]))
      && (forall i, j :: 0 <= i < j < |kept| ==> kept[i].index < kept[j].index)
      && (forall k :: 0 <= k < n && check(data[k]).value.stamps != [] ==>
            exists i :: 0 <= i < |kept| && kept[i].index == k + 2)
    ensures |Scan(data, n, check).value.stampRows| == StampedCount(data, n, check)
  {
    ScanKeptSound(data, n, check);
    ScanKeptComplete(data, n, check);
    ScanStampCount(data, n, check);
  }

  /** The timestamp lines of one kept row are the reference lines of its
      data row. */
  lemma StampRowLinesOfRow(data: seq<seq<string>>, k: nat, check: RowCheck)
    requires k < |data| && check(data[k]).Done?
    ensures StampRowLines(StampRow(k + 2, data[k], check(data[k]).value.stamps)) == RowStampDetails(data, k, check)
  {
  }

  /** The lines the row-`n` step adds to the timestamp pass are that row's
      reference lines. */
  lemma StampStepLines(data: seq<seq<string>>, n: nat, check: RowCheck)
    requires 0 < n <= |data| && AllChecked(data, n, check)
    ensures Scan(data, n - 1, check).Done? && Scan(data, n, check).Done?
    ensures StampLines(Scan(data, n, check).value.stampRows)
              == StampLines(Scan(data, n - 1, check).value.stampRows) + RowStampDetails(data, n - 1, check)
  {
    ScanStep(data, n, check);
    var before := Scan(data, n - 1, check).value.stampRows;
    var v := check(data[n - 1]).value;
    var extra := if v.stamps == [] then [] else [StampRow(n + 1, data[n - 1], v.stamps)];
    assert Scan(data, n, check).value.stampRows == before + extra;
    StampLinesAppend(before, extra);
    if v.stamps != [] {
      assert extra[..0] == [];
      StampRowLinesOfRow(data, n - 1, check);
      assert StampLines(extra) == RowStampDetails(data, n - 1, check);
    }
  }

  /** The kept rows contribute their timestamp lines in row order, error by
      error: the reference lines over the data rows. */
  lemma {:induction false} ScanStampLines(data: seq<seq<string>>, n: nat, check: RowCheck)
    requires n <= |data| && AllChecked(data, n, check)
    ensures Scan(data, n, check).Done?
    ensures StampLines(Scan(data, n, check).value.stampRows) == StampDetailsOf(data, n, check)
    ensures |StampLines(Scan(data, n, check).value.stampRows)| == StampTotal(data, n, check)
    decreases n
  {
    ScanDoneIffAllChecked(data, n, check);
    if n > 0 {
      ScanStampLines(data, n - 1, check);
      StampStepLines(data, n, check);
    }
  }

  /** Both facts about the timestamp pass. */
  lemma ScanStamps(data: seq<seq<string>>, n: nat, check: RowCheck)
    requires n <= |data| && AllChecked(data, n, check)
    ensures Scan(data, n, check).Done?
    ensures |Scan(data, n, check).value.stampRows| == StampedCount(data, n, check)
    ensures StampLines(Scan(data, n, check).value.stampRows) == StampDetailsOf(data, n, check)
    ensures |StampLines(Scan(data, n, check).value.stampRows)| == StampTotal(data, n, check)
  {
    ScanStampRows(data, n, check);
    ScanStampLines(data, n, check);
  }

  lemma {:induction false} StampTotalZero(data: seq<seq<string>>, n: nat, check: RowCheck)
    requires n <= |data| && AllChecked(data, n, check)
    ensures StampTotal(data, n, check) == 0 <==> StampedCount(data, n, check) == 0
    decreases n
  {
    if n > 0 {
      StampTotalZero(data, n - 1, check);
    }
  }

  /** The data rows: the loaded rows after the header row. */
  function DataRows(parsed: seq<seq<string>>): seq<seq<string>>
    requires |LoadRows(parsed)| > 0
  {
    LoadRows(parsed)[1..]
  }

  /** `Validator.validate` on the rows the parser produced: it raises when
      there is no header row or a row check raises; a report is valid
      exactly when it has no detail lines, and has a timestamp row count
      exactly when it has timestamp detail lines. */
  function Validate(parsed: seq<seq<string>>, check: RowCheck): (r: Checked<Report>)
    ensures var content := LoadRows(parsed);
      r.Done? <==> |content| > 0 && AllChecked(content[1..], |content| - 1, check)
    ensures r.Done? ==> (r.value.valid <==> r.value.details == [])
    ensures r.Done? ==> (r.value.stampRowCount.Some? <==> r.value.stampDetails != [])
    ensures r.Done? && r.value.stampRowCount.Some? ==> r.value.stampRowCount.value > 0
  {
    var content := LoadRows(parsed);
    if |content| == 0 then Raised(IndexError)
    else
      var data := content[1..];
      ScanDoneIffAllChecked(data, |data|, check);
      match Scan(data, |data|, check)
      case Raised(e) => Raised(e)
      case Done(p) =>
        ScanErrorFlag(data, |data|, check);
        ScanStamps(data, |data|, check);
        StampTotalZero(data, |data|, check);
        Done(Report(
          !p.hasErrors,
          p.details,
          StampLines(p.stampRows),
          if |p.stampRows| > 0 then Some(|p.stampRows|) else None))
  }

  /** A report is valid exactly when every data row is; its detail lines
      are, in row order, one per invalid row carrying the row's message and
      its line number (the header is line 1); its timestamp lines are, row
      by row and error by error, one per timestamp error; it counts the rows
      that had any. */
  lemma ValidateMeaning(parsed: seq<seq<string>>, check: RowCheck)
    requires Validate(parsed, check).Done?
    ensures Validate(parsed, check).value.valid <==>
              forall k :: 0 <= k < |DataRows(parsed)| ==> check(DataRows(parsed)[k]).value.valid
    ensures var r := Validate(parsed, check).value;
      var data := DataRows(parsed);
      && r.details == DetailsOf(data, |data|, check)
      && r.stampDetails == StampDetailsOf(data, |data|, check)
    ensures var r := Validate(parsed, check).value;
      var data := DataRows(parsed);
      && |r.details| == InvalidCount(data, |data|, check)
      && (forall k :: 0 <= k < |data| && !check(data[k]).value.valid ==>
            DetailLine(check(data[k]).value.message, k + 2, data[k]) in r.details)
    ensures var r := Validate(parsed, check).value;
      var data := DataRows(parsed);
      && |r.stampDetails| == StampTotal(data, |data|, check)
      && (r.stampRowCount.Some? ==> r.stampRowCount.value == StampedCount(data, |data|, check))
      && (r.stampRowCount.Some? ==> r.stampRowCount.value > 0)
  {
    var data := DataRows(parsed);
    ScanDoneIffAllChecked(data, |data|, check);
    var p := Scan(data, |data|, check).value;
    assert Validate(parsed, check).value == Report(
      !p.hasErrors, p.details, StampLines(p.stampRows), if |p.stampRows| > 0 then Some(|p.stampRows|) else None);
    ScanErrorFlag(data, |data|, check);
    ScanDetails(data, |data|, check);
    ScanStamps(data, |data|, check);
  }

  /** The second pass of `validate`: for each row that reported timestamp
      errors, one detail line per error, in order. */
  method CollectStampLines(stampRows: seq<StampRow>) returns (lines: seq<string>)
    ensures lines == StampLines(stampRows)
  {
    lines := [];
    var j := 0;
    while j < |stampRows|
      invariant 0 <= j <= |stampRows|
      invariant lines == StampLines(stampRows[..j])
    {
      var s := stampRows[j];
      var t := 0;
      while t < |s.stamps|
        invariant 0 <= t <= |s.stamps|
        invariant lines == StampLines(stampRows[..j]) + StampRowLines(s)[..t]
      {
        assert StampRowLines(s)[..t + 1] == StampRowLines(s)[..t] + [DetailLine(s.stamps[t], s.index, s.row)];
        lines := lines + [DetailLine(s.stamps[t], s.index, s.row)];
        t := t + 1;
      }
      assert StampRowLines(s)[..t] == StampRowLines(s);
      assert stampRows[..j + 1][..j] == stampRows[..j];
      assert StampLines(stampRows[..j + 1]) == StampLines(stampRows[..j]) + StampRowLines(s);
      j := j + 1;
    }
    assert stampRows[..|stampRows|] == stampRows;
  }

  /** The same driver written as the source's loops: one pass over the data
      rows collecting detail lines, then one over the rows that reported
      timestamp errors. */
  method RunValidation(parsed: seq<seq<string>>, check: RowCheck) returns (r: Checked<Report>)
    ensures r == Validate(parsed, check)
  {
    var content := LoadRows(parsed);
    if |content| == 0 {
      return Raised(IndexError);
    }
    var data := content[1..];
    var hasErrors := false;
    var details: seq<string> := [];
    var stampRows: seq<StampRow> := [];
    var i := 0;
    while i < |data|
      invariant 0 <= i <= |data|
      invariant Scan(data, i, check) == Done(Progress(hasErrors, details, stampRows))
    {
      var v := check(data[i]);
      if v.Raised? {
        ScanRaisedStays(data, i + 1, |data|, check);
        return Raised(v.exception);
      }
      var verdict := v.value;
      ghost var before := Progress(hasErrors, details, stampRows);
      if verdict.stamps != [] {
        stampRows := stampRows + [StampRow(i + 2, data[i], verdict.stamps)];
      }
      if !verdict.valid {
        hasErrors := true;
        details := details + [DetailLine(verdict.message, i + 2, data[i])];
      }
      assert verdict.valid ==> before.details + [] == details;
      assert verdict.stamps == [] ==> before.stampRows + [] == stampRows;
      assert Progress(hasErrors, details, stampRows) == Step(before, i + 2, data[i], verdict);
      i := i + 1;
    }
    var stampDetails := CollectStampLines(stampRows);
    var count := if |stampRows| > 0 then Some(|stampRows|) else None;
    r := Done(Report(!hasErrors, details, stampDetails, count));
  }

  /** The base `_validate_row`: a row is valid exactly when it has as many
      fields as there are expected columns. */
  function BaseValidateRow(expected: seq<string>, values: seq<string>): (r: RowVerdict)
    ensures r.valid <==> |values| == |expected|
    ensures r.valid ==> r.message == ""
    ensures !r.valid ==> r.message == "Row should have " + NatToString(|expected|) + " columns"
    ensures r.stamps == []
  {
    if |values| != |expected| then RowVerdict(false, "Row should have " + NatToString(|expected|) + " columns", [])
    else RowVerdict(true, "", [])
  }

  /** With the base row validator a file passes exactly when every data row
      has the expected number of fields, and never reports timestamp errors. */
  lemma BaseValidationChecksWidthOnly(expected: seq<string>, parsed: seq<seq<string>>)
    requires |LoadRows(parsed)| > 0
    ensures var r := Validate(parsed, v => Done(BaseValidateRow(expected, v)));
      var data := LoadRows(parsed)[1..];
      && r.Done?
      && (r.value.valid <==> forall k :: 0 <= k < |data| ==> |data[k]| == |expected|)
      && r.value.stampDetails == []
      && r.value.stampRowCount == None
  {
    var check: RowCheck := v => Done(BaseValidateRow(expected, v));
    var data := LoadRows(parsed)[1..];
    ValidateMeaning(parsed, check);
    NoStampsTotal(data, |data|, check);
  }

  lemma {:induction false} NoStampsTotal(data: seq<seq<string>>, n: nat, check: RowCheck)
    requires n <= |data| && AllChecked(data, n, check)
    requires forall k :: 0 <= k < n ==> check(data[k]).value.stamps == []
    ensures StampTotal(data, n, check) == 0
    decreases n
  {
    if n > 0 {
      NoStampsTotal(data, n - 1, check);
    }
  }
}
