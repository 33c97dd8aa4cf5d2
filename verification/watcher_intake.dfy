/** `classify_csv` in `watcher.py`: one dropped-in file is size-checked,
    decoded, stripped of a byte order mark, recognised by its header and
    validated; the function's result decides whether the file goes to
    `success/` or `error/`. When the byte order mark is the only problem a
    cleaned copy is written and classified in turn (the self-heal).
    Decoding, encoding and the `csv` reader are parameters; the file is its
    name and its bytes. */
module WatcherIntake {
  import opened Wrappers
  import opened PyText
  import FieldRules
  import Validation
  import Points
  import Vouchers
  import WatcherNames
  import opened WatcherHeaders

  type Byte = b: int | 0 <= b < 256

  /** The UTF-8 byte order mark, EF BB BF. */
  const Bom: seq<Byte> := [0xEF, 0xBB, 0xBF]

  predicate HasBom(raw: seq<Byte>) {
    |raw| >= 3 && raw[..3] == Bom
  }

  /** What the file system and Python's codecs provide. */
  datatype Env = Env(
    /** strict UTF-8 decoding; `None` is `UnicodeDecodeError` */
    utf8: seq<Byte> -> Option<string>,
    /** ISO-8859-1 decoding, which never fails */
    latin1: seq<Byte> -> string,
    /** UTF-8 encoding, used when a cleaned copy is written */
    encode: string -> seq<Byte>,
    /** the `csv` reader over `text.splitlines()` with the given delimiter */
    parse: (string, char) -> seq<seq<string>>,
    /** the `csv` reader over the file opened as `utf-8-sig` text, given the
        text it decodes to; it sees the file's own line breaks, so it can
        differ from `parse` on a quoted field spanning lines */
    readFile: (string, char) -> seq<seq<string>>,
    /** the row check of the validator `classify_csv` builds for a layout */
    validator: Layout -> Validation.RowCheck)

  /** Encoding what strict UTF-8 decoding produced gives the bytes back. */
  ghost predicate RoundTrips(env: Env) {
    forall raw :: env.utf8(raw).Some? ==> env.encode(env.utf8(raw).value) == raw
  }

  // ---- File size ----

  const MiB: nat := 1024 * 1024

  datatype SizeMode = Normal | Medium | Large | Oversized

  function Severity(mode: SizeMode): nat {
    match mode
    case Normal => 0
    case Medium => 1
    case Large => 2
    case Oversized => 3
  }

  /** `check_file_size_and_get_mode`: the bands are strict "more than"
      500, 100 and 10 MiB. Dividing by a power of two is exact, so the
      source's float comparison is the integer one. */
  function SizeModeOf(size: nat): (mode: SizeMode)
    ensures mode == Oversized <==> size > 500 * MiB
    ensures mode == Large <==> 100 * MiB < size <= 500 * MiB
    ensures mode == Medium <==> 10 * MiB < size <= 100 * MiB
    ensures mode == Normal <==> size <= 10 * MiB
  {
    if size > 500 * MiB then Oversized
    else if size > 100 * MiB then Large
    else if size > 10 * MiB then Medium
    else Normal
  }

  /** A larger file never gets a lighter mode. */
  lemma SizeModeMonotone(small: nat, large: nat)
    requires small <= large
    ensures Severity(SizeModeOf(small)) <= Severity(SizeModeOf(large))
  {
  }

  // ---- Byte order mark ----

  const BomMarker := "Byte Order Mark (BOM)"
  const BomMessage := "The file started with a " + BomMarker + ", which is not supported."

  lemma BomMessageCarriesMarker()
    ensures Contains(BomMessage, BomMarker)
  {
    ContainsInfix("The file started with a ", BomMarker, ", which is not supported.");
  }

  /** `_check_for_non_printable_start`: `None` when the file does not start
      with the mark, else the rest of the file decoded as UTF-8; a decoding
      failure escapes. */
  function CheckForBom(env: Env, raw: seq<Byte>): (r: Checked<Option<string>>)
    ensures r == Done(None) <==> !HasBom(raw)
    ensures r.Raised? <==> HasBom(raw) && env.utf8(raw[3..]).None?
    ensures r.Raised? ==> r.exception == UnicodeDecodeError
    ensures r.Done? && r.value.Some? ==> Bom + raw[3..] == raw && r.value == env.utf8(raw[3..])
  {
    if !HasBom(raw) then Done(None)
    else
      assert raw == raw[..3] + raw[3..];
      match env.utf8(raw[3..])
      case None => Raised(UnicodeDecodeError)
      case Some(cleaned) => Done(Some(cleaned))
  }

  /** The cleaned text encodes back to exactly the bytes after the mark. */
  lemma CleanedIsRemainingBytes(env: Env, raw: seq<Byte>)
    requires RoundTrips(env)
    requires CheckForBom(env, raw).Done? && CheckForBom(env, raw).value.Some?
    ensures env.encode(CheckForBom(env, raw).value.value) == raw[3..]
  {
  }

  // ---- Classification ----

  /** The text `classify_csv` first reads: UTF-8, else ISO-8859-1. */
  function Decode(env: Env, raw: seq<Byte>): string {
    match env.utf8(raw)
    case Some(text) => text
    case None => env.latin1(raw)
  }

  /** The validators `classify_csv` builds for a recognised layout, over
      the field helpers `h`: the Vouchers validator for the Vouchers header
      and the Points validator otherwise. */
  function RowCheckFor(h: FieldRules.Helpers, layout: Layout): Validation.RowCheck {
    match layout
    case Vouchers => (values: seq<string>) => Done(Vouchers.ValidateRow(h, values))
    case _ => (values: seq<string>) => Points.ValidateRow(h, values)
  }

  /** The environment's validators are the Points and Vouchers row
      validators over the field helpers `h`. */
  ghost predicate BuildsValidators(env: Env, h: FieldRules.Helpers) {
    forall layout :: env.validator(layout) == RowCheckFor(h, layout)
  }

  /** What `classify_csv` knows when it reaches its verdict: whether the file
      had a byte order mark, the text it worked on, its `errors` list, the
      recognised layout, and the validator's report when a validator ran. */
  datatype Classification =
    | TooLarge
    | Classified(
        hasBom: bool,
        content: string,
        errors: seq<string>,
        layout: Option<Layout>,
        report: Option<Validation.Report>)

  /** The text `classify_csv` works on, and whether a mark was removed. */
  datatype Reading = Reading(hasBom: bool, content: string)

  /** Reading the file, then `_check_for_non_printable_start`: with a mark
      the text is replaced by the cleaned text. */
  function Read(env: Env, raw: seq<Byte>): (r: Checked<Reading>)
    ensures r.Raised? <==> HasBom(raw) && env.utf8(raw[3..]).None?
    ensures r.Done? ==> (r.value.hasBom <==> HasBom(raw))
    ensures r.Done? && r.value.hasBom ==> Some(r.value.content) == env.utf8(raw[3..])
    ensures r.Done? && !r.value.hasBom ==> r.value.content == Decode(env, raw)
  {
    match CheckForBom(env, raw)
    case Raised(e) => Raised(e)
    case Done(None) => Done(Reading(false, Decode(env, raw)))
    case Done(Some(cleaned)) => Done(Reading(true, cleaned))
  }

  /** The list entry for a separator error, if any. */
  function SeparatorErrors(res: Resolution): (errors: seq<string>)
    ensures |errors| == (if res.separatorError.Some? then 1 else 0)
  {
    if res.separatorError.Some? then [res.separatorError.value] else []
  }

  /** The errors `classify_csv` has listed when it reaches the validator:
      the mark's error, then the separator error. */
  function HeaderErrors(reading: Reading, res: Resolution): (errors: seq<string>)
    ensures |errors| == (if reading.hasBom then 1 else 0) + |SeparatorErrors(res)|
    ensures reading.hasBom ==> errors[0] == BomMessage
  {
    (if reading.hasBom then [BomMessage] else []) + SeparatorErrors(res)
  }

  /** `validator.validate()`: the validator reads the lines of the worked
      text when a mark was removed, and otherwise re-reads the file as
      `utf-8-sig`, which on a file without the mark is strict UTF-8. */
  function RunValidator(env: Env, raw: seq<Byte>, reading: Reading, delimiter: char, layout: Layout)
    : (r: Checked<Validation.Report>)
    ensures reading.hasBom ==>
              r == Validation.Validate(env.parse(reading.content, delimiter), env.validator(layout))
    ensures !reading.hasBom && env.utf8(raw).None? ==> r == Raised(UnicodeDecodeError)
    ensures !reading.hasBom && env.utf8(raw).Some? ==>
              r == Validation.Validate(env.readFile(env.utf8(raw).value, delimiter), env.validator(layout))
  {
    if reading.hasBom then Validation.Validate(env.parse(reading.content, delimiter), env.validator(layout))
    else match env.utf8(raw)
      case None => Raised(UnicodeDecodeError)
      case Some(text) => Validation.Validate(env.readFile(text, delimiter), env.validator(layout))
  }

  /** The header step and the validator run on the worked text. A header
      of the Contacts layout raises. */
  function ClassifyReading(env: Env, name: string, raw: seq<Byte>, reading: Reading): (r: Checked<Classification>)
  {
    var res := ResolveHeaders(env.parse, reading.content);
    var errors := HeaderErrors(reading, res);
    match LayoutOf(res.headers)
    case None =>
      Done(Classified(reading.hasBom, reading.content, errors + [HeaderErrorMessage(name, res.headers)], None, None))
    case Some(Contacts) =>
      // `ContactsValidator` takes only the file path: constructing it with
      // four arguments raises after the userId scan.
      Raised(TypeError)
    case Some(layout) =>
      match RunValidator(env, raw, reading, res.delimiter, layout)
      case Raised(e) => Raised(e)
      case Done(report) => Done(Classified(reading.hasBom, reading.content, errors, Some(layout), Some(report)))
  }

  /** A report in the classification is the validator's. */
  lemma ReportFromValidator(env: Env, name: string, raw: seq<Byte>, reading: Reading)
    requires ClassifyReading(env, name, raw, reading).Done?
    requires ClassifyReading(env, name, raw, reading).value.report.Some?
    ensures var c := ClassifyReading(env, name, raw, reading).value;
      RunValidator(env, raw, reading, ResolveHeaders(env.parse, reading.content).delimiter, c.layout.value)
        == Done(c.report.value)
  {
    var res := ResolveHeaders(env.parse, reading.content);
    var layout := LayoutOf(res.headers);
    assert layout.Some? && layout.value != Contacts;
    var r := RunValidator(env, raw, reading, res.delimiter, layout.value);
    assert ClassifyReading(env, name, raw, reading)
             == Done(Classified(reading.hasBom, reading.content, HeaderErrors(reading, res), layout, Some(r.value)));
  }

  /** A header that matches no layout gives a classification without a
      report, whose last error is the unknown-header message. */
  lemma UnknownHeaderClassified(env: Env, name: string, raw: seq<Byte>, reading: Reading)
    requires LayoutOf(ResolveHeaders(env.parse, reading.content).headers).None?
    ensures var res := ResolveHeaders(env.parse, reading.content);
      ClassifyReading(env, name, raw, reading)
        == Done(Classified(reading.hasBom, reading.content,
                           HeaderErrors(reading, res) + [HeaderErrorMessage(name, res.headers)],
                           None, None))
  {
  }

  /** A header of a layout with a validator gives a classification holding
      the validator's report, when the validator returns one. */
  lemma KnownHeaderClassified(env: Env, name: string, raw: seq<Byte>, reading: Reading, layout: Layout)
    requires var res := ResolveHeaders(env.parse, reading.content);
      LayoutOf(res.headers) == Some(layout) && layout != Contacts
      && RunValidator(env, raw, reading, res.delimiter, layout).Done?
    ensures var res := ResolveHeaders(env.parse, reading.content);
      ClassifyReading(env, name, raw, reading)
        == Done(Classified(reading.hasBom, reading.content,
                           HeaderErrors(reading, res), Some(layout), Some(RunValidator(env, raw, reading, res.delimiter, layout).value)))
  {
  }

  /** A classification of the worked text keeps the mark flag and the
      text, records the recognised layout (never Contacts), lists the mark's
      error first and one entry per separator error and unknown header, and
      holds a report exactly when a layout was recognised. */
  predicate Describes(c: Classification, reading: Reading, res: Resolution) {
    && c.Classified?
    && c.hasBom == reading.hasBom && c.content == reading.content
    && c.layout == LayoutOf(res.headers) && c.layout != Some(Contacts)
    && |c.errors| == (if reading.hasBom then 1 else 0) + |SeparatorErrors(res)| + (if c.layout.None? then 1 else 0)
    && (reading.hasBom ==> c.errors[0] == BomMessage)
    && (c.report.Some? <==> c.layout.Some?)
  }

  lemma UnknownDescribed(reading: Reading, res: Resolution, message: string)
    requires LayoutOf(res.headers).None?
    ensures Describes(Classified(reading.hasBom, reading.content, HeaderErrors(reading, res) + [message], None, None),
                      reading, res)
  {
  }

  lemma KnownDescribed(reading: Reading, res: Resolution, layout: Layout, report: Validation.Report)
    requires LayoutOf(res.headers) == Some(layout) && layout != Contacts
    ensures Describes(Classified(reading.hasBom, reading.content, HeaderErrors(reading, res), Some(layout), Some(report)),
                      reading, res)
  {
  }

  lemma ClassifyReadingShape(env: Env, name: string, raw: seq<Byte>, reading: Reading)
    requires ClassifyReading(env, name, raw, reading).Done?
    ensures Describes(ClassifyReading(env, name, raw, reading).value, reading, ResolveHeaders(env.parse, reading.content))
  {
    var res := ResolveHeaders(env.parse, reading.content);
    match LayoutOf(res.headers)
    case None =>
      UnknownHeaderClassified(env, name, raw, reading);
      UnknownDescribed(reading, res, HeaderErrorMessage(name, res.headers));
    case Some(layout) =>
      KnownHeaderClassified(env, name, raw, reading, layout);
      KnownDescribed(reading, res, layout, RunValidator(env, raw, reading, res.delimiter, layout).value);
  }

  /** `classify_csv` up to its verdict, for the file `name` holding `raw`. */
  function Classify(env: Env, name: string, raw: seq<Byte>): (r: Checked<Classification>)
    ensures r == Done(TooLarge) <==> SizeModeOf(|raw|) == Oversized
    ensures r.Done? && r.value.Classified? ==>
              Read(env, raw) == Done(Reading(r.value.hasBom, r.value.content))
              && r == ClassifyReading(env, name, raw, Read(env, raw).value)
  {
    if SizeModeOf(|raw|) == Oversized then Done(TooLarge)
    else
      match Read(env, raw)
      case Raised(e) => Raised(e)
      case Done(reading) => ClassifyReading(env, name, raw, reading)
  }

  /** A file whose header is exactly the Contacts header never gets a
      verdict: `classify_csv` raises. */
  lemma ContactsFilesRaise(env: Env, name: string, raw: seq<Byte>)
    requires SizeModeOf(|raw|) != Oversized && Read(env, raw).Done?
    requires LayoutOf(ResolveHeaders(env.parse, Read(env, raw).value.content).headers) == Some(Contacts)
    ensures Classify(env, name, raw) == Raised(TypeError)
  {
  }

  // ---- Verdict ----

  /** `validation_result`: only a validator can make it true. */
  function ValidationResult(c: Classification): bool
    requires c.Classified?
  {
    c.report.Some? && c.report.value.valid
  }

  /** `timestamp_error_count` as first read: the validator's
      `_timestamp_error_count` when it set one. */
  function StampRowCount(c: Classification): nat
    requires c.Classified?
  {
    if c.report.Some? then c.report.value.stampRowCount.GetOr(0) else 0
  }

  /** The failure branch is taken when anything at all went wrong. */
  predicate Failed(c: Classification)
    requires c.Classified?
  {
    c.errors != [] || !ValidationResult(c) || StampRowCount(c) > 0
  }

  /** `total_errors_found`: the list entries, the timestamp detail lines and
      the row detail lines (the same total the summary log reports). */
  function TotalErrors(c: Classification): (total: nat)
    requires c.Classified?
    ensures c.report.None? ==> total == |c.errors|
    ensures c.report.Some? ==> total == |c.errors| + |c.report.value.stampDetails| + |c.report.value.details|
  {
    |c.errors| + (if c.report.Some? then |c.report.value.stampDetails| + |c.report.value.details| else 0)
  }

  /** A classified file fails exactly when it has at least one error of any
      kind: a list entry, a timestamp detail or a row detail. */
  lemma FailedIffErrors(env: Env, name: string, raw: seq<Byte>)
    requires Classify(env, name, raw).Done? && Classify(env, name, raw).value.Classified?
    ensures var c := Classify(env, name, raw).value;
      Failed(c) <==> TotalErrors(c) > 0
  {
    var c := Classify(env, name, raw).value;
    var reading := Read(env, raw).value;
    var res := ResolveHeaders(env.parse, reading.content);
    assert Classify(env, name, raw) == ClassifyReading(env, name, raw, reading);
    if c.report.Some? {
      ReportFromValidator(env, name, raw, reading);
      var r := RunValidator(env, raw, reading, res.delimiter, c.layout.value);
      assert r.Done? && r.value == c.report.value;
    } else {
      assert c.errors == HeaderErrors(reading, res) + [HeaderErrorMessage(name, res.headers)];
    }
  }

  /** `has_bom_error` as written: some list entry mentions the mark. */
  predicate MentionsBom(errors: seq<string>) {
    exists k :: 0 <= k < |errors| && Contains(errors[k], BomMarker)
  }

  /** The self-heal test as written: an entry mentions the mark and there is
      exactly one error in total. */
  predicate OnlyBomAsWritten(c: Classification)
    requires c.Classified?
  {
    MentionsBom(c.errors) && TotalErrors(c) == 1
  }

  /** The self-heal test as intended: the file did start with the mark and
      that is its only error. */
  predicate OnlyBom(c: Classification)
    requires c.Classified?
  {
    c.hasBom && TotalErrors(c) == 1
  }

  /** The intended test implies the written one: the mark's own message
      mentions it. */
  lemma OnlyBomImpliesWritten(env: Env, name: string, raw: seq<Byte>)
    requires Classify(env, name, raw).Done? && Classify(env, name, raw).value.Classified?
    requires OnlyBom(Classify(env, name, raw).value)
    ensures OnlyBomAsWritten(Classify(env, name, raw).value)
  {
    var c := Classify(env, name, raw).value;
    BomMessageCarriesMarker();
    assert c.errors[0] == BomMessage;
  }

  /** The written test covers every file the intended test selects. */
  lemma WrittenCoversIntended(env: Env, name: string, raw: seq<Byte>)
    ensures var c := Classify(env, name, raw);
              c.Done? && c.value.Classified? && OnlyBom(c.value) ==> OnlyBomAsWritten(c.value)
  {
    var c := Classify(env, name, raw);
    if c.Done? && c.value.Classified? && OnlyBom(c.value) {
      OnlyBomImpliesWritten(env, name, raw);
    }
  }

  /** What happened to the cleaned copy. */
  datatype HealResult = NoHeal | CopyPassed | CopyFailed | CopyRaised(exception: string)

  /** `classify_csv`'s return value and what its self-heal did. */
  datatype Verdict = Verdict(passed: bool, heal: HealResult)

  /** The name of the cleaned copy: "<base>_edited<ext>", whether or not a
      file of that name exists. */
  function EditedName(name: string): string {
    WatcherNames.Candidate(WatcherNames.SplitExt(name).0, "_edited", WatcherNames.SplitExt(name).1, 0)
  }

  /** The verdict on one classified file, given how its cleaned copy fared. */
  function Decide(c: Classification, copy: Checked<Verdict>): (v: Verdict)
    ensures c.TooLarge? ==> v == Verdict(false, NoHeal)
    ensures c.Classified? ==> (v.passed <==> !Failed(c))
  {
    match c
    case TooLarge => Verdict(false, NoHeal)
    case Classified(_, _, _, _, _) =>
      if !Failed(c) then Verdict(ValidationResult(c), NoHeal)
      else if OnlyBom(c) then
        Verdict(false, match copy
          case Raised(e) => CopyRaised(e)
          case Done(inner) => if inner.passed then CopyPassed else CopyFailed)
      else Verdict(false, NoHeal)
  }

  /** `classify_csv` with the self-heal as intended: the cleaned copy holds
      the bytes after the mark, so every heal works on a shorter file. */
  function Run(env: Env, name: string, raw: seq<Byte>): (r: Checked<Verdict>)
    ensures r.Done? && r.value.heal != NoHeal ==> HasBom(raw)
    ensures r.Done? && r.value.passed ==> r.value.heal == NoHeal
    decreases |raw|
  {
    match Classify(env, name, raw)
    case Raised(e) => Raised(e)
    case Done(c) =>
      if c.Classified? && Failed(c) && OnlyBom(c) then
        Done(Decide(c, Run(env, EditedName(name), raw[3..])))
      else Done(Decide(c, Done(Verdict(false, NoHeal))))
  }

  /** `classify_csv` with the self-heal as written: the copy is the worked
      text encoded again, and the written test decides. The recursion has
      no measure, so it is cut off after `fuel` copies; `Done(None)` means
      the cut-off was reached. */
  function RunAsWritten(env: Env, name: string, raw: seq<Byte>, fuel: nat): (r: Checked<Option<Verdict>>)
    ensures r.Done? && r.value.Some? ==>
              var c := Classify(env, name, raw);
              (r.value.value.passed <==> c.Done? && c.value.Classified? && !Failed(c.value))
    ensures r.Done? && r.value.Some? && r.value.value.passed ==> r.value.value.heal == NoHeal
    ensures r == Done(None) ==>
              var c := Classify(env, name, raw);
              fuel == 0 || (c.Done? && c.value.Classified? && Failed(c.value) && OnlyBomAsWritten(c.value))
    ensures r.Done? && r.value.Some? && r.value.value.heal != NoHeal ==>
              var c := Classify(env, name, raw);
              c.Done? && c.value.Classified? && Failed(c.value) && OnlyBomAsWritten(c.value)
    decreases fuel
  {
    WrittenCoversIntended(env, name, raw);
    match Classify(env, name, raw)
    case Raised(e) => Raised(e)
    case Done(c) =>
      if c.Classified? && Failed(c) && OnlyBomAsWritten(c) then
        if fuel == 0 then Done(None)
        else match RunAsWritten(env, EditedName(name), env.encode(c.content), fuel - 1)
          case Done(None) => Done(None)
          case Raised(e) => Done(Some(Verdict(false, CopyRaised(e))))
          case Done(Some(inner)) => Done(Some(Verdict(false, if inner.passed then CopyPassed else CopyFailed)))
      else Done(Some(Decide(c, Done(Verdict(false, NoHeal)))))
  }

  // ---- Properties of the verdict ----

  /** The layout the validator runs under when a file passes. */
  predicate Validated(layout: Option<Layout>) {
    layout == Some(Points) || layout == Some(Vouchers)
  }

  /** The files the watcher moves to `success/` when `validator` gives each
      layout's row check: within the size limit, valid UTF-8 without a
      leading mark, whose lines start with exactly the Points or the Vouchers
      header under comma separators, and whose rows, read from the file,
      the validator accepts without a timestamp error. */
  predicate Acceptable(env: Env, raw: seq<Byte>, validator: Layout -> Validation.RowCheck) {
    && SizeModeOf(|raw|) != Oversized
    && !HasBom(raw)
    && env.utf8(raw).Some?
    && var text := env.utf8(raw).value;
       && Validated(LayoutOf(FirstRow(env.parse(text, ','))))
       && var report := Validation.Validate(env.readFile(text, ','), validator(LayoutOf(FirstRow(env.parse(text, ','))).value));
          report.Done? && report.value.valid && report.value.stampDetails == []
  }

  /** A file that passes is acceptable to the environment's validators. */
  lemma PassedIsAcceptable(env: Env, name: string, raw: seq<Byte>)
    requires Run(env, name, raw).Done? && Run(env, name, raw).value.passed
    ensures Acceptable(env, raw, env.validator)
  {
    PassedNotFailed(env, name, raw);
    UnfailedIsAcceptable(env, name, raw);
  }

  /** A file that passes was classified without failing. */
  lemma PassedNotFailed(env: Env, name: string, raw: seq<Byte>)
    requires Run(env, name, raw).Done? && Run(env, name, raw).value.passed
    ensures Classify(env, name, raw).Done? && Classify(env, name, raw).value.Classified?
    ensures !Failed(Classify(env, name, raw).value)
  {
  }

  /** A classification without failure is of an acceptable file. */
  lemma UnfailedIsAcceptable(env: Env, name: string, raw: seq<Byte>)
    requires Classify(env, name, raw).Done? && Classify(env, name, raw).value.Classified?
    requires !Failed(Classify(env, name, raw).value)
    ensures Acceptable(env, raw, env.validator)
  {
    var c := Classify(env, name, raw).value;
    var reading := Read(env, raw).value;
    var res := ResolveHeaders(env.parse, c.content);
    assert c.errors == [];
    assert !HasBom(raw);
    assert SeparatorErrors(res) == [];
    assert LayoutOf(FirstRow(env.parse(c.content, ','))).Some?;
    assert env.utf8(raw).Some? by {
      ReportFromValidator(env, name, raw, reading);
    }
    assert c.content == env.utf8(raw).value;
    ReportFromValidator(env, name, raw, reading);
  }

  /** An acceptable file passes. */
  lemma AcceptablePasses(env: Env, name: string, raw: seq<Byte>)
    requires Acceptable(env, raw, env.validator)
    ensures Run(env, name, raw).Done? && Run(env, name, raw).value.passed
  {
  }

  /** A file passes exactly when it is acceptable to the environment's
      validators. */
  lemma PassesExactly(env: Env, name: string, raw: seq<Byte>)
    ensures Run(env, name, raw).Done? && Run(env, name, raw).value.passed <==> Acceptable(env, raw, env.validator)
  {
    if Run(env, name, raw).Done? && Run(env, name, raw).value.passed {
      PassedIsAcceptable(env, name, raw);
    }
    if Acceptable(env, raw, env.validator) {
      AcceptablePasses(env, name, raw);
    }
  }

  /** With the source's validators, the verdict is that of the Points or
      Vouchers row validator over the file's rows. */
  lemma PassesWithSourceValidators(env: Env, h: FieldRules.Helpers, name: string, raw: seq<Byte>)
    requires BuildsValidators(env, h)
    ensures Run(env, name, raw).Done? && Run(env, name, raw).value.passed <==>
              Acceptable(env, raw, layout => RowCheckFor(h, layout))
  {
    PassesExactly(env, name, raw);
    if env.utf8(raw).Some? {
      var layout := LayoutOf(FirstRow(env.parse(env.utf8(raw).value, ',')));
      if layout.Some? {
        assert env.validator(layout.value) == RowCheckFor(h, layout.value);
      }
    }
  }

  /** The cleaned copy of a file that started with the mark decodes, without
      a mark, to the same text. */
  lemma CopyRead(env: Env, raw: seq<Byte>)
    requires Read(env, raw).Done? && Read(env, raw).value.hasBom
    requires !HasBom(raw[3..])
    ensures env.utf8(raw[3..]).Some?
    ensures Read(env, raw[3..]) == Done(Reading(false, Read(env, raw).value.content))
  {
  }

  /** The two `csv` readers read `text` alike, under either delimiter: no
      quoted field spans lines and the line breaks do not matter. */
  ghost predicate ReadersAgreeOn(env: Env, text: string) {
    forall delimiter :: env.readFile(text, delimiter) == env.parse(text, delimiter)
  }

  /** The validator reads the same rows from a file with the mark as from
      its cleaned copy, when both readers agree on the cleaned text. */
  lemma CopyValidatorAgrees(env: Env, raw: seq<Byte>, content: string, delimiter: char, layout: Layout)
    requires |raw| >= 3 && env.utf8(raw[3..]) == Some(content) && ReadersAgreeOn(env, content)
    ensures RunValidator(env, raw, Reading(true, content), delimiter, layout)
              == RunValidator(env, raw[3..], Reading(false, content), delimiter, layout)
  {
    assert env.readFile(content, delimiter) == env.parse(content, delimiter);
  }

  /** A file with a mark and a recognised header has a cleaned copy that is
      classified the same way, under any name, except that the mark's error
      is gone, provided the file reader reads the cleaned text as its lines
      are read. */
  lemma CopyClassified(env: Env, name: string, raw: seq<Byte>, copyName: string)
    requires Classify(env, name, raw).Done? && Classify(env, name, raw).value.Classified?
    requires Classify(env, name, raw).value.hasBom && Classify(env, name, raw).value.layout.Some?
    requires !HasBom(raw[3..])
    requires ReadersAgreeOn(env, Classify(env, name, raw).value.content)
    ensures var c := Classify(env, name, raw).value;
      Classify(env, copyName, raw[3..]) == Done(Classified(false, c.content, c.errors[1..], c.layout, c.report))
  {
    var c := Classify(env, name, raw).value;
    var reading := Reading(true, c.content);
    assert Read(env, raw) == Done(reading);
    CopyRead(env, raw);
    CopyReadingClassified(env, name, raw, copyName, c.content);
    assert |raw[3..]| <= |raw|;
  }

  /** The header step and validator on the cleaned copy's text give the
      original's classification less the mark's error. */
  lemma CopyReadingClassified(env: Env, name: string, raw: seq<Byte>, copyName: string, content: string)
    requires |raw| >= 3 && env.utf8(raw[3..]) == Some(content) && ReadersAgreeOn(env, content)
    requires ClassifyReading(env, name, raw, Reading(true, content)).Done?
    requires ClassifyReading(env, name, raw, Reading(true, content)).value.layout.Some?
    ensures var c := ClassifyReading(env, name, raw, Reading(true, content)).value;
      ClassifyReading(env, copyName, raw[3..], Reading(false, content))
        == Done(Classified(false, content, c.errors[1..], c.layout, c.report))
  {
    var reading := Reading(true, content);
    var c := ClassifyReading(env, name, raw, reading).value;
    var res := ResolveHeaders(env.parse, content);
    var layout := c.layout.value;
    ReportFromValidator(env, name, raw, reading);
    CopyValidatorAgrees(env, raw, content, res.delimiter, layout);
    assert c.errors == [BomMessage] + SeparatorErrors(res);
    KnownHeaderClassified(env, copyName, raw[3..], Reading(false, content), layout);
    assert [] + SeparatorErrors(res) == SeparatorErrors(res);
  }

  /** A file the self-heal applies to, whose cleaned copy does not start with
      another mark and reads alike through both readers, is healed: the copy
      passes. */
  lemma HealedCopyPasses(env: Env, name: string, raw: seq<Byte>)
    requires Classify(env, name, raw).Done? && Classify(env, name, raw).value.Classified?
    requires OnlyBom(Classify(env, name, raw).value)
    requires !HasBom(raw[3..])
    requires ReadersAgreeOn(env, Classify(env, name, raw).value.content)
    ensures Run(env, EditedName(name), raw[3..]) == Done(Verdict(true, NoHeal))
    ensures Run(env, name, raw) == Done(Verdict(false, CopyPassed))
  {
    var c := Classify(env, name, raw).value;
    assert c.errors[0] == BomMessage;
    assert c.layout.Some?;
    CopyClassified(env, name, raw, EditedName(name));
    var copy := Classify(env, EditedName(name), raw[3..]).value;
    assert copy.errors == [];
    assert c.report.value.stampDetails == [] && c.report.value.details == [];
    assert !Failed(copy);
  }

  // ---- The self-heal as written loops ----

  /** Strict ASCII decoding, which is what UTF-8 decoding does on bytes
      below 128. */
  function AsciiDecode(raw: seq<Byte>): Option<string> {
    if forall k :: 0 <= k < |raw| ==> raw[k] < 128 then Some(seq(|raw|, k requires 0 <= k < |raw| => raw[k] as char))
    else None
  }

  function AsciiEncode(text: string): seq<Byte> {
    seq(|text|, k requires 0 <= k < |text| => if text[k] as int < 128 then text[k] as int else 0)
  }

  function Latin1(raw: seq<Byte>): string {
    seq(|raw|, k requires 0 <= k < |raw| => raw[k] as char)
  }

  /** A reader for text without quotes: lines on newlines, fields on the
      delimiter. */
  function PlainParse(content: string, delimiter: char): seq<seq<string>> {
    var lines := Split(content, '\n');
    seq(|lines|, k requires 0 <= k < |lines| => Split(lines[k], delimiter))
  }

  /** An ASCII-only environment; the validators, which check only the
      row width, play no part below. */
  const AsciiEnv := Env(
    AsciiDecode,
    Latin1,
    AsciiEncode,
    PlainParse,
    PlainParse,
    (layout: Layout) => (values: seq<string>) => Done(Validation.BaseValidateRow(Schema(layout), values)))

  predicate IsAscii(text: string) {
    forall k :: 0 <= k < |text| ==> text[k] as int < 128
  }

  lemma AsciiRoundTrip(text: string)
    requires IsAscii(text)
    ensures AsciiDecode(AsciiEncode(text)) == Some(text)
  {
    var raw := AsciiEncode(text);
    assert forall k :: 0 <= k < |raw| ==> raw[k] == text[k] as int;
    assert AsciiDecode(raw).Some?;
    assert AsciiDecode(raw).value == text;
  }

  lemma PlainParseOneCell(text: string, delimiter: char)
    requires '\n' !in text && delimiter !in text
    ensures PlainParse(text, delimiter) == [[text]]
  {
    assert Split(text, '\n') == [text];
    assert Split(text, delimiter) == [text];
  }

  /** A one-line ASCII file whose only header cell quotes the marker text,
      such as the cell "Byte Order Mark (BOM)". */
  predicate MarkerCell(cell: string) {
    && IsAscii(cell) && |cell| <= MiB
    && '\n' !in cell && ',' !in cell && ';' !in cell
    && Contains(cell, BomMarker)
  }

  /** The marker text itself is such a cell. */
  lemma MarkerTextIsMarkerCell()
    ensures MarkerCell(BomMarker)
  {
    assert BomMarker <= BomMarker;
  }

  /** Such a file is plain ASCII without a mark: its text is the cell. */
  lemma MarkerFileRead(cell: string)
    requires MarkerCell(cell)
    ensures Read(AsciiEnv, AsciiEncode(cell)) == Done(Reading(false, cell))
  {
    var raw := AsciiEncode(cell);
    AsciiRoundTrip(cell);
    if |raw| > 0 {
      assert raw[0] < 128;
    }
  }

  /** Its header is the one cell, under either delimiter, and no layout. */
  lemma MarkerHeaderResolved(cell: string)
    requires MarkerCell(cell)
    ensures var res := ResolveHeaders(PlainParse, cell);
      res.headers == Some([cell]) && res.separatorError.None? && LayoutOf(res.headers).None?
  {
    PlainParseOneCell(cell, ',');
    PlainParseOneCell(cell, ';');
    assert |Schema(Contacts)| > 1 && |Schema(Points)| > 1 && |Schema(Vouchers)| > 1;
  }

  /** Its one error is the unknown-header message. */
  lemma MarkerFileErrors(name: string, cell: string)
    requires MarkerCell(cell)
    ensures Classify(AsciiEnv, name, AsciiEncode(cell))
              == Done(Classified(false, cell, [HeaderErrorMessage(name, Some([cell]))], None, None))
  {
    var raw := AsciiEncode(cell);
    MarkerFileRead(cell);
    MarkerReadingErrors(name, cell);
    assert SizeModeOf(|raw|) != Oversized;
    assert Classify(AsciiEnv, name, raw) == ClassifyReading(AsciiEnv, name, raw, Reading(false, cell));
  }

  /** The header step on the marker text finds only the unknown header. */
  lemma MarkerReadingErrors(name: string, cell: string)
    requires MarkerCell(cell)
    ensures ClassifyReading(AsciiEnv, name, AsciiEncode(cell), Reading(false, cell))
              == Done(Classified(false, cell, [HeaderErrorMessage(name, Some([cell]))], None, None))
  {
    MarkerHeaderResolved(cell);
    assert AsciiEnv.parse == PlainParse;
    LoneUnknownHeader(AsciiEnv, name, AsciiEncode(cell), Reading(false, cell), [cell]);
  }

  /** Without a mark, a header that resolves cleanly to no layout gives a
      classification whose one error is the unknown-header message. */
  lemma LoneUnknownHeader(env: Env, name: string, raw: seq<Byte>, reading: Reading, headers: seq<string>)
    requires !reading.hasBom
    requires var res := ResolveHeaders(env.parse, reading.content);
      res.headers == Some(headers) && res.separatorError.None? && LayoutOf(res.headers).None?
    ensures ClassifyReading(env, name, raw, reading)
              == Done(Classified(false, reading.content, [HeaderErrorMessage(name, Some(headers))], None, None))
  {
    var res := ResolveHeaders(env.parse, reading.content);
    UnknownHeaderClassified(env, name, raw, reading);
    assert SeparatorErrors(res) == [];
    var m := HeaderErrorMessage(name, Some(headers));
    assert HeaderErrors(reading, res) + [m] == [m];
  }

  /** Such a file has no mark, yet its only error, the unknown-header
      message, quotes its header and so mentions the mark. */
  lemma MarkerFileClassified(name: string, cell: string)
    requires MarkerCell(cell)
    ensures Classify(AsciiEnv, name, AsciiEncode(cell)).Done?
    ensures var c := Classify(AsciiEnv, name, AsciiEncode(cell)).value;
      && c.Classified? && !c.hasBom && c.content == cell
      && Failed(c) && OnlyBomAsWritten(c) && !OnlyBom(c)
  {
    MarkerFileErrors(name, cell);
    var c := Classify(AsciiEnv, name, AsciiEncode(cell)).value;
    HeaderErrorMessageQuotesHeaders(name, Some([cell]));
    assert HeadersText(Some([cell])) == cell;
    ContainsTransitive(c.errors[0], cell, BomMarker);
    assert TotalErrors(c) == 1;
  }

  /** Under the name `n`, the file holding `raw` is selected by the written
      test and its copy has its own bytes. */
  predicate SelfCopyingUnder(env: Env, n: string, raw: seq<Byte>) {
    var r := Classify(env, n, raw);
    && r.Done? && r.value.Classified?
    && Failed(r.value) && OnlyBomAsWritten(r.value) && env.encode(r.value.content) == raw
  }

  /** As written, a self-copying file is cut off exactly when its copy, which
      has the same bytes, is. */
  lemma AsWrittenHealStep(env: Env, name: string, raw: seq<Byte>, fuel: nat)
    requires SelfCopyingUnder(env, name, raw)
    ensures RunAsWritten(env, name, raw, fuel) == Done(None) <==>
              fuel == 0 || RunAsWritten(env, EditedName(name), raw, fuel - 1) == Done(None)
  {
    if fuel == 0 {
      AsWrittenCutOff(env, name, raw);
    } else {
      AsWrittenCopies(env, name, raw, fuel);
    }
  }

  /** As written, a self-copying file reached with no fuel left is cut off. */
  lemma AsWrittenCutOff(env: Env, name: string, raw: seq<Byte>)
    requires SelfCopyingUnder(env, name, raw)
    ensures RunAsWritten(env, name, raw, 0) == Done(None)
  {
  }

  /** As written, with fuel left a self-copying file is cut off exactly when
      its copy is. */
  lemma AsWrittenCopies(env: Env, name: string, raw: seq<Byte>, fuel: nat)
    requires fuel > 0 && SelfCopyingUnder(env, name, raw)
    ensures RunAsWritten(env, name, raw, fuel) == Done(None) <==>
              RunAsWritten(env, EditedName(name), raw, fuel - 1) == Done(None)
  {
  }

  /** Under any name, a marker file is selected by the written test and
      its copy has its own bytes. */
  lemma MarkerFileCopiesItself(name: string, cell: string)
    requires MarkerCell(cell)
    ensures SelfCopyingUnder(AsciiEnv, name, AsciiEncode(cell))
  {
    MarkerFileClassified(name, cell);
  }

  /** The file holding `raw` copies itself under `name` and under the names
      of its next `fuel` copies. */
  predicate SelfCopyingFrom(env: Env, name: string, raw: seq<Byte>, fuel: nat)
    decreases fuel
  {
    SelfCopyingUnder(env, name, raw) && (fuel > 0 ==> SelfCopyingFrom(env, EditedName(name), raw, fuel - 1))
  }

  /** As written, a self-copying file is cut off when its copy is. */
  lemma AsWrittenCopyStep(env: Env, name: string, raw: seq<Byte>, fuel: nat)
    requires fuel > 0 && SelfCopyingUnder(env, name, raw)
    requires RunAsWritten(env, EditedName(name), raw, fuel - 1) == Done(None)
    ensures RunAsWritten(env, name, raw, fuel) == Done(None)
  {
    AsWrittenHealStep(env, name, raw, fuel);
  }

  /** As written, a file that keeps copying itself is still being copied
      when the cut-off is reached. */
  lemma {:induction false} SelfCopyingNeverSettles(env: Env, name: string, raw: seq<Byte>, fuel: nat)
    requires SelfCopyingFrom(env, name, raw, fuel)
    ensures RunAsWritten(env, name, raw, fuel) == Done(None)
    decreases fuel
  {
    if fuel == 0 {
      AsWrittenHealStep(env, name, raw, fuel);
    } else {
      SelfCopyingNeverSettles(env, EditedName(name), raw, fuel - 1);
      AsWrittenCopyStep(env, name, raw, fuel);
    }
  }

  lemma {:induction false} MarkerFileKeepsCopying(name: string, cell: string, fuel: nat)
    requires MarkerCell(cell)
    ensures SelfCopyingFrom(AsciiEnv, name, AsciiEncode(cell), fuel)
    decreases fuel
  {
    MarkerFileCopiesItself(name, cell);
    if fuel > 0 {
      MarkerFileKeepsCopying(EditedName(name), cell, fuel - 1);
    }
  }

  /** As written, a marker file is healed into an identical copy, which is
      healed in turn: no number of copies ends the recursion. */
  lemma AsWrittenNeverSettles(name: string, cell: string, fuel: nat)
    requires MarkerCell(cell)
    ensures RunAsWritten(AsciiEnv, name, AsciiEncode(cell), fuel) == Done(None)
  {
    MarkerFileKeepsCopying(name, cell, fuel);
    SelfCopyingNeverSettles(AsciiEnv, name, AsciiEncode(cell), fuel);
  }

  /** With the intended test the same file simply fails, without a copy. */
  lemma MarkerFileFailsOnce(name: string, cell: string)
    requires MarkerCell(cell)
    ensures Run(AsciiEnv, name, AsciiEncode(cell)) == Done(Verdict(false, NoHeal))
  {
    MarkerFileClassified(name, cell);
  }
}
