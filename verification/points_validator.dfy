/** `src/points/points_csv_validator.py`: the Points row validator. It keeps
    checking after a failure and reports every violated rule; seconds-unit
    timestamp mistakes are reported on a separate list. */
module Points {
  import opened Wrappers
  import opened PyText
  import opened FieldRules
  import Validation
  import TimeUtils

  const Columns: seq<string> := [
    "userId", "pointsToSpend", "statusPoints", "cashback", "allocatedAt",
    "expireAt", "setPlanExpiration", "reason", "title", "description"]

  /** One violated rule; `Text` is the message the source appends. */
  datatype Issue =
    | TooManyColumns(count: nat)
    | TooFewColumns
    | DecimalSeparator(column: string, detail: string)
    | NotInteger(column: string)
    | NotFloat
    | NoPositiveValue
    | NegativeValue
    | NeedsQuoting(column: string, detail: string)
    | AllocatedAtSet
    | DescriptionWithoutTitle
    | ExpireAtWithPlanExpiration
    | TimestampRejected(detail: string)
    | ExpireAtInPast
    | ExpireAtNotInteger
    | PlanExpirationNotBoolean
  {
    function Text(): string {
      match this
      case TooManyColumns(n) =>
        "Row has " + NatToString(n) + " columns but should have " + NatToString(|Columns|)
        + ". This often indicates unquoted commas in text fields. Fields containing commas must be enclosed in double quotes."
      case TooFewColumns => "Row should have " + NatToString(|Columns|) + " columns"
      case DecimalSeparator(c, d) => "Column '" + c + "': " + d
      case NotInteger(c) => "Column '" + c + "' should be an integer."
      case NotFloat => "Column 'cashback' should be a float."
      case NoPositiveValue =>
        "At least one of 'pointsToSpend', 'statusPoints', or 'cashback' must have a valid positive value."
      case NegativeValue => "Negative values are not allowed."
      case NeedsQuoting(c, d) => "Column '" + c + "': " + d
      case AllocatedAtSet => "Column 'allocatedAt' must be empty"
      case DescriptionWithoutTitle => "Column 'description' requires 'title' to be set"
      case ExpireAtWithPlanExpiration => "If setPlanExpiration is TRUE, expireAt should be empty"
      case TimestampRejected(d) => d
      case ExpireAtInPast =>
        "expireAt should be a future UNIX timestamp in milliseconds when setPlanExpiration is FALSE"
      case ExpireAtNotInteger =>
        "expireAt should be an integer (UNIX timestamp in milliseconds) when setPlanExpiration is FALSE"
      case PlanExpirationNotBoolean => "setPlanExpiration should be either TRUE or FALSE"
    }
  }

  predicate IsCountIssue(i: Issue) {
    i.TooManyColumns? || i.TooFewColumns?
  }

  /** The general rule violations of a row and its separately reported
      timestamp errors. */
  datatype Findings = Findings(general: seq<Issue>, stamps: seq<string>)

  function Texts(issues: seq<Issue>): seq<string> {
    seq(|issues|, k requires 0 <= k < |issues| => issues[k].Text())
  }

  // ---- The rule groups, in the order the source appends them ----

  function ColumnCountIssues(values: seq<string>): (r: seq<Issue>)
    ensures r == [] <==> |values| == |Columns|
    ensures forall i :: i in r ==> IsCountIssue(i)
    ensures |values| > |Columns| ==> r == [TooManyColumns(|values|)]
    ensures |values| < |Columns| ==> r == [TooFewColumns]
  {
    if |values| != |Columns| then
      if |values| > |Columns| then [TooManyColumns(|values|)] else [TooFewColumns]
    else []
  }

  /** pointsToSpend / statusPoints: a decimal separator is reported in
      preference to "should be an integer"; an empty value is not checked. */
  function IntegerColumnIssues(h: Helpers, column: string, text: string): (r: seq<Issue>)
    ensures |r| <= 1
    ensures r == [] <==> text == "" || (!h.hasDecimal(text).0 && IsDigits(text))
    ensures text != "" && h.hasDecimal(text).0 ==> r == [DecimalSeparator(column, h.hasDecimal(text).1)]
    ensures forall i :: i in r ==> i == DecimalSeparator(column, h.hasDecimal(text).1) || i == NotInteger(column)
  {
    if text != "" then
      var (hasDecimal, message) := h.hasDecimal(text);
      if hasDecimal then [DecimalSeparator(column, message)]
      else if !IsDigits(text) then [NotInteger(column)]
      else []
    else []
  }

  function CashbackIssues(h: Helpers, text: string): (r: seq<Issue>)
    ensures |r| <= 1
    ensures r == [] <==> text == "" || (!h.hasDecimal(text).0 && h.parseFloat(text).Some?)
    ensures forall i :: i in r ==> i == DecimalSeparator("cashback", h.hasDecimal(text).1) || i == NotFloat
  {
    if text != "" then
      var (hasDecimal, message) := h.hasDecimal(text);
      if hasDecimal then [DecimalSeparator("cashback", message)]
      else if h.parseFloat(text).None? then [NotFloat]
      else []
    else []
  }

  predicate PositiveDigits(text: string) {
    IsDigits(text) && DigitsValue(text) > 0
  }

  predicate PositiveCashback(h: Helpers, text: string) {
    text != "" && h.parseFloat(text).Some? && h.parseFloat(text).value > 0.0
  }

  /** The "at least one positive value" and "no negative value" rules, run
      only after the numeric columns passed, so the integer columns are empty
      or digit strings here. */
  function PositivityIssues(h: Helpers, pts: string, status: string, cashback: string): (r: seq<Issue>)
    requires pts == "" || IsDigits(pts)
    requires status == "" || IsDigits(status)
    ensures NoPositiveValue in r <==> !(PositiveDigits(pts) || PositiveDigits(status) || PositiveCashback(h, cashback))
    ensures NegativeValue !in r
    ensures forall i :: i in r ==> i == NoPositiveValue
  {
    var validPts := IsDigits(pts) && ParseInt(pts).value > 0;
    var validStatus := IsDigits(status) && ParseInt(status).value > 0;
    var validCashback := cashback != "" && (match h.parseFloat(cashback) case Some(x) => x > 0.0 case None => false);
    var negative :=
      || (pts != "" && ParseInt(pts).value < 0)
      || (status != "" && ParseInt(status).value < 0)
      || (validCashback && h.parseFloat(cashback).value < 0.0);
    (if !(validPts || validStatus || validCashback) then [NoPositiveValue] else [])
    + (if negative then [NegativeValue] else [])
  }

  function QuotingIssue(h: Helpers, values: seq<string>, index: nat, column: string): (r: seq<Issue>)
    ensures |r| <= 1
    ensures r != [] <==> index < |values| && values[index] != "" && h.needsQuoting(values[index]).0
    ensures r != [] ==> r == [NeedsQuoting(column, h.needsQuoting(values[index]).1)]
  {
    if index < |values| && values[index] != "" then
      var (needsQuoting, message) := h.needsQuoting(values[index]);
      if needsQuoting then [NeedsQuoting(column, message)] else []
    else []
  }

  /** reason, title and description are each checked for unquoted commas. */
  function FreeTextIssues(h: Helpers, values: seq<string>): (r: seq<Issue>)
    ensures forall i :: i in r ==> i.NeedsQuoting?
  {
    QuotingIssue(h, values, 7, "reason") + QuotingIssue(h, values, 8, "title")
    + QuotingIssue(h, values, 9, "description")
  }

  function AllocatedAtIssues(values: seq<string>): (r: seq<Issue>)
    ensures r != [] <==> |values| > 4 && values[4] != ""
    ensures forall i :: i in r ==> i == AllocatedAtSet
  {
    if |values| > 4 && values[4] != "" then [AllocatedAtSet] else []
  }

  function DescriptionIssues(values: seq<string>): (r: seq<Issue>)
    ensures r != [] <==> |values| > 9 && values[9] != "" && values[8] == ""
    ensures forall i :: i in r ==> i == DescriptionWithoutTitle
  {
    if |values| > 9 && values[9] != "" && (|values| <= 8 || values[8] == "") then [DescriptionWithoutTitle]
    else []
  }

  /** The issues the column-count and numeric-column checks produce. */
  predicate IsNumericIssue(i: Issue) {
    IsCountIssue(i) || i.DecimalSeparator? || i.NotInteger? || i.NotFloat?
  }

  /** The issues only the setPlanExpiration rules produce. */
  predicate IsPlanIssue(i: Issue) {
    || i.ExpireAtWithPlanExpiration? || i.PlanExpirationNotBoolean? || i.ExpireAtNotInteger?
    || i.ExpireAtInPast? || i.TimestampRejected?
  }

  predicate PlanIsTrue(values: seq<string>) {
    |values| > 6 && Lower(values[6]) == "true"
  }

  predicate PlanIsFalse(values: seq<string>) {
    |values| > 6 && Lower(values[6]) == "false"
  }

  /** setPlanExpiration gates expireAt: TRUE wants it empty, FALSE wants a
      valid, not-past millisecond timestamp, anything else is an error. */
  function PlanIssues(h: Helpers, values: seq<string>): (r: Findings)
    ensures |r.general| + |r.stamps| <= 1
    ensures forall i :: i in r.general ==> IsPlanIssue(i)
  {
    if PlanIsTrue(values) then
      if |values| > 5 && values[5] != "" then Findings([ExpireAtWithPlanExpiration], []) else Findings([], [])
    else if PlanIsFalse(values) then
      match ParseInt(values[5])
      case None => Findings([ExpireAtNotInteger], [])
      case Some(expiration) =>
        var (valid, message) := h.classify(expiration);
        if !valid then
          if Contains(message, TimeUtils.SecondsUnitMarker) then Findings([], [message])
          else Findings([TimestampRejected(message)], [])
        else if h.isPast(expiration).0 then Findings([ExpireAtInPast], [])
        else Findings([], [])
    else if |values| > 6 then Findings([PlanExpirationNotBoolean], [])
    else Findings([], [])
  }

  /** What each setPlanExpiration outcome means: TRUE with an expireAt,
      a value other than TRUE/FALSE, and under FALSE a non-integer, a
      rejected or a past expireAt. */
  lemma PlanIssuesMeaning(h: Helpers, values: seq<string>)
    ensures ExpireAtWithPlanExpiration in PlanIssues(h, values).general <==> PlanIsTrue(values) && values[5] != ""
    ensures PlanExpirationNotBoolean in PlanIssues(h, values).general <==>
              |values| > 6 && !PlanIsTrue(values) && !PlanIsFalse(values)
    ensures ExpireAtNotInteger in PlanIssues(h, values).general <==>
              PlanIsFalse(values) && ParseInt(values[5]).None?
    ensures ExpireAtInPast in PlanIssues(h, values).general <==>
              PlanIsFalse(values) && ParseInt(values[5]).Some?
              && h.classify(ParseInt(values[5]).value).0 && h.isPast(ParseInt(values[5]).value).0
    ensures forall d :: TimestampRejected(d) in PlanIssues(h, values).general <==>
              PlanIsFalse(values) && ParseInt(values[5]).Some?
              && h.classify(ParseInt(values[5]).value) == (false, d) && !Contains(d, TimeUtils.SecondsUnitMarker)
  {
  }

  /** The timestamp list gets an error exactly when setPlanExpiration is
      FALSE and the classifier rejects expireAt with the seconds marker. */
  lemma PlanStampsMeaning(h: Helpers, values: seq<string>)
    ensures PlanIssues(h, values).stamps != [] <==>
              PlanIsFalse(values) && ParseInt(values[5]).Some?
              && !h.classify(ParseInt(values[5]).value).0
              && Contains(h.classify(ParseInt(values[5]).value).1, TimeUtils.SecondsUnitMarker)
    ensures PlanIssues(h, values).stamps != [] ==>
              PlanIssues(h, values).stamps == [h.classify(ParseInt(values[5]).value).1]
  {
  }

  /** The pointsToSpend, statusPoints and cashback checks. */
  function FieldIssues(h: Helpers, values: seq<string>): (r: seq<Issue>)
    requires |values| >= 4
  {
    IntegerColumnIssues(h, "pointsToSpend", values[1])
    + IntegerColumnIssues(h, "statusPoints", values[2])
    + CashbackIssues(h, values[3])
  }

  /** The column-count and numeric-column issues: the rule "at least one
      positive value" only runs when these are empty. */
  function NumericIssues(h: Helpers, values: seq<string>): (r: seq<Issue>)
    requires |values| >= 4
    ensures forall i :: i in r ==> IsNumericIssue(i)
  {
    ColumnCountIssues(values) + FieldIssues(h, values)
  }

  /** The positivity rules, skipped when a numeric issue was found. */
  function GatedPositivityIssues(h: Helpers, values: seq<string>): (r: seq<Issue>)
    requires |values| >= 4
    ensures forall i :: i in r ==> i == NoPositiveValue
  {
    if NumericIssues(h, values) == [] then PositivityIssues(h, values[1], values[2], values[3]) else []
  }

  /** The issues of each rule group, in the order the source runs them:
      field count, pointsToSpend, statusPoints, cashback, positivity, free
      text, allocatedAt, description, setPlanExpiration. */
  function Groups(h: Helpers, values: seq<string>): (gs: seq<seq<Issue>>)
    requires |values| >= 4
    ensures |gs| == 9
  {
    [ColumnCountIssues(values),
     IntegerColumnIssues(h, "pointsToSpend", values[1]),
     IntegerColumnIssues(h, "statusPoints", values[2]),
     CashbackIssues(h, values[3]),
     GatedPositivityIssues(h, values),
     FreeTextIssues(h, values),
     AllocatedAtIssues(values),
     DescriptionIssues(values),
     PlanIssues(h, values).general]
  }

  /** Every general rule violation of a row with at least four fields, in
      the order the source appends them: a wrong field count is reported
      once, first, and checking goes on. */
  function Issues(h: Helpers, values: seq<string>): (g: seq<Issue>)
    requires |values| >= 4
    ensures |values| > |Columns| ==> |g| > 0 && g[0] == TooManyColumns(|values|)
    ensures |values| < |Columns| ==> |g| > 0 && g[0] == TooFewColumns
  {
    Flatten(Groups(h, values))
  }

  /** All violations of a row: the general issues and the timestamp errors.
      A row with fewer than four fields makes the source raise `IndexError`
      when it reads the numeric columns. */
  function Check(h: Helpers, values: seq<string>): (r: Checked<Findings>)
    ensures r.Raised? <==> |values| < 4
    ensures r.Done? && |values| != |Columns| ==> r.value.general != [] && IsCountIssue(r.value.general[0])
  {
    if |values| < 4 then Raised(IndexError)
    else Done(Findings(Issues(h, values), PlanIssues(h, values).stamps))
  }

  /** The position in `Groups` of the only group that can produce an issue. */
  function GroupOf(i: Issue): (k: nat)
    ensures k < 9
  {
    match i
    case TooManyColumns(_) => 0
    case TooFewColumns => 0
    case DecimalSeparator(c, _) => ColumnGroup(c)
    case NotInteger(c) => ColumnGroup(c)
    case NotFloat => 3
    case NoPositiveValue => 4
    case NegativeValue => 4
    case NeedsQuoting(_, _) => 5
    case AllocatedAtSet => 6
    case DescriptionWithoutTitle => 7
    case _ => 8
  }

  function ColumnGroup(column: string): nat {
    if column == "pointsToSpend" then 1 else if column == "statusPoints" then 2 else 3
  }

  lemma CountIssuesOfGroup(values: seq<string>)
    ensures OfGroup(ColumnCountIssues(values), 0, GroupOf)
  {
  }

  lemma ColumnIssuesOfGroup(h: Helpers, column: string, text: string)
    ensures OfGroup(IntegerColumnIssues(h, column, text), ColumnGroup(column), GroupOf)
  {
  }

  lemma CashbackIssuesOfGroup(h: Helpers, text: string)
    ensures OfGroup(CashbackIssues(h, text), 3, GroupOf)
  {
  }

  lemma PositivityIssuesOfGroup(h: Helpers, values: seq<string>)
    requires |values| >= 4
    ensures OfGroup(GatedPositivityIssues(h, values), 4, GroupOf)
  {
  }

  lemma FreeTextIssuesOfGroup(h: Helpers, values: seq<string>)
    ensures OfGroup(FreeTextIssues(h, values), 5, GroupOf)
  {
  }

  lemma AllocatedAtIssuesOfGroup(values: seq<string>)
    ensures OfGroup(AllocatedAtIssues(values), 6, GroupOf)
  {
  }

  lemma DescriptionIssuesOfGroup(values: seq<string>)
    ensures OfGroup(DescriptionIssues(values), 7, GroupOf)
  {
  }

  lemma PlanIssuesOfGroup(h: Helpers, values: seq<string>)
    ensures OfGroup(PlanIssues(h, values).general, 8, GroupOf)
  {
  }

  /** Each rule group only produces issues of its own kind. */
  lemma GroupsSorted(h: Helpers, values: seq<string>)
    requires |values| >= 4
    ensures SortedBy(Groups(h, values), GroupOf)
  {
    var gs := Groups(h, values);
    CountIssuesOfGroup(values);
    ColumnIssuesOfGroup(h, "pointsToSpend", values[1]);
    ColumnIssuesOfGroup(h, "statusPoints", values[2]);
    CashbackIssuesOfGroup(h, values[3]);
    PositivityIssuesOfGroup(h, values);
    FreeTextIssuesOfGroup(h, values);
    AllocatedAtIssuesOfGroup(values);
    DescriptionIssuesOfGroup(values);
    PlanIssuesOfGroup(h, values);
    forall k | 0 <= k < |gs| ensures OfGroup(gs[k], k, GroupOf) {
      if k == 0 { assert gs[k] == ColumnCountIssues(values); }
      else if k == 1 { assert gs[k] == IntegerColumnIssues(h, "pointsToSpend", values[1]); }
      else if k == 2 { assert gs[k] == IntegerColumnIssues(h, "statusPoints", values[2]); }
      else if k == 3 { assert gs[k] == CashbackIssues(h, values[3]); }
      else if k == 4 { assert gs[k] == GatedPositivityIssues(h, values); }
      else if k == 5 { assert gs[k] == FreeTextIssues(h, values); }
      else if k == 6 { assert gs[k] == AllocatedAtIssues(values); }
      else if k == 7 { assert gs[k] == DescriptionIssues(values); }
      else { assert gs[k] == PlanIssues(h, values).general; }
    }
  }

  /** An issue is among the row's issues exactly when the one group that
      can produce it did. */
  lemma IssueFromOwnGroup(h: Helpers, values: seq<string>, i: Issue, k: nat)
    requires |values| >= 4 && GroupOf(i) == k
    ensures i in Issues(h, values) <==> i in Groups(h, values)[k]
  {
    GroupsSorted(h, values);
    InOwnGroup(Groups(h, values), GroupOf, i);
  }

  /** No issue after the first `|ColumnCountIssues(values)|` is about the
      field count. */
  lemma CountIssueNotLater(h: Helpers, values: seq<string>, i: Issue)
    requires |values| >= 4 && IsCountIssue(i)
    ensures i !in Issues(h, values)[|ColumnCountIssues(values)|..]
  {
    var gs := Groups(h, values);
    assert Issues(h, values) == gs[0] + Flatten(gs[1..]);
    assert Issues(h, values)[|gs[0]|..] == Flatten(gs[1..]);
    GroupsSorted(h, values);
    LaterGroupsOutside(gs, GroupOf, i);
  }

  /** Only the first issue can be about the field count, and only when the
      count is wrong. */
  lemma CountIssueOnlyFirst(h: Helpers, values: seq<string>, k: nat)
    requires |values| >= 4 && k < |Issues(h, values)| && IsCountIssue(Issues(h, values)[k])
    ensures k == 0 && |values| != |Columns|
  {
    CountIssueNotLater(h, values, Issues(h, values)[k]);
  }

  /** "At least one positive value" fires exactly when the numeric columns
      passed their own checks and none of them is positive; "negative
      values" never fires. */
  lemma PositiveValueRule(h: Helpers, values: seq<string>)
    requires |values| >= 4
    ensures NoPositiveValue in Issues(h, values) <==>
              NumericIssues(h, values) == []
              && !(PositiveDigits(values[1]) || PositiveDigits(values[2]) || PositiveCashback(h, values[3]))
    ensures NegativeValue !in Issues(h, values)
  {
    IssueFromOwnGroup(h, values, NoPositiveValue, 4);
    IssueFromOwnGroup(h, values, NegativeValue, 4);
  }

  /** allocatedAt must be empty. */
  lemma AllocatedAtRule(h: Helpers, values: seq<string>)
    requires |values| >= 4
    ensures AllocatedAtSet in Issues(h, values) <==> |values| > 4 && values[4] != ""
  {
    IssueFromOwnGroup(h, values, AllocatedAtSet, 6);
  }

  /** A description needs a title. */
  lemma DescriptionRule(h: Helpers, values: seq<string>)
    requires |values| >= 4
    ensures DescriptionWithoutTitle in Issues(h, values) <==> |values| > 9 && values[9] != "" && values[8] == ""
  {
    IssueFromOwnGroup(h, values, DescriptionWithoutTitle, 7);
  }

  /** An issue only the setPlanExpiration rules produce is in the row's
      issues exactly when those rules produced it. */
  lemma PlanIssueOutside(h: Helpers, values: seq<string>, i: Issue)
    requires |values| >= 4 && IsPlanIssue(i)
    ensures i in Issues(h, values) <==> i in PlanIssues(h, values).general
  {
    PlanIssueGroup(i);
    IssueFromOwnGroup(h, values, i, 8);
  }

  lemma PlanIssueGroup(i: Issue)
    requires IsPlanIssue(i)
    ensures GroupOf(i) == 8
  {
  }

  /** The setPlanExpiration rules reach the row's issues unchanged. */
  lemma PlanRules(h: Helpers, values: seq<string>)
    requires |values| >= 4
    ensures ExpireAtWithPlanExpiration in Issues(h, values) <==> PlanIsTrue(values) && values[5] != ""
    ensures PlanExpirationNotBoolean in Issues(h, values) <==>
              |values| > 6 && !PlanIsTrue(values) && !PlanIsFalse(values)
    ensures ExpireAtNotInteger in Issues(h, values) <==> PlanIsFalse(values) && ParseInt(values[5]).None?
    ensures ExpireAtInPast in Issues(h, values) <==>
              PlanIsFalse(values) && ParseInt(values[5]).Some?
              && h.classify(ParseInt(values[5]).value).0 && h.isPast(ParseInt(values[5]).value).0
  {
    PlanIssueOutside(h, values, ExpireAtWithPlanExpiration);
    PlanIssueOutside(h, values, PlanExpirationNotBoolean);
    PlanIssueOutside(h, values, ExpireAtNotInteger);
    PlanIssueOutside(h, values, ExpireAtInPast);
    PlanIssuesMeaning(h, values);
  }

  /** An issue about pointsToSpend is in the row's issues exactly when the
      pointsToSpend check produced it. */
  lemma PointsToSpendIssueOutside(h: Helpers, values: seq<string>, i: Issue)
    requires |values| >= 4
    requires i == NotInteger("pointsToSpend") || (i.DecimalSeparator? && i.column == "pointsToSpend")
    ensures i in Issues(h, values) <==> i in IntegerColumnIssues(h, "pointsToSpend", values[1])
  {
    IssueFromOwnGroup(h, values, i, 1);
  }

  /** pointsToSpend yields at most one issue, none when empty, and the
      decimal-separator issue wins over "should be an integer". */
  lemma PointsToSpendRule(h: Helpers, values: seq<string>)
    requires |values| >= 4
    ensures values[1] == "" ==>
              NotInteger("pointsToSpend") !in Issues(h, values)
              && forall d :: DecimalSeparator("pointsToSpend", d) !in Issues(h, values)
    ensures NotInteger("pointsToSpend") in Issues(h, values) <==>
              values[1] != "" && !h.hasDecimal(values[1]).0 && !IsDigits(values[1])
    ensures values[1] != "" && h.hasDecimal(values[1]).0 ==>
              DecimalSeparator("pointsToSpend", h.hasDecimal(values[1]).1) in Issues(h, values)
  {
    PointsToSpendIssueOutside(h, values, NotInteger("pointsToSpend"));
    PointsToSpendIssueOutside(h, values, DecimalSeparator("pointsToSpend", h.hasDecimal(values[1]).1));
    forall d | true
      ensures values[1] == "" ==> DecimalSeparator("pointsToSpend", d) !in Issues(h, values)
    {
      PointsToSpendIssueOutside(h, values, DecimalSeparator("pointsToSpend", d));
    }
  }

  /** An integer column passes when it is empty or a plain digit string. */
  predicate IntegerAccepted(h: Helpers, text: string) {
    text == "" || (!h.hasDecimal(text).0 && IsDigits(text))
  }

  predicate CashbackAccepted(h: Helpers, text: string) {
    text == "" || (!h.hasDecimal(text).0 && h.parseFloat(text).Some?)
  }

  /** A free-text field passes when it is empty or needs no quoting. */
  predicate FreeTextAccepted(h: Helpers, text: string) {
    text == "" || !h.needsQuoting(text).0
  }

  /** setPlanExpiration is TRUE with an empty expireAt, or FALSE with an
      integer expireAt the classifier accepts and that is not past. */
  predicate PlanAccepted(h: Helpers, values: seq<string>) {
    || (PlanIsTrue(values) && values[5] == "")
    || (&& PlanIsFalse(values) && ParseInt(values[5]).Some?
        && h.classify(ParseInt(values[5]).value).0 && !h.isPast(ParseInt(values[5]).value).0)
  }

  /** Every field rule of a ten-field row holds. */
  predicate CleanRow(h: Helpers, values: seq<string>) {
    && |values| == |Columns|
    && IntegerAccepted(h, values[1]) && IntegerAccepted(h, values[2]) && CashbackAccepted(h, values[3])
    && (PositiveDigits(values[1]) || PositiveDigits(values[2]) || PositiveCashback(h, values[3]))
    && FreeTextAccepted(h, values[7]) && FreeTextAccepted(h, values[8]) && FreeTextAccepted(h, values[9])
    && values[4] == ""
    && !(values[9] != "" && values[8] == "")
    && PlanAccepted(h, values)
  }

  /** The setPlanExpiration rules find nothing exactly when they accept. */
  lemma PlanFindsNothing(h: Helpers, values: seq<string>)
    requires |values| == |Columns|
    ensures PlanIssues(h, values) == Findings([], []) <==> PlanAccepted(h, values)
  {
  }

  /** Nine joined lists are empty exactly when each of them is. */
  lemma NineEmpty(gs: seq<seq<Issue>>)
    requires |gs| == 9
    ensures Flatten(gs) == [] <==>
              && gs[0] == [] && gs[1] == [] && gs[2] == [] && gs[3] == [] && gs[4] == []
              && gs[5] == [] && gs[6] == [] && gs[7] == [] && gs[8] == []
  {
    FlattenEmpty(gs);
    if gs[0] == [] && gs[1] == [] && gs[2] == [] && gs[3] == [] && gs[4] == []
       && gs[5] == [] && gs[6] == [] && gs[7] == [] && gs[8] == []
    {
      forall k | 0 <= k < |gs| ensures gs[k] == [] {
        if k == 0 {} else if k == 1 {} else if k == 2 {} else if k == 3 {} else if k == 4 {}
        else if k == 5 {} else if k == 6 {} else if k == 7 {} else {}
      }
    }
  }

  /** The field checks of a ten-field row find nothing exactly when its
      numeric columns pass, one is positive, the free text needs no quoting,
      allocatedAt is empty and a description comes with a title. */
  lemma FieldGroupsEmpty(h: Helpers, values: seq<string>)
    requires |values| == |Columns|
    ensures var gs := Groups(h, values);
      (gs[1] == [] && gs[2] == [] && gs[3] == [] && gs[4] == [] && gs[5] == [] && gs[6] == [] && gs[7] == []) <==>
        && IntegerAccepted(h, values[1]) && IntegerAccepted(h, values[2]) && CashbackAccepted(h, values[3])
        && (PositiveDigits(values[1]) || PositiveDigits(values[2]) || PositiveCashback(h, values[3]))
        && FreeTextAccepted(h, values[7]) && FreeTextAccepted(h, values[8]) && FreeTextAccepted(h, values[9])
        && values[4] == ""
        && !(values[9] != "" && values[8] == "")
  {
    var gs := Groups(h, values);
    assert gs[1] == IntegerColumnIssues(h, "pointsToSpend", values[1]);
    assert gs[2] == IntegerColumnIssues(h, "statusPoints", values[2]);
    assert gs[3] == CashbackIssues(h, values[3]);
    assert gs[4] == GatedPositivityIssues(h, values);
    assert gs[5] == FreeTextIssues(h, values);
    assert gs[6] == AllocatedAtIssues(values);
    assert gs[7] == DescriptionIssues(values);
    if IntegerAccepted(h, values[1]) && IntegerAccepted(h, values[2]) && CashbackAccepted(h, values[3]) {
      PositivityGroupEmpty(h, values);
    }
    FreeTextGroupEmpty(h, values);
  }

  /** With the numeric columns accepted, the positivity group is empty
      exactly when one of them is positive. */
  lemma PositivityGroupEmpty(h: Helpers, values: seq<string>)
    requires |values| == |Columns|
    requires IntegerAccepted(h, values[1]) && IntegerAccepted(h, values[2]) && CashbackAccepted(h, values[3])
    ensures GatedPositivityIssues(h, values) == [] <==>
              PositiveDigits(values[1]) || PositiveDigits(values[2]) || PositiveCashback(h, values[3])
  {
    assert NumericIssues(h, values) == [];
    var r := PositivityIssues(h, values[1], values[2], values[3]);
    if r != [] {
      assert r[0] in r;
    }
  }

  /** The quoting group is empty exactly when reason, title and description
      are each accepted. */
  lemma FreeTextGroupEmpty(h: Helpers, values: seq<string>)
    requires |values| == |Columns|
    ensures FreeTextIssues(h, values) == [] <==>
              FreeTextAccepted(h, values[7]) && FreeTextAccepted(h, values[8]) && FreeTextAccepted(h, values[9])
  {
  }

  /** A row draws neither a general issue nor a timestamp error exactly when
      it has ten fields, pointsToSpend, statusPoints and cashback pass their
      checks and one of them is positive, reason, title and description
      need no quoting, allocatedAt is empty, a description comes with a
      title, and the setPlanExpiration rule accepts expireAt. */
  lemma CleanRowCharacterisation(h: Helpers, values: seq<string>)
    ensures Check(h, values) == Done(Findings([], [])) <==> CleanRow(h, values)
  {
    if |values| >= 4 {
      var gs := Groups(h, values);
      NineEmpty(gs);
      assert Check(h, values) == Done(Findings([], [])) <==> Flatten(gs) == [] && PlanIssues(h, values).stamps == [];
      if |values| == |Columns| {
        PlanFindsNothing(h, values);
        FieldGroupsEmpty(h, values);
        assert gs[8] == PlanIssues(h, values).general;
      } else {
        assert gs[0] != [];
      }
    }
  }

  /** With helpers behaving as the repository's tests assert, "123.45" in
      pointsToSpend is reported as a decimal separator only, and "12345"
      draws no pointsToSpend issue at all. */
  lemma TestedPointsToSpendExamples(h: Helpers, values: seq<string>)
    requires MatchesTestedExamples(h) && |values| >= 4
    ensures values[1] == "123.45" ==>
              DecimalSeparator("pointsToSpend", h.hasDecimal("123.45").1) in Issues(h, values)
              && NotInteger("pointsToSpend") !in Issues(h, values)
    ensures values[1] == "12345" ==>
              NotInteger("pointsToSpend") !in Issues(h, values)
              && forall d :: DecimalSeparator("pointsToSpend", d) !in Issues(h, values)
  {
    PointsToSpendRule(h, values);
    if values[1] == "12345" {
      assert IsDigits("12345");
      forall d | true ensures DecimalSeparator("pointsToSpend", d) !in Issues(h, values) {
        PointsToSpendIssueOutside(h, values, DecimalSeparator("pointsToSpend", d));
      }
    }
  }

  /** Wired to the classifier of `src/utils/time_utils.py`, the points
      validator never puts an error on the timestamp list: its rejections
      lack the seconds marker. */
  lemma TimeUtilsClassifierNeverTags(h: Helpers, now: int, values: seq<string>)
    requires UsesTimeUtils(h, now)
    ensures PlanIssues(h, values).stamps == []
  {
    PlanStampsMeaning(h, values);
    if PlanIsFalse(values) && ParseInt(values[5]).Some? {
      var t := ParseInt(values[5]).value;
      assert h.classify(t) == TimeUtils.IsUnixMillisecondTimestamp(TimeUtils.Int(t));
      if !h.classify(t).0 {
        TimeUtils.RejectionsNeverCarrySecondsMarker(TimeUtils.Int(t));
      }
    }
  }

  /** `PointsValidator._validate_row`: invalid exactly when some rule was
      violated; the message lists the general issues, then the timestamp
      errors, separated by "; ". */
  function ValidateRow(h: Helpers, values: seq<string>): (r: Checked<Validation.RowVerdict>)
    ensures r.Raised? <==> |values| < 4
    ensures r.Done? ==> var f := Check(h, values).value;
      && (r.value.valid <==> f.general == [] && f.stamps == [])
      && r.value.stamps == f.stamps
      && (r.value.valid ==> r.value.message == "")
      && (!r.value.valid ==> r.value.message == Join("; ", Texts(f.general) + f.stamps))
  {
    match Check(h, values)
    case Raised(e) => Raised(e)
    case Done(f) =>
      if f.general != [] || f.stamps != [] then
        Done(Validation.RowVerdict(false, Join("; ", Texts(f.general) + f.stamps), f.stamps))
      else Done(Validation.RowVerdict(true, "", []))
  }
}
