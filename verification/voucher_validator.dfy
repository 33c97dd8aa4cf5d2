/** `src/vouchers/voucher_csv_validator.py`: the Voucher row validator. Like
    the Points validator it reports every violated rule, but every check past
    the field count is guarded by the row's length, so a short row is checked
    on the fields it has and never raises. */
module Vouchers {
  import opened Wrappers
  import opened PyText
  import opened FieldRules
  import Validation
  import TimeUtils

  const Columns: seq<string> := [
    "userId", "externalId", "voucherType", "voucherName", "iconName", "code", "expiration"]

  /** One violated rule; `Text` is the message the source appends. */
  datatype Issue =
    | TooManyColumns(count: nat)
    | TooFewColumns
    | NoIdentifier
    | BadVoucherType
    | EmptyName
    | NameNeedsQuoting(detail: string)
    | EmptyIcon
    | EmptyCode
    | ExpirationNotInteger
    | TimestampRejected(detail: string)
    | PastExpiration(detail: string)
  {
    function Text(): string {
      match this
      case TooManyColumns(n) =>
        "Row has " + NatToString(n) + " columns but should have " + NatToString(|Columns|)
        + ". This often indicates unquoted commas in text fields. Fields containing commas must be enclosed in double quotes."
      case TooFewColumns => "Row should have " + NatToString(|Columns|) + " columns"
      case NoIdentifier => "Column 'userId' and 'externalId' should not be empty at the same time"
      case BadVoucherType => "Column 'voucherType' should be either 'one_time' or 'yearly'"
      case EmptyName => "Column 'voucherName' should not be empty"
      case NameNeedsQuoting(d) => "Column 'voucherName': " + d
      case EmptyIcon => "Column 'iconName' should not be empty"
      case EmptyCode => "Column 'code' should not be empty"
      case ExpirationNotInteger => "Column 'expiration' should be an integer (UNIX timestamp in milliseconds)"
      case TimestampRejected(d) => d
      case PastExpiration(d) => d
    }
  }

  predicate IsCountIssue(i: Issue) {
    i.TooManyColumns? || i.TooFewColumns?
  }

  predicate IsExpirationIssue(i: Issue) {
    i.ExpirationNotInteger? || i.TimestampRejected? || i.PastExpiration?
  }

  /** The general rule violations of a row and its separately reported
      timestamp errors. */
  datatype Findings = Findings(general: seq<Issue>, stamps: seq<string>)

  function Texts(issues: seq<Issue>): seq<string> {
    seq(|issues|, k requires 0 <= k < |issues| => issues[k].Text())
  }

  predicate IsVoucherType(text: string) {
    text == "one_time" || text == "yearly"
  }

  // ---- The rule groups, in the order the source appends them ----

  /** The column-count rule, written again beside `Points.ColumnCountIssues`
      on purpose: each validator reports through its own `Issue` type. */
  function ColumnCountIssues(values: seq<string>): (r: seq<Issue>)
    ensures r == [] <==> |values| == |Columns|
    ensures forall i :: i in r ==> IsCountIssue(i)
    ensures |values| > |Columns| ==> r == [TooManyColumns(|values|)]
    ensures |values| < |Columns| ==> r == [TooFewColumns]
  {
    if |values| != |Columns| then
      if |values| > |Columns| then [TooManyColumns(|values|)] else [TooFewColumns]
    else []
  }

  function IdentifierIssues(values: seq<string>): (r: seq<Issue>)
    ensures r != [] <==> |values| > 1 && values[0] == "" && values[1] == ""
    ensures forall i :: i in r ==> i == NoIdentifier
  {
    if |values| > 1 && values[0] == "" && values[1] == "" then [NoIdentifier] else []
  }

  function VoucherTypeIssues(values: seq<string>): (r: seq<Issue>)
    ensures r != [] <==> |values| > 2 && !IsVoucherType(values[2])
    ensures forall i :: i in r ==> i == BadVoucherType
  {
    if |values| > 2 && !IsVoucherType(values[2]) then [BadVoucherType] else []
  }

  /** An empty voucherName is reported as such; only a non-empty one is
      checked for unquoted commas. */
  function NameIssues(h: Helpers, values: seq<string>): (r: seq<Issue>)
    ensures |r| <= 1
    ensures EmptyName in r <==> |values| > 3 && values[3] == ""
    ensures forall d :: NameNeedsQuoting(d) in r <==>
              |values| > 3 && values[3] != "" && h.needsQuoting(values[3]) == (true, d)
    ensures forall i :: i in r ==> i == EmptyName || i.NameNeedsQuoting?
  {
    if |values| > 3 && values[3] == "" then [EmptyName]
    else if |values| > 3 then
      var (needsQuoting, message) := h.needsQuoting(values[3]);
      if needsQuoting then [NameNeedsQuoting(message)] else []
    else []
  }

  function RequiredIssues(values: seq<string>): (r: seq<Issue>)
    ensures EmptyIcon in r <==> |values| > 4 && values[4] == ""
    ensures EmptyCode in r <==> |values| > 5 && values[5] == ""
    ensures forall i :: i in r ==> i == EmptyIcon || i == EmptyCode
  {
    (if |values| > 4 && values[4] == "" then [EmptyIcon] else [])
    + (if |values| > 5 && values[5] == "" then [EmptyCode] else [])
  }

  /** The expiration pipeline: a decimal separator goes to the timestamp
      list and stops there; otherwise the value must parse as an integer,
      pass the classifier and not be in the past. A classifier rejection
      carrying the seconds marker goes to the timestamp list twice, because
      the source rebinds its local list to the scratch attribute it later
      appends again. */
  function ExpirationFindings(h: Helpers, values: seq<string>): (r: Findings)
    ensures |values| <= 6 ==> r == Findings([], [])
    ensures forall i :: i in r.general ==> IsExpirationIssue(i)
    ensures |r.general| <= 1
  {
    if |values| > 6 then
      var (hasDecimal, decimalMessage) := h.hasDecimal(values[6]);
      if hasDecimal then Findings([], ["Column 'expiration': " + decimalMessage])
      else
        match ParseInt(values[6])
        case None => Findings([ExpirationNotInteger], [])
        case Some(expiration) =>
          var (valid, message) := h.classify(expiration);
          if !valid then
            if Contains(message, TimeUtils.SecondsUnitMarker) then Findings([], [message, message])
            else Findings([TimestampRejected(message)], [])
          else
            var (past, pastMessage) := h.isPast(expiration);
            if past then Findings([PastExpiration(pastMessage)], []) else Findings([], [])
    else Findings([], [])
  }

  /** The issues of each rule group, in the order the source runs them:
      field count, identifiers, voucherType, voucherName, iconName and
      code, expiration. */
  function Groups(h: Helpers, values: seq<string>): (gs: seq<seq<Issue>>)
    ensures |gs| == 6
  {
    [ColumnCountIssues(values), IdentifierIssues(values), VoucherTypeIssues(values),
     NameIssues(h, values), RequiredIssues(values), ExpirationFindings(h, values).general]
  }

  /** Every violation of a row, general issues in the order the source
      appends them. No row makes it raise. */
  function Check(h: Helpers, values: seq<string>): (r: Findings)
    ensures |values| > |Columns| ==> |r.general| > 0 && r.general[0] == TooManyColumns(|values|)
    ensures |values| < |Columns| ==> |r.general| > 0 && r.general[0] == TooFewColumns
    ensures r.stamps == ExpirationFindings(h, values).stamps
  {
    Findings(Flatten(Groups(h, values)), ExpirationFindings(h, values).stamps)
  }

  /** The position in `Groups` of the only group that can produce an issue. */
  function GroupOf(i: Issue): (k: nat)
    ensures k < 6
  {
    match i
    case TooManyColumns(_) => 0
    case TooFewColumns => 0
    case NoIdentifier => 1
    case BadVoucherType => 2
    case EmptyName => 3
    case NameNeedsQuoting(_) => 3
    case EmptyIcon => 4
    case EmptyCode => 4
    case _ => 5
  }

  /** Each rule group only produces issues of its own kind. */
  lemma GroupsSorted(h: Helpers, values: seq<string>)
    ensures SortedBy(Groups(h, values), GroupOf)
  {
    var gs := Groups(h, values);
    FirstGroupsOfGroup(h, values);
    LastGroupsOfGroup(h, values);
    forall k | 0 <= k < |gs| ensures OfGroup(gs[k], k, GroupOf) {
      if k == 0 { assert gs[k] == ColumnCountIssues(values); }
      else if k == 1 { assert gs[k] == IdentifierIssues(values); }
      else if k == 2 { assert gs[k] == VoucherTypeIssues(values); }
      else if k == 3 { assert gs[k] == NameIssues(h, values); }
      else if k == 4 { assert gs[k] == RequiredIssues(values); }
      else { assert gs[k] == ExpirationFindings(h, values).general; }
    }
  }

  /** The count, identifier and type groups produce only their own kinds. */
  lemma FirstGroupsOfGroup(h: Helpers, values: seq<string>)
    ensures OfGroup(ColumnCountIssues(values), 0, GroupOf)
    ensures OfGroup(IdentifierIssues(values), 1, GroupOf)
    ensures OfGroup(VoucherTypeIssues(values), 2, GroupOf)
  {
  }

  /** The name, required-field and expiration groups produce only their own
      kinds. */
  lemma LastGroupsOfGroup(h: Helpers, values: seq<string>)
    ensures OfGroup(NameIssues(h, values), 3, GroupOf)
    ensures OfGroup(RequiredIssues(values), 4, GroupOf)
    ensures OfGroup(ExpirationFindings(h, values).general, 5, GroupOf)
  {
    forall i | i in ExpirationFindings(h, values).general ensures GroupOf(i) == 5 {
      ExpirationIssueGroup(i);
    }
  }

  /** An issue is among the row's issues exactly when the one group that
      can produce it did. */
  lemma IssueFromOwnGroup(h: Helpers, values: seq<string>, i: Issue, k: nat)
    requires GroupOf(i) == k
    ensures i in Check(h, values).general <==> i in Groups(h, values)[k]
  {
    GroupsSorted(h, values);
    InOwnGroup(Groups(h, values), GroupOf, i);
  }

  lemma ExpirationIssueGroup(i: Issue)
    requires IsExpirationIssue(i)
    ensures GroupOf(i) == 5
  {
  }

  /** The expiration rules, stated on the whole row. */
  lemma ExpirationRules(h: Helpers, values: seq<string>)
    requires |values| > 6
    ensures var r := Check(h, values); var v := values[6];
      && (h.hasDecimal(v).0 ==>
            r.stamps == ["Column 'expiration': " + h.hasDecimal(v).1]
            && forall i :: i in r.general ==> !IsExpirationIssue(i))
      && (ExpirationNotInteger in r.general <==> !h.hasDecimal(v).0 && ParseInt(v).None?)
      && (forall d :: PastExpiration(d) in r.general <==>
            !h.hasDecimal(v).0 && ParseInt(v).Some?
            && h.classify(ParseInt(v).value).0 && h.isPast(ParseInt(v).value) == (true, d))
      && (forall d :: TimestampRejected(d) in r.general <==>
            !h.hasDecimal(v).0 && ParseInt(v).Some?
            && h.classify(ParseInt(v).value) == (false, d) && !Contains(d, TimeUtils.SecondsUnitMarker))
  {
    forall i | IsExpirationIssue(i)
      ensures i in Check(h, values).general <==> i in ExpirationFindings(h, values).general
    {
      ExpirationIssueGroup(i);
      IssueFromOwnGroup(h, values, i, 5);
    }
  }

  /** A classifier rejection carrying the seconds marker is reported on the
      timestamp list twice and nowhere else. */
  lemma SecondsRejectionReportedTwice(h: Helpers, values: seq<string>)
    requires |values| > 6 && !h.hasDecimal(values[6]).0 && ParseInt(values[6]).Some?
    requires var c := h.classify(ParseInt(values[6]).value);
      !c.0 && Contains(c.1, TimeUtils.SecondsUnitMarker)
    ensures var m := h.classify(ParseInt(values[6]).value).1;
      Check(h, values).stamps == [m, m]
    ensures forall i :: i in Check(h, values).general ==> !IsExpirationIssue(i)
  {
    ExpirationRules(h, values);
  }

  /** At least one of userId and externalId must be set, and voucherType
      must be one of the two known kinds. */
  lemma IdentifierAndTypeRules(h: Helpers, values: seq<string>)
    ensures NoIdentifier in Check(h, values).general <==> |values| > 1 && values[0] == "" && values[1] == ""
    ensures BadVoucherType in Check(h, values).general <==> |values| > 2 && !IsVoucherType(values[2])
  {
    IssueFromOwnGroup(h, values, NoIdentifier, 1);
    IssueFromOwnGroup(h, values, BadVoucherType, 2);
  }

  /** An empty voucherName is reported as empty and never also as needing
      quotes; a non-empty one is reported when the quoting check flags it. */
  lemma NameRules(h: Helpers, values: seq<string>)
    ensures EmptyName in Check(h, values).general <==> |values| > 3 && values[3] == ""
    ensures forall d :: NameNeedsQuoting(d) in Check(h, values).general <==>
              |values| > 3 && values[3] != "" && h.needsQuoting(values[3]) == (true, d)
  {
    IssueFromOwnGroup(h, values, EmptyName, 3);
    forall d | true
      ensures NameNeedsQuoting(d) in Check(h, values).general <==> NameNeedsQuoting(d) in NameIssues(h, values)
    {
      IssueFromOwnGroup(h, values, NameNeedsQuoting(d), 3);
    }
  }

  /** iconName and code must each be non-empty. */
  lemma RequiredRules(h: Helpers, values: seq<string>)
    ensures EmptyIcon in Check(h, values).general <==> |values| > 4 && values[4] == ""
    ensures EmptyCode in Check(h, values).general <==> |values| > 5 && values[5] == ""
  {
    IssueFromOwnGroup(h, values, EmptyIcon, 4);
    IssueFromOwnGroup(h, values, EmptyCode, 4);
  }

  /** No issue after the first `|ColumnCountIssues(values)|` is about the
      field count. */
  lemma CountIssueNotLater(h: Helpers, values: seq<string>, i: Issue)
    requires IsCountIssue(i)
    ensures i !in Check(h, values).general[|ColumnCountIssues(values)|..]
  {
    var gs := Groups(h, values);
    assert Check(h, values).general == gs[0] + Flatten(gs[1..]);
    assert Check(h, values).general[|gs[0]|..] == Flatten(gs[1..]);
    GroupsSorted(h, values);
    LaterGroupsOutside(gs, GroupOf, i);
  }

  /** Only the first general issue can be about the field count, and only
      when the count is wrong. */
  lemma CountIssueOnlyFirst(h: Helpers, values: seq<string>, k: nat)
    requires k < |Check(h, values).general| && IsCountIssue(Check(h, values).general[k])
    ensures k == 0 && |values| != |Columns|
  {
    CountIssueNotLater(h, values, Check(h, values).general[k]);
  }

  /** The expiration field passes exactly when it has no decimal separator,
      parses as an integer, is accepted by the classifier and is not past. */
  predicate ExpirationAccepted(h: Helpers, text: string) {
    && !h.hasDecimal(text).0
    && ParseInt(text).Some?
    && h.classify(ParseInt(text).value).0
    && !h.isPast(ParseInt(text).value).0
  }

  /** A row has no violation at all exactly when it has seven fields, an
      identifier, a known voucher type, a non-empty name that needs no
      quoting, an icon, a code and an accepted expiration. */
  lemma CleanRowCharacterisation(h: Helpers, values: seq<string>)
    ensures var r := Check(h, values);
      r.general == [] && r.stamps == [] <==>
        && |values| == |Columns|
        && (values[0] != "" || values[1] != "")
        && IsVoucherType(values[2])
        && values[3] != "" && !h.needsQuoting(values[3]).0
        && values[4] != "" && values[5] != ""
        && ExpirationAccepted(h, values[6])
  {
    var gs := Groups(h, values);
    FlattenEmpty(gs);
    if gs[0] == [] && gs[1] == [] && gs[2] == [] && gs[3] == [] && gs[4] == [] && gs[5] == [] {
      forall k | 0 <= k < |gs| ensures gs[k] == [] {
        if k == 0 {} else if k == 1 {} else if k == 2 {} else if k == 3 {} else if k == 4 {} else {}
      }
    }
  }

  /** Wired to the classifier of `src/utils/time_utils.py`, the expiration
      rule puts only the decimal-separator error on the timestamp list. */
  lemma TimeUtilsExpirationStamps(h: Helpers, now: int, values: seq<string>)
    requires UsesTimeUtils(h, now)
    ensures ExpirationFindings(h, values).stamps != [] ==>
              |values| > 6 && h.hasDecimal(values[6]).0
              && ExpirationFindings(h, values).stamps == ["Column 'expiration': " + h.hasDecimal(values[6]).1]
  {
    if |values| > 6 && !h.hasDecimal(values[6]).0 && ParseInt(values[6]).Some? {
      var t := ParseInt(values[6]).value;
      assert h.classify(t) == TimeUtils.IsUnixMillisecondTimestamp(TimeUtils.Int(t));
      if !h.classify(t).0 {
        TimeUtils.RejectionsNeverCarrySecondsMarker(TimeUtils.Int(t));
      }
    }
  }

  /** Wired to the classifier of `src/utils/time_utils.py`, only the
      decimal-separator error can reach the row's timestamp list: the
      seconds marker never appears. */
  lemma TimeUtilsTagsOnlyDecimals(h: Helpers, now: int, values: seq<string>)
    requires UsesTimeUtils(h, now)
    ensures Check(h, values).stamps != [] ==>
              |values| > 6 && h.hasDecimal(values[6]).0
              && Check(h, values).stamps == ["Column 'expiration': " + h.hasDecimal(values[6]).1]
  {
    TimeUtilsExpirationStamps(h, now, values);
  }

  /** `VoucherValidator._validate_row`: valid exactly when nothing was
      found; the message lists the general issues, then the timestamp
      errors, separated by "; ". */
  function ValidateRow(h: Helpers, values: seq<string>): (r: Validation.RowVerdict)
    ensures var f := Check(h, values);
      && (r.valid <==> f.general == [] && f.stamps == [])
      && r.stamps == f.stamps
      && (r.valid ==> r.message == "")
      && (!r.valid ==> r.message == Join("; ", Texts(f.general) + f.stamps))
  {
    var f := Check(h, values);
    if f.general != [] || f.stamps != [] then
      Validation.RowVerdict(false, Join("; ", Texts(f.general) + f.stamps), f.stamps)
    else Validation.RowVerdict(true, "", [])
  }
}
