/** How `watcher.py` recognises a file's kind from its header row
    (`classify_csv`, `generate_error_message`): the header must be exactly
    one of three column lists; a header that only matches when split on
    semicolons is accepted with a separator error; an unrecognised header is
    reported against the list it shares the most names with. */
module WatcherHeaders {
  import opened Wrappers
  import opened PyText

  datatype Layout = Contacts | Points | Vouchers

  /** The three accepted headers, exactly as listed. */
  function Schema(layout: Layout): (names: seq<string>)
    ensures |names| > 0 && names[0] == "userId"
  {
    match layout
    case Contacts => ["userId", "shouldJoin", "joinDate", "tierName", "tierEntryAt", "tierCalcAt", "shouldReward"]
    case Points => ["userId", "pointsToSpend", "statusPoints", "cashback", "allocatedAt", "expireAt",
                    "setPlanExpiration", "reason", "title", "description"]
    case Vouchers => ["userId", "externalId", "voucherType", "voucherName", "iconName", "code", "expiration"]
  }

  /** `headers == contacts_headers`, then points, then vouchers. */
  function LayoutOf(headers: Option<seq<string>>): Option<Layout> {
    if headers == Some(Schema(Contacts)) then Some(Contacts)
    else if headers == Some(Schema(Points)) then Some(Points)
    else if headers == Some(Schema(Vouchers)) then Some(Vouchers)
    else None
  }

  /** A header is recognised as a layout exactly when it is that layout's
      column list. */
  lemma LayoutOfMatchesSchema(headers: Option<seq<string>>)
    ensures forall layout :: LayoutOf(headers) == Some(layout) <==> headers == Some(Schema(layout))
  {
  }

  /** `csv.DictReader(...).fieldnames`: the first parsed row, `None` when
      there is none. A blank first line is the empty row. */
  function FirstRow(rows: seq<seq<string>>): (r: Option<seq<string>>)
    ensures r.None? <==> rows == []
    ensures r.Some? ==> r.value == rows[0]
  {
    if rows == [] then None else Some(rows[0])
  }

  function SeparatorMessage(found: seq<string>): string {
    "The file uses semicolon (;) separators, but comma (,) is the accepted format.\n\nFound: "
      + Join("; ", found) + "\nExpected: " + Join(", ", found)
  }

  /** What the header step settles: the header the file is classified by,
      the delimiter the validator is built with, the rows the userId scan
      iterates, and the separator error if one was raised. */
  datatype Resolution = Resolution(
    headers: Option<seq<string>>,
    delimiter: char,
    rows: seq<seq<string>>,
    separatorError: Option<string>)

  /** The header step of `classify_csv`. `parse(content, d)` is the CSV
      reader over the content's lines with delimiter `d`. */
  function ResolveHeaders(parse: (string, char) -> seq<seq<string>>, content: string): (r: Resolution)
    ensures LayoutOf(FirstRow(parse(content, ','))).Some? ==>
              r == Resolution(FirstRow(parse(content, ',')), ',', parse(content, ','), None)
    ensures r.separatorError.Some? <==>
              LayoutOf(FirstRow(parse(content, ','))).None? && LayoutOf(FirstRow(parse(content, ';'))).Some?
    ensures r.separatorError.Some? ==>
              && r.headers == FirstRow(parse(content, ';')) && r.delimiter == ';'
              && r.separatorError.value == SeparatorMessage(r.headers.value)
    ensures LayoutOf(r.headers).Some? <==>
              LayoutOf(FirstRow(parse(content, ','))).Some? || LayoutOf(FirstRow(parse(content, ';'))).Some?
    ensures LayoutOf(r.headers).Some? ==> r.rows == parse(content, r.delimiter)
  {
    var comma := parse(content, ',');
    if LayoutOf(FirstRow(comma)).Some? then Resolution(FirstRow(comma), ',', comma, None)
    else
      var semicolon := parse(content, ';');
      var found := FirstRow(semicolon);
      if LayoutOf(found).Some? then Resolution(found, ';', semicolon, Some(SeparatorMessage(found.value)))
      else Resolution(FirstRow(comma), ',', semicolon, None)
  }

  function NameSet(names: seq<string>): set<string> {
    set k | 0 <= k < |names| :: names[k]
  }

  /** `len(set(headers) & set(schema))`. */
  function Overlap(headers: seq<string>, layout: Layout): nat {
    |NameSet(headers) * NameSet(Schema(layout))|
  }

  /** The empty header shares nothing with any schema. */
  lemma NoHeadersNoOverlap(layout: Layout)
    ensures Overlap([], layout) == 0
  {
    assert NameSet([]) == {};
  }

  /** The order ties are broken in: contacts, then points, then vouchers. */
  function Rank(layout: Layout): nat {
    match layout
    case Contacts => 0
    case Points => 1
    case Vouchers => 2
  }

  /** The schema with the highest of three scores, the earliest on a tie;
      none when every score is zero. */
  function MostShared(c: nat, p: nat, v: nat): Option<Layout> {
    var most := if c >= p && c >= v then c else if p >= v then p else v;
    if most == 0 then None
    else if c == most then Some(Contacts)
    else if p == most then Some(Points)
    else Some(Vouchers)
  }

  function Score(c: nat, p: nat, v: nat, layout: Layout): nat {
    match layout
    case Contacts => c
    case Points => p
    case Vouchers => v
  }

  lemma MostSharedChoice(c: nat, p: nat, v: nat)
    ensures MostShared(c, p, v).None? <==> forall layout :: Score(c, p, v, layout) == 0
    ensures MostShared(c, p, v).Some? ==>
              forall layout :: Score(c, p, v, layout) <= Score(c, p, v, MostShared(c, p, v).value)
    ensures MostShared(c, p, v).Some? ==>
              forall layout :: Rank(layout) < Rank(MostShared(c, p, v).value) ==>
                Score(c, p, v, layout) < Score(c, p, v, MostShared(c, p, v).value)
  {
    assert Score(c, p, v, Contacts) == c && Score(c, p, v, Points) == p && Score(c, p, v, Vouchers) == v;
  }

  /** `detected_type` in `generate_error_message`: the schema sharing the most
      names with a non-empty header, the earliest on a tie. */
  function ClosestLayout(headers: Option<seq<string>>): Option<Layout> {
    if headers.None? || headers.value == [] then None
    else
      var h := headers.value;
      MostShared(Overlap(h, Contacts), Overlap(h, Points), Overlap(h, Vouchers))
  }

  /** There is no closest schema when the header is missing or empty or
      shares no name with any schema; otherwise the closest one shares the
      most names, and every schema ranked before it shares strictly fewer. */
  lemma ClosestLayoutChoice(headers: Option<seq<string>>)
    ensures ClosestLayout(headers).None? <==>
              headers.None? || headers.value == [] || forall layout :: Overlap(headers.value, layout) == 0
    ensures ClosestLayout(headers).Some? ==>
              forall layout :: Overlap(headers.value, layout) <= Overlap(headers.value, ClosestLayout(headers).value)
    ensures ClosestLayout(headers).Some? ==>
              forall layout :: Rank(layout) < Rank(ClosestLayout(headers).value) ==>
                Overlap(headers.value, layout) < Overlap(headers.value, ClosestLayout(headers).value)
  {
    if headers.Some? && headers.value != [] {
      var h := headers.value;
      var c, p, v := Overlap(h, Contacts), Overlap(h, Points), Overlap(h, Vouchers);
      MostSharedChoice(c, p, v);
      forall layout ensures Overlap(h, layout) == Score(c, p, v, layout) {
        match layout
        case Contacts =>
        case Points =>
        case Vouchers =>
      }
    }
  }

  function LayoutTitle(layout: Layout): string {
    match layout
    case Contacts => "CONTACTS"
    case Points => "POINTS"
    case Vouchers => "VOUCHERS"
  }

  /** The `Found:` part of the message. */
  function HeadersText(headers: Option<seq<string>>): (text: string)
    ensures headers.Some? && headers.value != [] ==> text == Join(", ", headers.value)
  {
    if headers.None? || headers.value == [] then "No headers found or file is empty"
    else Join(", ", headers.value)
  }

  /** The first line of the message: the file, and the kind it resembles. */
  function MessageIntro(filename: string, closest: Option<Layout>): string {
    match closest
    case Some(layout) =>
      "The header in file " + filename + " does not match the expected " + LayoutTitle(layout) + " format:\n"
    case None => "The header in file " + filename + " does not match any of the expected formats:\n"
  }

  /** The lines after `Found:`: the closest schema, or all three. */
  function MessageListing(closest: Option<Layout>): string {
    match closest
    case Some(layout) => "\nExpected:    " + Join(", ", Schema(layout))
    case None =>
      "\nContacts:    " + Join(", ", Schema(Contacts))
        + "\nPoints:      " + Join(", ", Schema(Points))
        + "\nVouchers:    " + Join(", ", Schema(Vouchers))
  }

  const FoundLabel := "\nFound:       "

  /** `generate_error_message(filename, headers, ...)`. */
  function HeaderErrorMessage(filename: string, headers: Option<seq<string>>): string {
    var closest := ClosestLayout(headers);
    MessageIntro(filename, closest) + FoundLabel + HeadersText(headers) + MessageListing(closest)
  }

  /** The message always quotes what was found: the header names joined by
      commas, or the note that there were none. */
  lemma HeaderErrorMessageQuotesHeaders(filename: string, headers: Option<seq<string>>)
    ensures Contains(HeaderErrorMessage(filename, headers), HeadersText(headers))
  {
    var closest := ClosestLayout(headers);
    ContainsInfix(MessageIntro(filename, closest) + FoundLabel, HeadersText(headers), MessageListing(closest));
  }

  /** When a closest schema exists, the message shows it as the expected
      header. */
  lemma HeaderErrorMessageNamesClosest(filename: string, headers: Option<seq<string>>)
    requires ClosestLayout(headers).Some?
    ensures var layout := ClosestLayout(headers).value;
      Contains(HeaderErrorMessage(filename, headers), "\nExpected:    " + Join(", ", Schema(layout)))
  {
    var closest := ClosestLayout(headers);
    var head := MessageIntro(filename, closest) + FoundLabel + HeadersText(headers);
    assert HeaderErrorMessage(filename, headers) == head + MessageListing(closest) + "";
    ContainsInfix(head, MessageListing(closest), "");
  }
}
