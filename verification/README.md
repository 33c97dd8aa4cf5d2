# Loyalty contact migration verifier — a Dafny model of its validation core

The repository is a folder watcher for CSV migration files. Each file dropped into the watched folder is checked and moved to `success/` or `error/`.

A file is one of three layouts: contacts, points or vouchers. `classify_csv` in `watcher.py` does the checking, in this order:

- it rejects oversized files;
- it decodes the text and strips a UTF-8 byte order mark, recording an error when it does;
- it recognises the layout from the exact header row, retrying with semicolons and recording a separator error when that matches;
- it runs the layout's row validator through the shared driver `Validator.validate`;
- it returns a verdict, and when the byte order mark was the only problem it re-validates a cleaned copy (the self-heal).

The same repository holds three older validators that stop at the first failing row. They cover contacts (two versions) and voucher content.

The model is written as pure functions over strings, rows and byte sequences. The wall clock (`now`), the CSV reader, the text codecs and the field helpers that `src/utils/time_utils.py` does not define are all parameters. Every property below is proved for every choice of them.

Modules follow the source files:

- `time_utils.dfy` (`TimeUtils`): the millisecond-timestamp band classifier and the strict past test.
- `core_validator.dfy` (`Validation`): the driver's blank-row filter, its row loop and the base column-count row check.
- `field_rules.dfy` (`FieldRules`): the imported field helpers as function values.
- `points_validator.dfy` (`Points`) and `voucher_validator.dfy` (`Vouchers`): the row validators that report every violated rule.
- `legacy_files.dfy` (`LegacyFiles`): line loading and the first-failure row loop shared by the three older validators.
- `contacts_validator.dfy` (`ContactsLegacy`), `enhanced_contacts_validator.dfy` (`EnhancedContacts`) and `voucher_content_validator.dfy` (`VoucherContent`): the older validators themselves.
- `watcher_names.dfy` (`WatcherNames`), `watcher_user_ids.dfy` (`WatcherUserIds`), `watcher_headers.dfy` (`WatcherHeaders`) and `watcher_intake.dfy` (`WatcherIntake`): the watcher's decision logic.
- `py_text.dfy` (`PyText`) and `wrappers.dfy` (`Wrappers`): the Python string built-ins the code relies on, and `Option`/`Checked`. A Python exception escaping a function is the value `Raised(name)`.

## Model

| member | source | states |
|---|---|---|
| TimeUtils.IsUnixMillisecondTimestamp | src/utils/time_utils.py:3-12 | accepts exactly the integers in [10^9, 2·10^12); non-integers and values ≤ 0 get the "not a positive integer" message, values below 10^9 the seconds message, values from 2·10^12 the future-range message |
| TimeUtils.BandsDisjoint | src/utils/time_utils.py:3-12 | the four outcomes are disjoint: two inputs with the same message get the same verdict and lie in the same magnitude band |
| TimeUtils.RejectionsNeverCarrySecondsMarker | src/utils/time_utils.py:5-12 | no rejection message contains "appears to be in seconds instead of milliseconds", the text the row validators look for |
| TimeUtils.IsPastTimestamp | src/utils/time_utils.py:14-17 | a timestamp is past exactly when it is strictly before `now`; `now` itself is not past |
| Validation.LoadRows | src/core/validator.py:26-34 | the loaded rows are never more than the parsed ones and none of them has all fields empty |
| Validation.LoadRowsKeeps | src/core/validator.py:29-33 | a row survives loading exactly when it was parsed and has a non-empty field |
| Validation.LoadRowsAppend | src/core/validator.py:29-33 | blank-row removal keeps the surviving rows in file order |
| Validation.Validate | src/core/validator.py:76-140 | raises when no row survives (no header) or a row check raises; otherwise the result is valid exactly when there is no detail line, and it has a timestamp row count exactly when it has timestamp detail lines |
| Validation.ValidateMeaning | src/core/validator.py:86-133 | the header row is never checked; the result is valid exactly when every data row is; the detail lines are exactly the reference list: for each invalid data row k, in row order, its "Error: msg -> Row k+2: row" line and nothing else; the timestamp lines are exactly the reference list: for each data row in order, one such line per timestamp error it reported; the count is the number of rows that reported any, and is positive |
| Validation.ScanDoneIffAllChecked | src/core/validator.py:86-91 | the row loop finishes exactly when no row check raises, so invalid rows never stop it |
| Validation.ScanRaisedStays | src/core/validator.py:86-91 | once a row check has raised, later rows do not change the outcome |
| Validation.ScanErrorFlag | src/core/validator.py:100-101 | `has_errors` is set exactly when some row is invalid, which is exactly when a detail line was added |
| Validation.ScanDetails | src/core/validator.py:100-119 | after the first n rows the detail lines equal the reference list: row by row, one "Error: msg -> Row k+2: row" line for each invalid row k and none for a valid one; hence as many lines as invalid rows, each invalid row's line among them |
| Validation.ScanStampRows | src/core/validator.py:93-96 | every kept row is data row k, numbered k+2, with the raw row and the non-empty timestamp error list its check returned; the kept rows are in increasing row order; every row that reported timestamp errors is kept; and there are as many kept rows as such rows |
| Validation.ScanKeptSound | src/core/validator.py:93-96 | every kept row is a data row, with its number, its raw fields and its own non-empty timestamp error list, and the kept rows are in increasing row order |
| Validation.ScanKeptComplete | src/core/validator.py:93-96 | every data row that reported a timestamp error is kept under its number k+2 |
| Validation.ScanStampCount | src/core/validator.py:93-96 | the number of kept rows is the number of data rows that reported a timestamp error |
| Validation.ScanStampLines | src/core/validator.py:126-133 | the timestamp lines equal the reference list: for each data row in row order, one "Error: e -> Row k+2: row" line per timestamp error e, in the order the check reported them; hence one line per (row, timestamp error) pair |
| Validation.ScanStamps | src/core/validator.py:93-133 | the kept-row count and the timestamp lines of the two passes together |
| Validation.StampLinesLength | src/core/validator.py:128-131 | the timestamp lines of two row groups are as many as those of each group added together |
| Validation.StampLinesAppend | src/core/validator.py:128-131 | the timestamp pass over two groups of kept rows writes the first group's lines, then the second's |
| Validation.StampTotalZero | src/core/validator.py:126-127 | there are no timestamp lines exactly when no row reported a timestamp error |
| Validation.NoStampsTotal | src/core/validator.py:93-96 | rows that report no timestamp errors give no timestamp lines |
| Validation.CollectStampLines | src/core/validator.py:128-131 | the nested loop over kept rows and their errors yields exactly the per-error lines, in row order |
| Validation.RunValidation | src/core/validator.py:70-140 | the driver written as the source's loops computes the same result as `Validate` |
| Validation.BaseValidateRow | src/core/validator.py:144-147 | the base row check passes exactly when the row has the expected number of fields; otherwise it names the expected count |
| Validation.BaseValidationChecksWidthOnly | src/core/validator.py:144-147 | with the base row check, a file passes exactly when every data row has the expected width, and no timestamp error is ever reported |
| PyText.ReprString | src/core/validator.py:116 | the `{row}` text of a field is its `repr`: the field between quotes, single quotes unless the field holds a single quote and no double quote |
| PyText.UnescapeEscape | src/core/validator.py:116 | the text between `repr`'s quotes reads back as the original field, whichever quote was chosen: backslash, the chosen quote, tab, newline, carriage return and the other ASCII control characters are escaped and nothing is lost |
| PyText.ReprStringInjective | src/core/validator.py:116 | two fields with the same `repr` are the same field |
| PyText.PlainRepr | src/core/validator.py:116 | a field without quotes, backslashes or control characters is shown as itself between single quotes |
| PyText.DoubleQuotedRepr | src/core/validator.py:116 | a field holding a single quote and no double quote, backslash or control character is shown as itself between double quotes, as `"O'Brien"` |
| Points.ColumnCountIssues | src/points/points_csv_validator.py:16-20 | a width mismatch gives exactly one issue: "too many columns" for longer rows and "too few" for shorter ones |
| Points.IntegerColumnIssues | src/points/points_csv_validator.py:24-36 | a numeric column gives at most one issue and none when empty; the decimal-separator issue takes precedence over "should be an integer" |
| Points.CashbackIssues | src/points/points_csv_validator.py:38-46 | cashback gives at most one issue: none when empty or when it has no decimal separator and parses as a float |
| Points.PositivityIssues | src/points/points_csv_validator.py:48-60 | "at least one positive value" fires exactly when neither points column is a positive digit string and cashback is not a positive float; "negative values" can never fire |
| Points.QuotingIssue | src/points/points_csv_validator.py:62-67 | a free-text column is reported exactly when it is present, non-empty and the quoting helper flags it, with the helper's message |
| Points.FreeTextIssues | src/points/points_csv_validator.py:62-67 | the reason, title and description checks only produce quoting issues |
| Points.AllocatedAtIssues | src/points/points_csv_validator.py:69-70 | allocatedAt is reported exactly when present and non-empty |
| Points.DescriptionIssues | src/points/points_csv_validator.py:72-73 | a description without a title is reported exactly when the description is present and non-empty and the title is empty |
| Points.PlanIssues | src/points/points_csv_validator.py:75-97 | the setPlanExpiration rules add at most one entry, to the general list or the timestamp list |
| Points.PlanIssuesMeaning | src/points/points_csv_validator.py:75-97 | for each setPlanExpiration rule, the exact condition under which its issue is reported (the value is compared case-insensitively) |
| Points.PlanStampsMeaning | src/points/points_csv_validator.py:82-89 | a timestamp-list entry is added exactly when the value is FALSE and the classifier rejects an integer expireAt with a message carrying the seconds marker; the entry is that message |
| Points.NumericIssues | src/points/points_csv_validator.py:16-46 | the width and numeric-column checks only produce width and numeric issues |
| Points.GatedPositivityIssues | src/points/points_csv_validator.py:48-60 | the positivity rules produce only "at least one positive value" |
| Points.Issues | src/points/points_csv_validator.py:14-97 | the general issues of a row; a wrong width is always reported first |
| Points.Check | src/points/points_csv_validator.py:14-99 | a row raises `IndexError` exactly when it has fewer than four fields; a row of the wrong width that does not raise has a width issue as its first general issue |
| Points.CleanRowCharacterisation | src/points/points_csv_validator.py:14-97 | a row draws no general issue and no timestamp entry exactly when it has ten fields; pointsToSpend and statusPoints are empty or digit strings without a decimal separator; cashback is empty or a float without one; one of the three is positive; reason, title and description are empty or need no quoting; allocatedAt is empty; a description comes with a title; and setPlanExpiration is TRUE with an empty expireAt, or FALSE with an integer expireAt the classifier accepts and that is not past |
| Points.FieldGroupsEmpty | src/points/points_csv_validator.py:24-73 | on a ten-field row, the numeric, positivity, quoting, allocatedAt and description checks find nothing exactly when each of their field conditions holds |
| Points.PositivityGroupEmpty | src/points/points_csv_validator.py:48-60 | once the numeric columns pass, the positivity rules find nothing exactly when one of them is positive |
| Points.FreeTextGroupEmpty | src/points/points_csv_validator.py:62-67 | the quoting checks find nothing exactly when reason, title and description are each empty or need no quoting |
| Points.PlanFindsNothing | src/points/points_csv_validator.py:75-97 | the setPlanExpiration rules add nothing to either list exactly when the value is TRUE with an empty expireAt, or FALSE with an integer expireAt the classifier accepts and that is not past |
| Points.GroupsSorted | src/points/points_csv_validator.py:14-97 | each rule group only produces issues of its own kind |
| Points.IssueFromOwnGroup | src/points/points_csv_validator.py:14-97 | an issue is among the row's issues exactly when the one group that can produce it did |
| Points.CountIssueNotLater | src/points/points_csv_validator.py:16-20 | no width issue appears after the width check's own entry |
| Points.CountIssueOnlyFirst | src/points/points_csv_validator.py:16-20 | only the first issue can be about the width, and only when the width is wrong |
| Points.PositiveValueRule | src/points/points_csv_validator.py:48-60 | on the whole row, "at least one positive value" is reported exactly when no earlier issue exists and no column is positive; "negative values" never is |
| Points.AllocatedAtRule | src/points/points_csv_validator.py:69-70 | on the whole row, the allocatedAt issue is present exactly when allocatedAt is non-empty |
| Points.DescriptionRule | src/points/points_csv_validator.py:72-73 | on the whole row, the description issue is present exactly when a description has no title |
| Points.PlanRules | src/points/points_csv_validator.py:75-97 | on the whole row, the setPlanExpiration issues are present exactly under their conditions |
| Points.PointsToSpendRule | src/points/points_csv_validator.py:24-29 | pointsToSpend: no issue when empty, "should be an integer" exactly when non-empty with no separator and not all digits, and the separator issue when the helper finds one |
| Points.TestedPointsToSpendExamples | src/points/points_csv_validator.py:24-29 | with helpers that behave as the repository's tests assert, "123.45" is reported only as a decimal separator and "12345" draws no pointsToSpend issue |
| Points.TimeUtilsClassifierNeverTags | src/points/points_csv_validator.py:82-89 | with the classifier of `src/utils/time_utils.py`, the timestamp list always stays empty |
| Points.ValidateRow | src/points/points_csv_validator.py:99-107 | the row is valid exactly when both lists are empty; otherwise the message is the "; "-join of the general issues, then the timestamp entries, and the timestamp list is returned |
| Vouchers.ColumnCountIssues | src/vouchers/voucher_csv_validator.py:19-23 | a width mismatch gives exactly one issue, distinguishing too many from too few |
| Vouchers.IdentifierIssues | src/vouchers/voucher_csv_validator.py:25-26 | reported exactly when both userId and externalId are present and empty |
| Vouchers.VoucherTypeIssues | src/vouchers/voucher_csv_validator.py:27-28 | reported exactly when voucherType is present and is neither "one_time" nor "yearly" |
| Vouchers.NameIssues | src/vouchers/voucher_csv_validator.py:29-34 | at most one issue: "empty" exactly when voucherName is empty, and the quoting issue only for a non-empty name the helper flags |
| Vouchers.RequiredIssues | src/vouchers/voucher_csv_validator.py:35-38 | iconName and code are each reported exactly when present and empty |
| Vouchers.ExpirationFindings | src/vouchers/voucher_csv_validator.py:39-59 | a row without an expiration field gives nothing; at most one general expiration issue |
| Vouchers.Check | src/vouchers/voucher_csv_validator.py:16-65 | a wrong width is reported first; the timestamp list is the expiration pipeline's |
| Vouchers.GroupsSorted | src/vouchers/voucher_csv_validator.py:16-59 | each rule group only produces issues of its own kind |
| Vouchers.IssueFromOwnGroup | src/vouchers/voucher_csv_validator.py:16-59 | an issue is among the row's issues exactly when the one group that can produce it did |
| Vouchers.ExpirationRules | src/vouchers/voucher_csv_validator.py:39-59 | a decimal separator goes only to the timestamp list and no parse is tried; "not an integer", "past" and other classifier rejections are reported exactly under their conditions |
| Vouchers.SecondsRejectionReportedTwice | src/vouchers/voucher_csv_validator.py:48-65 | a classifier rejection carrying the seconds marker ends up twice in the returned timestamp list and nowhere in the general list |
| Vouchers.IdentifierAndTypeRules | src/vouchers/voucher_csv_validator.py:25-28 | on the whole row, the id-pair and voucherType issues are present exactly under their conditions |
| Vouchers.NameRules | src/vouchers/voucher_csv_validator.py:29-34 | on the whole row, "empty name" and the name-quoting issue are present exactly under their conditions and never together |
| Vouchers.RequiredRules | src/vouchers/voucher_csv_validator.py:35-38 | on the whole row, the iconName and code issues are present exactly when those fields are empty |
| Vouchers.CountIssueNotLater | src/vouchers/voucher_csv_validator.py:19-23 | no width issue appears after the width check's own entry |
| Vouchers.CountIssueOnlyFirst | src/vouchers/voucher_csv_validator.py:19-23 | only the first general issue can be about the width, and only when the width is wrong |
| Vouchers.CleanRowCharacterisation | src/vouchers/voucher_csv_validator.py:16-70 | a row has no finding at all exactly when it has seven fields and an id, a known type, a non-empty name needing no quoting, an icon, a code, and an expiration with no separator that parses, is classified valid and is not past |
| Vouchers.TimeUtilsExpirationStamps | src/vouchers/voucher_csv_validator.py:39-53 | with the classifier of `src/utils/time_utils.py`, the expiration pipeline's timestamp list holds only the decimal-separator entry |
| Vouchers.TimeUtilsTagsOnlyDecimals | src/vouchers/voucher_csv_validator.py:39-65 | with the classifier of `src/utils/time_utils.py`, a row's timestamp list is non-empty only for an expiration with a decimal separator, and then holds just that entry |
| Vouchers.ValidateRow | src/vouchers/voucher_csv_validator.py:61-70 | the row is valid exactly when there are no findings; otherwise the message joins the general issues, then the timestamp entries, with "; " |
| LegacyFiles.DropSigBom | src/contacts/contacts_csv_validator.py:12 | opening as `utf-8-sig` drops a byte order mark at the very start of the file and changes nothing else |
| LegacyFiles.NonBlankLines | src/contacts/contacts_csv_validator.py:13 | no kept line is blank after stripping |
| LegacyFiles.NonBlankLinesKeeps | src/contacts/contacts_csv_validator.py:13 | a line is kept exactly when it was read and is not blank |
| LegacyFiles.FieldsOf | src/contacts/contacts_csv_validator.py:26 | `strip().split(",")` gives at least one field, none containing a comma, and joining the fields with commas gives back the stripped line |
| LegacyFiles.CheckLinesAllPass | src/contacts/contacts_csv_validator.py:25-31 | the row loop passes exactly when every row passes at its line number |
| LegacyFiles.CheckLinesFirstFailure | src/contacts/contacts_csv_validator.py:25-29 | otherwise the loop's result is that of the first row that does not pass, and every earlier row passed |
| LegacyFiles.RowsAfterHeaderPass | src/contacts/contacts_csv_validator.py:25-31 | over the lines after the header, numbered from 2: passing exactly when every line k passes as line k+1 |
| LegacyFiles.RowsAfterHeaderFirstFailure | src/contacts/contacts_csv_validator.py:25-29 | over the lines after the header: the result is that of the first failing line k, numbered k+1 |
| ContactsLegacy.FirstFailure | src/contacts/contacts_csv_validator.py:33-54 | no failure exactly when shouldJoin is "TRUE", joinDate is an integer before `now`, both tier dates are empty and shouldReward is "TRUE" or "FALSE"; only a row with fewer than seven fields can raise `IndexError` |
| ContactsLegacy.FailureOrder | src/contacts/contacts_csv_validator.py:33-54 | a reported failure means every rule before it passed |
| ContactsLegacy.IgnoresUserIdAndTierName | src/contacts/contacts_csv_validator.py:33-54 | userId and tierName never affect the outcome |
| ContactsLegacy.ValidateRow | src/contacts/contacts_csv_validator.py:33-54 | a row is valid exactly when every rule holds; a failure's message names the line number and the raw line |
| ContactsLegacy.Validate | src/contacts/contacts_csv_validator.py:16-31 | an empty file raises `IndexError`; a header that is not exactly the seven columns fails with the column-order message |
| ContactsLegacy.PassesIffAcceptable | src/contacts/contacts_csv_validator.py:25-29 | one loop step passes exactly when every rule holds for the line's fields |
| ContactsLegacy.LinesPassIffAcceptable | src/contacts/contacts_csv_validator.py:25-29 | every line after the header passes exactly when every rule holds for it |
| ContactsLegacy.ValidateAcceptsExactly | src/contacts/contacts_csv_validator.py:16-31 | a file passes exactly when it has a non-blank line, the exact header and only acceptable data rows |
| ContactsLegacy.RowsFirstFailure | src/contacts/contacts_csv_validator.py:25-29 | when the loop does not pass, its result is the first unacceptable line's, numbered from 2 |
| ContactsLegacy.ValidateReportsFirstFailure | src/contacts/contacts_csv_validator.py:24-29 | a failing file with a good header reports the first unacceptable data row, with its line number |
| EnhancedContacts.ValidateRow | contact/enhanced_contacts_csv_validator.py:33-54 | the same four rules in the same order, returning the rule's bare message |
| EnhancedContacts.AgreesWithLegacy | contact/enhanced_contacts_csv_validator.py:33-54 | row for row it raises, accepts and rejects exactly when the other contacts validator does |
| EnhancedContacts.AcceptsExactly | contact/enhanced_contacts_csv_validator.py:33-54 | a row is accepted exactly when every contact rule holds |
| EnhancedContacts.JoinDateNowRejected | contact/enhanced_contacts_csv_validator.py:39-59 | a joinDate equal to `now` is rejected as not in the past |
| EnhancedContacts.CheckRow | contact/enhanced_contacts_csv_validator.py:25-29 | a failing row's message is "Incorrect data in row: <row>. <message>", with no row number |
| EnhancedContacts.Validate | contact/enhanced_contacts_csv_validator.py:16-31 | an empty file raises; a header that is not exactly the seven columns fails with the column-order message |
| EnhancedContacts.LinesPassIffAcceptable | contact/enhanced_contacts_csv_validator.py:25-29 | every line after the header passes exactly when every contact rule holds for it |
| EnhancedContacts.ValidateAcceptsExactly | contact/enhanced_contacts_csv_validator.py:10-31 | a file passes exactly when its first non-blank line is the exact header and every later non-blank line is acceptable |
| EnhancedContacts.SameVerdictAsLegacy | contact/enhanced_contacts_csv_validator.py:10-31 | on a file without a leading byte order mark, both contacts validators pass or fail together |
| VoucherContent.NameSetsMeaning | src/vouchers/voucher_csv_validator_content.py:20 | comparing the name sets without the ids means every other header name is expected and every other expected name is present |
| VoucherContent.HeaderCheck | src/vouchers/voucher_csv_validator_content.py:17-21 | accepted exactly when both ids are present and the header names exactly the expected columns as a set; the missing-id problem exactly when an id is absent |
| VoucherContent.HeaderIgnoresOrder | src/vouchers/voucher_csv_validator_content.py:20-21 | two headers with the same names get the same verdict, whatever the order or repetition |
| VoucherContent.FirstFailure | src/vouchers/voucher_csv_validator_content.py:29-44 | no failure exactly when voucherType is known, name, icon and code are non-empty and expiration is an integer not before `now`; only a row with fewer than seven fields can raise `IndexError` |
| VoucherContent.IgnoresIds | src/vouchers/voucher_csv_validator_content.py:29-44 | the userId and externalId values never affect the outcome |
| VoucherContent.ExpirationNowAccepted | src/vouchers/voucher_csv_validator_content.py:38-48 | an expiration equal to `now` is accepted |
| VoucherContent.CheckRow | src/vouchers/voucher_csv_validator_content.py:22-26 | a failing row's message is "Line <index>: <rule message>. Line content: <row>" |
| VoucherContent.Validate | src/vouchers/voucher_csv_validator_content.py:15-27 | an empty file raises; a missing id or wrong column set fails with its Line 1 message quoting the header line |
| VoucherContent.PassesIffAcceptable | src/vouchers/voucher_csv_validator_content.py:22-26 | one loop step passes exactly when every row rule holds for the line's fields |
| VoucherContent.LinesPassIffAcceptable | src/vouchers/voucher_csv_validator_content.py:22-26 | every line after the header passes exactly when every row rule holds for it |
| VoucherContent.ValidateAcceptsExactly | src/vouchers/voucher_csv_validator_content.py:15-27 | a file passes exactly when its header is accepted and every data row is acceptable |
| VoucherContent.RowsFirstFailure | src/vouchers/voucher_csv_validator_content.py:22-26 | when the loop does not pass, its result is the first unacceptable line's, numbered from 2 |
| VoucherContent.ValidateReportsFirstFailure | src/vouchers/voucher_csv_validator_content.py:22-26 | a failing file with an accepted header reports the first unacceptable data row as its "Line k" |
| WatcherNames.SplitExt | watcher.py:71 | `os.path.splitext` on a base name: stem plus extension is the name; the extension starts at the last dot and holds no other dot; leading dots alone start no extension |
| WatcherNames.CandidateInjective | watcher.py:73-75 | different counters give different candidate names |
| WatcherNames.FirstFree | watcher.py:72-76 | the name-search loop ends on a candidate not in the directory, and every earlier candidate was taken |
| WatcherNames.UniqueEditedName | watcher.py:70-77 | the result is absent from the directory and is the first free one of "<base>_edited<ext>", then "<base>_edited_1<ext>", "<base>_edited_2<ext>", … |
| WatcherNames.UniqueLogName | watcher.py:334-344 | the result is absent from the directory and is the first free one of "<base>.txt", then "<base>_1.txt", … |
| WatcherUserIds.CheckUserId | watcher.py:92-103 | None, "NULL" and "null" are recorded as null lines and return False; any other id, "" included, is recorded under its line and returns True; nothing else changes |
| WatcherUserIds.LogUserIdErrors | watcher.py:105-115 | the null-line errors come first, then the duplicate errors |
| WatcherUserIds.NullErrors | watcher.py:106-109 | one null error per recorded null line, in order |
| WatcherUserIds.DuplicateErrors | watcher.py:111-115 | one duplicate error per line of a shared id |
| WatcherUserIds.AllDuplicateErrors | watcher.py:111-115 | the loop over recorded ids yields only duplicate errors |
| WatcherUserIds.LogMembership | watcher.py:105-115 | on a consistent registry, the log names exactly the null lines and every line of every id recorded on two or more lines |
| WatcherUserIds.ScanWellformed | watcher.py:422-423 | scanning the data rows keeps the registry consistent |
| WatcherUserIds.ScanNulls | watcher.py:92-97 | the null list holds exactly the rows, numbered from 2, whose userId is null |
| WatcherUserIds.ScanSound | watcher.py:99-103 | every line recorded for an id holds that non-null id, in increasing order |
| WatcherUserIds.ScanComplete | watcher.py:99-103 | every row holding a non-null id is recorded under it |
| WatcherUserIds.NullsReportedExactly | watcher.py:92-109 | a line is reported as a null userId exactly when its userId is null |
| WatcherUserIds.DuplicateReportSound | watcher.py:99-115 | a reported duplicate line holds the id, and another line holds it too |
| WatcherUserIds.DuplicateReportComplete | watcher.py:99-115 | every line whose non-null id is on another line as well is reported, the first occurrence included |
| WatcherUserIds.DuplicatesReportedExactly | watcher.py:92-115 | a line is reported as a duplicate exactly when its non-null id appears on some other line |
| WatcherUserIds.UserIds | watcher.py:422-423 | the userId scan yields at most one id per parsed row, and never a missing one |
| WatcherUserIds.UserIdRows | watcher.py:422-423 | the scanned ids are the first fields of the non-empty parsed rows, one per such row and in file order: the k-th id comes from the k-th non-empty row, and every non-empty row gives one |
| WatcherUserIds.ParsedNullsReported | watcher.py:92-109 | over the parsed rows, line n is reported as a null userId exactly when the non-empty row the scan numbered n starts with "NULL" or "null" |
| WatcherUserIds.ParsedDuplicatesReported | watcher.py:92-115 | over the parsed rows, line n is reported as a duplicate of id exactly when id is not "NULL" or "null", the row numbered n starts with id, and so does another numbered row |
| WatcherHeaders.Schema | watcher.py:388-390 | each of the three accepted headers is non-empty and starts with userId |
| WatcherHeaders.LayoutOfMatchesSchema | watcher.py:416-441 | a header is recognised as a layout exactly when it equals that layout's column list, in order |
| WatcherHeaders.FirstRow | watcher.py:393-394 | the field names are the first parsed row, and there are none for an empty file |
| WatcherHeaders.ResolveHeaders | watcher.py:392-412 | a comma header that matches is kept as is; the semicolon retry only runs otherwise; a separator error is raised exactly when the comma header fails and the semicolon header matches, and then the semicolon header and delimiter are used |
| WatcherHeaders.NoHeadersNoOverlap | watcher.py:539-548 | an empty header shares no name with any schema |
| WatcherHeaders.MostSharedChoice | watcher.py:547-554 | no choice exactly when every score is zero; otherwise the chosen schema has the top score and every schema ranked before it scores strictly less |
| WatcherHeaders.ClosestLayoutChoice | watcher.py:541-554 | no closest schema exactly when the header is missing, empty or shares nothing; otherwise the chosen one shares the most names, ties going to contacts, then points, then vouchers |
| WatcherHeaders.HeadersText | watcher.py:539 | a non-empty header is shown as its names joined by ", " |
| WatcherHeaders.HeaderErrorMessageQuotesHeaders | watcher.py:556-573 | the message always quotes what was found |
| WatcherHeaders.HeaderErrorMessageNamesClosest | watcher.py:556-567 | when a closest schema exists, the message lists it as the expected header |
| WatcherIntake.SizeModeOf | watcher.py:300-323 | oversized above 500 MiB, large above 100 MiB, medium above 10 MiB, normal otherwise, each bound strict |
| WatcherIntake.SizeModeMonotone | watcher.py:306-323 | a larger file never gets a lighter mode |
| WatcherIntake.BomMessageCarriesMarker | watcher.py:88 | the byte order mark's message contains "Byte Order Mark (BOM)" |
| WatcherIntake.CheckForBom | watcher.py:79-90 | nothing is found exactly when the file does not start with EF BB BF; otherwise the cleaned text is the decoding of exactly the bytes after the mark, and a decoding failure escapes |
| WatcherIntake.CleanedIsRemainingBytes | watcher.py:83-88 | with a codec that round-trips, the cleaned text encodes back to exactly the bytes after the mark |
| WatcherIntake.Read | watcher.py:360-384 | with a mark, the worked text is the cleaned text; without one, it is the UTF-8 text, or the ISO-8859-1 text when UTF-8 fails |
| WatcherIntake.SeparatorErrors | watcher.py:403-408 | one list entry exactly when the semicolon retry matched |
| WatcherIntake.HeaderErrors | watcher.py:374-408 | the list before validation holds the mark's error first, when there was a mark, then the separator error |
| WatcherIntake.RunValidator | src/core/validator.py:26-33 | with a mark, the validator reads the cleaned text through the line reader (`csv.reader` over `splitlines()`); without one, it re-opens the file, raises when the bytes are not UTF-8, and reads the text through the file reader |
| WatcherIntake.ReportFromValidator | watcher.py:452-466 | a report in the classification is the validator's result |
| WatcherIntake.UnknownHeaderClassified | watcher.py:441-446 | an unrecognised header adds the closest-schema message to the errors and runs no validator |
| WatcherIntake.KnownHeaderClassified | watcher.py:429-440 | a Points or Vouchers header runs that layout's validator with the resolved delimiter |
| WatcherIntake.ClassifyReadingShape | watcher.py:370-446 | a classification keeps the mark flag and text, records the recognised layout (never Contacts), lists the mark's error first and one entry per separator error or unknown header, and has a report exactly when a layout was recognised |
| WatcherIntake.Classify | watcher.py:346-446 | an oversized file is rejected before it is read; otherwise the classification is that of the file's reading |
| WatcherIntake.ContactsFilesRaise | watcher.py:416-426 | a file with exactly the Contacts header never gets a verdict: building its validator raises `TypeError` |
| WatcherIntake.TotalErrors | watcher.py:480-491 | the total is the list entries plus, when a validator ran, its timestamp lines and row detail lines |
| WatcherIntake.FailedIffErrors | watcher.py:470 | a classified file takes the failure branch exactly when its total error count is positive |
| WatcherIntake.OnlyBomImpliesWritten | watcher.py:490-492 | whenever the mark is the only error, the source's substring test selects the file too |
| WatcherIntake.Decide | watcher.py:470-536 | an oversized file fails without a heal; a classified file passes exactly when it did not take the failure branch |
| WatcherIntake.Run | watcher.py:346-536 | corrected self-heal (has_bom test, see ## Findings): a heal only happens for a file that starts with the mark, and a file that passes was not healed |
| WatcherIntake.RunAsWritten | watcher.py:470-512 | the source's recursion with the substring test, cut off after fuel copies: a settled run passes exactly when the file was classified without errors, and a passing file was not healed; a heal is reported, or the cut-off reached with fuel left, only for a failed file that the substring test selects |
| WatcherIntake.PassedIsAcceptable | watcher.py:346-536 | a file that passes is within the size limit, valid UTF-8 without a mark, has exactly the Points or Vouchers header with commas, and the report on the rows the file reader reads is valid with no timestamp lines |
| WatcherIntake.AcceptablePasses | watcher.py:346-536 | every such file passes |
| WatcherIntake.PassesExactly | watcher.py:346-536 | a file passes exactly when it is acceptable to the validators in use |
| WatcherIntake.PassesWithSourceValidators | watcher.py:429-440 | with the Points and Vouchers row validators in place, a file passes exactly when it is acceptable to them |
| WatcherIntake.CopyRead | watcher.py:494-507 | the cleaned copy of a marked file reads back, without a mark, as the same text |
| WatcherIntake.CopyClassified | watcher.py:494-507 | when both readers read the cleaned text alike, the copy of a marked file with a recognised header is classified the same way, except that the mark's error is gone |
| WatcherIntake.HealedCopyPasses | watcher.py:494-512 | when the mark is the only error and both readers read the cleaned text alike, the copy passes and the original is reported as failed with a passing copy |
| WatcherIntake.MarkerFileErrors | watcher.py:441-445 | a one-cell ASCII file quoting the marker text has exactly one error, the unknown-header message |
| WatcherIntake.MarkerFileClassified | watcher.py:490-492 | such a file has no mark, yet the source's substring test selects it for the self-heal while the intended test does not |
| WatcherIntake.MarkerFileCopiesItself | watcher.py:494-507 | under any name, such a file is selected and its copy has the same bytes |
| WatcherIntake.AsWrittenHealStep | watcher.py:494-507 | as written, a self-copying file is cut off exactly when its copy is |
| WatcherIntake.AsWrittenCopyStep | watcher.py:494-507 | as written, a self-copying file is cut off whenever its copy is |
| WatcherIntake.AsWrittenNeverSettles | watcher.py:490-507 | as written, such a file is healed into an identical copy again and again: no bound on the number of copies ends the recursion |
| WatcherIntake.MarkerFileFailsOnce | watcher.py:470-494 | with the intended test, the same file fails once and is not copied |

## Left out

- Console output, colours, banners and the progress/ETA printing are left out. `count_file_rows` and the large-file flags only change printing, and the streaming and normal branches of `validate` add the same detail lines.
- The polling loop, the stability wait, the timers, `KeyboardInterrupt`, `os.rename`, the removal of `_temp_corrected.csv`, the error logger and `write_summary_log` are left out. They are process control and file I/O. Only the total-error formula the summary and the self-heal share is modelled.
- The `csv` reader, UTF-8 and ISO-8859-1 decoding, and UTF-8 encoding are parameters of the watcher model, not implementations. Only a plain ASCII reader and codec are given, to exhibit the finding.
- `_has_decimal_separators`, `_needs_csv_quoting`, `float()` and the pair-returning `_is_past_timestamp` are parameters. The row validators import them, but no source file that is part of this model defines them, and `src/utils/time_utils.py` returns a bare bool from `_is_past_timestamp`.
- The digit-band timestamp classifier and the FROM_DATE/TILL_DATE constants that `tests/test_time_utils.py` asserts are not part of this model. They describe code other than `src/utils/time_utils.py` and contradict it.
- Python's `int()` is modelled as an optional sign followed by ASCII digits, without surrounding whitespace or underscores. `str.isdigit` is modelled as non-empty ASCII digits, and `.lower()` and `strip()` as their ASCII versions.
- The semicolon retry's `except Exception` is left out: the reader parameter is total, so it never raises.
- The contacts user-id scan is modelled on its own, in `WatcherUserIds`. Inside `classify_csv` its errors never reach a verdict, because the four-argument `ContactsValidator(...)` call that follows raises `TypeError`.
- The main loop's success/error routing is not a separate function. It follows `classify_csv`'s result, which `WatcherIntake.Run` models.
- WatcherIntake.RunAsWritten: the recursion of the self-heal as written has no decreasing measure, so it takes a `fuel` bound on the number of copies. `Done(None)` stands for "still copying when the bound is reached". The real run ends when the file system refuses the ever longer name or Python's recursion limit is hit, and neither limit is modelled.
- WatcherIntake.Run: the cleaned copy is modelled as the bytes after the mark, which is what writing the cleaned text back as UTF-8 produces (`CleanedIsRemainingBytes`). Its name is "<base>_edited<ext>" without a uniqueness check, as in the source.
- PyText.ReprString: characters from U+0080 up are written unchanged. Python also escapes the non-printable ones among them (for example U+00A0 and U+2028), which would need Unicode's printable-character table.
- WatcherIntake.CopyClassified: holds on the hypothesis that the line reader (`csv.reader` over `splitlines()`) and the file reader read the cleaned text alike. A quoted field spanning lines, or a line break that `splitlines()` splits on but the file reader does not, can make them differ, and the copy then sees other rows.
- WatcherIntake.HealedCopyPasses: holds on the same hypothesis that both readers read the cleaned text alike.
- The scripts `validator.py` and `vouchers/voucher_validator.py`, the test generators and the meta-tests on source text are not part of this model.

## Findings

| source | as written | input that shows it | evidently intended | confidence | as-written member | corrected member |
|---|---|---|---|---|---|---|
| watcher.py:490-492 | The self-heal runs when some error text contains "Byte Order Mark (BOM)" and the total error count is 1. The unknown-header message quotes the header it found. | A file without a byte order mark whose only line is `Byte Order Mark (BOM)`. Its one error is the unknown-header message, which contains the marker text, so the file is copied unchanged to "<base>_edited<ext>". The copy is classified the same way and copied again. | Self-heal only when the file really started with the mark (`has_bom`) and that is its only error. The copy then holds the bytes after the mark and passes whenever the original had no other problem. | high (not executed) | WatcherIntake.RunAsWritten (exhibited by WatcherIntake.AsWrittenNeverSettles) | WatcherIntake.Run (proved by WatcherIntake.HealedCopyPasses and WatcherIntake.MarkerFileFailsOnce) |
