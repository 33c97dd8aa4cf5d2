/** The duplicate and null userId scan `watcher.py` runs over a Contacts file
    before validating it (`check_user_id`, `log_user_id_errors`). Each data
    row's userId is recorded with the row's number, counting the header as
    row 1; ids seen on more than one row and null ids are then reported. */
module WatcherUserIds {
  import opened Wrappers
  import opened PyText

  /** The two dictionaries `check_user_id` fills: the ids in first-seen order
      (a dict keeps insertion order), each id's row numbers, and the row
      numbers of null ids. */
  datatype Registry = Registry(order: seq<string>, lines: map<string, seq<nat>>, nulls: seq<nat>)

  const EmptyRegistry := Registry([], map[], [])

  /** Python `None`, "NULL" and "null" count as a missing userId. */
  predicate IsNullId(userId: Option<string>) {
    userId == None || userId == Some("NULL") || userId == Some("null")
  }

  /** `order` lists each recorded id once, and exactly the recorded ids. */
  predicate Wellformed(reg: Registry) {
    && (forall i, j :: 0 <= i < j < |reg.order| ==> reg.order[i] != reg.order[j])
    && (forall id :: id in reg.lines ==> id in reg.order)
    && (forall i :: 0 <= i < |reg.order| ==> reg.order[i] in reg.lines)
  }

  /** `check_user_id(row, user_id_lines, null_user_id_lines, line_number)`:
      the new registry and the returned flag. */
  function CheckUserId(reg: Registry, userId: Option<string>, line: nat): (r: (Registry, bool))
    ensures r.1 <==> !IsNullId(userId)
    ensures !r.1 ==> r.0 == reg.(nulls := reg.nulls + [line])
    ensures r.1 ==> r.0.nulls == reg.nulls && userId.value in r.0.lines
    ensures r.1 ==> r.0.lines[userId.value]
                      == (if userId.value in reg.lines then reg.lines[userId.value] else []) + [line]
    ensures r.1 ==> forall id :: id != userId.value ==>
                      (id in r.0.lines <==> id in reg.lines) && (id in reg.lines ==> r.0.lines[id] == reg.lines[id])
    ensures Wellformed(reg) ==> Wellformed(r.0)
  {
    if IsNullId(userId) then (reg.(nulls := reg.nulls + [line]), false)
    else
      var id := userId.value;
      if id in reg.lines then (reg.(lines := reg.lines[id := reg.lines[id] + [line]]), true)
      else (Registry(reg.order + [id], reg.lines[id := [line]], reg.nulls), true)
  }

  /** The scan loop over the data rows' userIds; the first data row is row 2. */
  function Scan(ids: seq<Option<string>>): Registry
    decreases |ids|
  {
    if |ids| == 0 then EmptyRegistry
    else CheckUserId(Scan(ids[..|ids| - 1]), ids[|ids| - 1], |ids| + 1).0
  }

  predicate Increasing(s: seq<nat>) {
    forall i, j :: 0 <= i < j < |s| ==> s[i] < s[j]
  }

  /** Row `line` exists and holds `userId`. */
  predicate RowHolds(ids: seq<Option<string>>, line: nat, userId: Option<string>) {
    2 <= line < |ids| + 2 && ids[line - 2] == userId
  }

  /** The scan keeps the registry well formed. */
  lemma {:induction false} ScanWellformed(ids: seq<Option<string>>)
    ensures Wellformed(Scan(ids))
    decreases |ids|
  {
    if |ids| > 0 {
      ScanWellformed(ids[..|ids| - 1]);
    }
  }

  /** The null list holds exactly the rows whose userId is null. */
  lemma {:induction false} ScanNulls(ids: seq<Option<string>>, line: nat)
    ensures line in Scan(ids).nulls <==> 2 <= line < |ids| + 2 && IsNullId(ids[line - 2])
    decreases |ids|
  {
    if |ids| > 0 {
      var n := |ids|;
      var prefix := ids[..n - 1];
      ScanNulls(prefix, line);
      if 2 <= line < n + 1 {
        assert ids[line - 2] == prefix[line - 2];
      }
    }
  }

  /** Every row recorded for an id holds that non-null id, and an id's rows
      are recorded in increasing order. */
  lemma {:induction false} ScanSound(ids: seq<Option<string>>, id: string)
    requires id in Scan(ids).lines
    ensures !IsNullId(Some(id))
    ensures Increasing(Scan(ids).lines[id])
    ensures forall line: nat :: line in Scan(ids).lines[id] ==> RowHolds(ids, line, Some(id))
    decreases |ids|
  {
    var n := |ids|;
    var prefix := ids[..n - 1];
    var before := Scan(prefix);
    var after := Scan(ids);
    assert after == CheckUserId(before, ids[n - 1], n + 1).0;
    if id in before.lines {
      ScanSound(prefix, id);
      var earlier := before.lines[id];
      forall line: nat | line in earlier ensures RowHolds(ids, line, Some(id)) && line < n + 1 {
        assert RowHolds(prefix, line, Some(id));
        assert ids[line - 2] == prefix[line - 2];
      }
      if ids[n - 1] == Some(id) {
        var grown := earlier + [n + 1];
        assert after.lines[id] == grown;
        forall i, j | 0 <= i < j < |grown| ensures grown[i] < grown[j] {
          if j == |earlier| {
            assert grown[i] == earlier[i] && earlier[i] in earlier;
          }
        }
      }
    }
  }

  /** Every row holding a non-null id is recorded for it. */
  lemma {:induction false} ScanComplete(ids: seq<Option<string>>, id: string, line: nat)
    requires RowHolds(ids, line, Some(id)) && !IsNullId(Some(id))
    ensures id in Scan(ids).lines && line in Scan(ids).lines[id]
    decreases |ids|
  {
    var n := |ids|;
    var prefix := ids[..n - 1];
    var before := Scan(prefix);
    var after := Scan(ids);
    assert after == CheckUserId(before, ids[n - 1], n + 1).0;
    if line < n + 1 {
      assert prefix[line - 2] == ids[line - 2];
      ScanComplete(prefix, id, line);
    }
  }

  /** One reported problem, with its line text. */
  datatype IdError = NullId(line: nat) | DuplicateId(line: nat, id: string)
  {
    function Text(): string {
      match this
      case NullId(line) => "Line " + NatToString(line) + ": Contact has a NULL or 'NULL' userId"
      case DuplicateId(line, id) => "Line " + NatToString(line) + ": Duplicate userId found: " + id
    }
  }

  function NullErrors(nulls: seq<nat>): (r: seq<IdError>)
    ensures |r| == |nulls|
    ensures forall k :: 0 <= k < |r| ==> r[k] == NullId(nulls[k])
  {
    seq(|nulls|, k requires 0 <= k < |nulls| => NullId(nulls[k]))
  }

  function DuplicateErrors(lines: seq<nat>, id: string): (r: seq<IdError>)
    ensures |r| == |lines|
    ensures forall k :: 0 <= k < |r| ==> r[k] == DuplicateId(lines[k], id)
  {
    seq(|lines|, k requires 0 <= k < |lines| => DuplicateId(lines[k], id))
  }

  /** The loop over `user_id_lines.items()`: every row of every id that has
      more than one row, id by id in first-seen order. */
  function AllDuplicateErrors(order: seq<string>, lines: map<string, seq<nat>>): (r: seq<IdError>)
    ensures forall k :: 0 <= k < |r| ==> r[k].DuplicateId?
    decreases |order|
  {
    if |order| == 0 then []
    else
      var id := order[0];
      (if id in lines && |lines[id]| > 1 then DuplicateErrors(lines[id], id) else [])
        + AllDuplicateErrors(order[1..], lines)
  }

  lemma {:induction false} AllDuplicateErrorsMembership(order: seq<string>, lines: map<string, seq<nat>>, line: nat, id: string)
    ensures DuplicateId(line, id) in AllDuplicateErrors(order, lines) <==>
              id in order && id in lines && |lines[id]| > 1 && line in lines[id]
    decreases |order|
  {
    if |order| > 0 {
      AllDuplicateErrorsMembership(order[1..], lines, line, id);
      var head := if order[0] in lines && |lines[order[0]]| > 1 then DuplicateErrors(lines[order[0]], order[0]) else [];
      assert AllDuplicateErrors(order, lines) == head + AllDuplicateErrors(order[1..], lines);
      assert order == [order[0]] + order[1..];
      if DuplicateId(line, id) in head {
        var k :| 0 <= k < |head| && head[k] == DuplicateId(line, id);
      }
      if id == order[0] && id in lines && |lines[id]| > 1 && line in lines[id] {
        var k :| 0 <= k < |lines[id]| && lines[id][k] == line;
        assert head[k] == DuplicateId(line, id);
      }
    }
  }

  /** `log_user_id_errors`: the null rows first, then the duplicates. */
  function LogUserIdErrors(reg: Registry): (r: seq<IdError>)
    ensures forall k :: 0 <= k < |r| ==> (r[k].NullId? <==> k < |reg.nulls|)
  {
    NullErrors(reg.nulls) + AllDuplicateErrors(reg.order, reg.lines)
  }

  /** On a well-formed registry the log names exactly the null rows and the
      rows of every id recorded more than once. */
  lemma LogMembership(reg: Registry, line: nat, id: string)
    requires Wellformed(reg)
    ensures NullId(line) in LogUserIdErrors(reg) <==> line in reg.nulls
    ensures DuplicateId(line, id) in LogUserIdErrors(reg) <==>
              id in reg.lines && |reg.lines[id]| > 1 && line in reg.lines[id]
  {
    AllDuplicateErrorsMembership(reg.order, reg.lines, line, id);
    var nulls := NullErrors(reg.nulls);
    var dups := AllDuplicateErrors(reg.order, reg.lines);
    assert LogUserIdErrors(reg) == nulls + dups;
    assert NullId(line) !in dups;
    assert DuplicateId(line, id) !in nulls;
    if NullId(line) in nulls {
      var k :| 0 <= k < |nulls| && nulls[k] == NullId(line);
    }
    if line in reg.nulls {
      var k :| 0 <= k < |reg.nulls| && reg.nulls[k] == line;
      assert nulls[k] == NullId(line);
    }
  }

  /** Two different rows hold the same id. */
  predicate SharedId(ids: seq<Option<string>>, line: nat, id: string) {
    exists other :: 2 <= other < |ids| + 2 && other != line && RowHolds(ids, other, Some(id))
  }

  /** End to end: a row is reported as a null id exactly when its userId is
      null. */
  lemma NullsReportedExactly(ids: seq<Option<string>>, line: nat)
    ensures NullId(line) in LogUserIdErrors(Scan(ids)) <==> 2 <= line < |ids| + 2 && IsNullId(ids[line - 2])
  {
    ScanWellformed(ids);
    ScanNulls(ids, line);
    LogMembership(Scan(ids), line, "");
  }

  /** A reported duplicate row holds its id, and so does another row. */
  lemma DuplicateReportSound(ids: seq<Option<string>>, line: nat, id: string)
    requires DuplicateId(line, id) in LogUserIdErrors(Scan(ids))
    ensures !IsNullId(Some(id)) && RowHolds(ids, line, Some(id)) && SharedId(ids, line, id)
  {
    var reg := Scan(ids);
    ScanWellformed(ids);
    LogMembership(reg, line, id);
    ScanSound(ids, id);
    var recorded := reg.lines[id];
    var other := if recorded[0] == line then recorded[1] else recorded[0];
    assert other != line;
    assert other in recorded;
    assert RowHolds(ids, other, Some(id));
  }

  /** A row whose non-null id is on another row too is reported. */
  lemma DuplicateReportComplete(ids: seq<Option<string>>, line: nat, id: string)
    requires !IsNullId(Some(id)) && RowHolds(ids, line, Some(id)) && SharedId(ids, line, id)
    ensures DuplicateId(line, id) in LogUserIdErrors(Scan(ids))
  {
    var reg := Scan(ids);
    var other: nat :| 2 <= other < |ids| + 2 && other != line && RowHolds(ids, other, Some(id));
    ScanComplete(ids, id, line);
    ScanComplete(ids, id, other);
    TwoMembersTwoEntries(reg.lines[id], line, other);
    ScanWellformed(ids);
    LogMembership(reg, line, id);
  }

  lemma TwoMembersTwoEntries(s: seq<nat>, a: nat, b: nat)
    requires a in s && b in s && a != b
    ensures |s| > 1
  {
    var i :| 0 <= i < |s| && s[i] == a;
    var j :| 0 <= j < |s| && s[j] == b;
    assert i != j;
  }

  /** End to end: a row is reported as a duplicate exactly when its non-null
      id is on another row too. */
  lemma DuplicatesReportedExactly(ids: seq<Option<string>>, line: nat, id: string)
    ensures DuplicateId(line, id) in LogUserIdErrors(Scan(ids)) <==>
              !IsNullId(Some(id)) && RowHolds(ids, line, Some(id)) && SharedId(ids, line, id)
  {
    if DuplicateId(line, id) in LogUserIdErrors(Scan(ids)) {
      DuplicateReportSound(ids, line, id);
    }
    if !IsNullId(Some(id)) && RowHolds(ids, line, Some(id)) && SharedId(ids, line, id) {
      DuplicateReportComplete(ids, line, id);
    }
  }

  // ---- The ids of the parsed rows ----

  /** `row['userId']` for each row `csv.DictReader` yields after the header:
      it skips empty rows, and a row's userId is its first field. */
  function UserIds(rows: seq<seq<string>>): (ids: seq<Option<string>>)
    ensures |ids| <= |rows|
    ensures forall k :: 0 <= k < |ids| ==> ids[k].Some?
    decreases |rows|
  {
    if |rows| == 0 then []
    else (if rows[0] == [] then [] else [Some(rows[0][0])]) + UserIds(rows[1..])
  }

  /** `pos` says where each id comes from: the `k`-th id is the first field
      of row `pos[k]`, the rows are taken in order, and they are exactly the
      non-empty rows. */
  predicate SourceRows(rows: seq<seq<string>>, ids: seq<Option<string>>, pos: seq<nat>) {
    && IdsFrom(rows, ids, pos)
    && (forall k, l :: 0 <= k < l < |pos| ==> pos[k] < pos[l])
    && (forall j :: 0 <= j < |rows| && rows[j] != [] ==> j in pos)
  }

  /** The `k`-th id is the first field of the non-empty row `pos[k]`. */
  predicate IdsFrom(rows: seq<seq<string>>, ids: seq<Option<string>>, pos: seq<nat>) {
    && |pos| == |ids|
    && (forall k :: 0 <= k < |pos| ==> pos[k] < |rows| && rows[pos[k]] != [] && ids[k] == Some(rows[pos[k]][0]))
  }

  /** The source rows of `rows` from those of `rows[1..]`: the first row,
      when it is not empty, then the later ones moved up by one. */
  function ExtendPositions(rows: seq<seq<string>>, inner: seq<nat>): (pos: seq<nat>)
    requires |rows| > 0
  {
    (if rows[0] == [] then [] else [0]) + seq(|inner|, k requires 0 <= k < |inner| => inner[k] + 1)
  }

  lemma ExtendPositionsIds(rows: seq<seq<string>>, inner: seq<nat>)
    requires |rows| > 0 && IdsFrom(rows[1..], UserIds(rows[1..]), inner)
    ensures IdsFrom(rows, UserIds(rows), ExtendPositions(rows, inner))
  {
    var pos := ExtendPositions(rows, inner);
    var ids := UserIds(rows);
    UserIdsLength(rows);
    forall k | 0 <= k < |pos|
      ensures pos[k] < |rows| && rows[pos[k]] != [] && ids[k] == Some(rows[pos[k]][0])
    {
      ExtendPositionsAt(rows, inner, k);
    }
  }

  /** The first row adds `Skip(rows)` ids to those of the later rows. */
  lemma UserIdsLength(rows: seq<seq<string>>)
    requires |rows| > 0
    ensures |UserIds(rows)| == Skip(rows) + |UserIds(rows[1..])|
  {
  }

  /** One entry of the extended positions. */
  lemma ExtendPositionsAt(rows: seq<seq<string>>, inner: seq<nat>, k: nat)
    requires |rows| > 0 && IdsFrom(rows[1..], UserIds(rows[1..]), inner)
    requires k < |ExtendPositions(rows, inner)|
    ensures var pos := ExtendPositions(rows, inner);
      pos[k] < |rows| && rows[pos[k]] != [] && k < |UserIds(rows)| && UserIds(rows)[k] == Some(rows[pos[k]][0])
  {
    var skip := Skip(rows);
    UserIdsLength(rows);
    if k < skip {
      assert UserIds(rows) == [Some(rows[0][0])] + UserIds(rows[1..]);
    } else {
      var i := k - skip;
      var tail := rows[1..];
      assert inner[i] < |tail| && tail[inner[i]] != [] && UserIds(tail)[i] == Some(tail[inner[i]][0]);
      ShiftedAt(rows, inner, i);
      UserIdsLater(rows, i);
      assert rows[inner[i] + 1] == tail[inner[i]];
    }
  }

  /** The number of ids the first row gives: none when it is empty. */
  function Skip(rows: seq<seq<string>>): nat
    requires |rows| > 0
  {
    if rows[0] == [] then 0 else 1
  }

  /** A later row's entry in the positions is its tail position plus one. */
  lemma ShiftedAt(rows: seq<seq<string>>, inner: seq<nat>, i: nat)
    requires |rows| > 0 && i < |inner|
    ensures Skip(rows) + i < |ExtendPositions(rows, inner)|
    ensures ExtendPositions(rows, inner)[Skip(rows) + i] == inner[i] + 1
  {
  }

  /** A later row's id sits `Skip(rows)` places further on. */
  lemma UserIdsLater(rows: seq<seq<string>>, i: nat)
    requires |rows| > 0 && i < |UserIds(rows[1..])|
    ensures Skip(rows) + i < |UserIds(rows)|
    ensures UserIds(rows)[Skip(rows) + i] == UserIds(rows[1..])[i]
  {
    if rows[0] == [] {
      assert UserIds(rows) == UserIds(rows[1..]);
    } else {
      assert UserIds(rows) == [Some(rows[0][0])] + UserIds(rows[1..]);
    }
  }

  lemma ExtendPositionsOrdered(rows: seq<seq<string>>, inner: seq<nat>)
    requires |rows| > 0 && forall k, l :: 0 <= k < l < |inner| ==> inner[k] < inner[l]
    ensures var pos := ExtendPositions(rows, inner);
      forall k, l :: 0 <= k < l < |pos| ==> pos[k] < pos[l]
  {
  }

  lemma ExtendPositionsComplete(rows: seq<seq<string>>, inner: seq<nat>)
    requires |rows| > 0 && forall j :: 0 <= j < |rows[1..]| && rows[1..][j] != [] ==> j in inner
    ensures var pos := ExtendPositions(rows, inner);
      forall j :: 0 <= j < |rows| && rows[j] != [] ==> j in pos
  {
    var pos := ExtendPositions(rows, inner);
    var skip := if rows[0] == [] then 0 else 1;
    forall j | 0 <= j < |rows| && rows[j] != [] ensures j in pos {
      if j > 0 {
        assert rows[1..][j - 1] == rows[j];
        var k :| 0 <= k < |inner| && inner[k] == j - 1;
        assert pos[skip + k] == j;
      } else {
        assert pos[0] == 0;
      }
    }
  }

  /** The scanned ids are the first fields of the non-empty rows, one per
      row, in file order. */
  lemma {:induction false} UserIdRows(rows: seq<seq<string>>) returns (pos: seq<nat>)
    ensures SourceRows(rows, UserIds(rows), pos)
    decreases |rows|
  {
    if |rows| == 0 {
      pos := [];
    } else {
      var inner := UserIdRows(rows[1..]);
      pos := ExtendPositions(rows, inner);
      ExtendPositionsIds(rows, inner);
      ExtendPositionsOrdered(rows, inner);
      ExtendPositionsComplete(rows, inner);
    }
  }

  /** A userId counts as null when it is "NULL" or "null": read from a
      non-empty row it is never `None`. */
  predicate NullText(id: string) {
    id == "NULL" || id == "null"
  }

  /** Over the parsed rows: line `line` is reported as a null userId exactly
      when the non-empty row the scan numbered `line` starts with "NULL" or
      "null". */
  lemma ParsedNullsReported(rows: seq<seq<string>>, pos: seq<nat>, line: nat)
    requires SourceRows(rows, UserIds(rows), pos)
    ensures NullId(line) in LogUserIdErrors(Scan(UserIds(rows))) <==>
              2 <= line < |pos| + 2 && NullText(rows[pos[line - 2]][0])
  {
    NullsReportedExactly(UserIds(rows), line);
  }

  /** Some other numbered row starts with `id`. */
  predicate SharedFirstField(rows: seq<seq<string>>, pos: seq<nat>, line: nat, id: string)
    requires forall k :: 0 <= k < |pos| ==> pos[k] < |rows| && rows[pos[k]] != []
  {
    exists k :: 0 <= k < |pos| && k + 2 != line && rows[pos[k]][0] == id
  }

  /** Over the parsed rows: line `line` is reported as a duplicate of `id`
      exactly when `id` is not null, the row the scan numbered `line` starts
      with it, and so does another numbered row. */
  lemma ParsedDuplicatesReported(rows: seq<seq<string>>, pos: seq<nat>, line: nat, id: string)
    requires SourceRows(rows, UserIds(rows), pos)
    ensures DuplicateId(line, id) in LogUserIdErrors(Scan(UserIds(rows))) <==>
              && !NullText(id)
              && 2 <= line < |pos| + 2 && rows[pos[line - 2]][0] == id
              && SharedFirstField(rows, pos, line, id)
  {
    var ids := UserIds(rows);
    DuplicatesReportedExactly(ids, line, id);
    if SharedId(ids, line, id) {
      var other :| 2 <= other < |ids| + 2 && other != line && RowHolds(ids, other, Some(id));
      assert rows[pos[other - 2]][0] == id;
      assert SharedFirstField(rows, pos, line, id);
    }
    if SharedFirstField(rows, pos, line, id) {
      var k :| 0 <= k < |pos| && k + 2 != line && rows[pos[k]][0] == id;
      assert RowHolds(ids, k + 2, Some(id));
    }
  }
}
