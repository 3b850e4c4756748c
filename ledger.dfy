/**
 * The distraction-event ledger: the rows of the `distractions` table, in
 * insertion order, and the pure queries and updates the server runs on them.
 * Nullable columns are `Option`s; SQL NULL is `None`.
 */
module Ledger {
  import opened Wrappers

  const JoinedEvent: string := "JOINED"

  /** One row of `distractions` (id, session_id, candidate_name, is_submit, event_name, start_time, end_time, duration_sec). */
  datatype Row = Row(
    id: nat,
    sessionId: string,
    candidateName: string,
    isSubmit: bool,
    eventName: Option<string>,
    startTime: Option<int>,
    endTime: Option<int>,
    durationSec: Option<int>)

  /** The error statuses of the ledger's HTTP handlers (400 and 404). */
  datatype HttpError = BadRequest | NotFound

  /** The body of `POST /api/events`; a field the client left out is `None`. */
  datatype EventReport = EventReport(
    sessionId: Option<string>,
    candidateName: Option<string>,
    eventName: Option<string>,
    startTime: Option<int>,
    endTime: Option<int>,
    duration: Option<int>)

  /**
   * AUTOINCREMENT numbering: ids strictly ascend in insertion order and are
   * all below `nextId`, the id the next insert receives.
   */
  ghost predicate WellNumbered(rows: seq<Row>, nextId: nat) {
    && (forall i | 0 <= i < |rows| :: rows[i].id < nextId)
    && (forall i, j | 0 <= i < j < |rows| :: rows[i].id < rows[j].id)
  }

  /** Appending a row numbered `nextId` keeps the numbering and advances `nextId`. */
  lemma AppendKeepsWellNumbered(rows: seq<Row>, nextId: nat, row: Row)
    requires WellNumbered(rows, nextId) && row.id == nextId
    ensures WellNumbered(rows + [row], nextId + 1)
  {
  }

  // ---------------------------------------------------------------------------
  // Join detection (checkSessionExists, then the JOINED insert)

  /** `SELECT 1 FROM distractions WHERE session_id = ? LIMIT 1` found a row. */
  function HasSession(rows: seq<Row>, sessionId: string): (found: bool)
    ensures found <==> exists i :: 0 <= i < |rows| && rows[i].sessionId == sessionId
  {
    if rows == [] then false
    else if rows[0].sessionId == sessionId then true
    else
      var found := HasSession(rows[1..], sessionId);
      assert found ==> exists i :: 0 <= i < |rows[1..]| && rows[1..][i].sessionId == sessionId;
      found
  }

  /** The row the join handler inserts. */
  function JoinedRow(id: nat, sessionId: string, candidateName: string, now: int): Row {
    Row(id, sessionId, candidateName, false, Some(JoinedEvent), Some(now), None, None)
  }

  /**
   * The ledger effect of a join: when the candidate name is non-empty and no
   * row of any event name exists for the session, one `JOINED` row is
   * appended; otherwise nothing changes.
   */
  function RecordJoin(rows: seq<Row>, nextId: nat, candidateName: string, sessionId: string, now: int): (rows': seq<Row>)
    ensures rows <= rows' && |rows'| <= |rows| + 1
    ensures |rows'| == |rows| + 1 <==> candidateName != "" && forall i | 0 <= i < |rows| :: rows[i].sessionId != sessionId
    ensures |rows'| == |rows| + 1 ==> var row := rows'[|rows|];
              && row.id == nextId && row.sessionId == sessionId && row.candidateName == candidateName
              && !row.isSubmit && row.eventName == Some(JoinedEvent) && row.startTime == Some(now)
              && row.endTime == None && row.durationSec == None
  {
    if candidateName != "" && !HasSession(rows, sessionId)
    then rows + [JoinedRow(nextId, sessionId, candidateName, now)]
    else rows
  }

  /** The number of rows of a session. */
  function SessionCount(rows: seq<Row>, sessionId: string): (n: nat)
    ensures n <= |rows|
    ensures n == |rows| <==> forall i | 0 <= i < |rows| :: rows[i].sessionId == sessionId
  {
    if rows == [] then 0
    else SessionCount(rows[..|rows| - 1], sessionId) + (if rows[|rows| - 1].sessionId == sessionId then 1 else 0)
  }

  /** The number of `JOINED` rows of a session. */
  function JoinedCount(rows: seq<Row>, sessionId: string): nat {
    if rows == [] then 0
    else
      var last := rows[|rows| - 1];
      JoinedCount(rows[..|rows| - 1], sessionId)
        + (if last.sessionId == sessionId && last.eventName == Some(JoinedEvent) then 1 else 0)
  }

  /** A session has no rows exactly when none of the rows is of that session. */
  lemma {:induction false} SessionCountZeroIffAbsent(rows: seq<Row>, sessionId: string)
    ensures SessionCount(rows, sessionId) == 0 <==> !HasSession(rows, sessionId)
  {
    if rows != [] {
      var init := rows[..|rows| - 1];
      SessionCountZeroIffAbsent(init, sessionId);
      if HasSession(init, sessionId) {
        var i :| 0 <= i < |init| && init[i].sessionId == sessionId;
        assert rows[i] == init[i];
      }
      if HasSession(rows, sessionId) && rows[|rows| - 1].sessionId != sessionId {
        var i :| 0 <= i < |rows| && rows[i].sessionId == sessionId;
        assert init[i] == rows[i];
      }
    }
  }

  /** `JOINED` rows of a session are rows of that session. */
  lemma {:induction false} JoinedCountAtMostSessionCount(rows: seq<Row>, sessionId: string)
    ensures JoinedCount(rows, sessionId) <= SessionCount(rows, sessionId)
  {
    if rows != [] {
      JoinedCountAtMostSessionCount(rows[..|rows| - 1], sessionId);
    }
  }

  /** Once a join with a candidate name has been recorded for a session, later joins for it record nothing. */
  lemma RecordJoinOnce(rows: seq<Row>, nextId: nat, candidateName: string, sessionId: string, now: int,
                       nextId': nat, candidateName': string, now': int)
    requires candidateName != ""
    ensures var once := RecordJoin(rows, nextId, candidateName, sessionId, now);
            RecordJoin(once, nextId', candidateName', sessionId, now') == once
  {
    var once := RecordJoin(rows, nextId, candidateName, sessionId, now);
    if !HasSession(rows, sessionId) {
      assert once[|once| - 1].sessionId == sessionId;
    } else {
      var i :| 0 <= i < |rows| && rows[i].sessionId == sessionId;
      assert once[i].sessionId == sessionId;
    }
  }

  /** A first join with a candidate name leaves exactly one row for the session, a `JOINED` row. */
  lemma FirstJoinRecordsOneRow(rows: seq<Row>, nextId: nat, candidateName: string, sessionId: string, now: int)
    requires candidateName != "" && !HasSession(rows, sessionId)
    ensures SessionCount(RecordJoin(rows, nextId, candidateName, sessionId, now), sessionId) == 1
    ensures JoinedCount(RecordJoin(rows, nextId, candidateName, sessionId, now), sessionId) == 1
  {
    var after := RecordJoin(rows, nextId, candidateName, sessionId, now);
    assert after[..|after| - 1] == rows;
    SessionCountZeroIffAbsent(rows, sessionId);
    JoinedCountAtMostSessionCount(rows, sessionId);
  }

  /** Sequential joins never create a second `JOINED` row for any session that had at most one. */
  lemma RecordJoinKeepsJoinedUnique(rows: seq<Row>, nextId: nat, candidateName: string, sessionId: string,
                                    now: int, other: string)
    requires JoinedCount(rows, other) <= 1
    ensures JoinedCount(RecordJoin(rows, nextId, candidateName, sessionId, now), other) <= 1
  {
    var after := RecordJoin(rows, nextId, candidateName, sessionId, now);
    if after != rows {
      assert after[..|after| - 1] == rows;
      if other == sessionId {
        SessionCountZeroIffAbsent(rows, sessionId);
        JoinedCountAtMostSessionCount(rows, sessionId);
      }
    }
  }

  // ---------------------------------------------------------------------------
  // Event reports (POST /api/events)

  /** JavaScript truthiness of an optional string: present and non-empty. */
  predicate Truthy(field: Option<string>)
    ensures Truthy(field) <==> field !in {None, Some("")}
    ensures Truthy(field) ==> |field.value| > 0
  {
    field.Some? && field.value != ""
  }

  /** The 400 check: a session id and a candidate name are both given. */
  predicate ValidReport(report: EventReport)
    ensures ValidReport(report) <==>
              report.sessionId !in {None, Some("")} && report.candidateName !in {None, Some("")}
    ensures ValidReport(report) ==> report.sessionId.Some? && report.candidateName.Some?
  {
    Truthy(report.sessionId) && Truthy(report.candidateName)
  }

  /** The row inserted for a valid report; `is_submit` takes its default, omitted values are NULL. */
  function ReportRow(id: nat, report: EventReport): (row: Row)
    requires ValidReport(report)
    ensures row.id == id && !row.isSubmit
    ensures Some(row.sessionId) == report.sessionId && Some(row.candidateName) == report.candidateName
    ensures row.eventName == report.eventName && row.startTime == report.startTime
    ensures row.endTime == report.endTime && row.durationSec == report.duration
  {
    Row(id, report.sessionId.value, report.candidateName.value, false,
        report.eventName, report.startTime, report.endTime, report.duration)
  }

  // ---------------------------------------------------------------------------
  // Submission (UPDATE distractions SET is_submit = TRUE WHERE session_id = ?)

  /** One row after the update: flagged when it is of the session, untouched otherwise. */
  function Flag(row: Row, sessionId: string): Row {
    if row.sessionId == sessionId then row.(isSubmit := true) else row
  }

  /**
   * The table after the update: every row of the session is flagged
   * submitted, and nothing else changes — no other row, no other column.
   */
  function MarkSubmitted(rows: seq<Row>, sessionId: string): (rows': seq<Row>)
    ensures |rows'| == |rows|
    ensures forall i | 0 <= i < |rows| :: rows'[i] == rows[i].(isSubmit := rows'[i].isSubmit)
    ensures forall i | 0 <= i < |rows| ::
              rows'[i].isSubmit == (rows[i].isSubmit || rows[i].sessionId == sessionId)
  {
    seq(|rows|, i requires 0 <= i < |rows| => Flag(rows[i], sessionId))
  }

  /** Marking a prefix is the prefix of the marked table. */
  lemma MarkSubmittedPrefix(rows: seq<Row>, sessionId: string, n: nat)
    requires n <= |rows|
    ensures MarkSubmitted(rows[..n], sessionId) == MarkSubmitted(rows, sessionId)[..n]
  {
  }

  /** The update matches the same rows before and after: a repeated update still reports a change. */
  lemma {:induction false} MarkSubmittedKeepsSessionCount(rows: seq<Row>, sessionId: string, other: string)
    ensures SessionCount(MarkSubmitted(rows, sessionId), other) == SessionCount(rows, other)
  {
    if rows != [] {
      var n := |rows| - 1;
      MarkSubmittedKeepsSessionCount(rows[..n], sessionId, other);
      MarkSubmittedPrefix(rows, sessionId, n);
    }
  }

  /** Marking twice is marking once. */
  lemma MarkSubmittedIdempotent(rows: seq<Row>, sessionId: string)
    ensures MarkSubmitted(MarkSubmitted(rows, sessionId), sessionId) == MarkSubmitted(rows, sessionId)
  {
  }

  /** The update keeps ids, so keeps the numbering. */
  lemma MarkSubmittedKeepsWellNumbered(rows: seq<Row>, nextId: nat, sessionId: string)
    requires WellNumbered(rows, nextId)
    ensures WellNumbered(MarkSubmitted(rows, sessionId), nextId)
  {
  }

  /**
   * The UPDATE statement run over the table row by row: flags the rows of
   * the session and reports how many rows it matched (`this.changes`).
   */
  method UpdateSubmitted(table: seq<Row>, sessionId: string) returns (updated: seq<Row>, changes: nat)
    ensures updated == MarkSubmitted(table, sessionId)
    ensures changes == SessionCount(table, sessionId)
  {
    updated, changes := table, 0;
    var i := 0;
    while i < |updated|
      invariant 0 <= i <= |updated| == |table|
      invariant forall k | 0 <= k < i :: updated[k] == Flag(table[k], sessionId)
      invariant forall k | i <= k < |updated| :: updated[k] == table[k]
      invariant changes == SessionCount(table[..i], sessionId)
    {
      assert table[..i + 1][..i] == table[..i];
      if updated[i].sessionId == sessionId {
        updated := updated[i := updated[i].(isSubmit := true)];
        changes := changes + 1;
      }
      i := i + 1;
    }
    assert table[..i] == table;
  }

  // ---------------------------------------------------------------------------
  // Listings (ORDER BY start_time [DESC])

  /** The rows `keep` selects, in table order (a WHERE clause), with their multiplicities. */
  function Where(rows: seq<Row>, keep: Row -> bool): (selected: seq<Row>)
    ensures forall x :: multiset(selected)[x] == if keep(x) then multiset(rows)[x] else 0
  {
    if rows == [] then []
    else
      assert rows == [rows[0]] + rows[1..];
      (if keep(rows[0]) then [rows[0]] else []) + Where(rows[1..], keep)
  }

  /** SQLite's ascending order on start_time: NULL first, then by value. */
  predicate StartsNoLater(a: Row, b: Row) {
    a.startTime.None? || (b.startTime.Some? && a.startTime.value <= b.startTime.value)
  }

  /** `a` may precede `b` in an ascending, or a descending, listing. */
  predicate InOrder(a: Row, b: Row, descending: bool) {
    if descending then StartsNoLater(b, a) else StartsNoLater(a, b)
  }

  ghost predicate SortedByStart(rows: seq<Row>, descending: bool) {
    forall i, j | 0 <= i < j < |rows| :: InOrder(rows[i], rows[j], descending)
  }

  /** A row that may precede every row of a sorted listing may head it. */
  lemma PrependSorted(row: Row, rows: seq<Row>, descending: bool)
    requires SortedByStart(rows, descending)
    requires forall x | x in rows :: InOrder(row, x, descending)
    ensures SortedByStart([row] + rows, descending)
  {
    var rows' := [row] + rows;
    forall i, j | 0 <= i < j < |rows'|
      ensures InOrder(rows'[i], rows'[j], descending)
    {
      assert rows'[j] == rows[j - 1];
      if i > 0 {
        assert rows'[i] == rows[i - 1];
      }
    }
  }

  /** Insertion into a listing sorted by start time. */
  function InsertByStart(row: Row, rows: seq<Row>, descending: bool): (rows': seq<Row>)
    requires SortedByStart(rows, descending)
    ensures SortedByStart(rows', descending)
    ensures multiset(rows') == multiset(rows) + multiset{row}
  {
    if rows == [] then [row]
    else if InOrder(row, rows[0], descending) then
      PrependSorted(row, rows, descending);
      [row] + rows
    else
      assert rows == [rows[0]] + rows[1..];
      var tail := InsertByStart(row, rows[1..], descending);
      HeadPrecedesInsertion(row, rows, tail, descending);
      PrependSorted(rows[0], tail, descending);
      [rows[0]] + tail
  }

  /** The head of a sorted listing precedes everything of its tail and a later-placed row. */
  lemma HeadPrecedesInsertion(row: Row, rows: seq<Row>, tail: seq<Row>, descending: bool)
    requires rows != [] && SortedByStart(rows, descending)
    requires !InOrder(row, rows[0], descending)
    requires multiset(tail) == multiset(rows[1..]) + multiset{row}
    ensures forall x | x in tail :: InOrder(rows[0], x, descending)
  {
    forall x | x in tail
      ensures InOrder(rows[0], x, descending)
    {
      assert x in multiset(tail);
      if x != row {
        assert x in multiset(rows[1..]);
        var j :| 0 <= j < |rows[1..]| && rows[1..][j] == x;
        assert rows[j + 1] == x;
      }
    }
  }

  /** ORDER BY start_time (DESC when `descending`): a sorted permutation of the rows. */
  function SortByStart(rows: seq<Row>, descending: bool): (sorted: seq<Row>)
    ensures SortedByStart(sorted, descending)
    ensures multiset(sorted) == multiset(rows)
  {
    if rows == [] then []
    else
      assert rows == [rows[0]] + rows[1..];
      InsertByStart(rows[0], SortByStart(rows[1..], descending), descending)
  }

  /** `GET /api/events/:session_id`: the session's rows, earliest start first. */
  function ListEvents(rows: seq<Row>, sessionId: string): (listing: seq<Row>)
    ensures SortedByStart(listing, false)
    ensures forall x :: multiset(listing)[x] == if x.sessionId == sessionId then multiset(rows)[x] else 0
  {
    SortByStart(Where(rows, (row: Row) => row.sessionId == sessionId), false)
  }

  /** `GET /api/candidates`: every `JOINED` row, latest start first. */
  function ListCandidates(rows: seq<Row>): (listing: seq<Row>)
    ensures SortedByStart(listing, true)
    ensures forall x :: multiset(listing)[x] == if x.eventName == Some(JoinedEvent) then multiset(rows)[x] else 0
  {
    SortByStart(Where(rows, (row: Row) => row.eventName == Some(JoinedEvent)), true)
  }

  /** No two rows of a listing share a start time. */
  ghost predicate DistinctStarts(rows: seq<Row>) {
    forall i, j | 0 <= i < j < |rows| :: rows[i].startTime != rows[j].startTime
  }

  /** Two sorted arrangements of the same rows, the first with distinct start times, begin with the same row. */
  lemma SortedHeadsAgree(a: seq<Row>, b: seq<Row>, descending: bool)
    requires SortedByStart(a, descending) && SortedByStart(b, descending)
    requires multiset(a) == multiset(b) && a != [] && b != []
    requires DistinctStarts(a)
    ensures a[0] == b[0]
  {
    assert a[0] in multiset(b) && b[0] in multiset(a);
    var j :| 0 <= j < |b| && b[j] == a[0];
    var k :| 0 <= k < |a| && a[k] == b[0];
    assert InOrder(a[0], a[k], descending) && InOrder(b[0], b[j], descending);
    assert a[0].startTime == a[k].startTime;
  }

  /** Removing equal heads from equal multisets of rows leaves equal multisets. */
  lemma TailsSameRows(a: seq<Row>, b: seq<Row>)
    requires multiset(a) == multiset(b) && a != [] && b != [] && a[0] == b[0]
    ensures multiset(a[1..]) == multiset(b[1..])
  {
    assert a == [a[0]] + a[1..] && b == [b[0]] + b[1..];
    assert multiset(a) == multiset{a[0]} + multiset(a[1..]);
    assert multiset(b) == multiset{a[0]} + multiset(b[1..]);
    forall x
      ensures multiset(a[1..])[x] == multiset(b[1..])[x]
    {
      assert multiset(a)[x] == multiset{a[0]}[x] + multiset(a[1..])[x];
      assert multiset(b)[x] == multiset{a[0]}[x] + multiset(b[1..])[x];
    }
  }

  /**
   * With distinct start times the order is determined: two sorted
   * arrangements of the same rows are the same listing.
   */
  lemma {:induction false} SortedListingIsUnique(a: seq<Row>, b: seq<Row>, descending: bool)
    requires SortedByStart(a, descending) && SortedByStart(b, descending)
    requires multiset(a) == multiset(b)
    requires DistinctStarts(a)
    ensures a == b
    decreases |a|
  {
    assert |a| == |multiset(a)| == |multiset(b)| == |b|;
    if a != [] {
      SortedHeadsAgree(a, b, descending);
      TailsSameRows(a, b);
      SortedListingIsUnique(a[1..], b[1..], descending);
      assert a == [a[0]] + a[1..] && b == [b[0]] + b[1..];
    }
  }

  /**
   * A session's timeline is fully determined by its rows when their start
   * times are distinct: whatever the insertion order, it is the unique
   * ascending arrangement.
   */
  lemma ListEventsOrderIsDetermined(rows: seq<Row>, sessionId: string, timeline: seq<Row>)
    requires SortedByStart(timeline, false) && DistinctStarts(timeline)
    requires forall x :: multiset(timeline)[x] == if x.sessionId == sessionId then multiset(rows)[x] else 0
    ensures ListEvents(rows, sessionId) == timeline
  {
    var listing := ListEvents(rows, sessionId);
    assert multiset(listing) == multiset(timeline);
    SortedListingIsUnique(timeline, listing, false);
  }
}
