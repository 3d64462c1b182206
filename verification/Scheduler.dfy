/**
 The draft scheduler: every poll lists the due drafts, oldest first, and sends at
 most sixteen of them, each by claiming it and settling the claim.
 */
module Scheduler {
  import opened Options
  import opened Drafts
  import opened Sequences

  const POLL_LIMIT := 16

  /** A due draft as it is sorted: its instant, none when its time does not parse. */
  datatype DueRow = DueRow(at: Option<int>, id: nat)

  /** How sending a claimed draft goes, once its time is in order: refused before the
      transport, or handed over and then accepted or not. */
  datatype Verdict = Refused | HandedOver(accepted: bool)

  /** What one poll meets: the clock, the rows that open, and how each send goes. */
  datatype PollInput = PollInput(now: int, opens: nat -> bool, verdicts: nat -> Verdict)

  // ── What is due ───────────────────────────────────────────────────────────

  predicate IsDue(table: Table, id: nat, now: int) {
    id in table && table[id].status == Scheduled && table[id].sendAt.Some? && Due(table[id].sendAt.value, now)
  }

  function DueRows(table: Table, now: int): set<DueRow> {
    set id | id in table && IsDue(table, id, now) :: DueRow(table[id].sendAt.value.exact, id)
  }

  /** Times that do not parse first, then the older instant, then the smaller id. */
  predicate Less(a: DueRow, b: DueRow) {
    if a.at == b.at then a.id < b.id
    else a.at.None? || (b.at.Some? && a.at.value < b.at.value)
  }

  predicate Increasing(rows: seq<DueRow>) {
    forall i, j :: 0 <= i < j < |rows| ==> Less(rows[i], rows[j])
  }

  ghost predicate IsLeast(least: DueRow, rows: set<DueRow>) {
    least in rows && forall row :: row in rows ==> row == least || Less(least, row)
  }

  lemma LessIsAnOrder(a: DueRow, b: DueRow, c: DueRow)
    ensures Less(a, b) || a == b || Less(b, a)
    ensures Less(a, b) && Less(b, c) ==> Less(a, c)
  {
  }

  lemma {:induction false} LeastExists(rows: set<DueRow>)
    requires rows != {}
    ensures exists least :: IsLeast(least, rows)
    decreases |rows|
  {
    var some :| some in rows;
    if rows == {some} {
      assert IsLeast(some, rows);
    } else {
      LeastExists(rows - {some});
      var other :| IsLeast(other, rows - {some});
      var least := if Less(some, other) then some else other;
      forall row | row in rows ensures row == least || Less(least, row) {
        if row != some { LessIsAnOrder(some, other, row); }
      }
      assert IsLeast(least, rows);
    }
  }

  /** The due rows, the least first. */
  ghost function Listed(rows: set<DueRow>): (list: seq<DueRow>)
    decreases |rows|
  {
    if rows == {} then []
    else
      LeastExists(rows);
      var least :| IsLeast(least, rows);
      [least] + Listed(rows - {least})
  }

  ghost function DueList(table: Table, now: int): seq<DueRow> {
    Listed(DueRows(table, now))
  }

  lemma {:induction false} ListedHoldsAll(rows: set<DueRow>)
    ensures forall row :: row in Listed(rows) <==> row in rows
    ensures |Listed(rows)| == |rows|
    decreases |rows|
  {
    if rows != {} {
      var least := Listed(rows)[0];
      LeastExists(rows);
      assert least in rows;
      ListedHoldsAll(rows - {least});
    }
  }

  lemma HeadFirst(head: DueRow, tail: seq<DueRow>)
    requires Increasing(tail) && forall row :: row in tail ==> Less(head, row)
    ensures Increasing([head] + tail)
  {
  }

  lemma {:induction false} ListedIncreases(rows: set<DueRow>)
    ensures Increasing(Listed(rows))
    decreases |rows|
  {
    if rows != {} {
      LeastExists(rows);
      var least := Listed(rows)[0];
      assert IsLeast(least, rows);
      ListedIncreases(rows - {least});
      ListedHoldsAll(rows - {least});
      HeadFirst(least, Listed(rows - {least}));
    }
  }

  /** Taking the first rows away leaves the list of the others. */
  lemma {:induction false} ListedWithoutFirst(rows: set<DueRow>, n: nat)
    requires n <= |Listed(rows)|
    ensures Listed(rows - (set i | 0 <= i < n :: Listed(rows)[i])) == Listed(rows)[n..]
    decreases n
  {
    var list := Listed(rows);
    var taken := set i | 0 <= i < n :: list[i];
    if n == 0 {
      assert rows - taken == rows;
    } else {
      var least := list[0];
      ListedWithoutFirst(rows - {least}, n - 1);
      var rest := Listed(rows - {least});
      var others := set i | 0 <= i < n - 1 :: rest[i];
      assert taken == {least} + others by {
        assert forall i :: 0 < i < n ==> list[i] == rest[i - 1];
        assert forall i :: 0 <= i < n - 1 ==> rest[i] == list[i + 1];
      }
      assert rows - taken == (rows - {least}) - others;
    }
  }

  /** An increasing list is determined by what is in it. */
  lemma {:induction false} IncreasingListsAgree(a: seq<DueRow>, b: seq<DueRow>)
    requires Increasing(a) && Increasing(b) && forall row :: row in a <==> row in b
    ensures a == b
  {
    assert a != [] ==> a[0] in a;
    assert b != [] ==> b[0] in b;
    if a != [] && b != [] {
      assert a[0] == b[0] by {
        var i :| 0 <= i < |b| && b[i] == a[0];
        var j :| 0 <= j < |a| && a[j] == b[0];
      }
      TailRows(a);
      TailRows(b);
      IncreasingListsAgree(a[1..], b[1..]);
      assert [a[0]] + a[1..] == a && [b[0]] + b[1..] == b;
    }
  }

  lemma TailRows(a: seq<DueRow>)
    requires a != [] && Increasing(a)
    ensures forall row :: row in a[1..] <==> row in a && row != a[0]
  {
    forall row | row in a && row != a[0] ensures row in a[1..] {
      var i :| 0 <= i < |a| && a[i] == row;
      assert a[1..][i - 1] == row;
    }
  }

  // ── Listing ───────────────────────────────────────────────────────────────

  function Insert(rows: seq<DueRow>, row: DueRow): seq<DueRow> {
    if rows == [] || Less(row, rows[0]) then [row] + rows
    else [rows[0]] + Insert(rows[1..], row)
  }

  function Sort(rows: seq<DueRow>): seq<DueRow> {
    if rows == [] then [] else Insert(Sort(rows[1..]), rows[0])
  }

  lemma {:induction false} InsertIncreases(rows: seq<DueRow>, row: DueRow)
    requires Increasing(rows) && row !in rows
    ensures Increasing(Insert(rows, row))
    ensures forall r :: r in Insert(rows, row) <==> r in rows || r == row
  {
    if rows != [] {
      if Less(row, rows[0]) {
      } else {
        assert rows[0] in rows;
        InsertIncreases(rows[1..], row);
        assert forall r :: r in rows <==> r == rows[0] || r in rows[1..];
        TailRows(rows);
        HeadFirst(rows[0], Insert(rows[1..], row));
      }
    }
  }

  lemma {:induction false} SortIncreases(rows: seq<DueRow>)
    requires forall i, j :: 0 <= i < j < |rows| ==> rows[i] != rows[j]
    ensures Increasing(Sort(rows))
    ensures forall row :: row in Sort(rows) <==> row in rows
  {
    if rows != [] {
      SortIncreases(rows[1..]);
      assert forall row :: row in rows <==> row == rows[0] || row in rows[1..];
      assert rows[0] !in rows[1..] by {
        forall i | 0 <= i < |rows| - 1 ensures rows[1..][i] != rows[0] { assert rows[1..][i] == rows[i + 1]; }
      }
      InsertIncreases(Sort(rows[1..]), rows[0]);
    }
  }

  /** The ids of the rows that open, in order. */
  function OpenIds(rows: seq<DueRow>, opens: nat -> bool): seq<nat> {
    if rows == [] then []
    else (if opens(rows[0].id) then [rows[0].id] else []) + OpenIds(rows[1..], opens)
  }

  /** The drafts a poll sends: rows that do not open still take up places. */
  ghost function Listing(table: Table, now: int, limit: nat, opens: nat -> bool): seq<nat> {
    var due := DueList(table, now);
    OpenIds(due[..Min(limit, |due|)], opens)
  }

  /** Reads `(id, send_at)` of the scheduled rows in whatever order they come. */
  method CollectDue(table: Table, now: int) returns (due: seq<DueRow>)
    ensures forall row :: row in due <==> row in DueRows(table, now)
    ensures forall i, j :: 0 <= i < j < |due| ==> due[i] != due[j]
  {
    due := [];
    var left := table.Keys;
    while left != {}
      invariant left <= table.Keys
      invariant forall row :: row in due <==> row in DueRows(table, now) && row.id !in left
      invariant forall i, j :: 0 <= i < j < |due| ==> due[i] != due[j]
      decreases |left|
    {
      var id :| id in left;
      left := left - {id};
      if IsDue(table, id, now) {
        var row := DueRow(table[id].sendAt.value.exact, id);
        assert row !in due;
        due := due + [row];
      }
    }
  }

  method ListDueDrafts(table: Table, now: int, limit: nat, opens: nat -> bool) returns (ids: seq<nat>, skipped: nat)
    ensures ids == Listing(table, now, limit, opens)
  {
    var due := CollectDue(table, now);
    SortIncreases(due);
    due := Sort(due);
    ListedIncreases(DueRows(table, now));
    ListedHoldsAll(DueRows(table, now));
    IncreasingListsAgree(due, DueList(table, now));
    var first := due[..Min(limit, |due|)];
    ids, skipped := [], 0;
    for next := 0 to |first|
      invariant ids == OpenIds(first[..next], opens)
    {
      OpenIdsSnoc(first, next, opens);
      if opens(first[next].id) {
        ids := ids + [first[next].id];
      } else {
        skipped := skipped + 1;
      }
    }
    assert first[..|first|] == first;
  }

  lemma {:induction false} OpenIdsAppend(a: seq<DueRow>, b: seq<DueRow>, opens: nat -> bool)
    ensures OpenIds(a + b, opens) == OpenIds(a, opens) + OpenIds(b, opens)
  {
    if a == [] {
      assert a + b == b;
    } else {
      OpenIdsAppend(a[1..], b, opens);
      assert (a + b)[1..] == a[1..] + b && (a + b)[0] == a[0];
      var first := if opens(a[0].id) then [a[0].id] else [];
      assert first + (OpenIds(a[1..], opens) + OpenIds(b, opens))
          == (first + OpenIds(a[1..], opens)) + OpenIds(b, opens);
    }
  }

  lemma OpenIdsSnoc(rows: seq<DueRow>, n: nat, opens: nat -> bool)
    requires n < |rows|
    ensures OpenIds(rows[..n + 1], opens)
         == OpenIds(rows[..n], opens) + (if opens(rows[n].id) then [rows[n].id] else [])
  {
    assert rows[..n + 1] == rows[..n] + [rows[n]];
    OpenIdsAppend(rows[..n], [rows[n]], opens);
  }

  // ── Sending ───────────────────────────────────────────────────────────────

  /** A time that is not in order fails the draft before anything else. */
  predicate TimeInOrder(sendAt: Option<SendAt>) {
    sendAt.Some? ==> InOrder(sendAt.value)
  }

  predicate Accepted(row: DraftRow, verdict: Verdict) {
    TimeInOrder(row.sendAt) && verdict == HandedOver(true)
  }

  predicate Reached(row: DraftRow, verdict: Verdict) {
    TimeInOrder(row.sendAt) && verdict.HandedOver?
  }

  function Settled(table: Table, id: nat, now: int, verdict: Verdict): Table {
    if !IsDue(table, id, now) then table
    else if Accepted(table[id], verdict) then table[id := table[id].(status := Sent, sendAt := None)]
    else table[id := table[id].(status := Failed)]
  }

  function SettledAll(table: Table, ids: seq<nat>, now: int, verdicts: nat -> Verdict): Table {
    if ids == [] then table
    else SettledAll(Settled(table, ids[0], now, verdicts(ids[0])), ids[1..], now, verdicts)
  }

  /** The drafts handed to the transport, in order. */
  function Handed(table: Table, ids: seq<nat>, now: int, verdicts: nat -> Verdict): seq<nat> {
    if ids == [] then []
    else
      (if IsDue(table, ids[0], now) && Reached(table[ids[0]], verdicts(ids[0])) then [ids[0]] else [])
      + Handed(Settled(table, ids[0], now, verdicts(ids[0])), ids[1..], now, verdicts)
  }

  method SendScheduledDraft(store: DraftStore, id: nat, now: int, verdict: Verdict) returns (handed: bool)
    modifies store
    ensures store.table == Settled(old(store.table), id, now, verdict)
    ensures handed <==> IsDue(old(store.table), id, now) && Reached(old(store.table)[id], verdict)
  {
    handed := false;
    ghost var before := store.table;
    var claim := store.ClaimDueDraft(id, now, None, true);
    if !claim.Claimed? {
      return;
    }
    if !TimeInOrder(claim.row.sendAt) || verdict.Refused? {
      var parked := store.FinishDraftSend(id, Failed, false);
    } else {
      handed := true;
      if verdict.accepted {
        var settled := store.FinishDraftSend(id, Sent, true);
      } else {
        var parked := store.FinishDraftSend(id, Failed, false);
      }
    }
    assert store.table == Settled(before, id, now, verdict);
  }

  /** Sending the next draft of a list, and then the others. */
  lemma SendOneMore(table: Table, ids: seq<nat>, next: nat, now: int, verdicts: nat -> Verdict, handed: seq<nat>)
    requires next < |ids|
    ensures var id := ids[next];
            var after := Settled(table, id, now, verdicts(id));
            var reached := if IsDue(table, id, now) && Reached(table[id], verdicts(id)) then [id] else [];
            && SettledAll(table, ids[next..], now, verdicts) == SettledAll(after, ids[next + 1..], now, verdicts)
            && handed + Handed(table, ids[next..], now, verdicts)
               == handed + reached + Handed(after, ids[next + 1..], now, verdicts)
  {
    var id := ids[next];
    assert ids[next..][1..] == ids[next + 1..];
    var reached := if IsDue(table, id, now) && Reached(table[id], verdicts(id)) then [id] else [];
    Associative(handed, reached, Handed(Settled(table, id, now, verdicts(id)), ids[next + 1..], now, verdicts));
  }

  method Poll(store: DraftStore, input: PollInput) returns (handed: seq<nat>)
    modifies store
    ensures store.table == Polled(old(store.table), input)
    ensures handed == HandedIn(old(store.table), input)
  {
    var ids, skipped := ListDueDrafts(store.table, input.now, POLL_LIMIT, input.opens);
    handed := [];
    for next := 0 to |ids|
      invariant SettledAll(store.table, ids[next..], input.now, input.verdicts) == Polled(old(store.table), input)
      invariant handed + Handed(store.table, ids[next..], input.now, input.verdicts)
             == HandedIn(old(store.table), input)
    {
      SendOneMore(store.table, ids, next, input.now, input.verdicts, handed);
      var reached := SendScheduledDraft(store, ids[next], input.now, input.verdicts(ids[next]));
      if reached {
        handed := handed + [ids[next]];
      }
    }
  }

  ghost function Polled(table: Table, input: PollInput): Table {
    SettledAll(table, Listing(table, input.now, POLL_LIMIT, input.opens), input.now, input.verdicts)
  }

  ghost function HandedIn(table: Table, input: PollInput): seq<nat> {
    Handed(table, Listing(table, input.now, POLL_LIMIT, input.opens), input.now, input.verdicts)
  }
}
