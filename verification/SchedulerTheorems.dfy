/** How polls drain the due drafts, and what can stop them. */
module SchedulerTheorems {
  import opened Options
  import opened Drafts
  import opened Scheduler
  import opened Sequences
  import opened Whitespace

  // ── One settled draft ─────────────────────────────────────────────────────

  lemma InDueRows(table: Table, now: int, row: DueRow)
    ensures row in DueRows(table, now)
       <==> IsDue(table, row.id, now) && row == DueRow(table[row.id].sendAt.value.exact, row.id)
  {
  }

  lemma SettledIsNotDue(table: Table, id: nat, now: int, verdict: Verdict, row: DueRow)
    ensures row in DueRows(Settled(table, id, now, verdict), now) <==> row in DueRows(table, now) && row.id != id
  {
    var after := Settled(table, id, now, verdict);
    InDueRows(table, now, row);
    InDueRows(after, now, row);
    assert row.id != id && row.id in table ==> after[row.id] == table[row.id];
  }

  lemma {:induction false} SettledAllAreNotDue(
    table: Table, ids: seq<nat>, now: int, verdicts: nat -> Verdict, row: DueRow
  )
    ensures row in DueRows(SettledAll(table, ids, now, verdicts), now) <==> row in DueRows(table, now) && row.id !in ids
    decreases |ids|
  {
    if ids != [] {
      SettledIsNotDue(table, ids[0], now, verdicts(ids[0]), row);
      SettledAllAreNotDue(Settled(table, ids[0], now, verdicts(ids[0])), ids[1..], now, verdicts, row);
      assert row.id in ids <==> row.id == ids[0] || row.id in ids[1..];
    }
  }

  /** Every draft keeps its inbox and content, only due ones change status, and
      they leave `scheduled` for `sent` or `failed`. */
  ghost predicate OnlySettles(before: Table, after: Table) {
    && after.Keys == before.Keys
    && (forall id :: id in before ==>
                       after[id] == before[id]
                       || (&& before[id].status == Scheduled
                           && after[id].inbox == before[id].inbox && after[id].content == before[id].content
                           && ((after[id].status == Sent && after[id].sendAt == None)
                               || (after[id].status == Failed && after[id].sendAt == before[id].sendAt))))
  }

  lemma {:induction false} SettledAllOnlySettles(table: Table, ids: seq<nat>, now: int, verdicts: nat -> Verdict)
    ensures OnlySettles(table, SettledAll(table, ids, now, verdicts))
    decreases |ids|
  {
    if ids != [] {
      SettledAllOnlySettles(Settled(table, ids[0], now, verdicts(ids[0])), ids[1..], now, verdicts);
    }
  }

  // ── One poll ──────────────────────────────────────────────────────────────

  lemma {:induction false} OpenIdsOfAll(rows: seq<DueRow>, opens: nat -> bool, id: nat)
    ensures id in OpenIds(rows, opens) <==> opens(id) && exists i :: 0 <= i < |rows| && rows[i].id == id
  {
    if rows != [] {
      OpenIdsOfAll(rows[1..], opens, id);
      assert forall i :: 0 < i < |rows| ==> rows[i] == rows[1..][i - 1];
      if i :| 0 <= i < |rows| - 1 && rows[1..][i].id == id {
        assert rows[i + 1].id == id;
      }
    }
  }

  lemma SameIdSameRow(table: Table, now: int, a: DueRow, b: DueRow)
    requires a in DueRows(table, now) && b in DueRows(table, now) && a.id == b.id
    ensures a == b
  {
  }

  ghost function FirstDue(table: Table, now: int): seq<DueRow> {
    DueList(table, now)[..Min(POLL_LIMIT, |DueList(table, now)|)]
  }

  /** A poll takes away exactly the rows that open among the first sixteen. */
  lemma PollTakesTheFirstThatOpen(table: Table, input: PollInput, row: DueRow)
    ensures row in DueRows(Polled(table, input), input.now)
       <==> row in DueRows(table, input.now) && !(row in FirstDue(table, input.now) && input.opens(row.id))
  {
    var first := FirstDue(table, input.now);
    SettledAllAreNotDue(table, Listing(table, input.now, POLL_LIMIT, input.opens), input.now, input.verdicts, row);
    OpenIdsOfAll(first, input.opens, row.id);
    ListedHoldsAll(DueRows(table, input.now));
    if row in DueRows(table, input.now) {
      if i :| 0 <= i < |first| && first[i].id == row.id {
        assert first[i] in DueList(table, input.now);
        SameIdSameRow(table, input.now, first[i], row);
      }
      if row in first {
        var i :| 0 <= i < |first| && first[i] == row;
        assert first[i].id == row.id;
      }
    }
  }

  /** A list without the sixteen rows of one poll. */
  function WithoutFirst(due: seq<DueRow>): seq<DueRow> {
    due[Min(POLL_LIMIT, |due|)..]
  }

  /** When every row opens, a poll leaves the due list without its first sixteen. */
  lemma PollDropsTheFirstSixteen(table: Table, input: PollInput)
    requires forall id :: input.opens(id)
    ensures DueList(Polled(table, input), input.now) == WithoutFirst(DueList(table, input.now))
  {
    var rows, due := DueRows(table, input.now), DueList(table, input.now);
    var n := Min(POLL_LIMIT, |due|);
    var taken := set i | 0 <= i < n :: due[i];
    ListedWithoutFirst(rows, n);
    forall row ensures row in DueRows(Polled(table, input), input.now) <==> row in rows - taken {
      PollTakesTheFirstThatOpen(table, input, row);
      assert row in taken <==> row in due[..n];
    }
    assert DueRows(Polled(table, input), input.now) == rows - taken;
  }

  /** A poll makes progress exactly when one of the first sixteen due rows opens;
      otherwise it changes nothing at all, however many later rows would open. */
  lemma PollProgressesIffAFirstRowOpens(table: Table, input: PollInput)
    ensures (exists row :: row in FirstDue(table, input.now) && input.opens(row.id))
       <==> DueRows(Polled(table, input), input.now) < DueRows(table, input.now)
    ensures (forall row :: row in FirstDue(table, input.now) ==> !input.opens(row.id))
       <==> Polled(table, input) == table
  {
    var rows, after := DueRows(table, input.now), DueRows(Polled(table, input), input.now);
    var first := FirstDue(table, input.now);
    ListedHoldsAll(rows);
    forall row | row in after ensures row in rows { PollTakesTheFirstThatOpen(table, input, row); }
    if row :| row in first && input.opens(row.id) {
      PollTakesTheFirstThatOpen(table, input, row);
      assert row in DueList(table, input.now);
      assert row in rows && row !in after;
    } else {
      NothingOpens(first, input.opens);
      assert SettledAll(table, [], input.now, input.verdicts) == table;
    }
  }

  lemma {:induction false} NothingOpens(rows: seq<DueRow>, opens: nat -> bool)
    requires forall row :: row in rows ==> !opens(row.id)
    ensures OpenIds(rows, opens) == []
  {
    if rows != [] {
      assert rows[0] in rows;
      NothingOpens(rows[1..], opens);
    }
  }

  // ── Many polls at one time ────────────────────────────────────────────────

  ghost function PolledTimes(table: Table, input: PollInput, k: nat): Table
    decreases k
  {
    if k == 0 then table else Polled(PolledTimes(table, input, k - 1), input)
  }

  ghost predicate DropsSixteen(lists: nat -> seq<DueRow>, k: nat) {
    lists(k + 1) == WithoutFirst(lists(k))
  }

  lemma DroppedAgain(due: seq<DueRow>, n: nat, m: nat)
    requires m == n + POLL_LIMIT
    ensures WithoutFirst(due[Min(n, |due|)..]) == due[Min(m, |due|)..]
  {
  }

  lemma {:induction false} DroppingSixteenEachTime(lists: nat -> seq<DueRow>, k: nat)
    requires forall j: nat :: j < k ==> DropsSixteen(lists, j)
    ensures lists(k) == lists(0)[Min(POLL_LIMIT * k, |lists(0)|)..]
  {
    if k > 0 {
      DroppingSixteenEachTime(lists, k - 1);
      assert DropsSixteen(lists, k - 1);
      DroppedAgain(lists(0), POLL_LIMIT * (k - 1), POLL_LIMIT * k);
    }
  }

  ghost function DueAfter(table: Table, input: PollInput): nat -> seq<DueRow> {
    (k: nat) => DueList(PolledTimes(table, input, k), input.now)
  }

  lemma PollDropsAfter(table: Table, input: PollInput, k: nat)
    requires forall id :: input.opens(id)
    ensures DropsSixteen(DueAfter(table, input), k)
  {
    PollDropsTheFirstSixteen(PolledTimes(table, input, k), input);
  }

  /** `k` polls settle the first `16 * k` due drafts, in order. */
  lemma PollsDrainInOrder(table: Table, input: PollInput, k: nat)
    requires forall id :: input.opens(id)
    ensures var due := DueList(table, input.now);
            DueAfter(table, input)(k) == due[Min(POLL_LIMIT * k, |due|)..]
  {
    forall j: nat | j < k ensures DropsSixteen(DueAfter(table, input), j) {
      PollDropsAfter(table, input, j);
    }
    DroppingSixteenEachTime(DueAfter(table, input), k);
  }

  /** Enough polls leave no due draft, and each one that was due is then sent or
      failed, with the same content. */
  lemma {:induction false} PollsOnlySettle(table: Table, input: PollInput, k: nat)
    ensures OnlySettles(table, PolledTimes(table, input, k))
    decreases k
  {
    if k > 0 {
      PollsOnlySettle(table, input, k - 1);
      var before := PolledTimes(table, input, k - 1);
      SettledAllOnlySettles(before, Listing(before, input.now, POLL_LIMIT, input.opens), input.now, input.verdicts);
    }
  }

  lemma EveryDueDraftIsSettled(table: Table, input: PollInput, k: nat, id: nat)
    requires forall i :: input.opens(i)
    requires POLL_LIMIT * k >= |DueRows(table, input.now)| && IsDue(table, id, input.now)
    ensures var after := PolledTimes(table, input, k);
            && id in after && (after[id].status == Sent || after[id].status == Failed)
            && after[id].content == table[id].content
  {
    var after := PolledTimes(table, input, k);
    PollsDrainInOrder(table, input, k);
    ListedHoldsAll(DueRows(table, input.now));
    ListedHoldsAll(DueRows(after, input.now));
    PollsOnlySettle(table, input, k);
    NoRowsNoneDue(after, id, input.now);
  }

  lemma NoRowsNoneDue(table: Table, id: nat, now: int)
    requires |DueRows(table, now)| == 0
    ensures !IsDue(table, id, now)
  {
    if IsDue(table, id, now) {
      InDueRows(table, now, DueRow(table[id].sendAt.value.exact, id));
    }
  }

  // ── Any polls ─────────────────────────────────────────────────────────────

  ghost function PolledAll(table: Table, inputs: seq<PollInput>): Table
    decreases |inputs|
  {
    if inputs == [] then table else PolledAll(Polled(table, inputs[0]), inputs[1..])
  }

  ghost function HandedInAll(table: Table, inputs: seq<PollInput>): seq<nat>
    decreases |inputs|
  {
    if inputs == [] then [] else HandedIn(table, inputs[0]) + HandedInAll(Polled(table, inputs[0]), inputs[1..])
  }

  ghost predicate Once(ids: seq<nat>) {
    forall i, j :: 0 <= i < j < |ids| ==> ids[i] != ids[j]
  }

  /** What is handed over was scheduled before and is settled after. */
  lemma {:induction false} HandedOnceAndSettled(table: Table, ids: seq<nat>, now: int, verdicts: nat -> Verdict)
    ensures Once(Handed(table, ids, now, verdicts))
    ensures forall id :: id in Handed(table, ids, now, verdicts) ==>
                           && id in table && table[id].status == Scheduled
                           && id in SettledAll(table, ids, now, verdicts)
                           && SettledAll(table, ids, now, verdicts)[id].status != Scheduled
    decreases |ids|
  {
    if ids != [] {
      var next := Settled(table, ids[0], now, verdicts(ids[0]));
      HandedOnceAndSettled(next, ids[1..], now, verdicts);
      SettledAllOnlySettles(next, ids[1..], now, verdicts);
      var later := Handed(next, ids[1..], now, verdicts);
      if IsDue(table, ids[0], now) {
        assert next[ids[0]].status != Scheduled;
        assert ids[0] !in later;
      }
    }
  }

  lemma JoinOnce(a: seq<nat>, b: seq<nat>)
    requires Once(a) && Once(b) && forall id :: id in a ==> id !in b
    ensures Once(a + b)
  {
    forall i, j | 0 <= i < j < |a + b| ensures (a + b)[i] != (a + b)[j] {
      if i < |a| <= j {
        assert (a + b)[i] in a && (a + b)[j] in b;
      }
    }
  }

  /** Whatever the clock, the rows that open and the outcomes are at each poll, no
      draft is handed over twice. */
  lemma {:induction false} NoDraftIsHandedOverTwice(table: Table, inputs: seq<PollInput>)
    ensures Once(HandedInAll(table, inputs))
    ensures forall id :: id in HandedInAll(table, inputs) ==> id in table && table[id].status == Scheduled
    ensures OnlySettles(table, PolledAll(table, inputs))
    decreases |inputs|
  {
    if inputs != [] {
      var input := inputs[0];
      var ids := Listing(table, input.now, POLL_LIMIT, input.opens);
      var next := Polled(table, input);
      HandedOnceAndSettled(table, ids, input.now, input.verdicts);
      SettledAllOnlySettles(table, ids, input.now, input.verdicts);
      NoDraftIsHandedOverTwice(next, inputs[1..]);
      JoinOnce(HandedIn(table, input), HandedInAll(next, inputs[1..]));
    }
  }

  // ── Times that do not parse ───────────────────────────────────────────────

  /** What sending a list does to one of its drafts does not depend on the others. */
  lemma {:induction false} EachIsSettledByItself(
    table: Table, ids: seq<nat>, now: int, verdicts: nat -> Verdict, id: nat
  )
    requires id in table
    ensures id in SettledAll(table, ids, now, verdicts)
    ensures SettledAll(table, ids, now, verdicts)[id]
         == if id in ids then Settled(table, id, now, verdicts(id))[id] else table[id]
    ensures id in Handed(table, ids, now, verdicts)
       <==> id in ids && IsDue(table, id, now) && Reached(table[id], verdicts(id))
    decreases |ids|
  {
    if ids != [] {
      var next := Settled(table, ids[0], now, verdicts(ids[0]));
      EachIsSettledByItself(next, ids[1..], now, verdicts, id);
      assert id in ids <==> id == ids[0] || id in ids[1..];
    }
  }

  lemma ListedAreDue(table: Table, now: int, opens: nat -> bool, id: nat)
    requires id in Listing(table, now, POLL_LIMIT, opens)
    ensures opens(id) && id in table && table[id].status == Scheduled && table[id].sendAt.Some?
    ensures table[id].sendAt.value.exact.Some? ==> table[id].sendAt.value.exact.value <= now
  {
    var due := DueList(table, now);
    var first := due[..Min(POLL_LIMIT, |due|)];
    OpenIdsOfAll(first, opens, id);
    var i :| 0 <= i < |first| && first[i].id == id;
    ListedHoldsAll(DueRows(table, now));
    assert due[i] in due;
    InDueRows(table, now, due[i]);
  }

  /** What any poll makes of each draft. A listed one, which is scheduled and due, is sent
      and loses its time if and only if its time, trimmed, is blank or parses and the
      transport accepts it; otherwise it fails and keeps its time. It is handed over
      exactly when its time is in order and nothing refuses it. Inbox and content stay,
      and every other draft is as it was. */
  lemma PollSettlesEachByItsOutcome(table: Table, input: PollInput, id: nat)
    requires id in table
    ensures var row, ids := table[id], Listing(table, input.now, POLL_LIMIT, input.opens);
            var after := Polled(table, input);
            && id in after
            && (id !in ids ==> after[id] == row && id !in HandedIn(table, input))
            && (id in ids ==>
                  && row.status == Scheduled && row.sendAt.Some?
                  && var inOrder := Trim(row.sendAt.value.text) == "" || row.sendAt.value.trimmed.Some?;
                  && after[id] == (if inOrder && input.verdicts(id) == HandedOver(true)
                                   then DraftRow(row.inbox, row.content, None, Sent)
                                   else DraftRow(row.inbox, row.content, row.sendAt, Failed))
                  && (id in HandedIn(table, input) <==> inOrder && input.verdicts(id).HandedOver?))
  {
    var ids := Listing(table, input.now, POLL_LIMIT, input.opens);
    EachIsSettledByItself(table, ids, input.now, input.verdicts, id);
    if id in ids { ListedAreDue(table, input.now, input.opens, id); }
  }

  /** A poll parks the draft as failed and hands nothing over. */
  ghost predicate FailsVisibly(table: Table, input: PollInput, id: nat) {
    && id !in HandedIn(table, input)
    && id in Polled(table, input) && Polled(table, input)[id].status == Failed
  }

  /** The draft's time is `text`, read by `parse`. */
  predicate TimeIs(parse: string -> Option<int>, table: Table, id: nat, text: string) {
    id in table && table[id].sendAt == Some(Read(parse, text))
  }

  /** A listed draft fails visibly, however its sending would go, if and only if its time,
      trimmed, is not blank and does not parse. Parsing the text untrimmed, which decides
      what is due, does not matter here. */
  lemma TimeFailsVisiblyIff(
    parse: string -> Option<int>, table: Table, now: int, opens: nat -> bool, id: nat, text: string
  )
    requires IsDue(table, id, now) && TimeIs(parse, table, id, text)
    requires id in Listing(table, now, POLL_LIMIT, opens)
    ensures (forall verdicts :: FailsVisibly(table, PollInput(now, opens, verdicts), id))
       <==> Trim(text) != "" && parse(Trim(text)) == None
  {
    var ids := Listing(table, now, POLL_LIMIT, opens);
    if InOrder(Read(parse, text)) {
      var accept: nat -> Verdict := _ => HandedOver(true);
      EachIsSettledByItself(table, ids, now, accept, id);
      assert !FailsVisibly(table, PollInput(now, opens, accept), id);
    } else {
      forall verdicts ensures FailsVisibly(table, PollInput(now, opens, verdicts), id) {
        EachIsSettledByItself(table, ids, now, verdicts, id);
      }
    }
  }

  // ── Times with white space around them ────────────────────────────────────

  /** RFC 3339 has no white space at its ends. */
  ghost predicate NoPadding(parse: string -> Option<int>) {
    forall text :: parse(text).Some? ==> Trim(text) == text
  }

  /** A poll hands the draft over before the instant its trimmed time names. */
  ghost predicate GoesOutEarly(parse: string -> Option<int>, table: Table, input: PollInput, id: nat, text: string) {
    id in HandedIn(table, input) && parse(Trim(text)).Some? && input.now < parse(Trim(text)).value
  }

  /** A listed draft goes out early if and only if there is white space around a time
      that still lies ahead and nothing refuses the draft. */
  lemma GoesOutEarlyIff(parse: string -> Option<int>, table: Table, input: PollInput, id: nat, text: string)
    requires NoPadding(parse) && IsDue(table, id, input.now) && TimeIs(parse, table, id, text)
    requires id in Listing(table, input.now, POLL_LIMIT, input.opens)
    ensures GoesOutEarly(parse, table, input, id, text)
       <==> && Trim(text) != text && input.verdicts(id).HandedOver?
            && parse(Trim(text)).Some? && input.now < parse(Trim(text)).value
  {
    var ids := Listing(table, input.now, POLL_LIMIT, input.opens);
    EachIsSettledByItself(table, ids, input.now, input.verdicts, id);
  }

  /** With at most sixteen due drafts, each one that opens is listed. */
  lemma FewDueAreListed(table: Table, now: int, opens: nat -> bool, id: nat)
    requires IsDue(table, id, now) && opens(id) && |DueRows(table, now)| <= POLL_LIMIT
    ensures id in Listing(table, now, POLL_LIMIT, opens)
  {
    var due, row := DueList(table, now), DueRow(table[id].sendAt.value.exact, id);
    InDueRows(table, now, row);
    ListedHoldsAll(DueRows(table, now));
    assert due[..Min(POLL_LIMIT, |due|)] == due;
    OpenIdsOfAll(due, opens, id);
    var i :| 0 <= i < |due| && due[i] == row;
    assert due[i].id == id;
  }

  /** The one draft of a table, scheduled for that text. */
  function OnlyDraft(parse: string -> Option<int>, text: string): Table {
    map[0 := DraftRow("inbox", "body", Some(Read(parse, text)), Scheduled)]
  }

  const READY := (id: nat) => true
  const ACCEPTED := (id: nat) => HandedOver(true)

  /** A padded future time: the draft counts as due at once, is handed over, and ends as
      sent. */
  lemma PaddedTimeGoesOutEarly(parse: string -> Option<int>, text: string, now: int)
    requires NoPadding(parse) && Trim(text) != text
    requires parse(Trim(text)).Some? && now < parse(Trim(text)).value
    ensures var table, input := OnlyDraft(parse, text), PollInput(now, READY, ACCEPTED);
            && GoesOutEarly(parse, table, input, 0, text)
            && 0 in Polled(table, input) && Polled(table, input)[0].status == Sent
  {
    var table, input := OnlyDraft(parse, text), PollInput(now, READY, ACCEPTED);
    OneRow(table, now);
    FewDueAreListed(table, now, READY, 0);
    GoesOutEarlyIff(parse, table, input, 0, text);
    EachIsSettledByItself(table, Listing(table, now, POLL_LIMIT, READY), now, ACCEPTED, 0);
  }

  const TIME := "2026-10-10T09:00:00Z"

  /** One blank behind the time is enough. */
  lemma OneBlankIsEnough(parse: string -> Option<int>, now: int)
    requires NoPadding(parse) && parse(TIME).Some? && now < parse(TIME).value
    ensures GoesOutEarly(parse, OnlyDraft(parse, TIME + " "), PollInput(now, READY, ACCEPTED), 0, TIME + " ")
  {
    TrimmedTime();
    PaddedTimeGoesOutEarly(parse, TIME + " ", now);
  }

  lemma TrimmedTime()
    ensures Trim(TIME + " ") == TIME && TIME + " " != TIME
  {
    assert "" + TIME + " " == TIME + " ";
    TrimGivesTheCore("", TIME, " ");
  }

  lemma OneRow(table: Table, now: int)
    requires table.Keys == {0}
    ensures |DueRows(table, now)| <= 1
  {
    var rows := DueRows(table, now);
    if row :| row in rows {
      assert rows == {row};
    }
  }

  // ── Rows that do not open ─────────────────────────────────────────────────

  lemma ListedOfBoth(a: set<DueRow>, b: set<DueRow>)
    requires forall x, y :: x in a && y in b ==> Less(x, y)
    ensures Listed(a + b) == Listed(a) + Listed(b)
  {
    var list := Listed(a) + Listed(b);
    ListedHoldsAll(a);
    ListedHoldsAll(b);
    ListedHoldsAll(a + b);
    ListedIncreases(a);
    ListedIncreases(b);
    ListedIncreases(a + b);
    forall i, j | 0 <= i < j < |list| ensures Less(list[i], list[j]) {
      if i < |Listed(a)| <= j {
        assert list[i] in Listed(a) && list[j] in Listed(b);
      }
    }
    IncreasingListsAgree(list, Listed(a + b));
  }

  /** What is due later is listed behind what is due now. */
  lemma LaterIsListedBehind(table: Table, now: int, later: int)
    requires now <= later
    ensures DueList(table, now) <= DueList(table, later)
  {
    var a, all := DueRows(table, now), DueRows(table, later);
    var b := all - a;
    forall x, y | x in a && y in b ensures Less(x, y) {
      InDueRows(table, now, x);
      InDueRows(table, now, y);
      InDueRows(table, later, y);
    }
    forall x | x in a ensures x in all {
      InDueRows(table, now, x);
      InDueRows(table, later, x);
    }
    assert a + b == all;
    ListedOfBoth(a, b);
  }

  lemma StuckAtAnyLaterTime(table: Table, now: int, input: PollInput)
    requires |DueList(table, now)| >= POLL_LIMIT && now <= input.now
    requires forall row :: row in FirstDue(table, now) ==> !input.opens(row.id)
    ensures Polled(table, input) == table && HandedIn(table, input) == []
  {
    LaterIsListedBehind(table, now, input.now);
    assert FirstDue(table, input.now) == FirstDue(table, now);
    NothingOpens(FirstDue(table, input.now), input.opens);
  }

  /** Sixteen due drafts that stay unreadable stop the scheduler for good: as long as
      nobody changes the table, every poll from then on, at whatever later time and
      however many other drafts are due, sends nothing and changes nothing. */
  lemma {:induction false} UnreadableDraftsStopTheScheduler(table: Table, now: int, inputs: seq<PollInput>)
    requires |DueList(table, now)| >= POLL_LIMIT
    requires forall input :: input in inputs ==> now <= input.now
    requires forall input, row :: input in inputs && row in FirstDue(table, now) ==> !input.opens(row.id)
    ensures PolledAll(table, inputs) == table && HandedInAll(table, inputs) == []
    decreases |inputs|
  {
    if inputs != [] {
      assert inputs[0] in inputs && (forall input :: input in inputs[1..] ==> input in inputs);
      StuckAtAnyLaterTime(table, now, inputs[0]);
      UnreadableDraftsStopTheScheduler(table, now, inputs[1..]);
    }
  }

  lemma {:induction false} SettledStaysSettled(table: Table, input: PollInput, k: nat, id: nat)
    requires k > 0 && id in table && id in Polled(table, input) && Polled(table, input)[id].status != Scheduled
    ensures id in PolledTimes(table, input, k) && PolledTimes(table, input, k)[id].status != Scheduled
    decreases k
  {
    var before := PolledTimes(table, input, k - 1);
    if k > 1 {
      SettledStaysSettled(table, input, k - 1, id);
      SettledAllOnlySettles(before, Listing(before, input.now, POLL_LIMIT, input.opens), input.now, input.verdicts);
    }
  }

  /** However often it polls at one time, the table stays as it is if and only if none
      of the first sixteen due drafts opens. */
  lemma {:induction false} PollsAreStuckIff(table: Table, input: PollInput, k: nat)
    requires k > 0
    ensures PolledTimes(table, input, k) == table
       <==> forall row :: row in FirstDue(table, input.now) ==> !input.opens(row.id)
    decreases k
  {
    PollProgressesIffAFirstRowOpens(table, input);
    if row :| row in FirstDue(table, input.now) && input.opens(row.id) {
      PollTakesTheFirstThatOpen(table, input, row);
      ListedHoldsAll(DueRows(table, input.now));
      assert row in DueList(table, input.now);
      InDueRows(table, input.now, row);
      InDueRows(Polled(table, input), input.now, row);
      var ids := Listing(table, input.now, POLL_LIMIT, input.opens);
      OpenIdsOfAll(FirstDue(table, input.now), input.opens, row.id);
      var i :| 0 <= i < |FirstDue(table, input.now)| && FirstDue(table, input.now)[i] == row;
      assert FirstDue(table, input.now)[i].id == row.id;
      EachIsSettledByItself(table, ids, input.now, input.verdicts, row.id);
      SettledStaysSettled(table, input, k, row.id);
    } else if k > 1 {
      PollsAreStuckIff(table, input, k - 1);
    } else {
      assert PolledTimes(table, input, 0) == table;
    }
  }
}
