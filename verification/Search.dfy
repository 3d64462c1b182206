/**
 The free-text search over sealed messages: rows are opened in batches, newest
 first, and the store lock is free between two batches.
 */
module Search {
  import opened Options
  import opened Sequences

  const SEARCH_BATCH := 200
  const SEARCH_SCAN_LIMIT := 1000

  /** A sealed column: what it opens to, or that it does not open. */
  datatype Cell = Opens(text: string) | DoesNotOpen

  datatype Row = Row(
    id: string, fromAddr: Cell, toAddrs: Cell, ccAddrs: Cell, bccAddrs: Cell, subject: Cell,
    text: Option<Cell>, html: Option<Cell>)

  datatype Verdict = Match(id: string) | NoMatch | Unreadable

  // ── One row ───────────────────────────────────────────────────────────────

  function AsciiLower(c: char): char {
    if 'A' <= c <= 'Z' then (c as int + 32) as char else c
  }

  function Lower(s: string): (lower: string)
    ensures |lower| == |s| && forall i :: 0 <= i < |s| ==> lower[i] == AsciiLower(s[i])
  {
    seq(|s|, i requires 0 <= i < |s| => AsciiLower(s[i]))
  }

  predicate Contains(s: string, needle: string) {
    exists i :: 0 <= i <= |s| - |needle| && OccursAt(s, needle, i)
  }

  predicate OccursAt(s: string, needle: string, i: nat) {
    i + |needle| <= |s| && s[i..i + |needle|] == needle
  }

  predicate Hits(cell: Cell, needle: string) {
    cell.Opens? && Contains(Lower(cell.text), needle)
  }

  function Present(cell: Option<Cell>): seq<Cell> {
    match cell case None => [] case Some(c) => [c]
  }

  /** The columns in the order they are opened: addresses and subject first. */
  function Columns(row: Row): seq<Cell> {
    [row.fromAddr, row.subject, row.toAddrs, row.ccAddrs, row.bccAddrs] + Present(row.text) + Present(row.html)
  }

  method OpenRow(row: Row, needle: string) returns (verdict: Verdict)
    ensures verdict == Judging(needle)(row)
  {
    var columns := Columns(row);
    var next := 0;
    while next < |columns|
      invariant 0 <= next <= |columns|
      invariant Judge(row.id, columns[next..], needle) == Judge(row.id, columns, needle)
    {
      if columns[next].DoesNotOpen? {
        return Unreadable;
      }
      if Hits(columns[next], needle) {
        return Match(row.id);
      }
      next := next + 1;
    }
    return NoMatch;
  }

  function Judge(id: string, columns: seq<Cell>, needle: string): Verdict {
    if columns == [] then NoMatch
    else if columns[0].DoesNotOpen? then Unreadable
    else if Hits(columns[0], needle) then Match(id)
    else Judge(id, columns[1..], needle)
  }

  /** Column `k` hits and every column before it opens. */
  ghost predicate HitAt(columns: seq<Cell>, needle: string, k: nat) {
    k < |columns| && Hits(columns[k], needle) && forall j :: 0 <= j < k ==> columns[j].Opens?
  }

  /** Column `k` does not open and no column before it hits. */
  ghost predicate FailsAt(columns: seq<Cell>, needle: string, k: nat) {
    k < |columns| && columns[k].DoesNotOpen? && forall j :: 0 <= j < k ==> !Hits(columns[j], needle)
  }

  lemma HitAtNext(columns: seq<Cell>, needle: string, k: nat)
    requires columns != []
    ensures HitAt(columns, needle, k + 1) <==> columns[0].Opens? && HitAt(columns[1..], needle, k)
  {
    var rest := columns[1..];
    assert forall j :: 0 < j < |columns| ==> columns[j] == rest[j - 1];
    if columns[0].Opens? && HitAt(rest, needle, k) {
      assert HitAt(columns, needle, k + 1);
    }
    if HitAt(columns, needle, k + 1) {
      assert forall j :: 0 <= j < k ==> rest[j] == columns[j + 1];
    }
  }

  lemma FailsAtNext(columns: seq<Cell>, needle: string, k: nat)
    requires columns != []
    ensures FailsAt(columns, needle, k + 1) <==> !Hits(columns[0], needle) && FailsAt(columns[1..], needle, k)
  {
    var rest := columns[1..];
    assert forall j :: 0 < j < |columns| ==> columns[j] == rest[j - 1];
    if FailsAt(columns, needle, k + 1) {
      assert forall j :: 0 <= j < k ==> rest[j] == columns[j + 1];
    }
  }

  /** A row matches when some column hits and all before it open. */
  lemma {:induction false} MatchMeansAHit(id: string, columns: seq<Cell>, needle: string)
    ensures Judge(id, columns, needle).Match? <==> exists k :: HitAt(columns, needle, k)
    ensures Judge(id, columns, needle).Match? ==> Judge(id, columns, needle).id == id
  {
    if columns != [] {
      MatchMeansAHit(id, columns[1..], needle);
      if Judge(id, columns, needle).Match? {
        if Hits(columns[0], needle) {
          assert HitAt(columns, needle, 0);
        } else {
          var k :| HitAt(columns[1..], needle, k);
          HitAtNext(columns, needle, k);
        }
      }
      if k: nat :| HitAt(columns, needle, k) {
        if k > 0 { HitAtNext(columns, needle, k - 1); }
      }
    }
  }

  /** A row is skipped when some column does not open and none before it hits. */
  lemma {:induction false} UnreadableMeansAFailure(id: string, columns: seq<Cell>, needle: string)
    ensures Judge(id, columns, needle).Unreadable? <==> exists k :: FailsAt(columns, needle, k)
  {
    if columns != [] {
      UnreadableMeansAFailure(id, columns[1..], needle);
      if Judge(id, columns, needle).Unreadable? {
        if columns[0].DoesNotOpen? {
          assert FailsAt(columns, needle, 0);
        } else {
          var k :| FailsAt(columns[1..], needle, k);
          FailsAtNext(columns, needle, k);
        }
      }
      if k: nat :| FailsAt(columns, needle, k) {
        if k > 0 { FailsAtNext(columns, needle, k - 1); }
      }
    }
  }

  function Judging(needle: string): Row -> Verdict {
    (row: Row) => Judge(row.id, Columns(row), needle)
  }

  // ── Which rows match ──────────────────────────────────────────────────────

  /** A character of the text reads as one of the needle: alike, or a capital letter of
      ASCII where the needle has the small one. */
  predicate ReadsAs(c: char, wanted: char) {
    if 'A' <= c <= 'Z' then wanted as int == c as int - 'A' as int + 'a' as int else c == wanted
  }

  /** The needle is in the text from place `i` on. */
  predicate ShowsAt(text: string, needle: string, i: nat) {
    i + |needle| <= |text| && forall j :: 0 <= j < |needle| ==> ReadsAs(text[i + j], needle[j])
  }

  ghost predicate Shows(cell: Cell, needle: string) {
    cell.Opens? && exists i :: ShowsAt(cell.text, needle, i)
  }

  lemma HitsIffShows(cell: Cell, needle: string)
    ensures Hits(cell, needle) <==> Shows(cell, needle)
  {
    if cell.Opens? {
      var text := cell.text;
      if i :| 0 <= i <= |Lower(text)| - |needle| && OccursAt(Lower(text), needle, i) {
        forall j | 0 <= j < |needle| ensures ReadsAs(text[i + j], needle[j]) {
          assert needle[j] == Lower(text)[i..i + |needle|][j];
        }
        assert ShowsAt(text, needle, i);
      }
      if i: nat :| ShowsAt(text, needle, i) {
        forall j | 0 <= j < |needle| ensures Lower(text)[i..i + |needle|][j] == needle[j] {
          assert ReadsAs(text[i + j], needle[j]);
        }
        assert OccursAt(Lower(text), needle, i);
      }
    }
  }

  /** The first of some cells that shows the needle or does not open decides. */
  ghost function Decided(row: Row, cells: seq<Cell>, needle: string): Verdict {
    if cells == [] then NoMatch
    else if cells[0].DoesNotOpen? then Unreadable
    else if Shows(cells[0], needle) then Match(row.id)
    else Decided(row, cells[1..], needle)
  }

  lemma {:induction false} JudgeDecides(row: Row, cells: seq<Cell>, needle: string)
    ensures Judge(row.id, cells, needle) == Decided(row, cells, needle)
  {
    if cells != [] {
      HitsIffShows(cells[0], needle);
      JudgeDecides(row, cells[1..], needle);
    }
  }

  predicate Readable(row: Row) {
    && row.fromAddr.Opens? && row.subject.Opens? && row.toAddrs.Opens? && row.ccAddrs.Opens? && row.bccAddrs.Opens?
    && (row.text.Some? ==> row.text.value.Opens?) && (row.html.Some? ==> row.html.value.Opens?)
  }

  /** Among the addresses and the subject, or in a body the row has. */
  ghost predicate ShowsSomewhere(row: Row, needle: string) {
    || Shows(row.fromAddr, needle) || Shows(row.subject, needle) || Shows(row.toAddrs, needle)
    || Shows(row.ccAddrs, needle) || Shows(row.bccAddrs, needle)
    || (row.text.Some? && Shows(row.text.value, needle)) || (row.html.Some? && Shows(row.html.value, needle))
  }

  lemma DecidedByTheHead(row: Row, bodies: seq<Cell>, needle: string)
    ensures Decided(row, [row.fromAddr, row.subject, row.toAddrs, row.ccAddrs, row.bccAddrs] + bodies, needle)
         == if row.fromAddr.DoesNotOpen? then Unreadable else if Shows(row.fromAddr, needle) then Match(row.id)
            else if row.subject.DoesNotOpen? then Unreadable else if Shows(row.subject, needle) then Match(row.id)
            else if row.toAddrs.DoesNotOpen? then Unreadable else if Shows(row.toAddrs, needle) then Match(row.id)
            else if row.ccAddrs.DoesNotOpen? then Unreadable else if Shows(row.ccAddrs, needle) then Match(row.id)
            else if row.bccAddrs.DoesNotOpen? then Unreadable else if Shows(row.bccAddrs, needle) then Match(row.id)
            else Decided(row, bodies, needle)
  {
    var head := [row.fromAddr, row.subject, row.toAddrs, row.ccAddrs, row.bccAddrs];
    assert head + bodies == [row.fromAddr] + ([row.subject, row.toAddrs, row.ccAddrs, row.bccAddrs] + bodies);
    DecidedStep(row, row.fromAddr, [row.subject, row.toAddrs, row.ccAddrs, row.bccAddrs] + bodies, needle);
    assert [row.subject, row.toAddrs, row.ccAddrs, row.bccAddrs] + bodies
        == [row.subject] + ([row.toAddrs, row.ccAddrs, row.bccAddrs] + bodies);
    DecidedStep(row, row.subject, [row.toAddrs, row.ccAddrs, row.bccAddrs] + bodies, needle);
    assert [row.toAddrs, row.ccAddrs, row.bccAddrs] + bodies
        == [row.toAddrs] + ([row.ccAddrs, row.bccAddrs] + bodies);
    DecidedStep(row, row.toAddrs, [row.ccAddrs, row.bccAddrs] + bodies, needle);
    assert [row.ccAddrs, row.bccAddrs] + bodies == [row.ccAddrs] + ([row.bccAddrs] + bodies);
    DecidedStep(row, row.ccAddrs, [row.bccAddrs] + bodies, needle);
    DecidedStep(row, row.bccAddrs, bodies, needle);
  }

  lemma DecidedStep(row: Row, cell: Cell, later: seq<Cell>, needle: string)
    ensures Decided(row, [cell] + later, needle)
         == if cell.DoesNotOpen? then Unreadable
            else if Shows(cell, needle) then Match(row.id)
            else Decided(row, later, needle)
  {
    assert ([cell] + later)[1..] == later;
  }

  lemma DecidedByTheBodies(row: Row, needle: string)
    ensures Decided(row, Present(row.text) + Present(row.html), needle)
         == if row.text.Some? && row.text.value.DoesNotOpen? then Unreadable
            else if row.text.Some? && Shows(row.text.value, needle) then Match(row.id)
            else if row.html.Some? && row.html.value.DoesNotOpen? then Unreadable
            else if row.html.Some? && Shows(row.html.value, needle) then Match(row.id)
            else NoMatch
  {
    if row.html.Some? {
      DecidedStep(row, row.html.value, [], needle);
      assert [row.html.value] + [] == Present(row.html);
    }
    if row.text.Some? {
      DecidedStep(row, row.text.value, Present(row.html), needle);
    } else {
      assert [] + Present(row.html) == Present(row.html);
    }
  }

  lemma JudgedByItsCells(row: Row, needle: string)
    ensures Judging(needle)(row)
         == if row.fromAddr.DoesNotOpen? then Unreadable else if Shows(row.fromAddr, needle) then Match(row.id)
            else if row.subject.DoesNotOpen? then Unreadable else if Shows(row.subject, needle) then Match(row.id)
            else if row.toAddrs.DoesNotOpen? then Unreadable else if Shows(row.toAddrs, needle) then Match(row.id)
            else if row.ccAddrs.DoesNotOpen? then Unreadable else if Shows(row.ccAddrs, needle) then Match(row.id)
            else if row.bccAddrs.DoesNotOpen? then Unreadable else if Shows(row.bccAddrs, needle) then Match(row.id)
            else if row.text.Some? && row.text.value.DoesNotOpen? then Unreadable
            else if row.text.Some? && Shows(row.text.value, needle) then Match(row.id)
            else if row.html.Some? && row.html.value.DoesNotOpen? then Unreadable
            else if row.html.Some? && Shows(row.html.value, needle) then Match(row.id)
            else NoMatch
  {
    JudgeDecides(row, Columns(row), needle);
    DecidedByTheHead(row, Present(row.text) + Present(row.html), needle);
    DecidedByTheBodies(row, needle);
    assert Columns(row) == [row.fromAddr, row.subject, row.toAddrs, row.ccAddrs, row.bccAddrs]
                           + (Present(row.text) + Present(row.html));
  }

  /** A row that opens matches exactly when its sender, its subject, one of its other
      addresses or one of its bodies shows the needle. */
  lemma ReadableRowMatchesIff(row: Row, needle: string)
    requires Readable(row)
    ensures Judging(needle)(row) == if ShowsSomewhere(row, needle) then Match(row.id) else NoMatch
  {
    JudgedByItsCells(row, needle);
  }

  /** A row is skipped exactly when a cell does not open and nothing read before it shows
      the needle: sender, subject, recipients, copies, blind copies, text, HTML. */
  lemma RowIsSkippedIff(row: Row, needle: string)
    ensures Judging(needle)(row) == Unreadable
       <==> || row.fromAddr.DoesNotOpen?
            || (!Shows(row.fromAddr, needle)
                && (|| row.subject.DoesNotOpen?
                    || (!Shows(row.subject, needle)
                        && (|| row.toAddrs.DoesNotOpen?
                            || (!Shows(row.toAddrs, needle)
                                && (|| row.ccAddrs.DoesNotOpen?
                                    || (!Shows(row.ccAddrs, needle)
                                        && (|| row.bccAddrs.DoesNotOpen?
                                            || (!Shows(row.bccAddrs, needle) && BodiesAreSkipped(row, needle))))))))))
  {
    JudgedByItsCells(row, needle);
  }

  ghost predicate BodiesAreSkipped(row: Row, needle: string) {
    || (row.text.Some? && row.text.value.DoesNotOpen?)
    || (&& (row.text.Some? ==> !Shows(row.text.value, needle))
        && row.html.Some? && row.html.value.DoesNotOpen?)
  }

  // ── The batched scan ──────────────────────────────────────────────────────

  /** `LIMIT ? OFFSET ?` over the filtered rows, newest first. */
  function Page(rows: seq<Row>, offset: nat, size: nat): seq<Row> {
    rows[Min(offset, |rows|)..Min(offset + size, |rows|)]
  }

  /** The ids of the rows that open and match, in order. */
  function Matches(rows: seq<Row>, judge: Row -> Verdict): seq<string> {
    if rows == [] then []
    else
      (match judge(rows[0]) case Match(id) => [id] case _ => [])
      + Matches(rows[1..], judge)
  }

  function Truncate(ids: seq<string>, limit: nat): seq<string> {
    ids[..Min(limit, |ids|)]
  }

  /** What batch `k` and the ones after it add; `tableAt(k)` is the filtered table
      when batch `k` is read. */
  function ScanFrom(
    tableAt: nat -> seq<Row>, judge: Row -> Verdict, limit: nat, k: nat, matched: seq<string>
  ): seq<string>
    decreases SEARCH_SCAN_LIMIT - SEARCH_BATCH * k
  {
    if |matched| >= limit || SEARCH_BATCH * k >= SEARCH_SCAN_LIMIT then matched
    else
      var batch := Page(tableAt(k), SEARCH_BATCH * k, SEARCH_BATCH);
      var more := matched + Matches(batch, judge);
      if |batch| < SEARCH_BATCH then more else ScanFrom(tableAt, judge, limit, k + 1, more)
  }

  lemma ScanStep(tableAt: nat -> seq<Row>, judge: Row -> Verdict, limit: nat, k: nat, matched: seq<string>)
    requires |matched| < limit && SEARCH_BATCH * k < SEARCH_SCAN_LIMIT
    ensures var batch := Page(tableAt(k), SEARCH_BATCH * k, SEARCH_BATCH);
            var more := matched + Matches(batch, judge);
            ScanFrom(tableAt, judge, limit, k, matched)
            == if |batch| < SEARCH_BATCH then more else ScanFrom(tableAt, judge, limit, k + 1, more)
  {
  }

  function Found(tableAt: nat -> seq<Row>, judge: Row -> Verdict, limit: nat): seq<string> {
    Truncate(ScanFrom(tableAt, judge, limit, 0, []), limit)
  }

  method OpenBatch(batch: seq<Row>, needle: string) returns (ids: seq<string>, unreadable: nat)
    ensures ids == Matches(batch, Judging(needle))
  {
    ids, unreadable := [], 0;
    for next := 0 to |batch|
      invariant ids == Matches(batch[..next], Judging(needle))
    {
      MatchesSnoc(batch, next, Judging(needle));
      var verdict := OpenRow(batch[next], needle);
      match verdict {
        case Match(id) => ids := ids + [id];
        case NoMatch =>
        case Unreadable => unreadable := unreadable + 1;
      }
    }
    assert batch[..|batch|] == batch;
  }

  method SearchMessageIds(tableAt: nat -> seq<Row>, needle: string, limit: nat)
    returns (matched: seq<string>, skipped: nat)
    ensures matched == Found(tableAt, Judging(needle), limit)
  {
    ghost var judge := Judging(needle);
    matched, skipped := [], 0;
    var scanned, batches := 0, 0;
    while |matched| < limit && scanned < SEARCH_SCAN_LIMIT
      invariant scanned == SEARCH_BATCH * batches
      invariant ScanFrom(tableAt, judge, limit, batches, matched) == ScanFrom(tableAt, judge, limit, 0, [])
      decreases SEARCH_SCAN_LIMIT - scanned
    {
      ScanStep(tableAt, judge, limit, batches, matched);
      var batch := Page(tableAt(batches), scanned, SEARCH_BATCH);
      scanned := scanned + |batch|;
      var more, unreadable := OpenBatch(batch, needle);
      matched, skipped := matched + more, skipped + unreadable;
      if |batch| < SEARCH_BATCH {
        break;
      }
      batches := batches + 1;
    }
    matched := Truncate(matched, limit);
  }

  lemma {:induction false} MatchesAppend(a: seq<Row>, b: seq<Row>, judge: Row -> Verdict)
    ensures Matches(a + b, judge) == Matches(a, judge) + Matches(b, judge)
  {
    if a == [] {
      assert a + b == b;
    } else {
      MatchesAppend(a[1..], b, judge);
      assert (a + b)[1..] == a[1..] + b && (a + b)[0] == a[0];
      var first := match judge(a[0]) case Match(id) => [id] case _ => [];
      assert first + (Matches(a[1..], judge) + Matches(b, judge))
          == (first + Matches(a[1..], judge)) + Matches(b, judge);
    }
  }

  lemma MatchesSnoc(rows: seq<Row>, n: nat, judge: Row -> Verdict)
    requires n < |rows|
    ensures Matches(rows[..n + 1], judge)
         == Matches(rows[..n], judge)
            + (match judge(rows[n]) case Match(id) => [id] case _ => [])
  {
    assert rows[..n + 1] == rows[..n] + [rows[n]];
    MatchesAppend(rows[..n], [rows[n]], judge);
    assert Matches([rows[n]][1..], judge) == [];
  }

  // ── What the batches read ─────────────────────────────────────────────────

  /** The rows batch `k` and the later ones read when the limit never stops them. */
  function ReadFrom(tableAt: nat -> seq<Row>, k: nat): seq<Row>
    decreases SEARCH_SCAN_LIMIT - SEARCH_BATCH * k
  {
    if SEARCH_BATCH * k >= SEARCH_SCAN_LIMIT then []
    else
      var batch := Page(tableAt(k), SEARCH_BATCH * k, SEARCH_BATCH);
      if |batch| < SEARCH_BATCH then batch else batch + ReadFrom(tableAt, k + 1)
  }

  lemma ReadStep(tableAt: nat -> seq<Row>, k: nat)
    requires SEARCH_BATCH * k < SEARCH_SCAN_LIMIT
    ensures var batch := Page(tableAt(k), SEARCH_BATCH * k, SEARCH_BATCH);
            ReadFrom(tableAt, k) == if |batch| < SEARCH_BATCH then batch else batch + ReadFrom(tableAt, k + 1)
  {
  }

  lemma TruncateExtends(a: seq<string>, b: seq<string>, limit: nat)
    requires |a| >= limit
    ensures Truncate(a + b, limit) == Truncate(a, limit)
  {
  }

  lemma {:induction false} ScanIsTruncatedRead(
    tableAt: nat -> seq<Row>, judge: Row -> Verdict, limit: nat, k: nat, matched: seq<string>
  )
    ensures Truncate(ScanFrom(tableAt, judge, limit, k, matched), limit)
         == Truncate(matched + Matches(ReadFrom(tableAt, k), judge), limit)
    decreases SEARCH_SCAN_LIMIT - SEARCH_BATCH * k
  {
    if |matched| >= limit {
      TruncateExtends(matched, Matches(ReadFrom(tableAt, k), judge), limit);
    } else if SEARCH_BATCH * k >= SEARCH_SCAN_LIMIT {
      assert matched + [] == matched;
    } else {
      ScanStep(tableAt, judge, limit, k, matched);
      ReadStep(tableAt, k);
      var batch := Page(tableAt(k), SEARCH_BATCH * k, SEARCH_BATCH);
      if |batch| == SEARCH_BATCH {
        var rest := ReadFrom(tableAt, k + 1);
        ScanIsTruncatedRead(tableAt, judge, limit, k + 1, matched + Matches(batch, judge));
        MatchesAppend(batch, rest, judge);
        Associative(matched, Matches(batch, judge), Matches(rest, judge));
      }
    }
  }

  /** Early stop, overshoot and truncation never show: whatever the tables, the
      result is the first `limit` matches of the rows the batches read. */
  lemma FoundIsTheFirstMatches(tableAt: nat -> seq<Row>, judge: Row -> Verdict, limit: nat)
    ensures Found(tableAt, judge, limit) == Truncate(Matches(ReadFrom(tableAt, 0), judge), limit)
  {
    ScanIsTruncatedRead(tableAt, judge, limit, 0, []);
    assert [] + Matches(ReadFrom(tableAt, 0), judge) == Matches(ReadFrom(tableAt, 0), judge);
  }

  // ── On a table that does not change ───────────────────────────────────────

  function Still(rows: seq<Row>): nat -> seq<Row> {
    (k: nat) => rows
  }

  lemma {:induction false} ReadOfStill(rows: seq<Row>, k: nat)
    requires SEARCH_BATCH * k <= SEARCH_SCAN_LIMIT && SEARCH_BATCH * k <= |rows|
    ensures ReadFrom(Still(rows), k) == rows[SEARCH_BATCH * k..Min(SEARCH_SCAN_LIMIT, |rows|)]
    decreases SEARCH_SCAN_LIMIT - SEARCH_BATCH * k
  {
    var offset, end := SEARCH_BATCH * k, Min(SEARCH_SCAN_LIMIT, |rows|);
    if offset < SEARCH_SCAN_LIMIT {
      ReadStep(Still(rows), k);
      if offset + SEARCH_BATCH <= |rows| {
        ReadOfStill(rows, k + 1);
        SliceInTwo(rows, offset, offset + SEARCH_BATCH, end);
      }
    }
  }

  lemma SliceInTwo(rows: seq<Row>, a: nat, b: nat, c: nat)
    requires a <= b <= c <= |rows|
    ensures rows[a..c] == rows[a..b] + rows[b..c]
  {
  }

  /** Batches never show: the result is the first `limit` matches among the first
      thousand rows. */
  lemma SearchIsOneScan(rows: seq<Row>, judge: Row -> Verdict, limit: nat)
    ensures Found(Still(rows), judge, limit)
         == Truncate(Matches(rows[..Min(SEARCH_SCAN_LIMIT, |rows|)], judge), limit)
  {
    FoundIsTheFirstMatches(Still(rows), judge, limit);
    ReadOfStill(rows, 0);
  }

  // ── On a table that changes ───────────────────────────────────────────────

  /** Each page read, from page `k` on, is that page of the first table. */
  ghost predicate PagesAgree(tableAt: nat -> seq<Row>, k: nat)
    decreases SEARCH_SCAN_LIMIT - SEARCH_BATCH * k
  {
    SEARCH_BATCH * k < SEARCH_SCAN_LIMIT ==>
      var page := Page(tableAt(k), SEARCH_BATCH * k, SEARCH_BATCH);
      && page == Page(tableAt(0), SEARCH_BATCH * k, SEARCH_BATCH)
      && (|page| == SEARCH_BATCH ==> PagesAgree(tableAt, k + 1))
  }

  lemma {:induction false} PagesAgreeMeansSameRead(tableAt: nat -> seq<Row>, k: nat)
    ensures PagesAgree(tableAt, k) <==> ReadFrom(tableAt, k) == ReadFrom(Still(tableAt(0)), k)
    decreases SEARCH_SCAN_LIMIT - SEARCH_BATCH * k
  {
    if SEARCH_BATCH * k < SEARCH_SCAN_LIMIT {
      ReadStep(tableAt, k);
      ReadStep(Still(tableAt(0)), k);
      PagesAgreeMeansSameRead(tableAt, k + 1);
      var a := Page(tableAt(k), SEARCH_BATCH * k, SEARCH_BATCH);
      var b := Page(tableAt(0), SEARCH_BATCH * k, SEARCH_BATCH);
      if |a| == |b| == SEARCH_BATCH && ReadFrom(tableAt, k) == ReadFrom(Still(tableAt(0)), k) {
        SameParts(a, ReadFrom(tableAt, k + 1), b, ReadFrom(Still(tableAt(0)), k + 1));
      }
    }
  }

  /** Matches every row and tells two apart. */
  function Telling(p: Row, q: Row): Row -> Verdict {
    (row: Row) => Match(if row == p then "p" else if row == q then "q" else "other")
  }

  lemma {:induction false} EveryRowMatches(rows: seq<Row>, p: Row, q: Row)
    ensures |Matches(rows, Telling(p, q))| == |rows|
    ensures forall i :: 0 <= i < |rows| ==> Matches(rows, Telling(p, q))[i] == Telling(p, q)(rows[i]).id
  {
    if rows != [] {
      EveryRowMatches(rows[1..], p, q);
    }
  }

  ghost predicate SameAsAtFirst(tableAt: nat -> seq<Row>, judge: Row -> Verdict, limit: nat) {
    Found(tableAt, judge, limit) == Found(Still(tableAt(0)), judge, limit)
  }

  lemma ListsTellApart(a: seq<Row>, b: seq<Row>) returns (judge: Row -> Verdict, limit: nat)
    requires a != b
    ensures Truncate(Matches(a, judge), limit) != Truncate(Matches(b, judge), limit)
  {
    limit := |a| + |b|;
    if |a| != |b| {
      var row := if a != [] then a[0] else b[0];
      judge := Telling(row, row);
      EveryRowMatches(a, row, row);
      EveryRowMatches(b, row, row);
    } else {
      var i :| 0 <= i < |a| && a[i] != b[i];
      judge := Telling(a[i], b[i]);
      EveryRowMatches(a, a[i], b[i]);
      EveryRowMatches(b, a[i], b[i]);
      assert Truncate(Matches(a, judge), limit)[i] == "p";
      assert Truncate(Matches(b, judge), limit)[i] == "q";
    }
  }

  lemma DifferentReadsShow(tableAt: nat -> seq<Row>)
    requires ReadFrom(tableAt, 0) != ReadFrom(Still(tableAt(0)), 0)
    ensures exists judge, limit :: !SameAsAtFirst(tableAt, judge, limit)
  {
    var judge, limit := ListsTellApart(ReadFrom(tableAt, 0), ReadFrom(Still(tableAt(0)), 0));
    FoundIsTheFirstMatches(tableAt, judge, limit);
    FoundIsTheFirstMatches(Still(tableAt(0)), judge, limit);
    assert !SameAsAtFirst(tableAt, judge, limit);
  }

  /** Changes between batches go unnoticed by every search, whatever it looks for and
      however many it wants, if and only if each page it reads is that page of the
      table it began with. */
  lemma ChangesGoUnnoticedIff(tableAt: nat -> seq<Row>)
    ensures (forall judge, limit :: SameAsAtFirst(tableAt, judge, limit)) <==> PagesAgree(tableAt, 0)
  {
    PagesAgreeMeansSameRead(tableAt, 0);
    if PagesAgree(tableAt, 0) {
      forall judge, limit ensures SameAsAtFirst(tableAt, judge, limit) {
        FoundIsTheFirstMatches(tableAt, judge, limit);
        FoundIsTheFirstMatches(Still(tableAt(0)), judge, limit);
      }
    } else {
      DifferentReadsShow(tableAt);
    }
  }

  lemma MatchesUpTo(rows: seq<Row>, m: nat, judge: Row -> Verdict)
    requires m <= |rows|
    ensures Matches(rows, judge) == Matches(rows[..m], judge) + Matches(rows[m..], judge)
  {
    assert rows == rows[..m] + rows[m..];
    MatchesAppend(rows[..m], rows[m..], judge);
  }

  /** The place a matching row takes among the matches. */
  lemma MatchHasItsPlace(rows: seq<Row>, judge: Row -> Verdict, i: nat)
    requires i < |rows| && judge(rows[i]).Match?
    ensures var place := |Matches(rows[..i], judge)|;
            place < |Matches(rows, judge)| && Matches(rows, judge)[place] == judge(rows[i]).id
  {
    MatchesSnoc(rows, i, judge);
    MatchesUpTo(rows, i + 1, judge);
  }

  lemma {:induction false} PlaceHasItsMatch(rows: seq<Row>, judge: Row -> Verdict, place: nat) returns (i: nat)
    requires place < |Matches(rows, judge)|
    ensures i < |rows| && |Matches(rows[..i], judge)| == place
    ensures judge(rows[i]) == Match(Matches(rows, judge)[place])
    decreases |rows|
  {
    var last := |rows| - 1;
    MatchesSnoc(rows, last, judge);
    assert rows[..last + 1] == rows;
    if place < |Matches(rows[..last], judge)| {
      i := PlaceHasItsMatch(rows[..last], judge, place);
      assert rows[..last][..i] == rows[..i];
    } else {
      i := last;
    }
  }

  /** Row `i` of those read matches as `id`, and fewer than `limit` of the rows read
      before it match: a row read again counts again. */
  ghost predicate ReturnedAt(read: seq<Row>, judge: Row -> Verdict, limit: nat, id: string, i: nat) {
    i < |read| && judge(read[i]) == Match(id) && |Matches(read[..i], judge)| < limit
  }

  /** Exactly when an id is returned. */
  lemma IdIsReturnedIff(tableAt: nat -> seq<Row>, judge: Row -> Verdict, limit: nat, id: string)
    ensures id in Found(tableAt, judge, limit)
       <==> exists i :: ReturnedAt(ReadFrom(tableAt, 0), judge, limit, id, i)
  {
    var read := ReadFrom(tableAt, 0);
    FoundIsTheFirstMatches(tableAt, judge, limit);
    if id in Found(tableAt, judge, limit) {
      var place :| 0 <= place < |Found(tableAt, judge, limit)| && Found(tableAt, judge, limit)[place] == id;
      var i := PlaceHasItsMatch(read, judge, place);
      assert ReturnedAt(read, judge, limit, id, i);
    }
    if i: nat :| ReturnedAt(read, judge, limit, id, i) {
      MatchHasItsPlace(read, judge, i);
      var place := |Matches(read[..i], judge)|;
      assert Truncate(Matches(read, judge), limit)[place] == id;
    }
  }

  // ── While mail arrives ────────────────────────────────────────────────────

  /** Rows were added anywhere and none went away: `places` says where each row of
      before is now. */
  ghost predicate Grows(before: seq<Row>, after: seq<Row>, places: seq<nat>) {
    && |places| == |before|
    && (forall i, j :: 0 <= i < j < |places| ==> places[i] < places[j])
    && (forall i :: 0 <= i < |places| ==> places[i] < |after| && after[places[i]] == before[i])
  }

  ghost predicate RowsArrive(tableAt: nat -> seq<Row>, places: nat -> seq<nat>, k: nat) {
    Grows(tableAt(k), tableAt(k + 1), places(k))
  }

  /** Between two batches rows are only added, in front or further down. */
  ghost predicate OnlyArrivals(tableAt: nat -> seq<Row>, places: nat -> seq<nat>) {
    forall k: nat :: RowsArrive(tableAt, places, k)
  }

  /** The place at batch `k` of row `i` of the first table. */
  ghost function PlaceAt(tableAt: nat -> seq<Row>, places: nat -> seq<nat>, i: nat, k: nat): (place: nat)
    requires OnlyArrivals(tableAt, places) && i < |tableAt(0)|
    ensures place < |tableAt(k)| && tableAt(k)[place] == tableAt(0)[i]
    decreases k
  {
    if k == 0 then i
    else
      assert RowsArrive(tableAt, places, k - 1);
      places(k - 1)[PlaceAt(tableAt, places, i, k - 1)]
  }

  lemma {:induction false} RowsOnlyMoveDown(before: seq<Row>, after: seq<Row>, places: seq<nat>, i: nat)
    requires Grows(before, after, places) && i < |places|
    ensures i <= places[i]
  {
    if i > 0 {
      RowsOnlyMoveDown(before, after, places, i - 1);
    }
  }

  const LAST_BATCH := 4

  /** A scan that stands at or before a row's place reads the row. */
  lemma {:induction false} ReadComesTo(tableAt: nat -> seq<Row>, places: nat -> seq<nat>, k: nat, i: nat)
    requires OnlyArrivals(tableAt, places) && i < |tableAt(0)| && k <= LAST_BATCH
    requires SEARCH_BATCH * k <= PlaceAt(tableAt, places, i, k)
    requires PlaceAt(tableAt, places, i, LAST_BATCH) < SEARCH_SCAN_LIMIT
    ensures tableAt(0)[i] in ReadFrom(tableAt, k)
    decreases LAST_BATCH - k
  {
    var place := PlaceAt(tableAt, places, i, k);
    if place < SEARCH_BATCH * k + SEARCH_BATCH {
      RowOnThePageIsRead(tableAt, k, place);
    } else {
      assert RowsArrive(tableAt, places, k);
      RowsOnlyMoveDown(tableAt(k), tableAt(k + 1), places(k), place);
      ReadComesTo(tableAt, places, k + 1, i);
      ReadGoesOn(tableAt, k, tableAt(0)[i]);
    }
  }

  lemma RowOnThePageIsRead(tableAt: nat -> seq<Row>, k: nat, place: nat)
    requires k <= LAST_BATCH && SEARCH_BATCH * k <= place < SEARCH_BATCH * k + SEARCH_BATCH
    requires place < |tableAt(k)|
    ensures tableAt(k)[place] in ReadFrom(tableAt, k)
  {
    var batch := Page(tableAt(k), SEARCH_BATCH * k, SEARCH_BATCH);
    ReadStep(tableAt, k);
    assert batch[place - SEARCH_BATCH * k] == tableAt(k)[place];
  }

  lemma ReadGoesOn(tableAt: nat -> seq<Row>, k: nat, row: Row)
    requires k <= LAST_BATCH && SEARCH_BATCH * k + SEARCH_BATCH <= |tableAt(k)|
    requires row in ReadFrom(tableAt, k + 1)
    ensures row in ReadFrom(tableAt, k)
  {
    ReadStep(tableAt, k);
  }

  /** Mail that arrives during a search, wherever it lands, makes the search skip no row:
      each row that is still among the first thousand at the last batch is read. */
  lemma ArrivalsSkipNoRow(tableAt: nat -> seq<Row>, places: nat -> seq<nat>, i: nat)
    requires OnlyArrivals(tableAt, places) && i < |tableAt(0)|
    requires PlaceAt(tableAt, places, i, LAST_BATCH) < SEARCH_SCAN_LIMIT
    ensures tableAt(0)[i] in ReadFrom(tableAt, 0)
  {
    ReadComesTo(tableAt, places, 0, i);
  }

  /** So a match among them is returned unless as many matches were read before it as
      were wanted, repeats counted. */
  lemma ArrivalsHideNothingBelowTheLimit(
    tableAt: nat -> seq<Row>, places: nat -> seq<nat>, judge: Row -> Verdict, limit: nat, i: nat
  )
    requires OnlyArrivals(tableAt, places) && i < |tableAt(0)| && judge(tableAt(0)[i]).Match?
    requires PlaceAt(tableAt, places, i, LAST_BATCH) < SEARCH_SCAN_LIMIT
    ensures judge(tableAt(0)[i]).id in Found(tableAt, judge, limit)
            || |Found(tableAt, judge, limit)| == limit
  {
    var read, row := ReadFrom(tableAt, 0), tableAt(0)[i];
    ArrivalsSkipNoRow(tableAt, places, i);
    FoundIsTheFirstMatches(tableAt, judge, limit);
    var j :| 0 <= j < |read| && read[j] == row;
    MatchHasItsPlace(read, judge, j);
    var place := |Matches(read[..j], judge)|;
    if place < limit {
      assert Truncate(Matches(read, judge), limit)[place] == judge(row).id;
    }
  }

  function Repeated(row: Row, n: nat): (rows: seq<Row>)
    ensures |rows| == n
  {
    seq(n, _ => row)
  }

  lemma {:induction false} NoMatches(row: Row, n: nat, judge: Row -> Verdict)
    requires !judge(row).Match?
    ensures Matches(Repeated(row, n), judge) == []
    decreases n
  {
    if n > 0 {
      NoMatches(row, n - 1, judge);
      assert Repeated(row, n)[1..] == Repeated(row, n - 1);
    }
  }

  /** Two matches after 199 other rows, and one more row in front at every batch. */
  function Growing(miss: Row, x: Row, y: Row): nat -> seq<Row> {
    (k: nat) => Repeated(miss, SEARCH_BATCH - 1 + k) + [x, y]
  }

  /** Each row moves down by one. */
  function OneDown(rows: nat -> seq<Row>): nat -> seq<nat> {
    (k: nat) => seq(|rows(k)|, (i: nat) => i + 1)
  }

  /** One more row in front, and the others in their order. */
  lemma RowInFront(miss: Row, n: nat, rest: seq<Row>)
    ensures |Repeated(miss, n) + rest| + 1 == |Repeated(miss, n + 1) + rest|
    ensures forall i :: 0 <= i < |Repeated(miss, n) + rest| ==>
                          (Repeated(miss, n + 1) + rest)[i + 1] == (Repeated(miss, n) + rest)[i]
  {
  }

  lemma GrowingArrives(miss: Row, x: Row, y: Row)
    ensures OnlyArrivals(Growing(miss, x, y), OneDown(Growing(miss, x, y)))
  {
    var tableAt := Growing(miss, x, y);
    forall k: nat ensures RowsArrive(tableAt, OneDown(tableAt), k) {
      RowInFront(miss, SEARCH_BATCH - 1 + k, [x, y]);
      assert tableAt(k + 1) == Repeated(miss, SEARCH_BATCH - 1 + k + 1) + [x, y];
    }
  }

  lemma ReadOfGrowing(miss: Row, x: Row, y: Row)
    ensures ReadFrom(Growing(miss, x, y), 0) == Repeated(miss, SEARCH_BATCH - 1) + [x] + [x, y]
  {
    var tableAt := Growing(miss, x, y);
    ReadStep(tableAt, 0);
    ReadStep(tableAt, 1);
    assert Page(tableAt(0), 0, SEARCH_BATCH) == Repeated(miss, SEARCH_BATCH - 1) + [x];
    assert tableAt(1) == Repeated(miss, SEARCH_BATCH) + [x, y];
    assert Page(tableAt(1), SEARCH_BATCH, SEARCH_BATCH) == [x, y];
  }

  lemma MatchesAfterMisses(miss: Row, n: nat, rows: seq<Row>, judge: Row -> Verdict)
    requires !judge(miss).Match?
    ensures Matches(Repeated(miss, n) + rows, judge) == Matches(rows, judge)
  {
    NoMatches(miss, n, judge);
    MatchesAppend(Repeated(miss, n), rows, judge);
    assert [] + Matches(rows, judge) == Matches(rows, judge);
  }

  lemma {:induction false} AllMatch(rows: seq<Row>, judge: Row -> Verdict)
    requires forall row :: row in rows ==> judge(row).Match?
    ensures |Matches(rows, judge)| == |rows|
    ensures forall i :: 0 <= i < |rows| ==> Matches(rows, judge)[i] == judge(rows[i]).id
  {
    if rows != [] {
      assert rows[0] in rows;
      AllMatch(rows[1..], judge);
    }
  }

  /** Arriving mail can hide a match: it shifts the last row of one page to the
      beginning of the next, and the repeat takes the place of a real match. */
  lemma ArrivalRepeatHidesAMatch(miss: Row, x: Row, y: Row, judge: Row -> Verdict)
    requires !judge(miss).Match? && judge(x).Match? && judge(y).Match?
    ensures OnlyArrivals(Growing(miss, x, y), OneDown(Growing(miss, x, y)))
    ensures Found(Growing(miss, x, y), judge, 2) == [judge(x).id, judge(x).id]
    ensures Found(Still(Growing(miss, x, y)(0)), judge, 2) == [judge(x).id, judge(y).id]
  {
    var tableAt, n := Growing(miss, x, y), SEARCH_BATCH - 1;
    GrowingArrives(miss, x, y);
    ReadOfGrowing(miss, x, y);
    FoundIsTheFirstMatches(tableAt, judge, 2);
    assert Repeated(miss, n) + [x] + [x, y] == Repeated(miss, n) + [x, x, y];
    MatchesAfterMisses(miss, n, [x, x, y], judge);
    AllMatch([x, x, y], judge);
    SearchIsOneScan(tableAt(0), judge, 2);
    assert tableAt(0)[..Min(SEARCH_SCAN_LIMIT, |tableAt(0)|)] == Repeated(miss, n) + [x, y];
    MatchesAfterMisses(miss, n, [x, y], judge);
    AllMatch([x, y], judge);
  }

  /** A deletion can hide one too: a row that matches throughout is skipped when an
      earlier row goes away between two batches. */
  lemma DeletionHidesAMatch(hit: Row, miss: Row, judge: Row -> Verdict, limit: nat)
    requires judge(hit).Match? && !judge(miss).Match?
    ensures Found(Shrinking(hit, miss), judge, limit) == []
  {
    var tableAt := Shrinking(hit, miss);
    NoMatches(miss, SEARCH_BATCH, judge);
    assert Page(tableAt(0), 0, SEARCH_BATCH) == Repeated(miss, SEARCH_BATCH);
    assert tableAt(1) == Repeated(miss, SEARCH_BATCH - 1) + [hit];
    assert Page(tableAt(1), SEARCH_BATCH, SEARCH_BATCH) == [];
    ReadStep(tableAt, 0);
    ReadStep(tableAt, 1);
    assert Repeated(miss, SEARCH_BATCH) + [] == Repeated(miss, SEARCH_BATCH);
    FoundIsTheFirstMatches(tableAt, judge, limit);
  }

  function Shrinking(hit: Row, miss: Row): nat -> seq<Row> {
    (k: nat) => Repeated(miss, if k == 0 then SEARCH_BATCH else SEARCH_BATCH - 1) + [hit]
  }
}
