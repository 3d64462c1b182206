/**
 What the blob directory guarantees over every run of inserts, deletes, drains
 and reopenings, with rolled-back inserts and crashes inside any of them.
 */
module BlobTheorems {
  import opened Options
  import opened Blobs

  datatype Event =
    | CreateInbox(inbox: string)
    | Insert(row: Row, faults: seq<WriteFault>, rowsFail: bool)
    | DeleteMessage(id: nat, commits: bool, removable: set<Name>, crash: Option<nat>)
    | DeleteInbox(inbox: string, commits: bool, removable: set<Name>, crash: Option<nat>)
    | Reopen(mode: Mode, drained: set<Name>, crash: Option<nat>, swept: set<Name>)

  /** The store writes by the mode of its session, which is decided when it opens.
      `rolledBack` is history: the files inserts left behind without a row. */
  datatype World = World(disk: Disk, mode: Mode, rolledBack: set<Name>)

  function Init(mode: Mode): World {
    World(Disk(map[], {}, [], [], 0), mode, {})
  }

  function Step(w: World, e: Event): World {
    match e
    case CreateInbox(inbox) => w.(disk := w.disk.(inboxes := w.disk.inboxes + {inbox}))
    case Insert(row, faults, rowsFail) =>
      if |faults| != |RowNames(row)| then w
      else
        var d := AfterInsert(w.mode, w.disk, row, faults, rowsFail);
        var left := if d.rows == w.disk.rows then d.files.Keys - w.disk.files.Keys else {};
        w.(disk := d, rolledBack := w.rolledBack + left)
    case DeleteMessage(id, commits, removable, crash) =>
      w.(disk := AfterDeleteMessage(w.disk, id, commits, removable, crash))
    case DeleteInbox(inbox, commits, removable, crash) =>
      w.(disk := AfterDeleteInbox(w.disk, inbox, commits, removable, crash))
    case Reopen(mode, drained, crash, swept) =>
      w.(disk := AfterOpen(w.disk, drained, crash, swept), mode := mode)
  }

  function Run(w: World, events: seq<Event>): World
    decreases |events|
  {
    if events == [] then w else Step(Run(w, events[..|events| - 1]), events[|events| - 1])
  }

  /** The modes of the sessions of a history, the first one first. */
  function Sessions(first: Mode, events: seq<Event>): (modes: seq<Mode>)
    ensures modes != []
    decreases |events|
  {
    if events == [] then [first]
    else
      var last := events[|events| - 1];
      Sessions(first, events[..|events| - 1]) + (if last.Reopen? then [last.mode] else [])
  }

  /** The mode of the session that follows some events. */
  function ModeAfter(first: Mode, events: seq<Event>): Mode {
    var modes := Sessions(first, events);
    modes[|modes| - 1]
  }

  /** Every blob file holds exactly the bytes its name is the digest of. */
  ghost predicate Whole(files: Files) {
    forall name :: name in files && IsBlob(name) ==> files[name] == BytesOf(name)
  }

  ghost predicate Present(d: Disk) {
    forall name :: Referenced(d.rows, name) ==> name in d.files
  }

  /** Every referenced name has a file that holds its bytes. */
  ghost predicate Safe(d: Disk) {
    forall name :: Referenced(d.rows, name) ==> IsBlob(name) && name in d.files && d.files[name] == BytesOf(name)
  }

  ghost predicate Accounted(w: World) {
    forall name :: name in w.disk.files ==>
                     Referenced(w.disk.rows, name) || name in w.disk.queue || name in w.rolledBack
  }

  /** A write in place that stops half way. */
  predicate CutShort(mode: Mode, e: Event) {
    mode == Compat && e.Insert? && exists i :: 0 <= i < |e.faults| && e.faults[i].Short?
  }

  predicate NoWriteCutShort(first: Mode, events: seq<Event>) {
    forall i :: 0 <= i < |events| ==> !CutShort(ModeAfter(first, events[..i]), events[i])
  }

  lemma {:induction false} WritesKeepFiles(
    mode: Mode, files: Files, names: seq<Name>, faults: seq<WriteFault>, temp: nat
  )
    requires |faults| == |names| && forall name :: name in names ==> IsBlob(name)
    ensures var (after, ok) := AfterWrites(mode, files, names, faults, temp);
            && (forall name :: name in files && IsBlob(name) ==> name in after && after[name] == files[name])
            && files.Keys <= after.Keys
            && (forall name :: ok && name in names ==> name in after)
            && (forall name :: ok && name in after && name !in files ==> name in names)
            && (Whole(files) && (mode != Compat || forall i :: 0 <= i < |faults| ==> !faults[i].Short?) ==>
                  Whole(after))
    decreases |names|
  {
    if names != [] {
      WritesKeepFiles(mode, files, names[..|names| - 1], faults[..|names| - 1], temp);
      assert names == names[..|names| - 1] + [names[|names| - 1]];
    }
  }

  lemma ReferencedAfterInsert(rows: seq<Row>, row: Row, name: Name)
    ensures Referenced(rows + [row], name) <==> Referenced(rows, name) || name in RowNames(row)
  {
    var more := rows + [row];
    assert more[|rows|] == row;
    if Referenced(rows, name) {
      var i :| 0 <= i < |rows| && name in RowNames(rows[i]);
      assert more[i] == rows[i];
    }
  }

  lemma InsertKeeps(w: World, e: Event)
    requires e.Insert? && |e.faults| == |RowNames(e.row)|
    requires Present(w.disk) && Accounted(w)
    ensures var t := Step(w, e);
            Present(t.disk) && Accounted(t) && (Whole(w.disk.files) && !CutShort(w.mode, e) ==> Whole(t.disk.files))
  {
    WritesKeepFiles(w.mode, w.disk.files, RowNames(e.row), e.faults, w.disk.nextTemp);
    var t := Step(w, e);
    if t.disk.rows != w.disk.rows {
      assert t.disk.rows == w.disk.rows + [e.row];
      forall name ensures Referenced(t.disk.rows, name) <==> Referenced(w.disk.rows, name) || name in RowNames(e.row) {
        ReferencedAfterInsert(w.disk.rows, e.row, name);
      }
    }
  }

  /** A drain never removes a referenced file, even when it dies half way, and
      takes no unreferenced file's name off the queue without removing it. */
  lemma DrainKeeps(w: World, removable: set<Name>, crash: Option<nat>)
    requires Present(w.disk) && Accounted(w)
    ensures var d := AfterDrain(w.disk, removable, crash);
            Present(d) && Accounted(w.(disk := d)) && (Whole(w.disk.files) ==> Whole(d.files))
  {
    var d := AfterDrain(w.disk, removable, crash);
    forall name | name in d.files
      ensures Referenced(d.rows, name) || name in d.queue || name in w.rolledBack
    {
      DrainQueueHolds(w.disk.rows, w.disk.files, w.disk.queue, removable, name);
    }
  }

  lemma DeleteMessageKeeps(w: World, id: nat, removable: set<Name>, crash: Option<nat>)
    requires Present(w.disk) && Accounted(w)
    ensures var d := AfterDeleteMessage(w.disk, id, true, removable, crash);
            Present(d) && Accounted(w.(disk := d)) && (Whole(w.disk.files) ==> Whole(d.files))
  {
    if exists i :: 0 <= i < |w.disk.rows| && w.disk.rows[i].id == id {
      var t := w.disk.(rows := Without(w.disk.rows, id), queue := Enqueue(w.disk.queue, NamesOfId(w.disk.rows, id)));
      RowsRemoved(w, t, NamesOfId(w.disk.rows, id));
      DrainKeeps(w.(disk := t), removable, crash);
    }
  }

  /** Deleting rows leaves every file of the remaining rows referenced, and
      queues every file the deleted rows were the last to use. */
  lemma RowsRemoved(w: World, t: Disk, names: seq<Name>)
    requires Present(w.disk) && Accounted(w)
    requires t.files == w.disk.files && t.queue == Enqueue(w.disk.queue, names)
    requires forall row :: row in t.rows ==> row in w.disk.rows
    requires forall row, name :: row in w.disk.rows && row !in t.rows && name in RowNames(row) ==>
                                   name in names || Referenced(t.rows, name)
    ensures Present(t) && Accounted(w.(disk := t))
  {
    forall name | name in t.files
      ensures Referenced(t.rows, name) || name in t.queue || name in w.rolledBack
    {
      EnqueueHolds(w.disk.queue, names, name);
      if Referenced(w.disk.rows, name) {
        var i :| 0 <= i < |w.disk.rows| && name in RowNames(w.disk.rows[i]);
        if w.disk.rows[i] in t.rows {
          var j :| 0 <= j < |t.rows| && t.rows[j] == w.disk.rows[i];
        }
      }
    }
    forall name | Referenced(t.rows, name) ensures name in t.files {
      var j :| 0 <= j < |t.rows| && name in RowNames(t.rows[j]);
      assert t.rows[j] in w.disk.rows;
      var i :| 0 <= i < |w.disk.rows| && w.disk.rows[i] == t.rows[j];
    }
  }

  lemma DeleteInboxKeeps(w: World, inbox: string, removable: set<Name>, crash: Option<nat>)
    requires Present(w.disk) && Accounted(w)
    ensures var d := AfterDeleteInbox(w.disk, inbox, true, removable, crash);
            Present(d) && Accounted(w.(disk := d)) && (Whole(w.disk.files) ==> Whole(d.files))
  {
    var rows := OutsideInbox(w.disk.rows, inbox);
    var names := Unreferenced(rows, NamesOfInbox(w.disk.rows, inbox));
    var t := w.disk.(rows := rows, inboxes := w.disk.inboxes - {inbox}, queue := Enqueue(w.disk.queue, names));
    forall row, name | row in w.disk.rows && row !in rows && name in RowNames(row)
      ensures name in names || Referenced(rows, name)
    {
      UnreferencedHolds(rows, NamesOfInbox(w.disk.rows, inbox), name);
    }
    RowsRemoved(w, t, names);
    DrainKeeps(w.(disk := t), removable, crash);
  }

  lemma StepKeeps(w: World, e: Event)
    requires Present(w.disk) && Accounted(w)
    ensures var t := Step(w, e);
            Present(t.disk) && Accounted(t) && (Whole(w.disk.files) && !CutShort(w.mode, e) ==> Whole(t.disk.files))
  {
    match e
    case CreateInbox(_) =>
    case Insert(row, faults, _) =>
      if |faults| == |RowNames(row)| { InsertKeeps(w, e); }
    case DeleteMessage(id, commits, removable, crash) =>
      if commits { DeleteMessageKeeps(w, id, removable, crash); }
    case DeleteInbox(inbox, commits, removable, crash) =>
      if commits { DeleteInboxKeeps(w, inbox, removable, crash); }
    case Reopen(_, drained, crash, _) => DrainKeeps(w, drained, crash);
  }

  lemma {:induction false} RunKeeps(first: Mode, events: seq<Event>)
    ensures Present(Run(Init(first), events).disk) && Accounted(Run(Init(first), events))
    decreases |events|
  {
    if events != [] {
      RunKeeps(first, events[..|events| - 1]);
      StepKeeps(Run(Init(first), events[..|events| - 1]), events[|events| - 1]);
    }
  }

  lemma ModeOfStep(w: World, e: Event)
    ensures Step(w, e).mode == if e.Reopen? then e.mode else w.mode
  {
  }

  lemma {:induction false} ModeOfRun(first: Mode, events: seq<Event>)
    ensures Run(Init(first), events).mode == ModeAfter(first, events)
    decreases |events|
  {
    if events != [] {
      ModeOfRun(first, events[..|events| - 1]);
      ModeOfStep(Run(Init(first), events[..|events| - 1]), events[|events| - 1]);
    }
  }

  lemma NoWriteCutShortBefore(first: Mode, events: seq<Event>, n: nat)
    requires n <= |events| && NoWriteCutShort(first, events)
    ensures NoWriteCutShort(first, events[..n])
  {
    forall i | 0 <= i < n ensures !CutShort(ModeAfter(first, events[..n][..i]), events[..n][i]) {
      assert events[..n][..i] == events[..i];
    }
  }

  lemma {:induction false} FilesStayWhole(first: Mode, events: seq<Event>)
    requires NoWriteCutShort(first, events)
    ensures Whole(Run(Init(first), events).disk.files)
    decreases |events|
  {
    if events != [] {
      var n := |events| - 1;
      var before := events[..n];
      NoWriteCutShortBefore(first, events, n);
      FilesStayWhole(first, before);
      RunKeeps(first, before);
      ModeOfRun(first, before);
      StepKeeps(Run(Init(first), before), events[n]);
    }
  }

  lemma ReferencedAreBlobs(rows: seq<Row>, name: Name)
    requires Referenced(rows, name)
    ensures IsBlob(name)
  {
    var i :| 0 <= i < |rows| && name in RowNames(rows[i]);
  }

  /** As long as no write in place was cut short in any session of the history, every
      blob a committed row names has a file with the bytes of that digest: whatever was
      deleted, drained, rolled back or crashed before. */
  lemma ReferencedBlobsAreIntact(first: Mode, events: seq<Event>)
    requires NoWriteCutShort(first, events)
    ensures Safe(Run(Init(first), events).disk)
  {
    RunKeeps(first, events);
    FilesStayWhole(first, events);
    var d := Run(Init(first), events).disk;
    forall name | Referenced(d.rows, name)
      ensures IsBlob(name) && name in d.files && d.files[name] == BytesOf(name)
    {
      ReferencedAreBlobs(d.rows, name);
    }
  }

  /** So in every such history each stored message has its attachments and its raw MIME,
      byte for byte. */
  lemma StoredMessagesAreComplete(first: Mode, events: seq<Event>, row: Row)
    requires NoWriteCutShort(first, events) && row in Run(Init(first), events).disk.rows
    ensures var files := Run(Init(first), events).disk.files;
            && (forall bytes :: bytes in row.attachments ==>
                                  Attachment(bytes) in files && files[Attachment(bytes)] == bytes)
            && (row.raw.Some? ==> RawMime(row.raw.value) in files && files[RawMime(row.raw.value)] == row.raw.value)
  {
    var d := Run(Init(first), events).disk;
    ReferencedBlobsAreIntact(first, events);
    var i :| 0 <= i < |d.rows| && d.rows[i] == row;
    forall name | IsOfRow(name, row) ensures name in d.files && d.files[name] == BytesOf(name) {
      assert name in RowNames(d.rows[i]);
      assert Referenced(d.rows, name);
    }
    forall bytes | bytes in row.attachments
      ensures Attachment(bytes) in d.files && d.files[Attachment(bytes)] == bytes
    {
      assert IsOfRow(Attachment(bytes), row);
    }
    if row.raw.Some? { assert IsOfRow(RawMime(row.raw.value), row); }
  }

  /** Every file no row uses is queued for removal or was left by an insert that
      rolled back. */
  lemma UnusedFilesAreAccountedFor(first: Mode, events: seq<Event>, name: Name)
    requires name in Run(Init(first), events).disk.files
    requires !Referenced(Run(Init(first), events).disk.rows, name)
    ensures name in Run(Init(first), events).disk.queue || name in Run(Init(first), events).rolledBack
  {
    RunKeeps(first, events);
  }

  /** When every removal succeeds, reopening the store after any run leaves
      exactly the referenced files and an empty queue. */
  lemma ReopeningReclaimsEverything(first: Mode, events: seq<Event>, removable: set<Name>)
    requires Run(Init(first), events).disk.files.Keys <= removable
    ensures var d := Run(Init(first), events).disk;
            var t := AfterOpen(d, removable, None, removable);
            && t.queue == [] && t.rows == d.rows
            && (forall name :: name in t.files <==> Referenced(d.rows, name))
            && (forall name :: name in t.files ==> t.files[name] == d.files[name])
  {
    RunKeeps(first, events);
    var d := Run(Init(first), events).disk;
    var t := AfterOpen(d, removable, None, removable);
    if t.queue != [] {
      DrainQueueHolds(d.rows, d.files, d.queue, removable, t.queue[0]);
      assert false;
    }
  }

  // ── Sessions without a key ────────────────────────────────────────────────

  /** Reopening keeps every referenced file as it is, so it breaks nothing and repairs
      nothing, in whatever mode and whatever it removes. */
  lemma ReopeningRepairsNothing(w: World, mode: Mode, drained: set<Name>, crash: Option<nat>, swept: set<Name>)
    requires Present(w.disk)
    ensures var t := Step(w, Reopen(mode, drained, crash, swept));
            t.disk.rows == w.disk.rows && Present(t.disk) && (Safe(t.disk) <==> Safe(w.disk))
  {
    var d, t := w.disk, Step(w, Reopen(mode, drained, crash, swept)).disk;
    forall name | Referenced(d.rows, name) ensures name in t.files && t.files[name] == d.files[name] {
    }
  }

  lemma Snoc(w: World, events: seq<Event>, e: Event)
    ensures Run(w, events + [e]) == Step(Run(w, events), e)
  {
    assert (events + [e])[..|events + [e]| - 1] == events;
  }

  lemma SessionsSnoc(first: Mode, events: seq<Event>, e: Event)
    ensures Sessions(first, events + [e]) == Sessions(first, events) + (if e.Reopen? then [e.mode] else [])
  {
    assert (events + [e])[..|events + [e]| - 1] == events;
  }

  const PAGE := Row(0, "in", ["page"], None)
  const PAGE_BLOB := Attachment("page")
  const SHORT_INSERT := Insert(PAGE, [Short(0, false)], false)
  const NEXT_INSERT := Insert(PAGE, [NoFault], false)

  /** The inbox is there, nothing is queued, and `files` is the directory. */
  ghost predicate Holding(w: World, files: Files, rows: seq<Row>) {
    w.mode == Compat && w.disk.inboxes == {"in"} && w.disk.files == files && w.disk.rows == rows
  }

  lemma ShortInsertLeavesAFile(w: World)
    requires Holding(w, map[], [])
    ensures Holding(Step(w, SHORT_INSERT), map[PAGE_BLOB := ""], [])
  {
    assert RowNames(PAGE) == [PAGE_BLOB];
    OneWrite(Compat, w.disk.files, PAGE_BLOB, Short(0, false), w.disk.nextTemp);
  }

  lemma NextInsertTrustsIt(w: World)
    requires Holding(w, map[PAGE_BLOB := ""], [])
    ensures Holding(Step(w, NEXT_INSERT), map[PAGE_BLOB := ""], [PAGE])
  {
    assert RowNames(PAGE) == [PAGE_BLOB];
    OneWrite(Compat, w.disk.files, PAGE_BLOB, NoFault, w.disk.nextTemp);
  }

  lemma HoldingIsUnsafe(w: World)
    requires Holding(w, map[PAGE_BLOB := ""], [PAGE])
    ensures !Safe(w.disk)
  {
    assert RowNames(PAGE) == [PAGE_BLOB];
    assert PAGE_BLOB in RowNames(w.disk.rows[0]);
    assert Referenced(w.disk.rows, PAGE_BLOB);
  }

  lemma OneWrite(mode: Mode, files: Files, name: Name, fault: WriteFault, temp: nat)
    requires IsBlob(name)
    ensures AfterWrites(mode, files, [name], [fault], temp)
         == (AfterWrite(mode, files, name, fault, temp), WriteSucceeds(mode, files, name, fault))
  {
    assert [name][..0] == [] && [fault][..0] == [];
  }

  /** In a keyless session a write cut short rolls its insert back and leaves an empty
      file; the next insert of the same attachment trusts that file. */
  lemma ShortWriteIsTrusted(w: World)
    requires w.mode == Compat && w.disk.inboxes == {} && w.disk.files == map[] && w.disk.rows == []
    ensures !Safe(Step(Step(Step(w, CreateInbox("in")), SHORT_INSERT), NEXT_INSERT).disk)
  {
    var created := Step(w, CreateInbox("in"));
    ShortInsertLeavesAFile(created);
    NextInsertTrustsIt(Step(created, SHORT_INSERT));
    HoldingIsUnsafe(Step(Step(created, SHORT_INSERT), NEXT_INSERT));
  }

  /** A history that goes through the given sessions and ends with a referenced blob
      that lacks its bytes. */
  ghost predicate Breaks(modes: seq<Mode>, events: seq<Event>)
    requires modes != []
  {
    Sessions(modes[0], events) == modes && !Safe(Run(Init(modes[0]), events).disk)
  }

  /** One more session, opened with every removal succeeding, leaves it broken. */
  lemma StaysBroken(modes: seq<Mode>, before: seq<Event>, mode: Mode) returns (events: seq<Event>)
    requires modes != [] && Breaks(modes, before)
    ensures Breaks(modes + [mode], events)
  {
    var w := Run(Init(modes[0]), before);
    var all := w.disk.files.Keys;
    RunKeeps(modes[0], before);
    ReopeningRepairsNothing(w, mode, all, None, all);
    Snoc(Init(modes[0]), before, Reopen(mode, all, None, all));
    SessionsSnoc(modes[0], before, Reopen(mode, all, None, all));
    events := before + [Reopen(mode, all, None, all)];
  }

  /** A store opened again and again without being used. */
  ghost predicate Unused(modes: seq<Mode>, events: seq<Event>)
    requires modes != []
  {
    && Sessions(modes[0], events) == modes
    && Run(Init(modes[0]), events) == Init(modes[|modes| - 1])
  }

  lemma ReopenUnused(modes: seq<Mode>, before: seq<Event>, mode: Mode) returns (events: seq<Event>)
    requires modes != [] && Unused(modes, before)
    ensures Unused(modes + [mode], events)
  {
    var open := Reopen(mode, {}, None, {});
    assert Step(Init(modes[|modes| - 1]), open) == Init(mode);
    Snoc(Init(modes[0]), before, open);
    SessionsSnoc(modes[0], before, open);
    events := before + [open];
  }

  lemma {:induction false} UnusedSessions(modes: seq<Mode>) returns (events: seq<Event>)
    requires modes != []
    ensures Unused(modes, events)
    decreases |modes|
  {
    var front, last := modes[..|modes| - 1], modes[|modes| - 1];
    assert front + [last] == modes;
    if front == [] {
      UnusedAtFirst(last);
      events := [];
    } else {
      var before := UnusedSessions(front);
      events := ReopenUnused(front, before, last);
    }
  }

  lemma UnusedAtFirst(mode: Mode)
    ensures Unused([mode], [])
  {
  }

  /** A keyless session can break a blob of an unused store at once. */
  lemma BreaksAtOnce(modes: seq<Mode>) returns (events: seq<Event>)
    requires modes != [] && modes[|modes| - 1] == Compat
    ensures Breaks(modes, events)
  {
    var before := UnusedSessions(modes);
    var create := CreateInbox("in");
    ShortWriteIsTrusted(Init(Compat));
    Snoc(Init(modes[0]), before, create);
    Snoc(Init(modes[0]), before + [create], SHORT_INSERT);
    Snoc(Init(modes[0]), before + [create] + [SHORT_INSERT], NEXT_INSERT);
    SessionsSnoc(modes[0], before, create);
    SessionsSnoc(modes[0], before + [create], SHORT_INSERT);
    SessionsSnoc(modes[0], before + [create] + [SHORT_INSERT], NEXT_INSERT);
    events := before + [create] + [SHORT_INSERT] + [NEXT_INSERT];
  }

  lemma {:induction false} KeylessSessionBreaksABlob(modes: seq<Mode>) returns (events: seq<Event>)
    requires Compat in modes
    ensures Breaks(modes, events)
    decreases |modes|
  {
    var n := |modes| - 1;
    assert modes[..n] + [modes[n]] == modes;
    if Compat in modes[..n] {
      var before := KeylessSessionBreaksABlob(modes[..n]);
      events := StaysBroken(modes[..n], before, modes[n]);
    } else {
      events := BreaksAtOnce(modes);
    }
  }

  lemma {:induction false} EveryModeIsOfASession(first: Mode, events: seq<Event>, i: nat)
    requires i <= |events|
    ensures ModeAfter(first, events[..i]) in Sessions(first, events)
    decreases |events|
  {
    var n := |events| - 1;
    if i == |events| {
      assert events[..i] == events;
    } else {
      EveryModeIsOfASession(first, events[..n], i);
      assert events[..n][..i] == events[..i];
    }
  }

  /** Whatever the sessions of a store are, every history with these sessions ends with
      every referenced blob intact if and only if none of them is without a key. A key
      that arrives later does not help, nor do removals that all succeed. */
  lemma BlobsAreSafeIffEverySessionHasAKey(modes: seq<Mode>)
    requires modes != []
    ensures (forall events :: !Breaks(modes, events)) <==> Compat !in modes
  {
    if Compat in modes {
      var events := KeylessSessionBreaksABlob(modes);
      assert Breaks(modes, events);
    } else {
      forall events ensures !Breaks(modes, events) {
        if Sessions(modes[0], events) == modes {
          NoKeylessSession(modes[0], events);
          ReferencedBlobsAreIntact(modes[0], events);
        }
      }
    }
  }

  lemma NoKeylessSession(first: Mode, events: seq<Event>)
    requires Compat !in Sessions(first, events)
    ensures NoWriteCutShort(first, events)
  {
    forall i | 0 <= i < |events| ensures !CutShort(ModeAfter(first, events[..i]), events[i]) {
      EveryModeIsOfASession(first, events, i);
    }
  }
}
