/**
 What each operation of the blob directory leaves behind, said by the attachments and
 the raw MIME of the rows.
 */
module BlobOutcomes {
  import opened Options
  import opened Blobs

  /** Some row has an attachment or raw MIME of that name. */
  ghost predicate IsUsed(rows: seq<Row>, name: Name) {
    exists row :: row in rows && IsOfRow(name, row)
  }

  lemma UsedIffReferenced(rows: seq<Row>, name: Name)
    ensures IsUsed(rows, name) <==> Referenced(rows, name)
  {
    if row :| row in rows && IsOfRow(name, row) {
      var i :| 0 <= i < |rows| && rows[i] == row;
      assert name in RowNames(rows[i]);
    }
    if i :| 0 <= i < |rows| && name in RowNames(rows[i]) {
      assert rows[i] in rows;
    }
  }

  /** Writing a blob: one that has a file is left alone; otherwise it succeeds, with all
      its bytes, exactly when the store is healthy and nothing fails; and a failed write
      leaves a file of that name only when it was in place and cut short. */
  lemma WriteLeaves(mode: Mode, files: Files, name: Name, fault: WriteFault, temp: nat)
    requires IsBlob(name)
    ensures var after, ok := AfterWrite(mode, files, name, fault, temp), WriteSucceeds(mode, files, name, fault);
            && (name in files ==> ok && after == files)
            && (name !in files ==>
                  && (ok <==> mode != Unhealthy && fault == NoFault)
                  && (ok ==> after == files[name := name.bytes])
                  && (!ok && (mode == Unhealthy || fault == NotCreated) ==> after == files)
                  && (name in after && !ok ==>
                        mode == Compat && fault.Short? && after[name] == name.bytes[..fault.written])
                  && (mode == Compat && fault.Short? && fault.written <= |name.bytes| ==> name in after))
            && (mode == Sealing && name !in files
                && fault.Short? && fault.tempStays && fault.written <= |name.bytes| ==>
                  Temp(temp) in after && after[Temp(temp)] == name.bytes[..fault.written])
            && (forall other :: other != name && !other.Temp? ==>
                                  (other in after <==> other in files)
                                  && (other in files ==> after[other] == files[other]))
  {
  }

  /** A drain removes the files of queued names that no row uses and that can be removed,
      and no others; whole, it keeps in the queue exactly the unused names whose files are
      still there; cut short, it keeps the queue. */
  lemma DrainLeaves(d: Disk, removable: set<Name>, crash: Option<nat>, name: Name)
    ensures var t := AfterDrain(d, removable, crash);
            && t.rows == d.rows && t.inboxes == d.inboxes
            && (name in t.files ==> name in d.files && t.files[name] == d.files[name])
            && (name in d.files && name !in t.files ==> name in d.queue && !IsUsed(d.rows, name) && name in removable)
            && (crash.None? ==>
                  && (name in d.queue && !IsUsed(d.rows, name) && name in removable ==> name !in t.files)
                  && (name in t.queue <==> name in d.queue && !IsUsed(d.rows, name) && name in t.files))
            && (crash.Some? ==>
                  && t.queue == d.queue
                  && (name in d.files && name !in t.files ==>
                        exists i :: 0 <= i < crash.value && i < |d.queue| && d.queue[i] == name)
                  && (name in removable && !IsUsed(d.rows, name) && name in t.files ==>
                        forall i :: 0 <= i < crash.value && i < |d.queue| ==> d.queue[i] != name))
  {
    UsedIffReferenced(d.rows, name);
    DrainQueueHolds(d.rows, d.files, d.queue, removable, name);
    if crash.Some? {
      var done := if crash.value <= |d.queue| then crash.value else |d.queue|;
      assert forall i :: 0 <= i < done ==> d.queue[..done][i] == d.queue[i];
    }
  }

  /** A sweep removes the removable files no row uses and changes nothing else. */
  lemma SweepLeaves(d: Disk, removable: set<Name>, name: Name)
    ensures var t := AfterSweep(d, removable);
            && t.rows == d.rows && t.inboxes == d.inboxes && t.queue == d.queue
            && (name in t.files <==> name in d.files && (IsUsed(d.rows, name) || name !in removable))
            && (name in t.files ==> t.files[name] == d.files[name])
  {
    UsedIffReferenced(d.rows, name);
  }

  /** Rows `gone` were deleted from `d`: the others stay, and a file only the deleted ones
      used is removed, or queued when it cannot be. */
  ghost predicate RowsGone(d: Disk, t: Disk, gone: Row -> bool, removable: set<Name>, name: Name) {
    && (forall row :: row in t.rows <==> row in d.rows && !gone(row))
    && (IsUsed(t.rows, name) && name in d.files ==> name in t.files && t.files[name] == d.files[name])
    && (name in t.files ==> name in d.files)
    && (name in d.files && IsUsed(d.rows, name) && !IsUsed(t.rows, name) ==>
          if name in removable then name !in t.files else name in t.files && name in t.queue)
  }

  lemma NamesOfGone(d: Disk, rows: seq<Row>, gone: Row -> bool, name: Name)
    requires forall row :: row in rows <==> row in d.rows && !gone(row)
    ensures IsUsed(d.rows, name) && !IsUsed(rows, name) ==>
              exists row :: row in d.rows && gone(row) && name in RowNames(row)
  {
    if IsUsed(d.rows, name) && !IsUsed(rows, name) {
      var row :| row in d.rows && IsOfRow(name, row);
      assert row !in rows && name in RowNames(row);
    }
  }

  /** Deleting a message takes its row and the files only it used; when there is none, or
      the transaction fails, nothing changes. */
  lemma DeleteMessageLeaves(d: Disk, id: nat, commits: bool, removable: set<Name>, name: Name)
    ensures var t := AfterDeleteMessage(d, id, commits, removable, None);
            && t.inboxes == d.inboxes
            && (commits && (exists row :: row in d.rows && row.id == id) ==>
                  RowsGone(d, t, (row: Row) => row.id == id, removable, name))
            && (!commits || (forall row :: row in d.rows ==> row.id != id) ==> t == d)
  {
    if commits && exists row :: row in d.rows && row.id == id {
      var row :| row in d.rows && row.id == id;
      var i :| 0 <= i < |d.rows| && d.rows[i] == row;
      var rows, names := Without(d.rows, id), NamesOfId(d.rows, id);
      var queued := d.(rows := rows, queue := Enqueue(d.queue, names));
      EnqueueHolds(d.queue, names, name);
      NamesOfGone(d, rows, (row: Row) => row.id == id, name);
      DrainLeaves(queued, removable, None, name);
      assert AfterDeleteMessage(d, id, commits, removable, None) == AfterDrain(queued, removable, None);
    }
  }

  /** Deleting an inbox takes the inbox, its rows, and the files only they used. */
  lemma DeleteInboxLeaves(d: Disk, inbox: string, commits: bool, removable: set<Name>, name: Name)
    ensures var t := AfterDeleteInbox(d, inbox, commits, removable, None);
            && (commits ==>
                  t.inboxes == d.inboxes - {inbox}
                  && RowsGone(d, t, (row: Row) => row.inbox == inbox, removable, name))
            && (!commits ==> t == d)
  {
    if commits {
      var rows := OutsideInbox(d.rows, inbox);
      var candidates := NamesOfInbox(d.rows, inbox);
      var names := Unreferenced(rows, candidates);
      var queued := d.(rows := rows, inboxes := d.inboxes - {inbox}, queue := Enqueue(d.queue, names));
      UnreferencedHolds(rows, candidates, name);
      UsedIffReferenced(rows, name);
      EnqueueHolds(d.queue, names, name);
      NamesOfGone(d, rows, (row: Row) => row.inbox == inbox, name);
      DrainLeaves(queued, removable, None, name);
      assert AfterDeleteInbox(d, inbox, commits, removable, None) == AfterDrain(queued, removable, None);
    }
  }

  /** An insert: the row is there afterwards exactly when its inbox exists, the rows of the
      transaction are written and no blob it still has to write fails; then it comes last
      and nothing else changes but files. */
  lemma InsertLeaves(mode: Mode, d: Disk, row: Row, faults: seq<WriteFault>, rowsFail: bool)
    requires |faults| == |RowNames(row)|
    ensures var t := AfterInsert(mode, d, row, faults, rowsFail);
            && t.inboxes == d.inboxes && t.queue == d.queue
            && (t.rows == d.rows || t.rows == d.rows + [row])
            && (t.rows == d.rows + [row] ==> row.inbox in d.inboxes && !rowsFail)
            && (row.inbox in d.inboxes && !rowsFail && mode != Unhealthy
                && (forall i :: 0 <= i < |faults| ==> faults[i] == NoFault) ==>
                  t.rows == d.rows + [row])
  {
    if row.inbox in d.inboxes && mode != Unhealthy && forall i :: 0 <= i < |faults| ==> faults[i] == NoFault {
      AllWritesSucceed(mode, d.files, RowNames(row), faults, d.nextTemp);
    }
  }

  lemma {:induction false} AllWritesSucceed(
    mode: Mode, files: Files, names: seq<Name>, faults: seq<WriteFault>, temp: nat
  )
    requires |faults| == |names| && forall name :: name in names ==> IsBlob(name)
    requires mode != Unhealthy && forall i :: 0 <= i < |faults| ==> faults[i] == NoFault
    ensures AfterWrites(mode, files, names, faults, temp).1
    decreases |names|
  {
    if names != [] {
      AllWritesSucceed(mode, files, names[..|names| - 1], faults[..|names| - 1], temp);
    }
  }
}
