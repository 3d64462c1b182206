/**
 The blob methods of the mail store as they run: loops over attachments,
 cleanup names and directory entries, each proved against `Blobs`.
 */
module BlobStore {
  import opened Options
  import opened Blobs

  class MailBlobs {
    const mode: Mode
    var files: Files
    var inboxes: set<string>
    var rows: seq<Row>
    var queue: seq<Name>
    var nextTemp: nat

    /** A session over what is on disk; its mode is decided here. */
    constructor (mode: Mode, disk: Disk)
      ensures this.mode == mode && View() == disk
    {
      this.mode := mode;
      files, inboxes, rows := disk.files, disk.inboxes, disk.rows;
      queue, nextTemp := disk.queue, disk.nextTemp;
    }

    function View(): Disk
      reads this
    {
      Disk(files, inboxes, rows, queue, nextTemp)
    }

    /** A failed sealed write leaves at most a temporary file; a failed compat
        write may leave a short blob file. */
    method WriteBlob(name: Name, fault: WriteFault, temp: nat) returns (ok: bool)
      requires IsBlob(name)
      modifies this`files
      ensures files == AfterWrite(mode, old(files), name, fault, temp)
      ensures ok == WriteSucceeds(mode, old(files), name, fault)
      ensures ok ==> name in files && (name !in old(files) ==> files[name] == BytesOf(name))
      ensures forall other :: other in old(files) && !other.Temp? ==>
                                other in files && files[other] == old(files)[other]
    {
      if name in files {
        return true;
      }
      match mode {
        case Unhealthy =>
          return false;
        case Sealing =>
          match fault {
            case NoFault =>
              files := files[name := BytesOf(name)];
              return true;
            case NotCreated =>
              return false;
            case Short(written, stays) =>
              if stays && written <= |BytesOf(name)| {
                files := files[Temp(temp) := BytesOf(name)[..written]];
              }
              return false;
          }
        case Compat =>
          match fault {
            case NoFault =>
              files := files[name := BytesOf(name)];
              return true;
            case NotCreated =>
              return false;
            case Short(written, _) =>
              if written <= |BytesOf(name)| {
                files := files[name := BytesOf(name)[..written]];
              }
              return false;
          }
      }
    }

    /** Writes blobs in order until one fails. */
    method WriteBlobs(names: seq<Name>, faults: seq<WriteFault>) returns (ok: bool)
      requires |faults| == |names| && forall name :: name in names ==> IsBlob(name)
      modifies this`files
      ensures (files, ok) == AfterWrites(mode, old(files), names, faults, nextTemp)
      ensures ok ==> forall name :: name in names ==> name in files
      ensures mode != Unhealthy && (forall i :: 0 <= i < |faults| ==> faults[i] == NoFault) ==> ok
      ensures forall name :: name in files && !name.Temp? ==> name in old(files) || name in names
    {
      ok := true;
      var written := 0;
      while written < |names|
        invariant 0 <= written <= |names|
        invariant AfterWrites(mode, old(files), names[..written], faults[..written], nextTemp) == (files, true)
        invariant forall i :: 0 <= i < written ==> names[i] in files
        invariant forall name :: name in files && !name.Temp? ==> name in old(files) || name in names
      {
        OneMoreWrite(mode, old(files), names, faults, nextTemp, written);
        ghost var soFar := files;
        ok := WriteBlob(names[written], faults[written], nextTemp + written);
        if !ok {
          WritesStopAtFailure(mode, old(files), names, faults, nextTemp, written + 1, soFar, files);
          return;
        }
        written := written + 1;
      }
      assert names[..|names|] == names && faults[..|names|] == faults;
    }

    /** Blobs first, row last; a failure anywhere keeps the files written so
        far and inserts no row. */
    method InsertMessage(row: Row, faults: seq<WriteFault>, rowsFail: bool) returns (stored: bool)
      requires |faults| == |RowNames(row)|
      modifies this
      ensures View() == AfterInsert(mode, old(View()), row, faults, rowsFail)
      ensures rows == if stored then old(rows) + [row] else old(rows)
      ensures queue == old(queue) && inboxes == old(inboxes)
      ensures stored ==>
                && (forall bytes :: bytes in row.attachments ==> Attachment(bytes) in files)
                && (row.raw.Some? ==> RawMime(row.raw.value) in files)
      ensures stored ==> row.inbox in inboxes && !rowsFail
      ensures row.inbox in inboxes && !rowsFail && mode != Unhealthy
              && (forall i :: 0 <= i < |faults| ==> faults[i] == NoFault) ==>
                stored
      ensures forall name :: name in files && !name.Temp? ==> name in old(files) || IsOfRow(name, row)
    {
      if row.inbox !in inboxes {
        return false;
      }
      var names := RowNames(row);
      var ok := WriteBlobs(names, faults);
      nextTemp := nextTemp + |names|;
      if !ok || rowsFail {
        return false;
      }
      rows := rows + [row];
      stored := true;
    }

    /** Removes what nothing references and keeps what cannot be removed; a
        crash after `crash` names rolls the queue back. */
    method DrainBlobCleanup(removable: set<Name>, crash: Option<nat>) returns (clean: bool)
      modifies this
      ensures View() == AfterDrain(old(View()), removable, crash)
      ensures clean ==> queue == []
    {
      var names := queue;
      var stop := if crash.Some? && crash.value < |names| then crash.value else |names|;
      var pending: seq<Name> := [];
      var i := 0;
      ghost var before := files;
      while i < stop
        invariant 0 <= i <= stop
        invariant files == DrainFiles(rows, before, names[..i], removable)
        invariant pending == DrainQueue(rows, before, names[..i], removable)
        invariant queue == names && rows == old(rows) && inboxes == old(inboxes) && nextTemp == old(nextTemp)
      {
        var name := names[i];
        DrainOneMore(rows, before, names, i, removable);
        if !Referenced(rows, name) {
          if name in files && name in removable {
            files := files - {name};
          } else if name in files {
            pending := pending + [name];
          }
        }
        i := i + 1;
      }
      if crash.Some? {
        return false;
      }
      assert names[..stop] == names;
      queue := pending;
      clean := pending == [];
    }

    /** Removes every file no row references, temporary files included. */
    method SweepOrphanBlobs(removable: set<Name>)
      modifies this
      ensures View() == AfterSweep(old(View()), removable)
    {
      var entries := files.Keys;
      ghost var before := files;
      while entries != {}
        invariant entries <= before.Keys
        invariant forall name :: name in files <==>
                                 name in before && (name in entries || Referenced(rows, name) || name !in removable)
        invariant forall name :: name in files ==> files[name] == before[name]
        invariant rows == old(rows) && queue == old(queue) && inboxes == old(inboxes) && nextTemp == old(nextTemp)
        decreases |entries|
      {
        var name :| name in entries;
        entries := entries - {name};
        if !Referenced(rows, name) && name in removable {
          files := files - {name};
        }
      }
      assert files == AfterSweep(old(View()), removable).files;
    }

    method Open(drained: set<Name>, crash: Option<nat>, swept: set<Name>)
      modifies this
      ensures View() == AfterOpen(old(View()), drained, crash, swept)
    {
      var _ := DrainBlobCleanup(drained, crash);
      SweepOrphanBlobs(swept);
    }

    /** Queues every blob of the message, whoever else uses it; the drain looks. */
    method DeleteMessage(id: nat, commits: bool, removable: set<Name>, crash: Option<nat>) returns (deleted: bool)
      modifies this
      ensures View() == AfterDeleteMessage(old(View()), id, commits, removable, crash)
      ensures deleted ==> forall i :: 0 <= i < |rows| ==> rows[i].id != id
      ensures !deleted ==> View() == old(View())
    {
      if !commits || (forall i :: 0 <= i < |rows| ==> rows[i].id != id) {
        return false;
      }
      var names := NamesOfId(rows, id);
      rows := Without(rows, id);
      ghost var kept := rows;
      QueueAll(names);
      var _ := DrainBlobCleanup(removable, crash);
      assert forall j :: 0 <= j < |kept| ==> kept[j] in kept;
      deleted := true;
    }

    /** The queueing loop of `delete_message`. */
    method QueueAll(names: seq<Name>)
      modifies this`queue
      ensures queue == Enqueue(old(queue), names)
    {
      var i := 0;
      while i < |names|
        invariant 0 <= i <= |names| && queue == Enqueue(old(queue), names[..i])
      {
        assert names[..i + 1][..i] == names[..i];
        if names[i] !in queue {
          queue := queue + [names[i]];
        }
        i := i + 1;
      }
      assert names[..|names|] == names;
    }

    /** Queues only the blobs no other inbox uses. */
    method DeleteInbox(inbox: string, commits: bool, removable: set<Name>, crash: Option<nat>)
      modifies this
      ensures View() == AfterDeleteInbox(old(View()), inbox, commits, removable, crash)
    {
      if !commits {
        return;
      }
      var candidates := NamesOfInbox(rows, inbox);
      rows := OutsideInbox(rows, inbox);
      inboxes := inboxes - {inbox};
      QueueUnreferenced(candidates);
      var _ := DrainBlobCleanup(removable, crash);
    }

    /** The queueing loop of `delete_inbox`. */
    method QueueUnreferenced(candidates: seq<Name>)
      modifies this`queue
      ensures queue == Enqueue(old(queue), Unreferenced(rows, candidates))
    {
      var i := 0;
      while i < |candidates|
        invariant 0 <= i <= |candidates|
        invariant queue == Enqueue(old(queue), Unreferenced(rows, candidates[..i]))
      {
        QueueOneMore(old(queue), rows, candidates, i);
        var name := candidates[i];
        if !Referenced(rows, name) && name !in queue {
          queue := queue + [name];
        }
        i := i + 1;
      }
      assert candidates[..|candidates|] == candidates;
    }
  }

  /** One name further into the queue: the file goes if nothing references it
      and it can be removed, the name stays if it cannot. */
  lemma DrainOneMore(rows: seq<Row>, files: Files, names: seq<Name>, i: nat, removable: set<Name>)
    requires i < |names|
    ensures var name := names[i];
            var f := DrainFiles(rows, files, names[..i], removable);
            var g := DrainFiles(rows, files, names[..i + 1], removable);
            && (Referenced(rows, name) || name !in f || name !in removable ==> g == f)
            && (!Referenced(rows, name) && name in removable ==> g == f - {name})
            && DrainQueue(rows, files, names[..i + 1], removable)
               == DrainQueue(rows, files, names[..i], removable)
                  + (if !Referenced(rows, name) && name in f && name !in removable then [name] else [])
  {
    assert names[..i + 1][..i] == names[..i];
    assert forall name :: name in names[..i + 1] <==> name in names[..i] || name == names[i];
  }

  lemma OneMoreWrite(
    mode: Mode, before: Files, names: seq<Name>, faults: seq<WriteFault>, temp: nat, i: nat
  )
    requires |faults| == |names| && i < |names| && forall name :: name in names ==> IsBlob(name)
    ensures var (files, ok) := AfterWrites(mode, before, names[..i], faults[..i], temp);
            ok ==>
              AfterWrites(mode, before, names[..i + 1], faults[..i + 1], temp)
              == (AfterWrite(mode, files, names[i], faults[i], temp + i),
                  WriteSucceeds(mode, files, names[i], faults[i]))
  {
    assert names[..i + 1][..i] == names[..i] && faults[..i + 1][..i] == faults[..i];
  }

  lemma QueueOneMore(queue: seq<Name>, rows: seq<Row>, names: seq<Name>, i: nat)
    requires i < |names|
    ensures var q := Enqueue(queue, Unreferenced(rows, names[..i]));
            Enqueue(queue, Unreferenced(rows, names[..i + 1]))
            == if Referenced(rows, names[i]) || names[i] in q then q else q + [names[i]]
  {
    assert names[..i + 1][..i] == names[..i];
    var kept := Unreferenced(rows, names[..i]);
    if Referenced(rows, names[i]) {
      assert kept + [] == kept;
    } else {
      assert (kept + [names[i]])[..|kept|] == kept;
    }
  }

  /** Once a write has failed, the rest of the list is not tried. */
  lemma {:induction false} WritesStopAtFailure(
    mode: Mode, before: Files, names: seq<Name>, faults: seq<WriteFault>, temp: nat, k: nat, soFar: Files, files: Files
  )
    requires |faults| == |names| && 0 < k <= |names| && forall name :: name in names ==> IsBlob(name)
    requires AfterWrites(mode, before, names[..k - 1], faults[..k - 1], temp) == (soFar, true)
    requires !WriteSucceeds(mode, soFar, names[k - 1], faults[k - 1])
    requires files == AfterWrite(mode, soFar, names[k - 1], faults[k - 1], temp + k - 1)
    ensures AfterWrites(mode, before, names, faults, temp) == (files, false)
    decreases |names|
  {
    if k < |names| {
      var n, f := names[..|names| - 1], faults[..|names| - 1];
      assert n[..k - 1] == names[..k - 1] && f[..k - 1] == faults[..k - 1];
      WritesStopAtFailure(mode, before, n, f, temp, k, soFar, files);
    }
  }
}
