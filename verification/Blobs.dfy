/**
 The content-addressed blob directory: message rows that name files by the
 digest of their bytes, and the queue of names whose files may be removed.
 */
module Blobs {
  import opened Options

  /** A file name. SHA-256 is ideal, so a name carries the bytes it is the
      digest of; raw MIME is named apart from attachments. */
  datatype Name = Attachment(bytes: string) | RawMime(bytes: string) | Temp(serial: nat)

  type Files = map<Name, string>

  datatype Row = Row(id: nat, inbox: string, attachments: seq<string>, raw: Option<string>)

  /** How blobs are written: sealed through a temporary file and a rename, in
      place as plaintext, or not at all. */
  datatype Mode = Sealing | Compat | Unhealthy

  /** The durable state: directory, rows, cleanup queue. */
  datatype Disk = Disk(files: Files, inboxes: set<string>, rows: seq<Row>, queue: seq<Name>, nextTemp: nat)

  /** How a write goes wrong: before the file is created, or after `written`
      characters, when the temporary file may be left behind. A crash during
      the write is such a fault. */
  datatype WriteFault = NoFault | NotCreated | Short(written: nat, tempStays: bool)

  predicate IsBlob(name: Name) {
    !name.Temp?
  }

  /** `raw-` names and plain names both spell the digest of their bytes. */
  function BytesOf(name: Name): string
    requires IsBlob(name)
  {
    name.bytes
  }

  function AttachmentNames(attachments: seq<string>): (names: seq<Name>)
    ensures |names| == |attachments|
    ensures forall i :: 0 <= i < |names| ==> names[i] == Attachment(attachments[i])
  {
    seq(|attachments|, i requires 0 <= i < |attachments| => Attachment(attachments[i]))
  }

  /** The blobs a row needs, in the order they are written. */
  function NamesOf(attachments: seq<string>, raw: Option<string>): (names: seq<Name>)
    ensures forall name :: name in names ==> IsBlob(name)
  {
    AttachmentNames(attachments) + (if raw.Some? then [RawMime(raw.value)] else [])
  }

  /** The name is of an attachment or of the raw MIME of the row. */
  predicate IsOfRow(name: Name, row: Row) {
    match name
    case Attachment(bytes) => bytes in row.attachments
    case RawMime(bytes) => row.raw == Some(bytes)
    case Temp(_) => false
  }

  function RowNames(row: Row): (names: seq<Name>)
    ensures forall name :: name in names ==> IsBlob(name)
    ensures forall name :: name in names <==> IsOfRow(name, row)
  {
    var names := NamesOf(row.attachments, row.raw);
    assert forall i :: 0 <= i < |row.attachments| ==> names[i] == Attachment(row.attachments[i]);
    names
  }

  /** Attachment and raw-MIME references count alike. */
  predicate Referenced(rows: seq<Row>, name: Name) {
    exists i :: 0 <= i < |rows| && name in RowNames(rows[i])
  }

  // ── Writing ───────────────────────────────────────────────────────────────

  /** A file that exists is trusted and not written again. */
  function AfterWrite(mode: Mode, files: Files, name: Name, fault: WriteFault, temp: nat): Files
    requires IsBlob(name)
  {
    if name in files then files
    else match mode
         case Unhealthy => files
         case Sealing =>
           (match fault
            case NoFault => files[name := BytesOf(name)]
            case NotCreated => files
            case Short(written, stays) =>
              if stays && written <= |BytesOf(name)| then files[Temp(temp) := BytesOf(name)[..written]] else files)
         case Compat =>
           (match fault
            case NoFault => files[name := BytesOf(name)]
            case NotCreated => files
            case Short(written, _) =>
              if written <= |BytesOf(name)| then files[name := BytesOf(name)[..written]] else files)
  }

  predicate WriteSucceeds(mode: Mode, files: Files, name: Name, fault: WriteFault) {
    name in files || (mode != Unhealthy && fault == NoFault)
  }

  /** Writes stop at the first that fails. */
  function AfterWrites(
    mode: Mode, files: Files, names: seq<Name>, faults: seq<WriteFault>, temp: nat
  ): (r: (Files, bool))
    requires |faults| == |names| && forall name :: name in names ==> IsBlob(name)
    decreases |names|
  {
    if names == [] then (files, true)
    else
      var (before, ok) := AfterWrites(mode, files, names[..|names| - 1], faults[..|names| - 1], temp);
      var name, fault := names[|names| - 1], faults[|names| - 1];
      if ok then (AfterWrite(mode, before, name, fault, temp + |names| - 1), WriteSucceeds(mode, before, name, fault))
      else (before, false)
  }

  function AfterInsert(mode: Mode, d: Disk, row: Row, faults: seq<WriteFault>, rowsFail: bool): Disk
    requires |faults| == |RowNames(row)|
  {
    if row.inbox !in d.inboxes then d
    else
      var (files, ok) := AfterWrites(mode, d.files, RowNames(row), faults, d.nextTemp);
      var t := d.(files := files, nextTemp := d.nextTemp + |RowNames(row)|);
      if ok && !rowsFail then t.(rows := d.rows + [row]) else t
  }

  // ── Deleting ──────────────────────────────────────────────────────────────

  /** `INSERT OR IGNORE` of each name in turn. */
  function Enqueue(queue: seq<Name>, names: seq<Name>): seq<Name> {
    if names == [] then queue
    else
      var q := Enqueue(queue, names[..|names| - 1]);
      if names[|names| - 1] in q then q else q + [names[|names| - 1]]
  }

  function Without(rows: seq<Row>, id: nat): (kept: seq<Row>)
    ensures forall row :: row in kept <==> row in rows && row.id != id
  {
    if rows == [] then []
    else (if rows[0].id != id then [rows[0]] else []) + Without(rows[1..], id)
  }

  function OutsideInbox(rows: seq<Row>, inbox: string): (kept: seq<Row>)
    ensures forall row :: row in kept <==> row in rows && row.inbox != inbox
  {
    if rows == [] then []
    else (if rows[0].inbox != inbox then [rows[0]] else []) + OutsideInbox(rows[1..], inbox)
  }

  function NamesOfId(rows: seq<Row>, id: nat): (names: seq<Name>)
    ensures forall name :: name in names <==> exists row :: row in rows && row.id == id && name in RowNames(row)
  {
    if rows == [] then []
    else (if rows[0].id == id then RowNames(rows[0]) else []) + NamesOfId(rows[1..], id)
  }

  function NamesOfInbox(rows: seq<Row>, inbox: string): (names: seq<Name>)
    ensures forall name :: name in names <==> exists row :: row in rows && row.inbox == inbox && name in RowNames(row)
  {
    if rows == [] then []
    else (if rows[0].inbox == inbox then RowNames(rows[0]) else []) + NamesOfInbox(rows[1..], inbox)
  }

  lemma {:induction false} EnqueueHolds(queue: seq<Name>, names: seq<Name>, name: Name)
    ensures name in Enqueue(queue, names) <==> name in queue || name in names
  {
    if names != [] {
      EnqueueHolds(queue, names[..|names| - 1], name);
      assert names == names[..|names| - 1] + [names[|names| - 1]];
    }
  }

  function Unreferenced(rows: seq<Row>, names: seq<Name>): seq<Name> {
    if names == [] then []
    else
      Unreferenced(rows, names[..|names| - 1])
      + (if Referenced(rows, names[|names| - 1]) then [] else [names[|names| - 1]])
  }

  lemma {:induction false} UnreferencedHolds(rows: seq<Row>, names: seq<Name>, name: Name)
    ensures name in Unreferenced(rows, names) <==> name in names && !Referenced(rows, name)
  {
    if names != [] {
      UnreferencedHolds(rows, names[..|names| - 1], name);
      assert names == names[..|names| - 1] + [names[|names| - 1]];
    }
  }

  // ── Draining and sweeping ─────────────────────────────────────────────────

  /** Whether the drain takes the name off the queue: still referenced, already
      gone, or removed just now. */
  predicate Settled(rows: seq<Row>, files: Files, removable: set<Name>, name: Name) {
    Referenced(rows, name) || name !in files || name in removable
  }

  function DrainFiles(rows: seq<Row>, files: Files, queue: seq<Name>, removable: set<Name>): Files {
    map name | name in files && !(name in queue && !Referenced(rows, name) && name in removable) :: files[name]
  }

  function DrainQueue(rows: seq<Row>, files: Files, queue: seq<Name>, removable: set<Name>): seq<Name> {
    if queue == [] then []
    else
      DrainQueue(rows, files, queue[..|queue| - 1], removable)
      + (if Settled(rows, files, removable, queue[|queue| - 1]) then [] else [queue[|queue| - 1]])
  }

  lemma {:induction false} DrainQueueHolds(
    rows: seq<Row>, files: Files, queue: seq<Name>, removable: set<Name>, name: Name
  )
    ensures name in DrainQueue(rows, files, queue, removable)
       <==> name in queue && !Settled(rows, files, removable, name)
  {
    if queue != [] {
      DrainQueueHolds(rows, files, queue[..|queue| - 1], removable, name);
      assert queue == queue[..|queue| - 1] + [queue[|queue| - 1]];
    }
  }

  /** The drain dies (or its transaction fails) after `crash` names: files are
      gone, the queue is what it was. */
  function AfterDrain(d: Disk, removable: set<Name>, crash: Option<nat>): Disk {
    if crash.Some? then
      var done := if crash.value <= |d.queue| then crash.value else |d.queue|;
      d.(files := DrainFiles(d.rows, d.files, d.queue[..done], removable))
    else
      d.(files := DrainFiles(d.rows, d.files, d.queue, removable),
      queue := DrainQueue(d.rows, d.files, d.queue, removable))
  }

  function AfterSweep(d: Disk, removable: set<Name>): Disk {
    d.(files := map name | name in d.files && (Referenced(d.rows, name) || name !in removable) :: d.files[name])
  }

  function AfterDeleteMessage(d: Disk, id: nat, commits: bool, removable: set<Name>, crash: Option<nat>): Disk {
    if !commits || (forall i :: 0 <= i < |d.rows| ==> d.rows[i].id != id) then d
    else
      var t := d.(rows := Without(d.rows, id), queue := Enqueue(d.queue, NamesOfId(d.rows, id)));
      AfterDrain(t, removable, crash)
  }

  function AfterDeleteInbox(d: Disk, inbox: string, commits: bool, removable: set<Name>, crash: Option<nat>): Disk {
    if !commits then d
    else
      var rows := OutsideInbox(d.rows, inbox);
      var names := Unreferenced(rows, NamesOfInbox(d.rows, inbox));
      AfterDrain(d.(rows := rows, inboxes := d.inboxes - {inbox}, queue := Enqueue(d.queue, names)), removable, crash)
  }

  function AfterOpen(d: Disk, drained: set<Name>, crash: Option<nat>, swept: set<Name>): Disk {
    AfterSweep(AfterDrain(d, drained, crash), swept)
  }
}
