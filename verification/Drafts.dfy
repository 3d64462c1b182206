/**
 The drafts table of the mail store: the claim, settle and edit statements,
 each one guarded on the status it may change.
 */
module Drafts {
  import opened Options
  import opened Whitespace

  datatype Status = Draft | Scheduled | Failed | Sending | Sent

  /** A stored `send_at` text, with what parsing it as RFC 3339 gives: the text as it
      is, which decides what is due, and the text without the white space at its ends,
      which decides whether the time is in order. */
  datatype SendAt = SendAt(text: string, exact: Option<int>, trimmed: Option<int>)

  /** The readings of a text under a parser. */
  function Read(parse: string -> Option<int>, text: string): SendAt {
    SendAt(text, parse(text), parse(Trim(text)))
  }

  datatype DraftRow = DraftRow(inbox: string, content: string, sendAt: Option<SendAt>, status: Status)

  type Table = map<nat, DraftRow>

  predicate Editable(status: Status) {
    status == Draft || status == Scheduled || status == Failed
  }

  /** A text that does not parse as it is counts as due. */
  predicate Due(sendAt: SendAt, now: int) {
    sendAt.exact.Some? ==> sendAt.exact.value <= now
  }

  /** `normalize_send_at` accepts the text: trimmed it is blank, which means no time,
      or it parses. */
  predicate InOrder(sendAt: SendAt) {
    Trim(sendAt.text) == "" || sendAt.trimmed.Some?
  }

  function ScheduleStatus(sendAt: Option<SendAt>): Status {
    if sendAt.Some? then Scheduled else Draft
  }

  predicate ClaimableByHand(table: Table, id: nat) {
    id in table && Editable(table[id].status)
  }

  /** Still `scheduled`, with exactly the `send_at` that was judged due. */
  predicate ClaimableAt(table: Table, id: nat, sendAt: SendAt) {
    id in table && table[id].status == Scheduled && table[id].sendAt == Some(sendAt)
  }

  function MarkSending(table: Table, id: nat): Table
    requires id in table
  {
    table[id := table[id].(status := Sending)]
  }

  function Finish(table: Table, id: nat, status: Status, clearSendAt: bool): Table {
    if id in table && table[id].status == Sending then
      table[id := table[id].(status := status,
      sendAt := if clearSendAt then None else table[id].sendAt)]
    else table
  }

  function Edit(table: Table, id: nat, content: string, sendAt: Option<SendAt>): Table {
    if ClaimableByHand(table, id) then
      table[id := table[id].(content := content, sendAt := sendAt, status := ScheduleStatus(sendAt))]
    else table
  }

  function Remove(table: Table, id: nat): Table {
    table - {id}
  }

  /** The restore status `send_draft` uses when the transport was not reached. */
  function RestoreStatus(parked: bool, sendAt: Option<SendAt>): Status {
    if parked then Failed else ScheduleStatus(sendAt)
  }

  function Interfered(table: Table, id: nat, row: Option<DraftRow>): Table {
    if row.Some? then table[id := row.value] else Remove(table, id)
  }

  /** The claimed row, or no claim because the row is not claimable, or an error
      because it does not open and the transaction was rolled back. */
  datatype DraftClaim = Claimed(row: DraftRow) | NotClaimed | RolledBack

  class DraftStore {
    var table: Table

    constructor ()
      ensures table == map[]
    {
      table := map[];
    }

    /** The winner gets the row it moved to `sending`; nothing else changes. A row
        that does not open rolls the claim back. */
    method ClaimDraft(id: nat, opens: bool) returns (r: DraftClaim)
      modifies this
      ensures r.NotClaimed? <==>
              id !in old(table) || old(table)[id].status == Sending || old(table)[id].status == Sent
      ensures r.Claimed? ==> opens
      ensures r.RolledBack? ==> !opens
      ensures r.Claimed? ==>
                && table == old(table)[id := r.row]
                && r.row == old(table)[id].(status := Sending)
      ensures !r.Claimed? ==> table == old(table)
    {
      if !ClaimableByHand(table, id) {
        return NotClaimed;
      }
      if !opens {
        return RolledBack;
      }
      table := MarkSending(table, id);
      r := Claimed(table[id]);
    }

    /** `moved` is what another connection makes of the row between the read
        of `send_at` and the claim (its new row, or its deletion). */
    method ClaimDueDraft(id: nat, now: int, moved: Option<Option<DraftRow>>, opens: bool)
      returns (r: DraftClaim)
      modifies this
      ensures r != NotClaimed ==>
                && id in old(table) && old(table)[id].sendAt.Some?
                && Due(old(table)[id].sendAt.value, now)
      ensures r.Claimed? ==>
                && opens
                && r.row.sendAt == old(table)[id].sendAt
                && table == old(table)[id := r.row]
                && r.row.status == Sending
      ensures r.RolledBack? ==> !opens
      ensures moved.None? ==>
                (r != NotClaimed <==>
                 && id in old(table) && old(table)[id].status == Scheduled
                 && old(table)[id].sendAt.Some? && Due(old(table)[id].sendAt.value, now))
      ensures moved == Some(None) ==> r == NotClaimed
      ensures moved.Some? && moved.value.Some? && r.Claimed? ==>
                && moved.value.value.status == Scheduled
                && r.row == moved.value.value.(status := Sending)
      ensures moved.None? && r.Claimed? ==> r.row == old(table)[id].(status := Sending)
      ensures !r.Claimed? ==>
                table == match moved
                         case None => old(table)
                         case Some(None) => old(table) - {id}
                         case Some(Some(row)) => old(table)[id := row]
    {
      if id !in table || table[id].status != Scheduled || table[id].sendAt.None? {
        if moved.Some? { Interfere(id, moved.value); }
        return NotClaimed;
      }
      var sendAt := table[id].sendAt.value;
      if moved.Some? { Interfere(id, moved.value); }
      if !Due(sendAt, now) || !ClaimableAt(table, id, sendAt) {
        return NotClaimed;
      }
      if !opens {
        return RolledBack;
      }
      table := MarkSending(table, id);
      r := Claimed(table[id]);
    }

    /** Another connection replaces or deletes one row. */
    method Interfere(id: nat, row: Option<DraftRow>)
      modifies this
      ensures table == Interfered(old(table), id, row)
    {
      table := Interfered(table, id, row);
    }

    /** Only a row that is still `sending` is settled, and only its status and
        (when asked) its `send_at` change. */
    method FinishDraftSend(id: nat, status: Status, clearSendAt: bool) returns (settled: bool)
      modifies this
      ensures settled <==> id in old(table) && old(table)[id].status == Sending
      ensures table.Keys == old(table).Keys
      ensures settled ==>
                && table[id].status == status
                && table[id].content == old(table)[id].content
                && table[id].inbox == old(table)[id].inbox
                && table[id].sendAt == (if clearSendAt then None else old(table)[id].sendAt)
      ensures forall other :: other in table && (other != id || !settled) ==>
                                table[other] == old(table)[other]
    {
      settled := id in table && table[id].status == Sending;
      table := Finish(table, id, status, clearSendAt);
    }

    /** An edit never touches a row a send has claimed or settled. */
    method UpdateDraft(id: nat, content: string, sendAt: Option<SendAt>) returns (changed: bool)
      modifies this
      ensures !changed <==>
              id !in old(table) || old(table)[id].status == Sending || old(table)[id].status == Sent
      ensures changed ==>
                && id in table && table[id].inbox == old(table)[id].inbox
                && table[id].content == content && table[id].sendAt == sendAt
                && (table[id].status == Scheduled <==> sendAt.Some?)
                && (table[id].status == Draft <==> sendAt.None?)
      ensures table.Keys == old(table).Keys
      ensures forall other :: other in table && (other != id || !changed) ==>
                                table[other] == old(table)[other]
    {
      changed := ClaimableByHand(table, id);
      table := Edit(table, id, content, sendAt);
    }

    method DeleteDraft(id: nat) returns (deleted: bool)
      modifies this
      ensures deleted <==> id in old(table)
      ensures table.Keys == old(table).Keys - {id}
      ensures forall other :: other in table ==> table[other] == old(table)[other]
    {
      deleted := id in table;
      table := Remove(table, id);
    }
  }
}
