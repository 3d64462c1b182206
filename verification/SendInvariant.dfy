/**
 The inductive invariant of outbound sending. One lemma per kind of step; each
 says that the step keeps every part of the invariant.
 */
module SendInvariant {
  import opened Options
  import opened SendClaims
  import opened Drafts
  import opened SendProtocol

  /** Before the handler has inserted a claim. */
  predicate BeforeClaim(pc: Pc) {
    || pc.ClaimDraftRow? || pc.ClaimDueRow? || pc.CheckLocally? || pc.LookUpKey?
    || pc.CheckTransport? || pc.ReadClaim? || pc.InsertClaim? || pc.RereadClaim?
  }

  predicate AfterHandOff(pc: Pc) {
    pc.InsertMessageRow? || pc.Complete?
  }

  /** `send_message` has answered; the draft is not settled yet. */
  predicate Answered(pc: Pc) {
    pc.ProbeKey? || pc.Settle?
  }

  /** The answer of a call that never claimed its key. */
  predicate NeverClaimed(a: Answer) {
    a.RefusedBeforeClaim? || a.KeyReused? || a.KeyUnresolved? || a.AnsweredReplay?
  }

  predicate HoldsDraft(h: Handler, draft: nat) {
    DraftOf(h) == Some(draft) && !h.pc.ClaimDraftRow? && !h.pc.ClaimDueRow?
  }

  function EntryOf(id: nat, h: Handler): HandOff {
    HandOff(id, KeyOf(h), DraftOf(h), h.inbox, h.body)
  }

  /** A status the row may be put back to. */
  predicate RestoreOk(row: DraftRow, status: Status) {
    status == Failed || status == ScheduleStatus(row.sendAt)
  }

  /** What a handler knows about itself, its key and its draft. */
  ghost predicate HandlerOk(s: State, id: nat, h: Handler) {
    && id < s.nextHandler
    && (id in s.answers ==> Answered(h.pc))
    && (h.pc.Complete? ==> h.pc.response.record == id)
    && (h.pc.ProbeKey? ==> h.origin.ByHand?)
    && (Answered(h.pc) ==> DraftOf(h).Some?)
    && (h.origin.Timer? ==> h.header == NoHeader)
    && (h.pc.Settle? ==> h.pc.status != Sending && (h.pc.status == Sent <==> h.pc.clearSendAt))
    && (h.origin.ByHand? ==> Editable(h.origin.restore))
    && (h.pc.InsertClaim? && KeyOf(h).Some? ==> KeyOf(h).value !in s.legacy)
    && ((h.pc.HandToTransport? || AfterHandOff(h.pc)) && KeyOf(h).Some? ==>
          && KeyOf(h).value in s.winner && s.winner[KeyOf(h).value] == id
          && KeyOf(h).value in s.claims && s.claims[KeyOf(h).value].response == None)
    && (AfterHandOff(h.pc) ==> EntryOf(id, h) in s.log)
    && (DraftOf(h).Some? ==> DraftOf(h).value < s.nextDraft)
    && (DraftOf(h).Some? && HoldsDraft(h, DraftOf(h).value) && DraftOf(h).value in s.drafts ==>
          && s.drafts[DraftOf(h).value].status == Sending
          && s.drafts[DraftOf(h).value].content == h.body
          && (h.origin.ByHand? ==> RestoreOk(s.drafts[DraftOf(h).value], h.origin.restore))
          && (h.pc.Settle? ==> h.pc.status == Sent || RestoreOk(s.drafts[DraftOf(h).value], h.pc.status)))
  }

  ghost predicate HandlersOk(s: State) {
    forall id :: id in s.handlers ==> HandlerOk(s, id, s.handlers[id])
  }

  ghost predicate OneHolder(s: State) {
    forall a, b | a in s.handlers && b in s.handlers && a != b ::
      && DraftOf(s.handlers[a]).Some?
      && HoldsDraft(s.handlers[a], DraftOf(s.handlers[a]).value)
      ==> !HoldsDraft(s.handlers[b], DraftOf(s.handlers[a]).value)
  }

  /** The handler that inserted a claim, while it lives, finds its own row. */
  ghost predicate WinnerOk(s: State, key: string, id: nat) {
    && id < s.nextHandler
    && key in s.claims
    && key !in s.legacy
    && (id in s.handlers ==>
          && KeyOf(s.handlers[id]) == Some(key)
          && s.claims[key].inbox == s.handlers[id].inbox
          && s.claims[key].hash == HashOf(s.handlers[id])
          && !BeforeClaim(s.handlers[id].pc)
          && (s.handlers[id].pc.Settle? ==> !Editable(s.handlers[id].pc.status)))
    && (id in s.answers ==> !NeverClaimed(s.answers[id]))
  }

  ghost predicate WinnersOk(s: State) {
    && s.claims.Keys <= s.winner.Keys
    && (forall key :: key in s.winner ==> WinnerOk(s, key, s.winner[key]))
  }

  /** `scheduled` rows have a `send_at`, `draft` rows have none. */
  predicate RowOk(row: DraftRow) {
    row.status == Draft || row.status == Scheduled ==> row.status == ScheduleStatus(row.sendAt)
  }

  ghost predicate TablesOk(s: State) {
    && (forall id :: id in s.answers ==> id < s.nextHandler)
    && (forall draft :: draft in s.drafts ==> draft < s.nextDraft && RowOk(s.drafts[draft]))
  }

  /** What a recorded hand-off implies about its handler, key and draft. */
  ghost predicate EntryOk(s: State, e: HandOff) {
    && e.handler < s.nextHandler
    && (e.handler in s.handlers ==>
          && e == EntryOf(e.handler, s.handlers[e.handler])
          && !BeforeClaim(s.handlers[e.handler].pc)
          && !s.handlers[e.handler].pc.HandToTransport?)
    && (e.handler in s.answers ==> !NeverClaimed(s.answers[e.handler]))
    && (e.key.Some? ==>
          && e.key.value in s.winner && s.winner[e.key.value] == e.handler
          && e.key.value in s.claims
          && s.claims[e.key.value].inbox == e.inbox
          && s.claims[e.key.value].hash == Sha256Json(e.body))
    && (e.draft.Some? ==>
          && e.draft.value < s.nextDraft
          && (e.key.Some? && e.draft.value in s.drafts ==> !Editable(s.drafts[e.draft.value].status)))
  }

  ghost predicate LogOk(s: State) {
    && (forall i :: 0 <= i < |s.log| ==> EntryOk(s, s.log[i]))
    && (forall i, j :: 0 <= i < j < |s.log| ==>
                         && s.log[i].handler != s.log[j].handler
                         && (s.log[i].key.Some? && s.log[i].draft.Some? ==> s.log[j].draft != s.log[i].draft))
  }

  /** Only the handler that handed a keyed draft over may still hold it. */
  ghost predicate KeyedHolder(s: State) {
    forall i, id | 0 <= i < |s.log| && id in s.handlers && s.log[i].key.Some? && s.log[i].draft.Some? ::
      HoldsDraft(s.handlers[id], s.log[i].draft.value) ==> s.log[i].handler == id
  }

  /** The hand-off a recorded response stands for. */
  ghost predicate Justifies(e: HandOff, key: string, row: ClaimRow, response: Response) {
    && e.handler == response.record
    && e.key == Some(key)
    && e.inbox == row.inbox
    && Sha256Json(e.body) == row.hash
  }

  ghost predicate RowJustified(log: seq<HandOff>, key: string, row: ClaimRow) {
    row.response.Some? ==> exists i :: 0 <= i < |log| && Justifies(log[i], key, row, row.response.value)
  }

  ghost predicate ReplayOk(claims: Claims, a: Answer) {
    a.AnsweredReplay? ==> a.key in claims && claims[a.key] == ClaimRow(a.inbox, a.hash, Some(a.response))
  }

  ghost predicate ResponsesOk(s: State) {
    && (forall key :: key in s.claims ==> RowJustified(s.log, key, s.claims[key]))
    && (forall id :: id in s.answers ==> ReplayOk(s.claims, s.answers[id]))
  }

  ghost predicate Inv(s: State) {
    && HandlersOk(s) && OneHolder(s) && WinnersOk(s) && TablesOk(s)
    && LogOk(s) && KeyedHolder(s) && ResponsesOk(s)
  }

  lemma InitOk(legacy: set<string>)
    ensures Inv(Init(legacy))
  {
  }

  lemma DropKeeps(s: State, id: nat)
    requires Inv(s)
    ensures Inv(Drop(s, id))
  {
  }

  ghost predicate NotEditableIfKeyed(s: State, draft: nat) {
    forall i :: 0 <= i < |s.log| && s.log[i].draft == Some(draft) ==> s.log[i].key.None?
  }

  /** Nobody else holds the draft, and no keyed hand-off of it is another's. */
  ghost predicate FreeFor(s: State, id: nat, draft: nat) {
    && (forall other :: other in s.handlers && other != id ==> !HoldsDraft(s.handlers[other], draft))
    && (forall i :: 0 <= i < |s.log| && s.log[i].draft == Some(draft) && s.log[i].key.Some? ==>
                      s.log[i].handler == id)
  }

  /** What a handler must satisfy to be put in place of `s.handlers[id]`. */
  ghost predicate Fits(s: State, id: nat, h: Handler) {
    && HandlerOk(s, id, h)
    && (forall key :: key in s.winner && s.winner[key] == id ==>
                        && key in s.claims
                        && KeyOf(h) == Some(key) && s.claims[key].inbox == h.inbox && s.claims[key].hash == HashOf(h)
                        && !BeforeClaim(h.pc) && (h.pc.Settle? ==> !Editable(h.pc.status)))
    && (forall i :: 0 <= i < |s.log| && s.log[i].handler == id ==>
                      s.log[i] == EntryOf(id, h) && !BeforeClaim(h.pc) && !h.pc.HandToTransport?)
    && (DraftOf(h).Some? && HoldsDraft(h, DraftOf(h).value) ==> FreeFor(s, id, DraftOf(h).value))
  }

  lemma PutKeeps(s: State, id: nat, h: Handler)
    requires Inv(s) && Fits(s, id, h)
    ensures Inv(s.(handlers := s.handlers[id := h]))
  {
  }

  lemma SetDraftKeeps(s: State, draft: nat, row: DraftRow)
    requires Inv(s) && draft < s.nextDraft && RowOk(row)
    requires forall id :: id in s.handlers ==> !HoldsDraft(s.handlers[id], draft)
    requires Editable(row.status) ==> NotEditableIfKeyed(s, draft)
    ensures Inv(s.(drafts := s.drafts[draft := row]))
  {
  }

  lemma RemoveDraftKeeps(s: State, draft: nat)
    requires Inv(s)
    ensures Inv(s.(drafts := Remove(s.drafts, draft)))
  {
  }

  lemma AnswerKeeps(s: State, id: nat, a: Answer)
    requires Inv(s) && id !in s.handlers && id < s.nextHandler
    requires NeverClaimed(a) ==> forall key :: key in s.winner ==> s.winner[key] != id
    requires NeverClaimed(a) ==> forall i :: 0 <= i < |s.log| ==> s.log[i].handler != id
    requires ReplayOk(s.claims, a)
    ensures Inv(s.(answers := s.answers[id := a]))
  {
  }

  lemma RecordKeeps(s: State, e: HandOff)
    requires Inv(s) && e.handler !in s.handlers && EntryOk(s, e)
    requires forall i :: 0 <= i < |s.log| ==> s.log[i].handler != e.handler
    requires e.draft.Some? ==> FreeFor(s, e.handler, e.draft.value)
    ensures Inv(s.(log := s.log + [e]))
  {
    var t := s.(log := s.log + [e]);
    forall key | key in t.claims ensures RowJustified(t.log, key, t.claims[key]) {
      assert RowJustified(s.log, key, s.claims[key]);
      if t.claims[key].response.Some? {
        var i :| 0 <= i < |s.log| && Justifies(s.log[i], key, s.claims[key], s.claims[key].response.value);
        assert t.log[i] == s.log[i];
      }
    }
  }

  lemma InsertKeeps(s: State, id: nat, key: string, inbox: string, hash: Digest)
    requires Inv(s) && id !in s.handlers && id !in s.answers && id < s.nextHandler
    requires key !in s.claims && key !in s.legacy
    ensures Inv(s.(claims := InsertOrIgnore(s.claims, key, inbox, hash), winner := s.winner[key := id]))
  {
  }

  lemma CompleteKeeps(s: State, id: nat, key: string, e: HandOff, response: Response)
    requires Inv(s) && id !in s.handlers && key in s.winner && s.winner[key] == id
    requires Completable(s.claims, key, e.inbox, Sha256Json(e.body))
    requires e in s.log && Justifies(e, key, s.claims[key], response)
    ensures Inv(s.(claims := CompleteRow(s.claims, key, e.inbox, Sha256Json(e.body), response)))
  {
    var t := s.(claims := CompleteRow(s.claims, key, e.inbox, Sha256Json(e.body), response));
    assert RowJustified(t.log, key, t.claims[key]);
  }
}
