/**
 What callers are told when a send is refused or fails, and how draft sends begin: over
 every run, step by step.
 */
module SendFailures {
  import opened Options
  import opened SendClaims
  import opened Drafts
  import opened SendProtocol
  import opened SendInvariant
  import opened SendSteps
  import opened SendTheorems
  import opened SendResends
  import opened SendAnswers
  import opened Whitespace

  /** An idempotency key is one to 256 printable ASCII characters, not all of them spaces. */
  lemma SendKeysAre(key: string)
    ensures ValidSendKey(key)
       <==> |key| <= 256 && (forall c :: c in key ==> 0x20 <= c as int <= 0x7E) && exists c :: c in key && c != ' '
  {
    if ValidSendKey(key) {
      var i :| 0 <= i < |key| && key[i] != ' ';
      assert key[i] in key;
    }
    if |key| <= 256 && (forall c :: c in key ==> 0x20 <= c as int <= 0x7E) && exists c :: c in key && c != ' ' {
      var c :| c in key && c != ' ';
      var i :| 0 <= i < |key| && key[i] == c;
      assert forall j :: 0 <= j < |key| ==> key[j] in key;
    }
  }

  /** Step `n` is a step of handler `id`. */
  ghost predicate Steps(r: Trace, n: nat, id: nat)
    requires n < |r.events| && |r.states| == |r.events| + 1
  {
    r.events[n].Advance? && r.events[n].handler == id && id in r.states[n].handlers
  }

  /** The key header of a request from outside: absent, unreadable, only blanks and tabs, or
      a text. A request with a header that is no valid key is refused as the caller's
      fault, before anything is claimed. */
  lemma BadKeyIsRefused(r: Trace, n: nat, id: nat)
    requires IsRun(r) && n < |r.events| && Steps(r, n, id) && !r.states[n].handlers[id].origin.Timer?
    ensures var h, t, c := r.states[n].handlers[id], r.states[n + 1], r.events[n].choice;
            var blank := h.header.Text? && forall i :: 0 <= i < |h.header.text| ==> h.header.text[i] in {' ', '\t'};
            && (h.pc == CheckLocally && c.Refuse? ==> Told(t, id, RefusedBeforeClaim(c.serverError)))
            && (h.pc == CheckLocally && !c.Refuse? && (h.header == KeyHeader.Unreadable || blank) ==>
                  Told(t, id, RefusedBeforeClaim(false)))
            && (h.pc == CheckLocally && !c.Refuse? && h.header == NoHeader ==>
                  Stands(t, id, h.(pc := CheckTransport)))
            && (h.pc == CheckLocally && !c.Refuse? && h.header.Text? && !blank ==> Stands(t, id, h.(pc := LookUpKey)))
            && (h.pc == LookUpKey && h.header.Text? && !blank && !ValidSendKey(h.header.text) ==>
                  Told(t, id, RefusedBeforeClaim(false)))
  {
    assert Follows(r, n);
    var s, h, c := r.states[n], r.states[n].handlers[id], r.events[n].choice;
    ReplyTells(s, id, h, RefusedBeforeClaim(false));
    if c.Refuse? { ReplyTells(s, id, h, RefusedBeforeClaim(c.serverError)); }
    if h.pc == CheckLocally { assert StepHandler(s, id, h, c) == StepCheckLocally(s, id, h, c); }
    if h.pc == LookUpKey && KeyOf(h).Some? { assert StepHandler(s, id, h, c) == StepLookUpKey(s, id, h, c); }
  }

  predicate TouchesTheClaim(pc: Pc) {
    pc == LookUpKey || pc == ReadClaim || pc == InsertClaim || pc == RereadClaim
  }

  /** A store that fails before the hand-off is a server error; a transport that is not
      ready is not; and the row that made the insert void being gone is one too. */
  lemma FailureBeforeTheHandOffIsTold(r: Trace, n: nat, id: nat, key: string)
    requires IsRun(r) && n < |r.events| && Steps(r, n, id)
    requires r.states[n].handlers[id].header == Text(key) && ValidSendKey(key)
    ensures var s, h, t, c := r.states[n], r.states[n].handlers[id], r.states[n + 1], r.events[n].choice;
            && (TouchesTheClaim(h.pc) && c == Fault ==> Told(t, id, RefusedBeforeClaim(true)))
            && (h.pc == RereadClaim && key !in s.claims && key !in s.legacy ==> Told(t, id, RefusedBeforeClaim(true)))
            && (h.pc == CheckTransport && c != Proceed ==> Told(t, id, RefusedBeforeClaim(false)))
            && (h.pc == CheckTransport && c == Proceed ==> Stands(t, id, h.(pc := ReadClaim)))
  {
    assert Follows(r, n);
    var s, h, c := r.states[n], r.states[n].handlers[id], r.events[n].choice;
    ValidKeyIsKey(h, key);
    ReplyTells(s, id, h, RefusedBeforeClaim(true));
    ReplyTells(s, id, h, RefusedBeforeClaim(false));
    match h.pc {
      case LookUpKey => assert StepHandler(s, id, h, c) == StepLookUpKey(s, id, h, c);
      case ReadClaim => assert StepHandler(s, id, h, c) == StepReadClaim(s, id, h, c);
      case InsertClaim => assert StepHandler(s, id, h, c) == StepInsertClaim(s, id, h, c);
      case RereadClaim => assert StepHandler(s, id, h, c) == StepRereadClaim(s, id, h, c);
      case CheckTransport => assert StepHandler(s, id, h, c) == StepCheckTransport(s, id, h, c);
      case _ =>
    }
  }

  /** At the insert: a free key is claimed, pending, and the hand-off comes next; a key
      another request took meanwhile is read again, its row untouched. */
  lemma InsertClaimsAFreeKey(r: Trace, n: nat, id: nat, key: string)
    requires IsRun(r) && n < |r.events| && Steps(r, n, id) && r.events[n].choice != Fault
    requires r.states[n].handlers[id].header == Text(key) && ValidSendKey(key)
    requires r.states[n].handlers[id].pc == InsertClaim
    ensures var s, h, t := r.states[n], r.states[n].handlers[id], r.states[n + 1];
            if key in s.claims then t.claims == s.claims && Stands(t, id, h.(pc := RereadClaim))
            else t.claims == s.claims[key := ClaimRow(h.inbox, Sha256Json(h.body), None)]
                 && Stands(t, id, h.(pc := HandToTransport))
  {
    assert Follows(r, n);
    ValidKeyIsKey(r.states[n].handlers[id], key);
  }

  /** A transport that fails, before or after it took the message, and a message row that is
      not stored, leave the outcome open under a key and count as a refusal without one; a
      response that is not saved is said to be that. Only a transport that took the message
      counts as a hand-off. */
  lemma FailureOfTheSendIsTold(r: Trace, n: nat, id: nat)
    requires IsRun(r) && n < |r.events| && Steps(r, n, id)
    ensures var s, h, t, c := r.states[n], r.states[n].handlers[id], r.states[n + 1], r.events[n].choice;
            var failed := if h.header == NoHeader then TransportRefused else OutcomeUnresolved;
            && (h.header == NoHeader || KeyOf(h).Some? ==>
                  && (h.pc == HandToTransport && !c.Accept? ==> Told(t, id, failed))
                  && (h.pc.InsertMessageRow? && c != Proceed ==> Told(t, id, failed)))
            && (h.pc == HandToTransport ==>
                  if c.Accept? || c == HandedThenFailed
                  then t.log == s.log + [HandOff(id, KeyOf(h), DraftOf(h), h.inbox, h.body)]
                  else t.log == s.log)
            && (h.pc == HandToTransport && c.Accept? ==> Stands(t, id, h.(pc := InsertMessageRow(c.provider))))
            && (h.pc.Complete? && KeyOf(h).Some? && c == Fault ==>
                  Told(t, id, ReplayNotSaved) && t.claims == s.claims)
  {
    assert Follows(r, n);
    var s, h, c := r.states[n], r.states[n].handlers[id], r.events[n].choice;
    var failed := if KeyOf(h).Some? then OutcomeUnresolved else TransportRefused;
    ReplyTells(s, id, h, failed);
    ReplyTells(Recorded(s, id, h), id, h, failed);
    ReplyTells(s, id, h, ReplayNotSaved);
    if h.pc == HandToTransport { assert StepHandler(s, id, h, c) == StepHandToTransport(s, id, h, c); }
    if h.pc.InsertMessageRow? {
      assert StepHandler(s, id, h, c) == StepInsertMessageRow(s, id, h, h.pc.provider, c);
    }
    if h.pc.Complete? && KeyOf(h).Some? {
      assert StepHandler(s, id, h, c) == StepComplete(s, id, h, h.pc.response, c);
    }
  }

  // ── How draft sends begin ─────────────────────────────────────────────────

  /** A manual send starts for a draft of that inbox, having seen whether it was parked; the
      scheduler starts for a draft that is scheduled and whose time, as it stands, has come
      or does not parse. */
  lemma DraftSendsStartIff(s: State, draft: nat, inbox: string, header: KeyHeader, now: int)
    ensures var t := Step(s, StartDraftSend(draft, inbox, header));
            if draft in s.drafts && s.drafts[draft].inbox == inbox
            then Stands(t, s.nextHandler,
                        Handler(ByHand(draft, s.drafts[draft].status == Failed, Failed), header, inbox, "",
                                ClaimDraftRow))
                 && SameTables(s, t)
            else t == s
    ensures var t := Step(s, StartDueSend(draft, now));
            if draft in s.drafts && s.drafts[draft].status == Scheduled && s.drafts[draft].sendAt.Some?
               && (s.drafts[draft].sendAt.value.exact.None? || s.drafts[draft].sendAt.value.exact.value <= now)
            then Stands(t, s.nextHandler,
                        Handler(Timer(draft), NoHeader, "", "", ClaimDueRow(s.drafts[draft].sendAt.value)))
                 && SameTables(s, t)
            else t == s
  {
  }

  /** A manual claim takes a draft that is neither being sent nor sent; it goes out with the
      content of the claimed row. A claim that is lost or fails ends the send and changes
      nothing. */
  lemma ManualClaimTakesTheRow(r: Trace, n: nat, id: nat, draft: nat)
    requires IsRun(r) && n < |r.events| && Steps(r, n, id) && DraftOf(r.states[n].handlers[id]) == Some(draft)
    requires r.states[n].handlers[id].pc == ClaimDraftRow && r.states[n].handlers[id].origin.ByHand?
    ensures var s, h, t := r.states[n], r.states[n].handlers[id], r.states[n + 1];
            if r.events[n].choice == Proceed && draft in s.drafts
               && s.drafts[draft].status != Sending && s.drafts[draft].status != Sent
            then && id in t.handlers && t.handlers[id].pc == CheckLocally && t.handlers[id].header == h.header
                 && t.handlers[id].inbox == h.inbox && t.handlers[id].body == s.drafts[draft].content
                 && t.drafts == s.drafts[draft := s.drafts[draft].(status := Sending)]
            else id !in t.handlers && SameTables(s, t)
  {
    assert Follows(r, n);
  }

  /** The scheduler's claim takes a draft still scheduled for the time that was judged; a
      time that, trimmed, is neither blank nor a timestamp parks it at once. */
  lemma DueClaimTakesTheRow(r: Trace, n: nat, id: nat, draft: nat, sendAt: SendAt)
    requires IsRun(r) && n < |r.events| && Steps(r, n, id) && r.states[n].handlers[id].origin == Timer(draft)
    requires r.states[n].handlers[id].pc == ClaimDueRow(sendAt)
    ensures var s, t := r.states[n], r.states[n + 1];
            if r.events[n].choice == Proceed && draft in s.drafts
               && s.drafts[draft].status == Scheduled && s.drafts[draft].sendAt == Some(sendAt)
            then && id in t.handlers && t.handlers[id].inbox == s.drafts[draft].inbox
                 && t.handlers[id].body == s.drafts[draft].content && t.handlers[id].header == NoHeader
                 && t.handlers[id].pc == (if Trim(sendAt.text) == "" || sendAt.trimmed.Some? then CheckLocally
                                          else Settle(Failed, false))
                 && t.drafts == s.drafts[draft := s.drafts[draft].(status := Sending)]
            else id !in t.handlers && SameTables(s, t)
  {
    RunKeeps(r, n);
    assert Follows(r, n) && HandlerOk(r.states[n], id, r.states[n].handlers[id]);
  }

  /** The scheduler's own checks: past them it hands the claimed row over, and a draft they
      refuse is parked. */
  lemma SchedulerChecks(r: Trace, n: nat, id: nat)
    requires IsRun(r) && n < |r.events| && Steps(r, n, id)
    requires r.states[n].handlers[id].origin.Timer? && r.states[n].handlers[id].pc == CheckLocally
    ensures var h, t := r.states[n].handlers[id], r.states[n + 1];
            Stands(t, id, h.(pc := if r.events[n].choice == Proceed then HandToTransport else Settle(Failed, false)))
  {
    assert Follows(r, n);
  }

  /** Creating, editing and deleting drafts, a cancelled handler and a crash. */
  lemma OtherEvents(s: State, draft: nat, inbox: string, content: string, sendAt: Option<SendAt>, id: nat)
    ensures var status := if sendAt.Some? then Scheduled else Draft;
            var row := DraftRow(inbox, content, sendAt, status);
            && Step(s, CreateDraft(inbox, content, sendAt)).drafts == s.drafts[s.nextDraft := row]
            && Step(s, CreateDraft(inbox, content, sendAt)).nextDraft == s.nextDraft + 1
            && Step(s, EditDraft(draft, content, sendAt)).drafts
               == (if draft in s.drafts && s.drafts[draft].status != Sending && s.drafts[draft].status != Sent
                   then s.drafts[draft := DraftRow(s.drafts[draft].inbox, content, sendAt, status)] else s.drafts)
    ensures Step(s, Event.DeleteDraft(draft)).drafts == s.drafts - {draft}
    ensures Step(s, Cancel(id)) == s.(handlers := s.handlers - {id})
    ensures Step(s, Crash) == s.(handlers := map[])
  {
  }
}
