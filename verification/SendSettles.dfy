/**
 What becomes of a draft when its send is over: which answers leave it sent, which put it
 back, and which leave it `sending` because the message may have gone out.
 */
module SendSettles {
  import opened Options
  import opened SendClaims
  import opened Drafts
  import opened SendProtocol
  import opened SendInvariant
  import opened SendSteps
  import opened SendFrames

  /** Where a draft send stands once it has been answered. */
  ghost predicate AnsweredRightly(h: Handler, t: State, id: nat) {
    id in t.answers && DraftOf(h).Some? ==>
      && id in t.handlers && DraftOf(t.handlers[id]) == DraftOf(h)
      && match t.answers[id]
         case AnsweredSent(_) => t.handlers[id].pc == Settle(Sent, true)
         case AnsweredReplay(_, _, _, _) => t.handlers[id].pc == Settle(Sent, true)
         case TransportRefused => t.handlers[id].pc == PutBack(h)
         case RefusedBeforeClaim(serverError) =>
           t.handlers[id].pc == if serverError && h.origin.ByHand? && h.header.Text? then ProbeKey else PutBack(h)
         case _ => h.origin.ByHand? && h.header.Text? ==> t.handlers[id].pc == ProbeKey
  }

  function PutBack(h: Handler): Pc {
    match h.origin
    case ByHand(_, _, restore) => Settle(restore, false)
    case _ => Settle(Failed, false)
  }

  lemma DraftReplyIsRight(s: State, id: nat, h: Handler, answer: Answer, pc: Pc)
    requires DraftOf(h).Some?
    requires match answer
             case AnsweredSent(_) => pc == Settle(Sent, true)
             case AnsweredReplay(_, _, _, _) => pc == Settle(Sent, true)
             case TransportRefused => pc == PutBack(h)
             case RefusedBeforeClaim(serverError) =>
               pc == if serverError && h.origin.ByHand? && h.header.Text? then ProbeKey else PutBack(h)
             case _ => h.origin.ByHand? && h.header.Text? ==> pc == ProbeKey
    ensures AnsweredRightly(h, Move(s.(answers := s.answers[id := answer]), id, h, pc), id)
  {
  }

  lemma ReplyIsRight(s: State, id: nat, h: Handler, answer: Answer)
    ensures AnsweredRightly(h, Reply(s, id, h, answer), id)
  {
    match h.origin
    case Direct =>
    case Timer(_) =>
      DraftReplyIsRight(s, id, h, answer, if Succeeded(answer) then Settle(Sent, true) else Settle(Failed, false));
    case ByHand(_, _, restore) =>
      DraftReplyIsRight(s, id, h, answer,
                        if Succeeded(answer) then Settle(Sent, true)
                        else if NeedsProbe(h, answer) then ProbeKey
                        else Settle(restore, false));
  }

  lemma NoAnswerIsRight(h: Handler, t: State, id: nat)
    requires id !in t.answers
    ensures AnsweredRightly(h, t, id)
  {
  }

  lemma RefusedIsRight(s: State, id: nat, h: Handler, serverError: bool)
    ensures AnsweredRightly(h, Refused(s, id, h, serverError), id)
  {
    ReplyIsRight(s, id, h, RefusedBeforeClaim(serverError));
  }

  lemma ClaimAnswerIsRight(s: State, id: nat, h: Handler, key: string, claim: SendClaim)
    requires claim != New
    ensures AnsweredRightly(h, ReplyClaim(s, id, h, key, claim), id)
  {
    match claim
    case Replay(response) => ReplyIsRight(s, id, h, AnsweredReplay(key, h.inbox, HashOf(h), response));
    case Conflict => ReplyIsRight(s, id, h, KeyReused);
    case Unresolved => ReplyIsRight(s, id, h, KeyUnresolved);
  }

  lemma SendFailedIsRight(s: State, id: nat, h: Handler)
    ensures AnsweredRightly(h, SendFailed(s, id, h), id)
  {
    ReplyIsRight(s, id, h, if KeyOf(h).Some? then OutcomeUnresolved else TransportRefused);
  }

  lemma ChecksAreRight(s: State, id: nat, h: Handler, c: Choice)
    requires id !in s.answers
    ensures AnsweredRightly(h, StepCheckLocally(s, id, h, c), id)
    ensures AnsweredRightly(h, StepCheckTransport(s, id, h, c), id)
  {
    RefusedIsRight(s, id, h, false);
    if c.Refuse? { RefusedIsRight(s, id, h, c.serverError); }
  }

  lemma ReadIsRight(s: State, id: nat, h: Handler)
    requires KeyOf(h).Some?
    ensures var claim := ReadSendClaim(s.claims, s.legacy, KeyOf(h).value, h.inbox, HashOf(h));
            claim.Some? ==> AnsweredRightly(h, ReplyClaim(s, id, h, KeyOf(h).value, claim.value), id)
  {
    var claim := ReadSendClaim(s.claims, s.legacy, KeyOf(h).value, h.inbox, HashOf(h));
    if claim.Some? { ClaimAnswerIsRight(s, id, h, KeyOf(h).value, claim.value); }
  }

  lemma LookUpIsRight(s: State, id: nat, h: Handler, c: Choice)
    requires id !in s.answers && KeyOf(h).Some?
    ensures AnsweredRightly(h, StepLookUpKey(s, id, h, c), id)
  {
    RefusedIsRight(s, id, h, false);
    RefusedIsRight(s, id, h, true);
    ReadIsRight(s, id, h);
  }

  lemma ReadsAreRight(s: State, id: nat, h: Handler, c: Choice)
    requires id !in s.answers && KeyOf(h).Some?
    ensures AnsweredRightly(h, StepReadClaim(s, id, h, c), id)
    ensures AnsweredRightly(h, StepRereadClaim(s, id, h, c), id)
  {
    RefusedIsRight(s, id, h, true);
    ReadIsRight(s, id, h);
  }

  lemma InsertIsRight(s: State, id: nat, h: Handler, c: Choice)
    requires id !in s.answers && KeyOf(h).Some?
    ensures AnsweredRightly(h, StepInsertClaim(s, id, h, c), id)
  {
    RefusedIsRight(s, id, h, true);
  }

  lemma HandOffIsRight(s: State, id: nat, h: Handler, c: Choice)
    requires id !in s.answers
    ensures AnsweredRightly(h, StepHandToTransport(s, id, h, c), id)
  {
    SendFailedIsRight(s, id, h);
    SendFailedIsRight(Recorded(s, id, h), id, h);
  }

  lemma StoreIsRight(s: State, id: nat, h: Handler, provider: string, c: Choice)
    requires id !in s.answers
    ensures AnsweredRightly(h, StepInsertMessageRow(s, id, h, provider, c), id)
  {
    SendFailedIsRight(s, id, h);
    ReplyIsRight(s, id, h, AnsweredSent(Response(id, provider)));
  }

  lemma CompleteIsRight(s: State, id: nat, h: Handler, response: Response, c: Choice)
    requires id !in s.answers && KeyOf(h).Some?
    ensures AnsweredRightly(h, StepComplete(s, id, h, response, c), id)
  {
    ReplyIsRight(s, id, h, ReplayNotSaved);
    var u := s.(claims := CompleteRow(s.claims, KeyOf(h).value, h.inbox, HashOf(h), response));
    ReplyIsRight(u, id, h, AnsweredSent(response));
  }

  lemma ClaimsAreRight(s: State, id: nat, h: Handler, c: Choice)
    requires id !in s.answers
    ensures AnsweredRightly(h, StepClaimDraftRow(s, id, h, c), id)
    ensures h.pc.ClaimDueRow? ==> AnsweredRightly(h, StepClaimDueRow(s, id, h, h.pc.sendAt, c), id)
  {
  }

  lemma EndsAreRight(s: State, id: nat, h: Handler, c: Choice)
    requires id !in s.answers
    ensures AnsweredRightly(h, StepProbeKey(s, id, h, c), id)
    ensures h.pc.Settle? ==> AnsweredRightly(h, StepSettle(s, id, h, h.pc.status, h.pc.clearSendAt, c), id)
  {
  }

  lemma StepIsRight(s: State, id: nat, h: Handler, c: Choice)
    requires id !in s.answers
    ensures AnsweredRightly(h, StepHandler(s, id, h, c), id)
  {
    if NeedsKey(h.pc) && KeyOf(h).None? {
      NoAnswerIsRight(h, s, id);
    } else {
      match h.pc
      case ClaimDraftRow => ClaimsAreRight(s, id, h, c);
      case ClaimDueRow(_) => ClaimsAreRight(s, id, h, c);
      case CheckLocally => ChecksAreRight(s, id, h, c);
      case LookUpKey => LookUpIsRight(s, id, h, c);
      case CheckTransport => ChecksAreRight(s, id, h, c);
      case ReadClaim => ReadsAreRight(s, id, h, c);
      case InsertClaim => InsertIsRight(s, id, h, c);
      case RereadClaim => ReadsAreRight(s, id, h, c);
      case HandToTransport => HandOffIsRight(s, id, h, c);
      case InsertMessageRow(provider) => StoreIsRight(s, id, h, provider, c);
      case Complete(response) => CompleteIsRight(s, id, h, response, c);
      case ProbeKey => EndsAreRight(s, id, h, c);
      case Settle(_, _) => EndsAreRight(s, id, h, c);
    }
  }

  /** Over every run, when the send of a draft is answered: as sent or as a replay it goes
      on to settle the draft as sent; refused by the transport, or before its claim
      without a server error, it goes on to put the draft back; and with a key in use, an
      outcome not known or a server error it first looks its key up again. */
  lemma AnsweredDraftGoesOn(r: Trace, n: nat, id: nat)
    requires IsRun(r) && n < |r.events| && r.events[n].Advance? && r.events[n].handler == id
    requires id in r.states[n].handlers && id !in r.states[n].answers && id in r.states[n + 1].answers
    requires DraftOf(r.states[n].handlers[id]).Some?
    ensures AnsweredRightly(r.states[n].handlers[id], r.states[n + 1], id)
  {
    assert Follows(r, n);
    StepIsRight(r.states[n], id, r.states[n].handlers[id], r.events[n].choice);
  }

  /** The key is free, or the row under it is of another request. */
  predicate NeverClaimedBy(s: State, h: Handler, key: string) {
    && key !in s.legacy
    && (key in s.claims ==> s.claims[key].inbox != h.inbox || s.claims[key].hash != Sha256Json(h.body))
  }

  /** Over every run: a manual send that looks its key up again puts the draft back if and
      only if the lookup succeeds, for a valid key, and finds the key free or another
      request's; otherwise it ends and the draft stays as it is, `sending`. */
  lemma LookedUpDraftIsPutBackIff(r: Trace, n: nat, id: nat, key: string)
    requires IsRun(r) && n < |r.events| && r.events[n].Advance? && r.events[n].handler == id
    requires id in r.states[n].handlers
    requires r.states[n].handlers[id].pc == ProbeKey && r.states[n].handlers[id].header == Text(key)
    ensures var s, t, h := r.states[n], r.states[n + 1], r.states[n].handlers[id];
            && h.origin.ByHand? && t.drafts == s.drafts
            && if r.events[n].choice != Fault && ValidSendKey(key) && NeverClaimedBy(s, h, key)
               then id in t.handlers && t.handlers[id] == h.(pc := Settle(h.origin.restore, false))
               else id !in t.handlers && (h.origin.draft in t.drafts ==> t.drafts[h.origin.draft].status == Sending)
  {
    RunKeeps(r, n);
    assert Follows(r, n) && HandlerOk(r.states[n], id, r.states[n].handlers[id]);
  }

  /** Over every run, a settle without a fault leaves its draft with the status of the
      settle, and without a time exactly when that is `sent`; content and inbox stay. */
  lemma SettledDraftIsAsSettled(r: Trace, n: nat, id: nat, draft: nat)
    requires IsRun(r) && n < |r.events| && r.events[n] == Advance(id, Proceed) && id in r.states[n].handlers
    requires r.states[n].handlers[id].pc.Settle? && DraftOf(r.states[n].handlers[id]) == Some(draft)
    requires draft in r.states[n].drafts
    ensures var s, t, h := r.states[n], r.states[n + 1], r.states[n].handlers[id];
            && id !in t.handlers && draft in t.drafts
            && t.drafts[draft] == DraftRow(s.drafts[draft].inbox, s.drafts[draft].content,
                                           if h.pc.status == Sent then None else s.drafts[draft].sendAt, h.pc.status)
  {
    RunKeeps(r, n);
    assert Follows(r, n) && HandlerOk(r.states[n], id, r.states[n].handlers[id]);
  }
}
