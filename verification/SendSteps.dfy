/** Every step of outbound sending keeps the invariant. */
module SendSteps {
  import opened Options
  import opened SendClaims
  import opened Drafts
  import opened SendProtocol
  import opened SendInvariant

  /** The handler that takes the step. */
  ghost predicate At(s: State, id: nat, h: Handler) {
    Inv(s) && id in s.handlers && s.handlers[id] == h && (NeedsKey(h.pc) ==> KeyOf(h).Some?)
  }

  /** `s` with handler `id` lifted out. The hand-off of `id` may be in its log
      and the claim of `id` in its table, but nothing else speaks of it. */
  ghost predicate Lifted(s: State, id: nat, h: Handler) {
    && Inv(s) && id !in s.handlers && id !in s.answers && id < s.nextHandler
    && (forall key :: key in s.winner && s.winner[key] == id ==>
                        && KeyOf(h) == Some(key) && key in s.claims
                        && s.claims[key].inbox == h.inbox && s.claims[key].hash == HashOf(h))
    && (forall i :: 0 <= i < |s.log| && s.log[i].handler == id ==> s.log[i] == EntryOf(id, h))
    && (h.origin.Timer? ==> h.header == NoHeader)
    && (h.origin.ByHand? ==> Editable(h.origin.restore))
    && (DraftOf(h).Some? ==>
          && DraftOf(h).value < s.nextDraft
          && FreeFor(s, id, DraftOf(h).value)
          && (DraftOf(h).value in s.drafts ==>
                && s.drafts[DraftOf(h).value].status == Sending
                && s.drafts[DraftOf(h).value].content == h.body
                && (h.origin.ByHand? ==> RestoreOk(s.drafts[DraftOf(h).value], h.origin.restore))))
  }

  ghost predicate Unclaimed(s: State, id: nat) {
    && (forall key :: key in s.winner ==> s.winner[key] != id)
    && (forall i :: 0 <= i < |s.log| ==> s.log[i].handler != id)
  }

  lemma Lift(s: State, id: nat, h: Handler)
    requires At(s, id, h) && !Answered(h.pc) && !h.pc.ClaimDraftRow? && !h.pc.ClaimDueRow?
    ensures Lifted(Drop(s, id), id, h)
    ensures BeforeClaim(h.pc) ==> Unclaimed(Drop(s, id), id)
  {
    DropKeeps(s, id);
  }

  /** The answers a handler with or without a key can get. */
  predicate AnswerFits(h: Handler, a: Answer) {
    && (a == TransportRefused ==> KeyOf(h).None?)
    && (a == OutcomeUnresolved || a == ReplayNotSaved ==> KeyOf(h).Some?)
  }

  /** Where an answered draft send may go. */
  ghost predicate SettleFits(h: Handler, a: Answer, pc: Pc) {
    && DraftOf(h).Some? && Answered(pc) && (pc.ProbeKey? ==> h.origin.ByHand?)
    && (pc.Settle? ==> pc.status != Sending && (pc.status == Sent <==> pc.clearSendAt))
    && (pc.Settle? && Editable(pc.status) ==> KeyOf(h).None? || NeverClaimed(a))
    && (pc.Settle? ==>
          || pc.status == Sent || pc.status == Failed
          || (h.origin.ByHand? && pc.status == h.origin.restore))
  }

  lemma AnsweredFits(t: State, u: State, id: nat, h: Handler, a: Answer, pc: Pc)
    requires Lifted(t, id, h) && SettleFits(h, a, pc) && u == t.(answers := t.answers[id := a])
    requires NeverClaimed(a) ==> Unclaimed(t, id)
    ensures Fits(u, id, h.(pc := pc))
  {
    assert HandlerOk(u, id, h.(pc := pc));
  }

  lemma SettlesSafely(t: State, id: nat, h: Handler, a: Answer, pc: Pc)
    requires Lifted(t, id, h) && AnswerFits(h, a) && SettleFits(h, a, pc)
    requires NeverClaimed(a) ==> Unclaimed(t, id)
    requires ReplayOk(t.claims, a)
    ensures Inv(t.(answers := t.answers[id := a], handlers := t.handlers[id := h.(pc := pc)]))
  {
    AnswerKeeps(t, id, a);
    var u := t.(answers := t.answers[id := a]);
    AnsweredFits(t, u, id, h, a, pc);
    PutKeeps(u, id, h.(pc := pc));
  }

  lemma ReplyKeeps(s: State, id: nat, h: Handler, a: Answer)
    requires id in s.handlers && Lifted(Drop(s, id), id, h) && AnswerFits(h, a)
    requires NeverClaimed(a) ==> Unclaimed(Drop(s, id), id)
    requires ReplayOk(s.claims, a)
    ensures Inv(Reply(s, id, h, a))
  {
    var t := Drop(s, id);
    var r := Reply(s, id, h, a);
    if h.origin == Direct {
      AnswerKeeps(t, id, a);
      assert r == t.(answers := t.answers[id := a]);
    } else {
      var pc := r.handlers[id].pc;
      SettlesSafely(t, id, h, a, pc);
      assert t.handlers[id := h.(pc := pc)] == r.handlers;
      assert r == t.(answers := t.answers[id := a], handlers := t.handlers[id := h.(pc := pc)]);
    }
  }

  /** Put the lifted handler back at a step of `send_message`. */
  lemma MoveKeeps(s: State, id: nat, h: Handler, pc: Pc)
    requires id in s.handlers && Lifted(Drop(s, id), id, h)
    requires !Answered(pc) && !pc.ClaimDraftRow? && !pc.ClaimDueRow?
    requires HandlerOk(Drop(s, id), id, h.(pc := pc))
    requires BeforeClaim(pc) ==> Unclaimed(Drop(s, id), id)
    requires pc.HandToTransport? ==> forall i :: 0 <= i < |s.log| ==> s.log[i].handler != id
    ensures Inv(Move(s, id, h, pc))
  {
    var t := Drop(s, id);
    assert Fits(t, id, h.(pc := pc));
    PutKeeps(t, id, h.(pc := pc));
    assert Move(s, id, h, pc) == t.(handlers := t.handlers[id := h.(pc := pc)]) by {
      assert t.handlers[id := h.(pc := pc)] == s.handlers[id := h.(pc := pc)];
    }
  }

  lemma ClaimFits(u: State, id: nat, h: Handler, draft: nat, pc: Pc)
    requires Inv(u) && id !in u.handlers && Unclaimed(u, id) && id !in u.answers && id < u.nextHandler
    requires DraftOf(h) == Some(draft) && draft in u.drafts && FreeFor(u, id, draft)
    requires u.drafts[draft].status == Sending && u.drafts[draft].content == h.body
    requires h.origin.Timer? ==> h.header == NoHeader
    requires h.origin.ByHand? ==> Editable(h.origin.restore) && RestoreOk(u.drafts[draft], h.origin.restore)
    requires pc == CheckLocally || (pc == Settle(Failed, false) && h.origin.Timer?)
    ensures Fits(u, id, h.(pc := pc))
  {
    assert HandlerOk(u, id, h.(pc := pc));
  }

  /** `send_draft` and the scheduler become the one holder of the row. */
  lemma ClaimKeeps(s: State, id: nat, h: Handler, draft: nat, pc: Pc)
    requires id in s.handlers && Inv(Drop(s, id)) && Unclaimed(s, id)
    requires id !in s.answers && id < s.nextHandler
    requires DraftOf(h) == Some(draft) && ClaimableByHand(s.drafts, draft)
    requires h.body == s.drafts[draft].content
    requires h.origin.Timer? ==> h.header == NoHeader
    requires h.origin.ByHand? ==> Editable(h.origin.restore) && RestoreOk(s.drafts[draft], h.origin.restore)
    requires pc == CheckLocally || (pc == Settle(Failed, false) && h.origin.Timer?)
    ensures Inv(Move(s.(drafts := MarkSending(s.drafts, draft)), id, h, pc))
  {
    var t := Drop(s, id);
    SetDraftKeeps(t, draft, s.drafts[draft].(status := Sending));
    var u := t.(drafts := MarkSending(s.drafts, draft));
    ClaimFits(u, id, h, draft, pc);
    PutKeeps(u, id, h.(pc := pc));
    assert u.handlers[id := h.(pc := pc)] == s.handlers[id := h.(pc := pc)];
  }

  lemma StepClaimDraftRowKeeps(s: State, id: nat, h: Handler, c: Choice)
    requires At(s, id, h) && h.pc == ClaimDraftRow
    ensures Inv(StepClaimDraftRow(s, id, h, c))
  {
    DropKeeps(s, id);
    if c == Proceed && h.origin.ByHand? && ClaimableByHand(s.drafts, h.origin.draft) {
      var row := s.drafts[h.origin.draft];
      var restore := RestoreStatus(h.origin.parked, row.sendAt);
      var claimed := h.(origin := h.origin.(restore := restore), body := row.content);
      ClaimKeeps(s, id, claimed, h.origin.draft, CheckLocally);
    }
  }

  /** The scheduler parks a draft it may not send. */
  lemma ParkKeeps(s: State, id: nat, h: Handler)
    requires id in s.handlers && Lifted(Drop(s, id), id, h) && h.origin.Timer?
    ensures Inv(Move(s, id, h, Settle(Failed, false)))
  {
    var t := Drop(s, id);
    var h1 := h.(pc := Settle(Failed, false));
    assert Fits(t, id, h1);
    PutKeeps(t, id, h1);
    assert t.handlers[id := h1] == s.handlers[id := h1];
  }

  lemma StepClaimDueRowKeeps(s: State, id: nat, h: Handler, sendAt: SendAt, c: Choice)
    requires At(s, id, h) && h.pc == ClaimDueRow(sendAt)
    ensures Inv(StepClaimDueRow(s, id, h, sendAt, c))
  {
    DropKeeps(s, id);
    if c == Proceed && h.origin.Timer? && ClaimableAt(s.drafts, h.origin.draft, sendAt) {
      var row := s.drafts[h.origin.draft];
      ClaimKeeps(s, id, h.(body := row.content, inbox := row.inbox), h.origin.draft,
                 if InOrder(sendAt) then CheckLocally else Settle(Failed, false));
    }
  }

  lemma StepCheckLocallyKeeps(s: State, id: nat, h: Handler, c: Choice)
    requires At(s, id, h) && h.pc == CheckLocally
    ensures Inv(StepCheckLocally(s, id, h, c))
  {
    Lift(s, id, h);
    if h.origin.Timer? {
      if c == Proceed {
        MoveKeeps(s, id, h, HandToTransport);
      } else {
        ParkKeeps(s, id, h);
      }
    } else if c.Refuse? {
      ReplyKeeps(s, id, h, RefusedBeforeClaim(c.serverError));
    } else if !h.header.NoHeader? && KeyOf(h).None? {
      ReplyKeeps(s, id, h, RefusedBeforeClaim(false));
    } else {
      MoveKeeps(s, id, h, if KeyOf(h).Some? then LookUpKey else CheckTransport);
    }
  }

  lemma ReplyClaimKeeps(s: State, id: nat, h: Handler, key: string, claim: SendClaim)
    requires At(s, id, h) && BeforeClaim(h.pc) && !h.pc.ClaimDraftRow? && !h.pc.ClaimDueRow?
    requires KeyOf(h) == Some(key) && claim != New
    requires ReadSendClaim(s.claims, s.legacy, key, h.inbox, HashOf(h)) == Some(claim)
    ensures Inv(ReplyClaim(s, id, h, key, claim))
  {
    Lift(s, id, h);
    match claim
    case Replay(response) => ReplyKeeps(s, id, h, AnsweredReplay(key, h.inbox, HashOf(h), response));
    case Conflict => ReplyKeeps(s, id, h, KeyReused);
    case Unresolved => ReplyKeeps(s, id, h, KeyUnresolved);
  }

  lemma RefusedKeeps(s: State, id: nat, h: Handler, serverError: bool)
    requires At(s, id, h) && BeforeClaim(h.pc) && !h.pc.ClaimDraftRow? && !h.pc.ClaimDueRow?
    ensures Inv(Refused(s, id, h, serverError))
  {
    Lift(s, id, h);
    ReplyKeeps(s, id, h, RefusedBeforeClaim(serverError));
  }

  lemma StepCheckTransportKeeps(s: State, id: nat, h: Handler, c: Choice)
    requires At(s, id, h) && h.pc == CheckTransport
    ensures Inv(StepCheckTransport(s, id, h, c))
  {
    if c != Proceed {
      RefusedKeeps(s, id, h, false);
    } else {
      Lift(s, id, h);
      MoveKeeps(s, id, h, if KeyOf(h).Some? then ReadClaim else HandToTransport);
    }
  }

  /** A read of the claim table that finds nothing. */
  lemma NoClaimKeeps(s: State, id: nat, h: Handler)
    requires At(s, id, h)
    requires h.pc == LookUpKey || (h.pc == ReadClaim && KeyOf(h).value !in s.legacy)
    ensures Inv(Move(s, id, h, if h.pc == LookUpKey then CheckTransport else InsertClaim))
  {
    Lift(s, id, h);
    MoveKeeps(s, id, h, if h.pc == LookUpKey then CheckTransport else InsertClaim);
  }

  lemma StepLookUpKeyKeeps(s: State, id: nat, h: Handler, c: Choice)
    requires At(s, id, h) && h.pc == LookUpKey
    ensures Inv(StepLookUpKey(s, id, h, c))
  {
    var key := KeyOf(h).value;
    if !ValidSendKey(key) || c == Fault {
      RefusedKeeps(s, id, h, ValidSendKey(key));
    } else {
      match ReadSendClaim(s.claims, s.legacy, key, h.inbox, HashOf(h))
      case Some(claim) => ReplyClaimKeeps(s, id, h, key, claim);
      case None => NoClaimKeeps(s, id, h);
    }
  }

  lemma StepReadClaimKeeps(s: State, id: nat, h: Handler, c: Choice)
    requires At(s, id, h) && h.pc == ReadClaim
    ensures Inv(StepReadClaim(s, id, h, c))
  {
    var key := KeyOf(h).value;
    RefusedKeeps(s, id, h, true);
    match ReadSendClaim(s.claims, s.legacy, key, h.inbox, HashOf(h))
    case Some(claim) => ReplyClaimKeeps(s, id, h, key, claim);
    case None => NoClaimKeeps(s, id, h);
  }

  lemma StepRereadClaimKeeps(s: State, id: nat, h: Handler, c: Choice)
    requires At(s, id, h) && h.pc == RereadClaim
    ensures Inv(StepRereadClaim(s, id, h, c))
  {
    var key := KeyOf(h).value;
    RefusedKeeps(s, id, h, true);
    match ReadSendClaim(s.claims, s.legacy, key, h.inbox, HashOf(h))
    case Some(claim) => ReplyClaimKeeps(s, id, h, key, claim);
    case None =>
  }

  /** The steps that read the claim table and change no table. */
  lemma ReadingStepsKeep(s: State, id: nat, h: Handler, c: Choice)
    requires At(s, id, h) && (h.pc == LookUpKey || h.pc == ReadClaim || h.pc == RereadClaim)
    ensures Inv(StepHandler(s, id, h, c))
  {
    match h.pc
    case LookUpKey => StepLookUpKeyKeeps(s, id, h, c);
    case ReadClaim => StepReadClaimKeeps(s, id, h, c);
    case RereadClaim => StepRereadClaimKeeps(s, id, h, c);
  }

  lemma InsertedLifted(t: State, t1: State, id: nat, h: Handler, key: string)
    requires Lifted(t, id, h) && Unclaimed(t, id) && KeyOf(h) == Some(key)
    requires key !in t.claims && key !in t.legacy
    requires t1 == t.(claims := InsertOrIgnore(t.claims, key, h.inbox, HashOf(h)), winner := t.winner[key := id])
    ensures Inv(t1) && Fits(t1, id, h.(pc := HandToTransport))
  {
    InsertKeeps(t, id, key, h.inbox, HashOf(h));
    assert HandlerOk(t1, id, h.(pc := HandToTransport));
  }

  /** The claim is written before the transport is called. */
  lemma NewClaimKeeps(s: State, id: nat, h: Handler, key: string)
    requires At(s, id, h) && h.pc == InsertClaim && KeyOf(h) == Some(key) && key !in s.claims
    ensures Inv(StepInsertClaim(s, id, h, Proceed))
  {
    Lift(s, id, h);
    var t := Drop(s, id);
    var t1 := t.(claims := InsertOrIgnore(t.claims, key, h.inbox, HashOf(h)), winner := t.winner[key := id]);
    InsertedLifted(t, t1, id, h, key);
    var h1 := h.(pc := HandToTransport);
    PutKeeps(t1, id, h1);
    assert t1.handlers[id := h1] == s.handlers[id := h1];
  }

  lemma StepInsertClaimKeeps(s: State, id: nat, h: Handler, c: Choice)
    requires At(s, id, h) && h.pc == InsertClaim
    ensures Inv(StepInsertClaim(s, id, h, c))
  {
    var key := KeyOf(h).value;
    if c == Fault {
      RefusedKeeps(s, id, h, true);
    } else if key in s.claims {
      Lift(s, id, h);
      MoveKeeps(s, id, h, RereadClaim);
    } else {
      NewClaimKeeps(s, id, h, key);
    }
  }

  /** The hand-off is the first one of this handler, and of its key. */
  lemma HandOffLifted(t: State, u: State, id: nat, h: Handler)
    requires Lifted(t, id, h) && u == t.(log := t.log + [EntryOf(id, h)])
    requires forall i :: 0 <= i < |t.log| ==> t.log[i].handler != id
    requires KeyOf(h).Some? ==> KeyOf(h).value in t.winner && t.winner[KeyOf(h).value] == id
    ensures Lifted(u, id, h) && EntryOf(id, h) in u.log
  {
    RecordKeeps(t, EntryOf(id, h));
    assert u.log[|t.log|] == EntryOf(id, h);
  }

  lemma RecordedLifted(s: State, id: nat, h: Handler)
    requires At(s, id, h) && h.pc == HandToTransport
    ensures Lifted(Drop(Recorded(s, id, h), id), id, h)
    ensures EntryOf(id, h) in Recorded(s, id, h).log
  {
    Lift(s, id, h);
    HandOffLifted(Drop(s, id), Drop(Recorded(s, id, h), id), id, h);
  }

  lemma SendFailedKeeps(s: State, id: nat, h: Handler)
    requires id in s.handlers && Lifted(Drop(s, id), id, h)
    ensures Inv(SendFailed(s, id, h))
  {
    ReplyKeeps(s, id, h, if KeyOf(h).Some? then OutcomeUnresolved else TransportRefused);
  }

  lemma AcceptedKeeps(s: State, id: nat, h: Handler, provider: string)
    requires At(s, id, h) && h.pc == HandToTransport
    ensures Inv(Move(Recorded(s, id, h), id, h, InsertMessageRow(provider)))
  {
    RecordedLifted(s, id, h);
    MoveKeeps(Recorded(s, id, h), id, h, InsertMessageRow(provider));
  }

  lemma StepHandToTransportKeeps(s: State, id: nat, h: Handler, c: Choice)
    requires At(s, id, h) && h.pc == HandToTransport
    ensures Inv(StepHandToTransport(s, id, h, c))
  {
    if c.Accept? {
      AcceptedKeeps(s, id, h, c.provider);
    } else if c == HandedThenFailed {
      RecordedLifted(s, id, h);
      SendFailedKeeps(Recorded(s, id, h), id, h);
    } else {
      Lift(s, id, h);
      SendFailedKeeps(s, id, h);
    }
  }

  lemma StepInsertMessageRowKeeps(s: State, id: nat, h: Handler, provider: string, c: Choice)
    requires At(s, id, h) && h.pc == InsertMessageRow(provider)
    ensures Inv(StepInsertMessageRow(s, id, h, provider, c))
  {
    Lift(s, id, h);
    if c != Proceed {
      SendFailedKeeps(s, id, h);
    } else if KeyOf(h).Some? {
      MoveKeeps(s, id, h, Complete(Response(id, provider)));
    } else {
      ReplyKeeps(s, id, h, AnsweredSent(Response(id, provider)));
    }
  }

  /** The response is recorded for a hand-off that is in the log. */
  lemma CompletedLifted(t: State, u: State, id: nat, h: Handler, key: string, response: Response)
    requires Lifted(t, id, h) && KeyOf(h) == Some(key) && key in t.winner && t.winner[key] == id
    requires Completable(t.claims, key, h.inbox, HashOf(h))
    requires EntryOf(id, h) in t.log && response.record == id
    requires u == t.(claims := CompleteRow(t.claims, key, h.inbox, HashOf(h), response))
    ensures Lifted(u, id, h)
  {
    CompleteKeeps(t, id, key, EntryOf(id, h), response);
  }

  lemma StepCompleteKeeps(s: State, id: nat, h: Handler, response: Response, c: Choice)
    requires At(s, id, h) && h.pc == Complete(response)
    ensures Inv(StepComplete(s, id, h, response, c))
  {
    var key := KeyOf(h).value;
    if c == Fault || !Completable(s.claims, key, h.inbox, HashOf(h)) {
      Lift(s, id, h);
      ReplyKeeps(s, id, h, ReplayNotSaved);
    } else {
      Lift(s, id, h);
      var s1 := s.(claims := CompleteRow(s.claims, key, h.inbox, HashOf(h), response));
      CompletedLifted(Drop(s, id), Drop(s1, id), id, h, key, response);
      ReplyKeeps(s1, id, h, AnsweredSent(response));
    }
  }

  lemma RestoreFits(s: State, id: nat, h: Handler)
    requires At(s, id, h) && h.pc == ProbeKey
    requires forall key :: key in s.winner ==> s.winner[key] != id
    ensures Fits(s, id, h.(pc := Settle(h.origin.restore, false)))
  {
    assert HandlerOk(s, id, h.(pc := Settle(h.origin.restore, false)));
  }

  /** A key that is unclaimed, or claimed by a different request, cannot be
      the one this handler claimed: nothing of it was handed over. */
  lemma StepProbeKeyKeeps(s: State, id: nat, h: Handler, c: Choice)
    requires At(s, id, h) && h.pc == ProbeKey
    ensures Inv(StepProbeKey(s, id, h, c))
  {
    DropKeeps(s, id);
    if c != Fault && h.header.Text? && ValidSendKey(h.header.text) {
      var claim := ReadSendClaim(s.claims, s.legacy, h.header.text, h.inbox, HashOf(h));
      if claim == None || claim == Some(Conflict) {
        assert KeyOf(h) == Some(h.header.text);
        RestoreFits(s, id, h);
        PutKeeps(s, id, h.(pc := Settle(h.origin.restore, false)));
      }
    }
  }

  lemma StepSettleKeeps(s: State, id: nat, h: Handler, status: Status, clear: bool, c: Choice)
    requires At(s, id, h) && h.pc == Settle(status, clear)
    ensures Inv(StepSettle(s, id, h, status, clear, c))
  {
    var t := Drop(s, id);
    DropKeeps(s, id);
    if c != Fault && DraftOf(h).Some? {
      var draft := DraftOf(h).value;
      if draft in s.drafts {
        SetDraftKeeps(t, draft, Finish(s.drafts, draft, status, clear)[draft]);
      }
      assert StepSettle(s, id, h, status, clear, c) == t.(drafts := Finish(s.drafts, draft, status, clear));
      assert draft in s.drafts ==>
          Finish(s.drafts, draft, status, clear) == s.drafts[draft := Finish(s.drafts, draft, status, clear)[draft]];
    }
  }

  lemma EarlyStepKeeps(s: State, id: nat, h: Handler, c: Choice)
    requires At(s, id, h) && BeforeClaim(h.pc)
    ensures Inv(StepHandler(s, id, h, c))
  {
    match h.pc
    case ClaimDraftRow => StepClaimDraftRowKeeps(s, id, h, c);
    case ClaimDueRow(sendAt) => StepClaimDueRowKeeps(s, id, h, sendAt, c);
    case CheckLocally => StepCheckLocallyKeeps(s, id, h, c);
    case CheckTransport => StepCheckTransportKeeps(s, id, h, c);
    case InsertClaim => StepInsertClaimKeeps(s, id, h, c);
    case _ => ReadingStepsKeep(s, id, h, c);
  }

  lemma LateStepKeeps(s: State, id: nat, h: Handler, c: Choice)
    requires At(s, id, h) && !BeforeClaim(h.pc)
    ensures Inv(StepHandler(s, id, h, c))
  {
    match h.pc
    case HandToTransport => StepHandToTransportKeeps(s, id, h, c);
    case InsertMessageRow(provider) => StepInsertMessageRowKeeps(s, id, h, provider, c);
    case Complete(response) => StepCompleteKeeps(s, id, h, response, c);
    case ProbeKey => StepProbeKeyKeeps(s, id, h, c);
    case Settle(status, clear) => StepSettleKeeps(s, id, h, status, clear, c);
  }

  lemma StepHandlerKeeps(s: State, id: nat, h: Handler, c: Choice)
    requires Inv(s) && id in s.handlers && s.handlers[id] == h
    ensures Inv(StepHandler(s, id, h, c))
  {
    if NeedsKey(h.pc) && KeyOf(h).None? {
      assert StepHandler(s, id, h, c) == s;
    } else if BeforeClaim(h.pc) {
      EarlyStepKeeps(s, id, h, c);
    } else {
      LateStepKeeps(s, id, h, c);
    }
  }

  lemma SpawnKeeps(s: State, h: Handler)
    requires Inv(s) && BeforeClaim(h.pc) && !h.pc.InsertClaim?
    requires h.origin == Direct || h.pc.ClaimDraftRow? || h.pc.ClaimDueRow?
    requires h.origin.ByHand? ==> Editable(h.origin.restore)
    requires h.origin.Timer? ==> h.header == NoHeader
    requires DraftOf(h).Some? ==> DraftOf(h).value < s.nextDraft
    ensures Inv(Spawn(s, h))
  {
    var t := s.(nextHandler := s.nextHandler + 1);
    assert Inv(t);
    PutKeeps(t, s.nextHandler, h);
  }

  /** A new or edited draft: nobody holds it and no key was used on it. */
  lemma DraftEventKeeps(s: State, e: Event)
    requires Inv(s) && (e.CreateDraft? || e.EditDraft? || e.DeleteDraft?)
    ensures Inv(Step(s, e))
  {
    match e
    case CreateDraft(inbox, content, sendAt) =>
      var t := s.(nextDraft := s.nextDraft + 1);
      assert Inv(t);
      SetDraftKeeps(t, s.nextDraft, DraftRow(inbox, content, sendAt, ScheduleStatus(sendAt)));
    case EditDraft(draft, content, sendAt) =>
      if ClaimableByHand(s.drafts, draft) {
        SetDraftKeeps(s, draft, Edit(s.drafts, draft, content, sendAt)[draft]);
      }
    case DeleteDraft(draft) => RemoveDraftKeeps(s, draft);
  }

  lemma StepKeeps(s: State, e: Event)
    requires Inv(s)
    ensures Inv(Step(s, e))
  {
    match e
    case StartSend(inbox, header, body) => SpawnKeeps(s, Handler(Direct, header, inbox, body, CheckLocally));
    case StartDraftSend(draft, inbox, header) =>
      if draft in s.drafts && s.drafts[draft].inbox == inbox {
        var parked := s.drafts[draft].status == Failed;
        SpawnKeeps(s, Handler(ByHand(draft, parked, Failed), header, inbox, "", ClaimDraftRow));
      }
    case StartDueSend(draft, now) =>
      if draft in s.drafts && s.drafts[draft].sendAt.Some? {
        SpawnKeeps(s, Handler(Timer(draft), NoHeader, "", "", ClaimDueRow(s.drafts[draft].sendAt.value)));
      }
    case Advance(id, choice) =>
      if id in s.handlers {
        StepHandlerKeeps(s, id, s.handlers[id], choice);
      }
    case Cancel(id) => DropKeeps(s, id);
    case Crash => assert Inv(s.(handlers := map[]));
    case _ => DraftEventKeeps(s, e);
  }

  /** Every state of every run satisfies the invariant. */
  lemma {:induction false} RunKeeps(r: Trace, n: nat)
    requires IsRun(r) && n < |r.states|
    ensures Inv(r.states[n])
    decreases n
  {
    if n == 0 {
      InitOk(r.legacy);
    } else {
      RunKeeps(r, n - 1);
      assert Follows(r, n - 1);
      StepKeeps(r.states[n - 1], r.events[n - 1]);
    }
  }
}
