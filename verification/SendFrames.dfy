/**
 What one step of a handler does to the handlers and their answers; what it does to
 the tables and the log is `SendTheorems.HandlerFrame`.
 */
module SendFrames {
  import opened Options
  import opened SendClaims
  import opened Drafts
  import opened SendProtocol
  import opened SendInvariant

  predicate Claiming(pc: Pc) {
    pc.ClaimDraftRow? || pc.ClaimDueRow?
  }

  /** A claiming handler that stands behind its claim claimed an editable row. */
  ghost predicate ClaimFrame(s: State, h: Handler, g: Handler) {
    Claiming(h.pc) && !Claiming(g.pc) && DraftOf(h).Some? ==>
      DraftOf(h).value in s.drafts && Editable(s.drafts[DraftOf(h).value].status)
  }

  /** A manual sender settles as sent or puts the status back it took from its read;
      behind its claim a handler stays who it is. */
  ghost predicate OriginFrame(h: Handler, g: Handler) {
    && g.header == h.header && DraftOf(g) == DraftOf(h)
    && (!Claiming(h.pc) ==> !Claiming(g.pc) && g.origin == h.origin)
    && (g.pc.Settle? && h.origin.ByHand? && !Claiming(h.pc) && !h.pc.Settle? ==>
          g.pc.status == Sent || g.pc.status == h.origin.restore)
  }

  /** Only handler `id` and its answer change, and an answer is given once. */
  ghost predicate OthersFrame(s: State, id: nat, h: Handler, t: State) {
    && t.nextHandler == s.nextHandler && t.handlers.Keys <= s.handlers.Keys
    && t.answers.Keys <= s.answers.Keys + {id}
    && (forall other :: other in s.handlers && other != id ==>
                          other in t.handlers && t.handlers[other] == s.handlers[other])
    && (forall other :: other in s.answers && (other != id || Answered(h.pc)) ==>
                          other in t.answers && t.answers[other] == s.answers[other])
  }

  ghost predicate HandlersFrame(s: State, id: nat, h: Handler, t: State) {
    && OthersFrame(s, id, h, t)
    && (id in t.handlers ==> ClaimFrame(s, h, t.handlers[id]) && OriginFrame(h, t.handlers[id]))
  }

  lemma ReplyHandlers(s: State, id: nat, h: Handler, answer: Answer)
    requires id in s.handlers && s.handlers[id] == h && !Answered(h.pc) && !Claiming(h.pc)
    ensures HandlersFrame(s, id, h, Reply(s, id, h, answer))
  {
  }

  lemma MoveHandlers(s: State, id: nat, h: Handler, pc: Pc)
    requires id in s.handlers && s.handlers[id] == h && !Claiming(h.pc) && !Claiming(pc)
    requires pc.Settle? && h.origin.ByHand? ==> pc.status == Sent || pc.status == h.origin.restore
    ensures HandlersFrame(s, id, h, Move(s, id, h, pc))
  {
  }

  lemma ClaimHandlers(s: State, id: nat, h: Handler, c: Choice)
    requires id in s.handlers && s.handlers[id] == h
    ensures h.pc == ClaimDraftRow ==> HandlersFrame(s, id, h, StepClaimDraftRow(s, id, h, c))
    ensures h.pc.ClaimDueRow? ==> HandlersFrame(s, id, h, StepClaimDueRow(s, id, h, h.pc.sendAt, c))
  {
  }

  lemma RefusedHandlers(s: State, id: nat, h: Handler, serverError: bool)
    requires id in s.handlers && s.handlers[id] == h && !Answered(h.pc) && !Claiming(h.pc)
    ensures HandlersFrame(s, id, h, Refused(s, id, h, serverError))
  {
    ReplyHandlers(s, id, h, RefusedBeforeClaim(serverError));
  }

  lemma ReplyClaimHandlers(s: State, id: nat, h: Handler, key: string, claim: SendClaim)
    requires id in s.handlers && s.handlers[id] == h && !Answered(h.pc) && !Claiming(h.pc) && claim != New
    ensures HandlersFrame(s, id, h, ReplyClaim(s, id, h, key, claim))
  {
    match claim
    case Replay(response) => ReplyHandlers(s, id, h, AnsweredReplay(key, h.inbox, HashOf(h), response));
    case Conflict => ReplyHandlers(s, id, h, KeyReused);
    case Unresolved => ReplyHandlers(s, id, h, KeyUnresolved);
  }

  lemma CheckLocallyHandlers(s: State, id: nat, h: Handler, c: Choice)
    requires id in s.handlers && s.handlers[id] == h && h.pc == CheckLocally
    ensures HandlersFrame(s, id, h, StepCheckLocally(s, id, h, c))
  {
    if h.origin.Timer? {
      MoveHandlers(s, id, h, if c == Proceed then HandToTransport else Settle(Failed, false));
    } else if c.Refuse? {
      RefusedHandlers(s, id, h, c.serverError);
    } else {
      RefusedHandlers(s, id, h, false);
      MoveHandlers(s, id, h, if KeyOf(h).Some? then LookUpKey else CheckTransport);
    }
  }

  lemma CheckTransportHandlers(s: State, id: nat, h: Handler, c: Choice)
    requires id in s.handlers && s.handlers[id] == h && h.pc == CheckTransport
    ensures HandlersFrame(s, id, h, StepCheckTransport(s, id, h, c))
  {
    RefusedHandlers(s, id, h, false);
    MoveHandlers(s, id, h, if KeyOf(h).Some? then ReadClaim else HandToTransport);
  }

  /** A step that reads the claim answers from it, fails, or goes on. */
  lemma ReadHandlers(s: State, id: nat, h: Handler, c: Choice)
    requires id in s.handlers && s.handlers[id] == h && KeyOf(h).Some?
    requires h.pc == LookUpKey || h.pc == ReadClaim || h.pc == RereadClaim
    ensures HandlersFrame(s, id, h, StepHandler(s, id, h, c))
  {
    var key := KeyOf(h).value;
    RefusedHandlers(s, id, h, false);
    RefusedHandlers(s, id, h, true);
    match ReadSendClaim(s.claims, s.legacy, key, h.inbox, HashOf(h))
    case Some(claim) => ReplyClaimHandlers(s, id, h, key, claim);
    case None => MoveHandlers(s, id, h, if h.pc == LookUpKey then CheckTransport else InsertClaim);
  }

  /** The tables are no part of the frame once the draft is claimed. */
  lemma OtherTables(s: State, u: State, id: nat, h: Handler, t: State)
    requires HandlersFrame(u, id, h, t) && !Claiming(h.pc)
    requires u.handlers == s.handlers && u.answers == s.answers && u.nextHandler == s.nextHandler
    ensures HandlersFrame(s, id, h, t)
  {
  }

  lemma InsertHandlers(s: State, id: nat, h: Handler, c: Choice)
    requires id in s.handlers && s.handlers[id] == h && h.pc == InsertClaim && KeyOf(h).Some?
    ensures HandlersFrame(s, id, h, StepInsertClaim(s, id, h, c))
  {
    var key := KeyOf(h).value;
    RefusedHandlers(s, id, h, true);
    MoveHandlers(s, id, h, RereadClaim);
    var u := s.(claims := InsertOrIgnore(s.claims, key, h.inbox, HashOf(h)), winner := s.winner[key := id]);
    MoveHandlers(u, id, h, HandToTransport);
    OtherTables(s, u, id, h, Move(u, id, h, HandToTransport));
  }

  lemma CompleteHandlers(s: State, id: nat, h: Handler, c: Choice)
    requires id in s.handlers && s.handlers[id] == h && h.pc.Complete? && KeyOf(h).Some?
    ensures HandlersFrame(s, id, h, StepComplete(s, id, h, h.pc.response, c))
  {
    var key, response := KeyOf(h).value, h.pc.response;
    ReplyHandlers(s, id, h, ReplayNotSaved);
    var u := s.(claims := CompleteRow(s.claims, key, h.inbox, HashOf(h), response));
    ReplyHandlers(u, id, h, AnsweredSent(response));
    OtherTables(s, u, id, h, Reply(u, id, h, AnsweredSent(response)));
  }

  lemma SendFailedHandlers(s: State, id: nat, h: Handler)
    requires id in s.handlers && s.handlers[id] == h && !Answered(h.pc) && !Claiming(h.pc)
    ensures HandlersFrame(s, id, h, SendFailed(s, id, h))
  {
    ReplyHandlers(s, id, h, if KeyOf(h).Some? then OutcomeUnresolved else TransportRefused);
  }

  lemma HandOffHandlers(s: State, id: nat, h: Handler, c: Choice)
    requires id in s.handlers && s.handlers[id] == h && h.pc == HandToTransport
    ensures HandlersFrame(s, id, h, StepHandToTransport(s, id, h, c))
  {
    var u := Recorded(s, id, h);
    SendFailedHandlers(s, id, h);
    SendFailedHandlers(u, id, h);
    OtherTables(s, u, id, h, SendFailed(u, id, h));
    if c.Accept? {
      MoveHandlers(u, id, h, InsertMessageRow(c.provider));
      OtherTables(s, u, id, h, Move(u, id, h, InsertMessageRow(c.provider)));
    }
  }

  lemma MessageRowHandlers(s: State, id: nat, h: Handler, c: Choice)
    requires id in s.handlers && s.handlers[id] == h && h.pc.InsertMessageRow?
    ensures HandlersFrame(s, id, h, StepInsertMessageRow(s, id, h, h.pc.provider, c))
  {
    var response := Response(id, h.pc.provider);
    SendFailedHandlers(s, id, h);
    MoveHandlers(s, id, h, Complete(response));
    ReplyHandlers(s, id, h, AnsweredSent(response));
  }

  lemma ProbeHandlers(s: State, id: nat, h: Handler, c: Choice)
    requires id in s.handlers && s.handlers[id] == h && h.pc == ProbeKey
    ensures HandlersFrame(s, id, h, StepProbeKey(s, id, h, c))
  {
    if h.origin.ByHand? {
      MoveHandlers(s, id, h, Settle(h.origin.restore, false));
    }
  }

  lemma SettleHandlers(s: State, id: nat, h: Handler, c: Choice)
    requires id in s.handlers && s.handlers[id] == h && h.pc.Settle?
    ensures HandlersFrame(s, id, h, StepSettle(s, id, h, h.pc.status, h.pc.clearSendAt, c))
  {
  }

  lemma SettleStepDrops(s: State, id: nat, h: Handler, c: Choice)
    requires h.pc.Settle?
    ensures id !in StepHandler(s, id, h, c).handlers
  {
  }

  lemma StepHandlers(s: State, id: nat, h: Handler, c: Choice)
    requires id in s.handlers && s.handlers[id] == h
    ensures HandlersFrame(s, id, h, StepHandler(s, id, h, c))
  {
    if NeedsKey(h.pc) && KeyOf(h).None? {
      assert StepHandler(s, id, h, c) == s;
    } else {
      match h.pc
      case ClaimDraftRow => ClaimHandlers(s, id, h, c);
      case ClaimDueRow(_) => ClaimHandlers(s, id, h, c);
      case CheckLocally => CheckLocallyHandlers(s, id, h, c);
      case LookUpKey => ReadHandlers(s, id, h, c);
      case CheckTransport => CheckTransportHandlers(s, id, h, c);
      case ReadClaim => ReadHandlers(s, id, h, c);
      case InsertClaim => InsertHandlers(s, id, h, c);
      case RereadClaim => ReadHandlers(s, id, h, c);
      case HandToTransport => HandOffHandlers(s, id, h, c);
      case InsertMessageRow(_) => MessageRowHandlers(s, id, h, c);
      case Complete(_) => CompleteHandlers(s, id, h, c);
      case ProbeKey => ProbeHandlers(s, id, h, c);
      case Settle(_, _) => SettleHandlers(s, id, h, c);
    }
  }
}
