/**
 What callers of `send_message` are told, over every run: the recorded response for a
 request that was sent under the same key, a refusal for another request or one that is
 pending, and the response of the transport for a new one.
 */
module SendAnswers {
  import opened Options
  import opened SendClaims
  import opened Drafts
  import opened SendProtocol
  import opened SendInvariant
  import opened SendSteps
  import opened SendFrames
  import opened SendTheorems
  import opened SendResends

  ghost predicate Told(s: State, id: nat, answer: Answer) {
    id in s.answers && s.answers[id] == answer
  }

  /** Step `n` is a step without a fault of handler `id`, a request with a valid key. */
  ghost predicate StepsWithKey(r: Trace, n: nat, id: nat, key: string)
    requires n < |r.events| && |r.states| == |r.events| + 1
  {
    && r.events[n].Advance? && r.events[n].handler == id && r.events[n].choice != Fault
    && id in r.states[n].handlers && r.states[n].handlers[id].header == Text(key) && ValidSendKey(key)
  }

  predicate ReadsTheClaim(pc: Pc) {
    pc == LookUpKey || pc == ReadClaim || pc == RereadClaim
  }

  lemma ValidKeyIsKey(h: Handler, key: string)
    requires h.header == Text(key) && ValidSendKey(key)
    ensures KeyOf(h) == Some(key)
  {
    var i :| 0 <= i < |key| && key[i] != ' ';
    assert key[i] != '\t';
  }

  // ── A key that is in the table ────────────────────────────────────────────

  /** Over every run, a handler that finds its key is answered by the row: with the
      recorded response when the row is of its inbox and body and has one, that the key
      is in use when it is of another request, and that the outcome is not known when it
      is pending or of an earlier version. */
  lemma FoundKeyIsAnsweredByItsRow(r: Trace, n: nat, id: nat, key: string)
    requires IsRun(r) && n < |r.events| && StepsWithKey(r, n, id, key)
    requires ReadsTheClaim(r.states[n].handlers[id].pc)
    ensures var s, t, h := r.states[n], r.states[n + 1], r.states[n].handlers[id];
            && (key in s.legacy ==> Told(t, id, KeyUnresolved))
            && (key !in s.legacy && key in s.claims ==>
                  var row := s.claims[key];
                  var same := row.inbox == h.inbox && row.hash == Sha256Json(h.body);
                  && (same && row.response.Some? ==>
                        Told(t, id, AnsweredReplay(key, h.inbox, Sha256Json(h.body), row.response.value)))
                  && (same && row.response.None? ==> Told(t, id, KeyUnresolved))
                  && (!same ==> Told(t, id, KeyReused)))
  {
    var s, h := r.states[n], r.states[n].handlers[id];
    ValidKeyIsKey(h, key);
    assert Follows(r, n);
    FoundKeyAnswers(s, id, h, r.events[n].choice, key);
  }

  lemma FoundKeyAnswers(s: State, id: nat, h: Handler, c: Choice, key: string)
    requires KeyOf(h) == Some(key) && ValidSendKey(key) && ReadsTheClaim(h.pc) && c != Fault
    ensures var t := StepHandler(s, id, h, c);
            && (key in s.legacy ==> Told(t, id, KeyUnresolved))
            && (key !in s.legacy && key in s.claims ==>
                  var row := s.claims[key];
                  var same := row.inbox == h.inbox && row.hash == Sha256Json(h.body);
                  && (same && row.response.Some? ==>
                        Told(t, id, AnsweredReplay(key, h.inbox, Sha256Json(h.body), row.response.value)))
                  && (same && row.response.None? ==> Told(t, id, KeyUnresolved))
                  && (!same ==> Told(t, id, KeyReused)))
  {
    if key in s.legacy || key in s.claims {
      var claim := ReadSendClaim(s.claims, s.legacy, key, h.inbox, HashOf(h)).value;
      assert StepHandler(s, id, h, c) == ReplyClaim(s, id, h, key, claim);
      if claim.Replay? { ReplyTells(s, id, h, AnsweredReplay(key, h.inbox, HashOf(h), claim.response)); }
      ReplyTells(s, id, h, KeyReused);
      ReplyTells(s, id, h, KeyUnresolved);
    }
  }

  lemma ReplyTells(s: State, id: nat, h: Handler, answer: Answer)
    ensures Told(Reply(s, id, h, answer), id, answer)
  {
  }

  // ── A request that was sent ───────────────────────────────────────────────

  /** The hand-off `e` was answered with `response`, which its claim row keeps. */
  ghost predicate IsKept(s: State, e: HandOff, response: Response) {
    && response.record == e.handler
    && (e.key.Some? ==>
          && e.key.value in s.claims
          && s.claims[e.key.value] == ClaimRow(e.inbox, Sha256Json(e.body), Some(response)))
  }

  ghost predicate SentIsKept(s: State, id: nat) {
    id in s.answers && s.answers[id].AnsweredSent? ==>
      exists i :: 0 <= i < |s.log| && s.log[i].handler == id && IsKept(s, s.log[i], s.answers[id].response)
  }

  ghost predicate AllSentAreKept(s: State) {
    forall id :: id in s.answers ==> SentIsKept(s, id)
  }

  lemma KeptStays(s: State, t: State, id: nat)
    requires SentIsKept(s, id) && s.log <= t.log && Extends(s.claims, t.claims)
    requires id in s.answers && id in t.answers && t.answers[id] == s.answers[id]
    ensures SentIsKept(t, id)
  {
    if s.answers[id].AnsweredSent? {
      var i :| 0 <= i < |s.log| && s.log[i].handler == id && IsKept(s, s.log[i], s.answers[id].response);
      assert t.log[i] == s.log[i] && IsKept(t, t.log[i], t.answers[id].response);
    }
  }

  lemma SentAnswerIsKept(s: State, id: nat, i: nat, response: Response)
    requires i < |s.log| && s.log[i].handler == id && IsKept(s, s.log[i], response)
    requires Told(s, id, AnsweredSent(response))
    ensures SentIsKept(s, id)
  {
  }

  lemma CompletingKeeps(s: State, id: nat, h: Handler, c: Choice)
    requires Inv(s) && id in s.handlers && s.handlers[id] == h && h.pc.Complete? && KeyOf(h).Some?
    ensures SentIsKept(StepHandler(s, id, h, c), id)
  {
    var key, response := KeyOf(h).value, h.pc.response;
    assert HandlerOk(s, id, h);
    var i :| 0 <= i < |s.log| && s.log[i] == EntryOf(id, h);
    if c != Fault && Completable(s.claims, key, h.inbox, HashOf(h)) {
      var u := s.(claims := CompleteRow(s.claims, key, h.inbox, HashOf(h), response));
      assert StepHandler(s, id, h, c) == Reply(u, id, h, AnsweredSent(response));
      ReplyTells(u, id, h, AnsweredSent(response));
      SentAnswerIsKept(Reply(u, id, h, AnsweredSent(response)), id, i, response);
    } else {
      assert StepHandler(s, id, h, c) == Reply(s, id, h, ReplayNotSaved);
      ReplyTells(s, id, h, ReplayNotSaved);
    }
  }

  lemma UnkeyedStoringKeeps(s: State, id: nat, h: Handler, c: Choice)
    requires Inv(s) && id in s.handlers && s.handlers[id] == h && h.pc.InsertMessageRow?
    ensures SentIsKept(StepHandler(s, id, h, c), id)
  {
    var response := Response(id, h.pc.provider);
    assert HandlerOk(s, id, h);
    var i :| 0 <= i < |s.log| && s.log[i] == EntryOf(id, h);
    assert StepHandler(s, id, h, c) == StepInsertMessageRow(s, id, h, h.pc.provider, c);
    if c == Proceed && KeyOf(h).None? {
      ReplyTells(s, id, h, AnsweredSent(response));
      SentAnswerIsKept(Reply(s, id, h, AnsweredSent(response)), id, i, response);
    } else if c != Proceed {
      ReplyTells(s, id, h, if KeyOf(h).Some? then OutcomeUnresolved else TransportRefused);
    }
  }

  ghost predicate NotToldSent(t: State, id: nat) {
    id in t.answers ==> !t.answers[id].AnsweredSent?
  }

  lemma ReadingTellsNotSent(s: State, id: nat, h: Handler, c: Choice)
    requires id !in s.answers && ReadsTheClaim(h.pc)
    ensures NotToldSent(StepHandler(s, id, h, c), id)
  {
    if KeyOf(h).Some? {
      RefusedTellsNotSent(s, id, h, true);
      RefusedTellsNotSent(s, id, h, false);
      match h.pc
      case LookUpKey => ReadingByClaim(s, id, h);
      case ReadClaim => ReadingByClaim(s, id, h);
      case RereadClaim => ReadingByClaim(s, id, h);
    }
  }

  lemma ReadingByClaim(s: State, id: nat, h: Handler)
    requires id !in s.answers && KeyOf(h).Some?
    ensures var claim := ReadSendClaim(s.claims, s.legacy, KeyOf(h).value, h.inbox, HashOf(h));
            claim.Some? ==> NotToldSent(ReplyClaim(s, id, h, KeyOf(h).value, claim.value), id)
  {
    var claim := ReadSendClaim(s.claims, s.legacy, KeyOf(h).value, h.inbox, HashOf(h));
    if claim.Some? { ClaimTellsNotSent(s, id, h, KeyOf(h).value, claim.value); }
  }

  lemma ClaimTellsNotSent(s: State, id: nat, h: Handler, key: string, claim: SendClaim)
    requires id !in s.answers && claim != New
    ensures NotToldSent(ReplyClaim(s, id, h, key, claim), id)
  {
  }

  lemma RefusedTellsNotSent(s: State, id: nat, h: Handler, serverError: bool)
    ensures NotToldSent(Refused(s, id, h, serverError), id)
  {
    ReplyTells(s, id, h, RefusedBeforeClaim(serverError));
  }

  lemma CheckingTellsNotSent(s: State, id: nat, h: Handler, c: Choice)
    requires id !in s.answers
    ensures NotToldSent(StepCheckLocally(s, id, h, c), id) && NotToldSent(StepCheckTransport(s, id, h, c), id)
  {
    RefusedTellsNotSent(s, id, h, false);
    if c.Refuse? { RefusedTellsNotSent(s, id, h, c.serverError); }
  }

  lemma InsertingTellsNotSent(s: State, id: nat, h: Handler, c: Choice)
    requires id !in s.answers && KeyOf(h).Some?
    ensures NotToldSent(StepInsertClaim(s, id, h, c), id)
  {
    RefusedTellsNotSent(s, id, h, true);
  }

  lemma ClaimingTellsNotSent(s: State, id: nat, h: Handler, c: Choice)
    requires id !in s.answers
    ensures NotToldSent(StepClaimDraftRow(s, id, h, c), id)
    ensures h.pc.ClaimDueRow? ==> NotToldSent(StepClaimDueRow(s, id, h, h.pc.sendAt, c), id)
  {
  }

  lemma OtherStepsTellNotSent(s: State, id: nat, h: Handler, c: Choice)
    requires id !in s.answers && !ReadsTheClaim(h.pc) && !h.pc.Complete? && !h.pc.InsertMessageRow?
    ensures NotToldSent(StepHandler(s, id, h, c), id)
  {
    match h.pc
    case ClaimDraftRow => ClaimingTellsNotSent(s, id, h, c);
    case ClaimDueRow(_) => ClaimingTellsNotSent(s, id, h, c);
    case CheckLocally => CheckingTellsNotSent(s, id, h, c);
    case CheckTransport => CheckingTellsNotSent(s, id, h, c);
    case InsertClaim => if KeyOf(h).Some? { InsertingTellsNotSent(s, id, h, c); }
    case HandToTransport => HandingTellsNotSent(s, id, h, c);
    case ProbeKey =>
    case Settle(_, _) =>
  }

  lemma HandingTellsNotSent(s: State, id: nat, h: Handler, c: Choice)
    requires id !in s.answers
    ensures NotToldSent(StepHandToTransport(s, id, h, c), id)
  {
  }

  lemma OwnStepKeepsKept(s: State, id: nat, c: Choice)
    requires Inv(s) && AllSentAreKept(s) && id in s.handlers && id !in s.answers
    ensures SentIsKept(StepHandler(s, id, s.handlers[id], c), id)
  {
    var h := s.handlers[id];
    if h.pc.Complete? {
      if KeyOf(h).Some? { CompletingKeeps(s, id, h, c); }
    } else if h.pc.InsertMessageRow? {
      UnkeyedStoringKeeps(s, id, h, c);
    } else if ReadsTheClaim(h.pc) {
      ReadingTellsNotSent(s, id, h, c);
    } else {
      OtherStepsTellNotSent(s, id, h, c);
    }
  }

  lemma ExtendsItself(claims: Claims)
    ensures Extends(claims, claims)
  {
  }

  lemma AdvanceKeepsKept(s: State, id: nat, c: Choice)
    requires Inv(s) && AllSentAreKept(s) && id in s.handlers
    ensures AllSentAreKept(StepHandler(s, id, s.handlers[id], c))
  {
    var h := s.handlers[id];
    var t := StepHandler(s, id, h, c);
    StepHandlerFrame(s, id, h, c);
    StepHandlers(s, id, h, c);
    ExtendsItself(s.claims);
    assert HandlerOk(s, id, h);
    forall other | other in t.answers ensures SentIsKept(t, other) {
      if other == id && id !in s.answers {
        OwnStepKeepsKept(s, id, c);
      } else {
        KeptStays(s, t, other);
      }
    }
  }

  lemma {:induction false} RunKeepsKept(r: Trace, n: nat)
    requires IsRun(r) && n < |r.states|
    ensures AllSentAreKept(r.states[n])
    decreases n
  {
    if n > 0 {
      RunKeepsKept(r, n - 1);
      RunKeeps(r, n - 1);
      assert Follows(r, n - 1);
      var s, e := r.states[n - 1], r.events[n - 1];
      if e.Advance? && e.handler in s.handlers {
        AdvanceKeepsKept(s, e.handler, e.choice);
      } else {
        OtherEventsKeepKept(s, e);
      }
    }
  }

  lemma OtherEventsKeepKept(s: State, e: Event)
    requires AllSentAreKept(s) && (e.Advance? ==> e.handler !in s.handlers)
    ensures AllSentAreKept(Step(s, e))
  {
    ExtendsItself(s.claims);
    forall id | id in Step(s, e).answers ensures SentIsKept(Step(s, e), id) {
      KeptStays(s, Step(s, e), id);
    }
  }

  /** Over every run, who is told that a message was sent had it handed over, and is
      told its own record. */
  lemma SentWasHandedOver(r: Trace, n: nat, id: nat, response: Response)
    requires IsRun(r) && n < |r.states| && Told(r.states[n], id, AnsweredSent(response))
    ensures response.record == id
    ensures exists i :: 0 <= i < |r.states[n].log| && r.states[n].log[i].handler == id
  {
    RunKeepsKept(r, n);
    assert SentIsKept(r.states[n], id);
  }

  lemma KeptInItsRow(r: Trace, n: nat, i: nat, response: Response)
    requires IsRun(r) && n < |r.states| && i < |r.states[n].log|
    requires Told(r.states[n], r.states[n].log[i].handler, AnsweredSent(response))
    ensures IsKept(r.states[n], r.states[n].log[i], response)
  {
    var s := r.states[n];
    RunKeepsKept(r, n);
    RunKeeps(r, n);
    assert SentIsKept(s, s.log[i].handler);
    var j :| 0 <= j < |s.log| && s.log[j].handler == s.log[i].handler && IsKept(s, s.log[j], response);
    assert i == j;
  }

  /** Over every run: once the sender of hand-off `i` is told it was sent, every later
      request with the same key, inbox and body that reads the table without a fault is
      told that same response. */
  lemma RetryGetsTheResponse(r: Trace, m: nat, n: nat, i: nat, id: nat, key: string, response: Response)
    requires IsRun(r) && m <= n < |r.events| && i < |r.states[m].log| && r.states[m].log[i].key == Some(key)
    requires Told(r.states[m], r.states[m].log[i].handler, AnsweredSent(response))
    requires StepsWithKey(r, n, id, key) && ReadsTheClaim(r.states[n].handlers[id].pc)
    requires r.states[n].handlers[id].inbox == r.states[m].log[i].inbox
    requires r.states[n].handlers[id].body == r.states[m].log[i].body
    ensures var e := r.states[m].log[i];
            Told(r.states[n + 1], id, AnsweredReplay(key, e.inbox, Sha256Json(e.body), response))
  {
    LogOnlyGrows(r, m, n);
    AnswersStay(r, m, n, r.states[m].log[i].handler);
    var s, e := r.states[n], r.states[m].log[i];
    assert s.log[i] == e;
    KeptInItsRow(r, n, i, response);
    RunKeeps(r, n);
    assert EntryOk(s, e) && WinnerOk(s, key, s.winner[key]);
    FoundKeyIsAnsweredByItsRow(r, n, id, key);
  }

  // ── The own steps of a send ───────────────────────────────────────────────

  /** Over every run, whatever the others do: a handler that holds its claim and steps
      without a fault is answered as sent, with its own record and what the transport
      gave it. */
  lemma AcceptedSendIsAnsweredAsSent(r: Trace, n: nat, id: nat)
    requires IsRun(r) && n < |r.events| && r.events[n] == Advance(id, Proceed) && id in r.states[n].handlers
    ensures var h, t := r.states[n].handlers[id], r.states[n + 1];
            && (h.pc.InsertMessageRow? && h.header == NoHeader ==>
                  Told(t, id, AnsweredSent(Response(id, h.pc.provider))))
            && (h.pc.InsertMessageRow? && KeyOf(h).Some? ==>
                  id in t.handlers && t.handlers[id] == h.(pc := Complete(Response(id, h.pc.provider))))
            && (h.pc.Complete? && KeyOf(h).Some? ==> Told(t, id, AnsweredSent(h.pc.response)))
  {
    var s := r.states[n];
    var h := s.handlers[id];
    RunKeeps(r, n);
    assert Follows(r, n) && HandlerOk(s, id, h);
    if h.pc.Complete? && KeyOf(h).Some? {
      assert WinnerOk(s, KeyOf(h).value, id);
      CompletingIsTold(s, id, h);
    }
  }

  lemma CompletingIsTold(s: State, id: nat, h: Handler)
    requires h.pc.Complete? && KeyOf(h).Some? && Completable(s.claims, KeyOf(h).value, h.inbox, HashOf(h))
    ensures Told(StepHandler(s, id, h, Proceed), id, AnsweredSent(h.pc.response))
  {
    var key := KeyOf(h).value;
    var u := s.(claims := CompleteRow(s.claims, key, h.inbox, HashOf(h), h.pc.response));
    ReplyTells(u, id, h, AnsweredSent(h.pc.response));
  }

  // ── A send from its start to its retry ────────────────────────────────────

  function Request(inbox: string, key: string, body: string, pc: Pc): Handler {
    Handler(Direct, Text(key), inbox, body, pc)
  }

  predicate IsFresh(s: State, key: string) {
    ValidSendKey(key) && key !in s.legacy && key !in s.claims
  }

  lemma RequestStarts(s: State, inbox: string, key: string, body: string)
    ensures var t := Step(s, StartSend(inbox, Text(key), body));
            SameTables(s, t) && Stands(t, s.nextHandler, Request(inbox, key, body, CheckLocally))
  {
  }

  /** The steps of a request with a fresh key that write nothing. */
  lemma RequestPasses(s: State, id: nat, h: Handler, key: string)
    requires Stands(s, id, h) && h.origin == Direct && h.header == Text(key) && IsFresh(s, key)
    requires h.pc == CheckLocally || h.pc == LookUpKey || h.pc == CheckTransport || h.pc == ReadClaim
    ensures var t := Step(s, Advance(id, Proceed));
            var next :=
              match h.pc
              case CheckLocally => LookUpKey
              case LookUpKey => CheckTransport
              case CheckTransport => ReadClaim
              case _ => InsertClaim;
            SameTables(s, t) && Stands(t, id, h.(pc := next))
  {
    ValidKeyIsKey(h, key);
  }

  lemma RequestClaims(s: State, id: nat, h: Handler, key: string)
    requires Stands(s, id, h) && h.origin == Direct && h.header == Text(key) && IsFresh(s, key) && h.pc == InsertClaim
    ensures var t := Step(s, Advance(id, Proceed));
            && t.claims == s.claims[key := ClaimRow(h.inbox, Sha256Json(h.body), None)]
            && t.log == s.log && t.legacy == s.legacy && Stands(t, id, h.(pc := HandToTransport))
  {
    ValidKeyIsKey(h, key);
  }

  lemma RequestHandsOver(s: State, id: nat, h: Handler, key: string, p: string)
    requires Stands(s, id, h) && h.origin == Direct && h.header == Text(key) && ValidSendKey(key)
    requires h.pc == HandToTransport
    ensures var t := Step(s, Advance(id, Accept(p)));
            && t.claims == s.claims && t.log == s.log + [HandOff(id, Some(key), None, h.inbox, h.body)]
            && t.legacy == s.legacy && Stands(t, id, h.(pc := InsertMessageRow(p)))
  {
    ValidKeyIsKey(h, key);
  }

  lemma RequestCompletes(s: State, id: nat, h: Handler, key: string, p: string)
    requires Stands(s, id, h) && h.origin == Direct && h.header == Text(key) && ValidSendKey(key)
    requires h.pc == InsertMessageRow(p)
    requires key in s.claims && s.claims[key] == ClaimRow(h.inbox, Sha256Json(h.body), None)
    ensures var t := Step(Step(s, Advance(id, Proceed)), Advance(id, Proceed));
            && t.claims == s.claims[key := ClaimRow(h.inbox, Sha256Json(h.body), Some(Response(id, p)))]
            && t.log == s.log && t.legacy == s.legacy && Told(t, id, AnsweredSent(Response(id, p)))
  {
    ValidKeyIsKey(h, key);
    var u := Step(s, Advance(id, Proceed));
    assert Stands(u, id, h.(pc := Complete(Response(id, p)))) && SameTables(s, u);
    CompletingIsTold(u, id, h.(pc := Complete(Response(id, p))));
  }

  /** The events of a request from its start to its answer. */
  function WholeSend(id: nat, inbox: string, key: string, body: string, p: string): seq<Event> {
    [StartSend(inbox, Text(key), body), Advance(id, Proceed), Advance(id, Proceed), Advance(id, Proceed),
     Advance(id, Proceed), Advance(id, Proceed)]
    + [Advance(id, Accept(p)), Advance(id, Proceed), Advance(id, Proceed)]
  }

  lemma RequestGetsItsClaim(s: State, inbox: string, key: string, body: string)
    requires IsFresh(s, key)
    ensures var id, go := s.nextHandler, Advance(s.nextHandler, Proceed);
            var t := Step(Step(Step(Step(Step(Step(s, StartSend(inbox, Text(key), body)), go), go), go), go), go);
            && t.claims == s.claims[key := ClaimRow(inbox, Sha256Json(body), None)]
            && t.log == s.log && t.legacy == s.legacy && Stands(t, id, Request(inbox, key, body, HandToTransport))
  {
    var id, go := s.nextHandler, Advance(s.nextHandler, Proceed);
    RequestStarts(s, inbox, key, body);
    var t := Step(s, StartSend(inbox, Text(key), body));
    RequestPasses(t, id, Request(inbox, key, body, CheckLocally), key);
    t := Step(t, go);
    RequestPasses(t, id, Request(inbox, key, body, LookUpKey), key);
    t := Step(t, go);
    RequestPasses(t, id, Request(inbox, key, body, CheckTransport), key);
    t := Step(t, go);
    RequestPasses(t, id, Request(inbox, key, body, ReadClaim), key);
    t := Step(t, go);
    RequestClaims(t, id, Request(inbox, key, body, InsertClaim), key);
  }

  /** From any state, a request with a fresh valid key that nothing refuses is handed
      over once, is answered as sent, and leaves its response in its row. */
  lemma FreshRequestIsSent(s: State, inbox: string, key: string, body: string, p: string)
    requires IsFresh(s, key)
    ensures var id, t := s.nextHandler, Run(s, WholeSend(s.nextHandler, inbox, key, body, p));
            && t.log == s.log + [HandOff(id, Some(key), None, inbox, body)]
            && Told(t, id, AnsweredSent(Response(id, p)))
            && t.legacy == s.legacy
            && key in t.claims && t.claims[key] == ClaimRow(inbox, Sha256Json(body), Some(Response(id, p)))
  {
    var id, go := s.nextHandler, Advance(s.nextHandler, Proceed);
    var start, accept := StartSend(inbox, Text(key), body), Advance(id, Accept(p));
    RunOfSix(s, start, go, go, go, go, go);
    RequestGetsItsClaim(s, inbox, key, body);
    var t := Run(s, [start, go, go, go, go, go]);
    RunOfThree(t, accept, go, go);
    RunAppend(s, [start, go, go, go, go, go], [accept, go, go]);
    RequestHandsOver(t, id, Request(inbox, key, body, HandToTransport), key, p);
    RequestCompletes(Step(t, accept), id, Request(inbox, key, body, InsertMessageRow(p)), key, p);
  }

  /** And its retry is told the same and hands nothing over. */
  lemma RetryOfASentRequest(s: State, inbox: string, key: string, body: string, response: Response)
    requires ValidSendKey(key) && key !in s.legacy && key in s.claims
    requires s.claims[key] == ClaimRow(inbox, Sha256Json(body), Some(response))
    ensures var id, go := s.nextHandler, Advance(s.nextHandler, Proceed);
            var t := Run(s, [StartSend(inbox, Text(key), body), go, go]);
            t.log == s.log && Told(t, id, AnsweredReplay(key, inbox, Sha256Json(body), response))
  {
    var id, go := s.nextHandler, Advance(s.nextHandler, Proceed);
    RunOfThree(s, StartSend(inbox, Text(key), body), go, go);
    RequestStarts(s, inbox, key, body);
    var t := Step(s, StartSend(inbox, Text(key), body));
    var h := Request(inbox, key, body, LookUpKey);
    ValidKeyIsKey(h, key);
    assert Stands(Step(t, go), id, h) && SameTables(t, Step(t, go));
    FoundKeyAnswers(Step(t, go), id, h, Proceed, key);
    assert SameTables(Step(t, go), StepLookUpKey(Step(t, go), id, h, Proceed));
  }

  lemma UnkeyedStarts(s: State, inbox: string, body: string)
    ensures var t := Step(s, StartSend(inbox, NoHeader, body));
            SameTables(s, t) && Stands(t, s.nextHandler, Handler(Direct, NoHeader, inbox, body, CheckLocally))
  {
  }

  lemma UnkeyedPasses(s: State, id: nat, h: Handler)
    requires Stands(s, id, h) && h.origin == Direct && h.header == NoHeader
    requires h.pc == CheckLocally || h.pc == CheckTransport
    ensures var t := Step(s, Advance(id, Proceed));
            SameTables(s, t)
            && Stands(t, id, h.(pc := if h.pc == CheckLocally then CheckTransport else HandToTransport))
  {
  }

  lemma UnkeyedGoesOut(s: State, id: nat, h: Handler, p: string)
    requires Stands(s, id, h) && h.origin == Direct && h.header == NoHeader && h.pc == HandToTransport
    ensures var t := Step(Step(s, Advance(id, Accept(p))), Advance(id, Proceed));
            && t.log == s.log + [HandOff(id, None, None, h.inbox, h.body)] && t.claims == s.claims
            && Told(t, id, AnsweredSent(Response(id, p)))
  {
    var u, g := Step(s, Advance(id, Accept(p))), h.(pc := InsertMessageRow(p));
    assert Stands(u, id, g);
    ReplyTells(u, id, g, AnsweredSent(Response(id, p)));
  }

  /** Without a key a request that nothing refuses is handed over and answered too. */
  lemma UnkeyedRequestIsSent(s: State, inbox: string, body: string, p: string)
    ensures var id, go := s.nextHandler, Advance(s.nextHandler, Proceed);
            var t := Run(s, [StartSend(inbox, NoHeader, body), go, go, Advance(id, Accept(p)), go]);
            && t.log == s.log + [HandOff(id, None, None, inbox, body)] && t.claims == s.claims
            && Told(t, id, AnsweredSent(Response(id, p)))
  {
    var id, go, accept := s.nextHandler, Advance(s.nextHandler, Proceed), Advance(s.nextHandler, Accept(p));
    var h := Handler(Direct, NoHeader, inbox, body, CheckLocally);
    RunOfFive(s, StartSend(inbox, NoHeader, body), go, go, accept, go);
    UnkeyedStarts(s, inbox, body);
    var t := Step(s, StartSend(inbox, NoHeader, body));
    UnkeyedPasses(t, id, h);
    UnkeyedPasses(Step(t, go), id, h.(pc := CheckTransport));
    UnkeyedGoesOut(Step(Step(t, go), go), id, h.(pc := HandToTransport), p);
  }
}
