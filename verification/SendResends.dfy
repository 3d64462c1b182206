/**
 Which drafts can be handed to the transport again: exactly those whose earlier
 hand-off carried no key and was answered as a refusal of the transport.
 */
module SendResends {
  import opened Options
  import opened SendClaims
  import opened Drafts
  import opened SendProtocol
  import opened SendInvariant
  import opened SendSteps
  import opened SendTheorems
  import opened SendFrames

  /** The hand-off carried no key and its caller was told the transport refused. */
  predicate CountsAsRefused(s: State, e: HandOff) {
    e.key.None? && e.handler in s.answers && s.answers[e.handler] == TransportRefused
  }

  /** A live handler that handed over without a key: it stores the message, or
      settles as its answer says. */
  ghost predicate UnkeyedOk(s: State, id: nat) {
    id in s.handlers ==>
      match s.handlers[id].pc
      case InsertMessageRow(_) => id !in s.answers
      case Settle(status, _) =>
        && id in s.answers
        && (if s.answers[id] == TransportRefused then Editable(status) else status == Sent)
      case _ => false
  }

  ghost predicate AllUnkeyedOk(s: State) {
    forall i :: 0 <= i < |s.log| && s.log[i].key.None? ==> UnkeyedOk(s, s.log[i].handler)
  }

  /** The draft of hand-off `i` is out of everybody else's reach for ever. */
  ghost predicate SealedOff(s: State, i: nat, draft: nat)
    requires i < |s.log|
  {
    && (draft in s.drafts ==> !Editable(s.drafts[draft].status))
    && (forall id :: id in s.handlers && HoldsDraft(s.handlers[id], draft) ==> id == s.log[i].handler)
    && (forall j :: i < j < |s.log| ==> s.log[j].draft != Some(draft))
  }

  ghost predicate UnrefusedAreSealedOff(s: State) {
    forall i :: 0 <= i < |s.log| && s.log[i].draft.Some? && !CountsAsRefused(s, s.log[i]) ==>
                  SealedOff(s, i, s.log[i].draft.value)
  }

  ghost predicate ResendInv(s: State) {
    AllUnkeyedOk(s) && UnrefusedAreSealedOff(s)
  }

  // ── Steps of a handler ────────────────────────────────────────────────────

  /** The answer of a hand-off, once given, stays. */
  lemma RefusedStaysRefused(s: State, id: nat, c: Choice, i: nat)
    requires Inv(s) && id in s.handlers && i < |s.log| && CountsAsRefused(s, s.log[i])
    ensures CountsAsRefused(StepHandler(s, id, s.handlers[id], c), s.log[i])
  {
    var h := s.handlers[id];
    StepHandlers(s, id, h, c);
    assert HandlerOk(s, id, h);
  }

  lemma SettlingIsOk(s: State, id: nat, h: Handler, answer: Answer, pc: Pc)
    requires pc.Settle? && (if answer == TransportRefused then Editable(pc.status) else pc.status == Sent)
    ensures UnkeyedOk(Move(s.(answers := s.answers[id := answer]), id, h, pc), id)
  {
  }

  lemma UnkeyedReply(s: State, id: nat, h: Handler, answer: Answer)
    requires h.origin.ByHand? ==> Editable(h.origin.restore)
    requires answer == TransportRefused || answer.AnsweredSent?
    ensures UnkeyedOk(Reply(s, id, h, answer), id)
  {
    match h.origin
    case Direct =>
    case Timer(_) =>
      SettlingIsOk(s, id, h, answer, if Succeeded(answer) then Settle(Sent, true) else Settle(Failed, false));
    case ByHand(_, _, restore) =>
      SettlingIsOk(s, id, h, answer, if Succeeded(answer) then Settle(Sent, true) else Settle(restore, false));
  }

  lemma UnkeyedStoringStep(s: State, id: nat, h: Handler, c: Choice)
    requires Inv(s) && id in s.handlers && s.handlers[id] == h && KeyOf(h).None? && h.pc.InsertMessageRow?
    ensures UnkeyedOk(StepHandler(s, id, h, c), id)
  {
    assert HandlerOk(s, id, h);
    UnkeyedReply(s, id, h, TransportRefused);
    UnkeyedReply(s, id, h, AnsweredSent(Response(id, h.pc.provider)));
    assert StepHandler(s, id, h, c) == StepInsertMessageRow(s, id, h, h.pc.provider, c);
  }

  lemma UnkeyedHandOffStep(s: State, id: nat, h: Handler, c: Choice)
    requires Inv(s) && id in s.handlers && s.handlers[id] == h && KeyOf(h).None? && h.pc == HandToTransport
    ensures var t := StepHandler(s, id, h, c); |t.log| > |s.log| ==> UnkeyedOk(t, id)
  {
    assert HandlerOk(s, id, h);
    UnkeyedReply(Recorded(s, id, h), id, h, TransportRefused);
    assert StepHandler(s, id, h, c) == StepHandToTransport(s, id, h, c);
  }

  lemma UnkeyedOkKept(s: State, id: nat, c: Choice)
    requires Inv(s) && AllUnkeyedOk(s) && id in s.handlers
    ensures AllUnkeyedOk(StepHandler(s, id, s.handlers[id], c))
  {
    var h := s.handlers[id];
    var t := StepHandler(s, id, h, c);
    StepHandlerFrame(s, id, h, c);
    StepHandlers(s, id, h, c);
    forall i | 0 <= i < |t.log| && t.log[i].key.None? ensures UnkeyedOk(t, t.log[i].handler) {
      if i == |s.log| {
        UnkeyedHandOffStep(s, id, h, c);
      } else {
        assert t.log[i] == s.log[i] && UnkeyedOk(s, s.log[i].handler) && EntryOk(s, s.log[i]);
        if s.log[i].handler == id {
          if h.pc.Settle? { SettleStepDrops(s, id, h, c); } else { UnkeyedStoringStep(s, id, h, c); }
        }
      }
    }
  }

  /** A settling handler that handed a sealed-off draft over settles it as sent. */
  lemma SealedOffSettlesAsSent(s: State, i: nat)
    requires Inv(s) && AllUnkeyedOk(s) && i < |s.log| && s.log[i].draft.Some? && !CountsAsRefused(s, s.log[i])
    requires s.log[i].handler in s.handlers && s.handlers[s.log[i].handler].pc.Settle?
    ensures !Editable(s.handlers[s.log[i].handler].pc.status)
  {
    var e := s.log[i];
    assert EntryOk(s, e);
    if e.key.None? {
      assert UnkeyedOk(s, e.handler);
    } else {
      assert WinnerOk(s, e.key.value, s.winner[e.key.value]);
    }
  }

  lemma SealedOffKept(s: State, id: nat, c: Choice, i: nat, draft: nat)
    requires Inv(s) && AllUnkeyedOk(s) && id in s.handlers && i < |s.log| && s.log[i].draft == Some(draft)
    requires !CountsAsRefused(s, s.log[i]) && SealedOff(s, i, draft)
    ensures var t := StepHandler(s, id, s.handlers[id], c);
            |t.log| >= |s.log| && t.log[i] == s.log[i] && SealedOff(t, i, draft)
  {
    var h := s.handlers[id];
    var t := StepHandler(s, id, h, c);
    StepHandlerFrame(s, id, h, c);
    StepHandlers(s, id, h, c);
    assert HandlerOk(s, id, h) && EntryOk(s, s.log[i]);
    if h.pc.Settle? && HoldsDraft(h, draft) {
      SealedOffSettlesAsSent(s, i);
    }
  }

  lemma NewHandOffIsSealedOff(s: State, id: nat, c: Choice)
    requires Inv(s) && id in s.handlers
    ensures var t := StepHandler(s, id, s.handlers[id], c);
            |t.log| > |s.log| && t.log[|s.log|].draft.Some? ==> SealedOff(t, |s.log|, t.log[|s.log|].draft.value)
  {
    var h := s.handlers[id];
    StepHandlerFrame(s, id, h, c);
    StepHandlers(s, id, h, c);
    assert HandlerOk(s, id, h);
  }

  lemma AdvanceKeepsResendInv(s: State, id: nat, c: Choice)
    requires Inv(s) && ResendInv(s) && id in s.handlers
    ensures ResendInv(StepHandler(s, id, s.handlers[id], c))
  {
    var t := StepHandler(s, id, s.handlers[id], c);
    UnkeyedOkKept(s, id, c);
    StepHandlerFrame(s, id, s.handlers[id], c);
    forall i | 0 <= i < |t.log| && t.log[i].draft.Some? && !CountsAsRefused(t, t.log[i])
      ensures SealedOff(t, i, t.log[i].draft.value)
    {
      if i == |s.log| {
        NewHandOffIsSealedOff(s, id, c);
      } else {
        assert t.log[i] == s.log[i];
        if CountsAsRefused(s, s.log[i]) { RefusedStaysRefused(s, id, c, i); }
        SealedOffKept(s, id, c, i, s.log[i].draft.value);
      }
    }
  }

  // ── Runs ──────────────────────────────────────────────────────────────────

  lemma SealedOffKeptByOthers(s: State, e: Event, i: nat, draft: nat)
    requires Inv(s) && !e.Advance? && i < |s.log| && s.log[i].draft == Some(draft) && SealedOff(s, i, draft)
    ensures Step(s, e).log == s.log && Step(s, e).answers == s.answers && SealedOff(Step(s, e), i, draft)
  {
    assert EntryOk(s, s.log[i]);
  }

  lemma UnkeyedOkKeptByOthers(s: State, e: Event)
    requires Inv(s) && AllUnkeyedOk(s) && !e.Advance?
    ensures AllUnkeyedOk(Step(s, e))
  {
    var t := Step(s, e);
    forall i | 0 <= i < |t.log| && t.log[i].key.None? ensures UnkeyedOk(t, t.log[i].handler) {
      assert UnkeyedOk(s, s.log[i].handler) && EntryOk(s, s.log[i]);
    }
  }

  lemma StepKeepsResendInv(s: State, e: Event)
    requires Inv(s) && ResendInv(s)
    ensures ResendInv(Step(s, e))
  {
    if e.Advance? {
      if e.handler in s.handlers { AdvanceKeepsResendInv(s, e.handler, e.choice); }
    } else {
      var t := Step(s, e);
      UnkeyedOkKeptByOthers(s, e);
      forall i | 0 <= i < |t.log| && t.log[i].draft.Some? && !CountsAsRefused(t, t.log[i])
        ensures SealedOff(t, i, t.log[i].draft.value)
      {
        SealedOffKeptByOthers(s, e, i, s.log[i].draft.value);
      }
    }
  }

  lemma {:induction false} RunKeepsResendInv(r: Trace, n: nat)
    requires IsRun(r) && n < |r.states|
    ensures ResendInv(r.states[n])
    decreases n
  {
    if n > 0 {
      RunKeepsResendInv(r, n - 1);
      RunKeeps(r, n - 1);
      assert Follows(r, n - 1);
      StepKeepsResendInv(r.states[n - 1], r.events[n - 1]);
    }
  }

  /** Over every run, keyed and unkeyed sends and the scheduler mixed: when a draft is
      handed over twice, the earlier hand-off carried no key and its caller was told
      that the transport had refused the message. */
  lemma ResentOnlyAfterARefusal(r: Trace, n: nat, i: nat, j: nat)
    requires IsRun(r) && n < |r.states| && i < j < |r.states[n].log|
    requires r.states[n].log[i].draft.Some? && r.states[n].log[i].draft == r.states[n].log[j].draft
    ensures CountsAsRefused(r.states[n], r.states[n].log[i])
  {
    RunKeepsResendInv(r, n);
  }

  // ── And a refused one always can be ───────────────────────────────────────

  lemma AnswerStays(s: State, e: Event, id: nat)
    requires Inv(s) && id in s.answers
    ensures id in Step(s, e).answers && Step(s, e).answers[id] == s.answers[id]
  {
    if e.Advance? && e.handler in s.handlers {
      StepHandlers(s, e.handler, s.handlers[e.handler], e.choice);
      assert HandlerOk(s, e.handler, s.handlers[e.handler]);
    }
  }

  lemma AnswerStaysInRun(r: Trace, n: nat, id: nat)
    requires IsRun(r) && n < |r.events| && id in r.states[n].answers
    ensures id in r.states[n + 1].answers && r.states[n + 1].answers[id] == r.states[n].answers[id]
  {
    RunKeeps(r, n);
    AnswerStays(r.states[n], r.events[n], id);
    assert Follows(r, n);
  }

  lemma {:induction false} AnswersStay(r: Trace, m: nat, n: nat, id: nat)
    requires IsRun(r) && m <= n < |r.states| && id in r.states[m].answers
    ensures id in r.states[n].answers && r.states[n].answers[id] == r.states[m].answers[id]
    decreases n
  {
    if m < n {
      AnswersStay(r, m, n - 1, id);
      AnswerStaysInRun(r, n - 1, id);
    }
  }

  ghost predicate Stands(s: State, id: nat, h: Handler) {
    id in s.handlers && s.handlers[id] == h
  }

  /** An unkeyed manual sender of a draft. */
  function Sender(draft: nat, parked: bool, restore: Status, inbox: string, body: string, pc: Pc): Handler {
    Handler(ByHand(draft, parked, restore), NoHeader, inbox, body, pc)
  }

  lemma SenderStarts(s: State, draft: nat)
    requires draft in s.drafts
    ensures var row := s.drafts[draft];
            var t := Step(s, StartDraftSend(draft, row.inbox, NoHeader));
            && t.drafts == s.drafts && t.log == s.log
            && Stands(t, s.nextHandler, Sender(draft, row.status == Failed, Failed, row.inbox, "", ClaimDraftRow))
  {
  }

  lemma SenderClaims(s: State, id: nat, draft: nat, parked: bool, inbox: string)
    requires draft in s.drafts && Editable(s.drafts[draft].status)
    requires Stands(s, id, Sender(draft, parked, Failed, inbox, "", ClaimDraftRow))
    ensures var row, t := s.drafts[draft], Step(s, Advance(id, Proceed));
            && t.log == s.log
            && Stands(t, id, Sender(draft, parked, RestoreStatus(parked, row.sendAt), inbox, row.content, CheckLocally))
  {
  }

  lemma SenderChecks(s: State, id: nat, h: Handler)
    requires Stands(s, id, h) && h.origin.ByHand? && h.header == NoHeader
    requires h.pc == CheckLocally || h.pc == CheckTransport
    ensures var t := Step(s, Advance(id, Proceed));
            && t.log == s.log
            && Stands(t, id, h.(pc := if h.pc == CheckLocally then CheckTransport else HandToTransport))
  {
  }

  lemma SenderHandsOver(s: State, id: nat, h: Handler)
    requires Stands(s, id, h) && h.pc == HandToTransport && h.header == NoHeader
    ensures Step(s, Advance(id, Accept("id"))).log == s.log + [HandOff(id, None, DraftOf(h), h.inbox, h.body)]
  {
  }

  lemma RunOfFive(s: State, a: Event, b: Event, c: Event, d: Event, e: Event)
    ensures Run(s, [a, b, c, d, e]) == Step(Step(Step(Step(Step(s, a), b), c), d), e)
  {
    RunOfThree(s, a, b, c);
    Snoc(s, [a, b, c], d);
    Snoc(s, [a, b, c] + [d], e);
    assert [a, b, c] + [d] + [e] == [a, b, c, d, e];
  }

  /** From any state an editable draft can be handed over. */
  lemma EditableDraftGoesOut(s: State, draft: nat) returns (events: seq<Event>)
    requires draft in s.drafts && Editable(s.drafts[draft].status)
    ensures Run(s, events).log
         == s.log + [HandOff(s.nextHandler, None, Some(draft), s.drafts[draft].inbox, s.drafts[draft].content)]
  {
    var row, id := s.drafts[draft], s.nextHandler;
    var parked, go := row.status == Failed, Advance(id, Proceed);
    var start, accept := StartDraftSend(draft, row.inbox, NoHeader), Advance(id, Accept("id"));
    var checking := Sender(draft, parked, RestoreStatus(parked, row.sendAt), row.inbox, row.content, CheckLocally);
    SenderStarts(s, draft);
    SenderClaims(Step(s, start), id, draft, parked, row.inbox);
    var t := Step(Step(s, start), go);
    SenderChecks(t, id, checking);
    SenderChecks(Step(t, go), id, checking.(pc := CheckTransport));
    SenderHandsOver(Step(Step(t, go), go), id, checking.(pc := HandToTransport));
    RunOfFive(s, start, go, go, go, accept);
    events := [start, go, go, go, accept];
  }

  ghost predicate HandsOver(s: State, later: seq<Event>, draft: nat) {
    exists j :: |s.log| <= j < |Run(s, later).log| && Run(s, later).log[j].draft == Some(draft)
  }

  /** The states of a run are those its events lead to. */
  lemma {:induction false} StateOfRun(r: Trace, n: nat)
    requires IsRun(r) && n < |r.states|
    ensures r.states[n] == Run(Init(r.legacy), r.events[..n])
    decreases n
  {
    if n > 0 {
      StateOfRun(r, n - 1);
      assert Follows(r, n - 1);
      Snoc(Init(r.legacy), r.events[..n - 1], r.events[n - 1]);
      assert r.events[..n] == r.events[..n - 1] + [r.events[n - 1]];
    }
  }

  /** Any events can follow state `n` of a run. */
  lemma RunGoesOn(r: Trace, n: nat, later: seq<Event>) returns (q: Trace)
    requires IsRun(r) && n < |r.states|
    ensures IsRun(q) && |q.states| == n + 1 + |later|
    ensures q.states[n] == r.states[n] && q.states[n + |later|] == Run(r.states[n], later)
  {
    q := EventsMakeARun(r.legacy, r.events[..n] + later);
    StateOfRun(r, n);
    StateOfRun(q, n);
    assert (r.events[..n] + later)[..n] == r.events[..n];
    RunAppend(Init(r.legacy), r.events[..n], later);
  }

  /** State `n` and step `n` of a run: the handler of hand-off `i` settles its draft. */
  ghost predicate SettlesItsDraft(r: Trace, n: nat, i: nat, draft: nat)
    requires n < |r.events| && |r.states| == |r.events| + 1
  {
    var s := r.states[n];
    && i < |s.log| && s.log[i].draft == Some(draft) && draft in s.drafts
    && s.log[i].handler in s.handlers && s.handlers[s.log[i].handler].pc.Settle?
    && r.events[n].Advance? && r.events[n].handler == s.log[i].handler && r.events[n].choice != Fault
  }

  lemma SettledRefusalIsEditable(r: Trace, n: nat, i: nat, draft: nat)
    requires IsRun(r) && n < |r.events| && SettlesItsDraft(r, n, i, draft)
    requires CountsAsRefused(r.states[n], r.states[n].log[i])
    ensures draft in r.states[n + 1].drafts && Editable(r.states[n + 1].drafts[draft].status)
  {
    var s := r.states[n];
    var id := s.log[i].handler;
    RunKeeps(r, n);
    RunKeepsResendInv(r, n);
    assert Follows(r, n) && HandlerOk(s, id, s.handlers[id]) && UnkeyedOk(s, id) && EntryOk(s, s.log[i]);
  }

  lemma UnrefusedNeverAgain(r: Trace, n: nat, i: nat, draft: nat, later: seq<Event>)
    requires IsRun(r) && n < |r.events| && SettlesItsDraft(r, n, i, draft)
    requires !CountsAsRefused(r.states[n], r.states[n].log[i])
    ensures !HandsOver(r.states[n + 1], later, draft)
  {
    var s := r.states[n];
    var e := s.log[i];
    RunKeepsResendInv(r, n);
    LogOnlyGrows(r, n, n + 1);
    var q := RunGoesOn(r, n + 1, later);
    var m := n + 1 + |later|;
    LogOnlyGrows(q, n + 1, m);
    RunKeepsResendInv(q, m);
    if e.key.None? {
      assert UnkeyedOk(s, e.handler);
      AnswersStay(r, n, n + 1, e.handler);
      AnswersStay(q, n + 1, m, e.handler);
    }
    assert q.states[m].log[i] == e && !CountsAsRefused(q.states[m], e);
    assert SealedOff(q.states[m], i, draft);
  }

  /** Some events that can follow state `s` hand the draft over. */
  ghost predicate CanGoOutAgain(s: State, draft: nat) {
    exists later :: HandsOver(s, later, draft)
  }

  /** When a handler settles the draft it handed over, the draft can be handed over
      again by some continuation if and only if that hand-off carried no key and was
      answered as a refusal of the transport. A draft that is never settled, because of
      a crash, a cancelled handler or a failed write, stays `sending`. */
  lemma HandedDraftGoesOutAgainIff(r: Trace, n: nat, i: nat, draft: nat)
    requires IsRun(r) && n < |r.events| && SettlesItsDraft(r, n, i, draft)
    ensures CanGoOutAgain(r.states[n + 1], draft) <==> CountsAsRefused(r.states[n], r.states[n].log[i])
  {
    var t := r.states[n + 1];
    if CountsAsRefused(r.states[n], r.states[n].log[i]) {
      SettledRefusalIsEditable(r, n, i, draft);
      var later := EditableDraftGoesOut(t, draft);
      assert Run(t, later).log[|t.log|].draft == Some(draft);
      assert HandsOver(t, later, draft);
    } else {
      forall later ensures !HandsOver(t, later, draft) {
        UnrefusedNeverAgain(r, n, i, draft, later);
      }
    }
  }
}
