/**
 What outbound sending guarantees over every run: every interleaving of
 handlers, with faults, crashes and edits at any point.
 */
module SendTheorems {
  import opened Options
  import opened SendClaims
  import opened Drafts
  import opened SendProtocol
  import opened SendInvariant
  import opened SendSteps

  /** What one step of handler `id` does to the durable state. */
  ghost predicate HandlerFrame(s: State, id: nat, h: Handler, t: State) {
    && t.legacy == s.legacy && t.nextDraft == s.nextDraft
    // claims: only the insert and the completion write, each on the handler's own key
    && (t.claims == s.claims
        || (&& (h.pc.InsertClaim? || h.pc.Complete?) && KeyOf(h).Some?
            && t.claims.Keys == s.claims.Keys + {KeyOf(h).value}
            && Extends(s.claims, t.claims)))
    // hand-offs: only at the transport step, with what the handler holds
    && (t.log == s.log || (h.pc.HandToTransport? && t.log == s.log + [EntryOf(id, h)] && t.drafts == s.drafts))
    // drafts: only its own row, to `sending` at its claim and out of it at its settle
    && (t.drafts == s.drafts
        || (&& DraftOf(h).Some? && DraftOf(h).value in s.drafts
            && t.drafts.Keys == s.drafts.Keys
            && (forall d :: d in s.drafts && d != DraftOf(h).value ==> t.drafts[d] == s.drafts[d])
            && t.drafts[DraftOf(h).value].content == s.drafts[DraftOf(h).value].content
            && ( || ((h.pc.ClaimDraftRow? || h.pc.ClaimDueRow?) && Editable(s.drafts[DraftOf(h).value].status)
                     && t.drafts[DraftOf(h).value].status == Sending)
                 || (h.pc.Settle? && s.drafts[DraftOf(h).value].status == Sending
                     && t.drafts[DraftOf(h).value].status == h.pc.status))))
  }

  lemma DraftClaimFrame(s: State, id: nat, h: Handler, c: Choice)
    ensures h.pc == ClaimDraftRow ==> HandlerFrame(s, id, h, StepClaimDraftRow(s, id, h, c))
    ensures h.pc.ClaimDueRow? ==> HandlerFrame(s, id, h, StepClaimDueRow(s, id, h, h.pc.sendAt, c))
  {
  }

  lemma InsertFrame(s: State, id: nat, h: Handler, c: Choice)
    ensures h.pc == InsertClaim && KeyOf(h).Some? ==> HandlerFrame(s, id, h, StepInsertClaim(s, id, h, c))
  {
  }

  lemma HandOffFrame(s: State, id: nat, h: Handler, c: Choice)
    ensures h.pc == HandToTransport ==> HandlerFrame(s, id, h, StepHandToTransport(s, id, h, c))
  {
  }

  lemma CompleteFrame(s: State, id: nat, h: Handler, c: Choice)
    ensures h.pc.Complete? && KeyOf(h).Some? ==> HandlerFrame(s, id, h, StepComplete(s, id, h, h.pc.response, c))
  {
  }

  lemma SettleFrame(s: State, id: nat, h: Handler, c: Choice)
    ensures h.pc.Settle? ==> HandlerFrame(s, id, h, StepSettle(s, id, h, h.pc.status, h.pc.clearSendAt, c))
  {
  }

  lemma StepHandlerFrame(s: State, id: nat, h: Handler, c: Choice)
    ensures HandlerFrame(s, id, h, StepHandler(s, id, h, c))
  {
    DraftClaimFrame(s, id, h, c);
    InsertFrame(s, id, h, c);
    HandOffFrame(s, id, h, c);
    CompleteFrame(s, id, h, c);
    SettleFrame(s, id, h, c);
    var t := StepHandler(s, id, h, c);
    if h.pc.CheckLocally? { assert SameTables(s, StepCheckLocally(s, id, h, c)); }
    if h.pc.CheckTransport? { assert SameTables(s, StepCheckTransport(s, id, h, c)); }
    if h.pc.ProbeKey? { assert SameTables(s, StepProbeKey(s, id, h, c)); }
    if h.pc.LookUpKey? || h.pc.ReadClaim? || h.pc.RereadClaim? || h.pc.InsertMessageRow? {
      assert SameTables(s, t);
    }
  }

  lemma StepLog(s: State, e: Event)
    ensures s.log <= Step(s, e).log
    ensures Step(s, e).legacy == s.legacy
  {
    if e.Advance? && e.handler in s.handlers {
      StepHandlerFrame(s, e.handler, s.handlers[e.handler], e.choice);
    }
  }

  /** Hand-offs are never forgotten and the legacy keys never change. */
  lemma {:induction false} LogOnlyGrows(r: Trace, m: nat, n: nat)
    requires IsRun(r) && m <= n < |r.states|
    ensures r.states[m].log <= r.states[n].log
    ensures r.states[m].legacy == r.states[n].legacy
    decreases n
  {
    if m < n {
      LogOnlyGrows(r, m, n - 1);
      assert Follows(r, n - 1);
      StepLog(r.states[n - 1], r.events[n - 1]);
    }
  }

  lemma Snoc(s: State, events: seq<Event>, e: Event)
    ensures Run(s, events + [e]) == Step(Run(s, events), e)
  {
    assert (events + [e])[..|events + [e]| - 1] == events;
  }

  lemma {:induction false} RunAppend(s: State, first: seq<Event>, rest: seq<Event>)
    ensures Run(s, first + rest) == Run(Run(s, first), rest)
    decreases |rest|
  {
    if rest == [] {
      assert first + rest == first;
    } else {
      RunAppend(s, first, rest[..|rest| - 1]);
      assert (first + rest)[..|first + rest| - 1] == first + rest[..|rest| - 1];
    }
  }

  lemma RunOfThree(s: State, a: Event, b: Event, c: Event)
    ensures Run(s, [a, b, c]) == Step(Step(Step(s, a), b), c)
  {
    Snoc(s, [], a);
    Snoc(s, [a], b);
    Snoc(s, [a, b], c);
    assert [] + [a] == [a] && [a] + [b] == [a, b] && [a, b] + [c] == [a, b, c];
  }

  /** `Run` as nested steps. */
  lemma RunOfSix(s: State, a: Event, b: Event, c: Event, d: Event, e: Event, f: Event)
    ensures Run(s, [a, b, c, d, e, f]) == Step(Step(Step(Step(Step(Step(s, a), b), c), d), e), f)
  {
    RunOfThree(s, a, b, c);
    RunOfThree(Run(s, [a, b, c]), d, e, f);
    RunAppend(s, [a, b, c], [d, e, f]);
    assert [a, b, c] + [d, e, f] == [a, b, c, d, e, f];
  }

  /** Events from the start make a run that ends where `Run` says. */
  lemma {:induction false} EventsMakeARun(legacy: set<string>, events: seq<Event>) returns (r: Trace)
    ensures IsRun(r) && r.legacy == legacy && r.events == events
    ensures r.states[|events|] == Run(Init(legacy), events)
    decreases |events|
  {
    if events == [] {
      r := Trace(legacy, [Init(legacy)], []);
    } else {
      var n := |events| - 1;
      var front := EventsMakeARun(legacy, events[..n]);
      r := Trace(legacy, front.states + [Run(Init(legacy), events)], events);
      forall i: nat | i < |events| ensures Follows(r, i) {
        if i < n { assert Follows(front, i); }
      }
    }
  }

  // ── The guarantees ────────────────────────────────────────────────────────

  /** Each idempotency key causes at most one hand-off to the transport, a key
      of the legacy table causes none, and the one hand-off carries the inbox
      and the body the claim row was written for. */
  lemma AtMostOneHandOffPerKey(r: Trace, n: nat, key: string)
    requires IsRun(r) && n < |r.states|
    ensures var log := r.states[n].log;
            forall i, j :: 0 <= i < |log| && 0 <= j < |log| && log[i].key == log[j].key == Some(key) ==> i == j
    ensures var s := r.states[n];
            forall i :: 0 <= i < |s.log| && s.log[i].key == Some(key) ==>
                          && key !in r.legacy && key in s.claims
                          && s.claims[key].inbox == s.log[i].inbox
                          && s.claims[key].hash == Sha256Json(s.log[i].body)
  {
    RunKeeps(r, n);
    LogOnlyGrows(r, 0, n);
    var s := r.states[n];
    forall i, j | 0 <= i < |s.log| && 0 <= j < |s.log| && s.log[i].key == s.log[j].key == Some(key)
      ensures i == j
    {
      assert EntryOk(s, s.log[i]) && EntryOk(s, s.log[j]);
      assert s.log[i].handler == s.winner[key] == s.log[j].handler;
    }
    forall i | 0 <= i < |s.log| && s.log[i].key == Some(key)
      ensures key !in r.legacy && key in s.claims
      ensures s.claims[key].inbox == s.log[i].inbox && s.claims[key].hash == Sha256Json(s.log[i].body)
    {
      assert EntryOk(s, s.log[i]);
      assert WinnerOk(s, key, s.winner[key]);
    }
  }

  /** A replayed response was recorded by the one handler that got `New` for
      the key, for this inbox and this request hash, after it had handed that
      very request to the transport. */
  lemma ReplayIsTheOriginalResponse(r: Trace, n: nat, id: nat)
    requires IsRun(r) && n < |r.states|
    requires id in r.states[n].answers && r.states[n].answers[id].AnsweredReplay?
    ensures var s := r.states[n];
            var a := s.answers[id];
            && a.key in s.claims && s.claims[a.key] == ClaimRow(a.inbox, a.hash, Some(a.response))
            && a.key in s.winner && s.winner[a.key] == a.response.record && a.response.record != id
            && (exists i :: 0 <= i < |s.log|
                            && s.log[i].handler == a.response.record && s.log[i].key == Some(a.key)
                            && s.log[i].inbox == a.inbox && Sha256Json(s.log[i].body) == a.hash)
  {
    RunKeeps(r, n);
    var s := r.states[n];
    var a := s.answers[id];
    assert ReplayOk(s.claims, a);
    assert RowJustified(s.log, a.key, s.claims[a.key]);
    var i :| 0 <= i < |s.log| && Justifies(s.log[i], a.key, s.claims[a.key], a.response);
    assert EntryOk(s, s.log[i]);
    assert WinnerOk(s, a.key, s.winner[a.key]);
  }

  /** A request refused before its claim, answered from another's claim, or
      refused as a conflict, wrote no claim and handed nothing over. */
  lemma RefusalLeavesNoTrace(r: Trace, n: nat, id: nat)
    requires IsRun(r) && n < |r.states|
    requires id in r.states[n].answers && NeverClaimed(r.states[n].answers[id])
    ensures var s := r.states[n];
            && (forall key :: key in s.claims ==> key in s.winner && s.winner[key] != id)
            && (forall i :: 0 <= i < |s.log| ==> s.log[i].handler != id)
  {
    RunKeeps(r, n);
    var s := r.states[n];
    forall key | key in s.claims ensures key in s.winner && s.winner[key] != id {
      assert key in s.claims.Keys;
      assert key in s.winner.Keys;
      assert WinnerOk(s, key, s.winner[key]);
    }
    forall i | 0 <= i < |s.log| ensures s.log[i].handler != id {
      assert EntryOk(s, s.log[i]);
    }
  }

  /** Once a keyed `send_draft` has reached the transport, whatever it was told
      and whatever happens later, the draft is `sending`, `sent` or deleted: it
      is never editable or claimable again, and never handed over again, with
      this key, another key, no key, or by the scheduler. */
  lemma KeyedDraftIsNeverSentAgain(r: Trace, m: nat, n: nat, i: nat, draft: nat)
    requires IsRun(r) && m <= n < |r.states|
    requires i < |r.states[m].log| && r.states[m].log[i].key.Some? && r.states[m].log[i].draft == Some(draft)
    ensures var t := r.states[n];
            && !ClaimableByHand(t.drafts, draft)
            && (draft in t.drafts ==> t.drafts[draft].status == Sending || t.drafts[draft].status == Sent)
            && i < |t.log| && t.log[i] == r.states[m].log[i]
            && (forall j :: i < j < |t.log| ==> t.log[j].draft != Some(draft))
  {
    var t := r.states[n];
    LogOnlyGrows(r, m, n);
    RunKeeps(r, n);
    assert t.log[i] == r.states[m].log[i];
    assert EntryOk(t, t.log[i]);
  }

  /** At most one live handler stands between claim and settle of a draft, and
      while it does the row is `sending` with the content it will hand over. */
  lemma DraftHasOneOwner(r: Trace, n: nat, a: nat, b: nat, draft: nat)
    requires IsRun(r) && n < |r.states|
    requires a in r.states[n].handlers && HoldsDraft(r.states[n].handlers[a], draft)
    requires b in r.states[n].handlers && HoldsDraft(r.states[n].handlers[b], draft)
    ensures a == b
    ensures var s := r.states[n];
            draft in s.drafts ==>
              s.drafts[draft].status == Sending && s.drafts[draft].content == s.handlers[a].body
  {
    RunKeeps(r, n);
    assert HandlerOk(r.states[n], a, r.states[n].handlers[a]);
  }

  /** A row leaves `sending` only by the settle of the handler that holds it,
      content untouched; a `sent` row keeps its content and status until it is
      deleted; and a deleted draft stays deleted, because a new draft takes an id
      no draft ever had. */
  ghost predicate DraftMovesRightly(s: State, e: Event, t: State, draft: nat) {
    && (draft in s.drafts && s.drafts[draft].status == Sending && draft in t.drafts ==>
          && t.drafts[draft].content == s.drafts[draft].content
          && (t.drafts[draft].status == Sending
              || (&& e.Advance? && e.handler in s.handlers && s.handlers[e.handler].pc.Settle?
                  && HoldsDraft(s.handlers[e.handler], draft)
                  && t.drafts[draft].status == s.handlers[e.handler].pc.status)))
    && (draft in s.drafts && s.drafts[draft].status == Sent && draft in t.drafts ==>
          t.drafts[draft].status == Sent && t.drafts[draft].content == s.drafts[draft].content)
    && (draft in s.drafts && draft !in t.drafts ==> e == DeleteDraft(draft))
    && (draft !in s.drafts && draft in t.drafts ==> draft == s.nextDraft && t.nextDraft == draft + 1)
    && s.nextDraft <= t.nextDraft
  }

  lemma FrameMovesRightly(s: State, e: Event, t: State, draft: nat)
    requires e.Advance? && e.handler in s.handlers && HandlerFrame(s, e.handler, s.handlers[e.handler], t)
    ensures DraftMovesRightly(s, e, t, draft)
  {
  }

  lemma StepMovesRightly(s: State, e: Event, draft: nat)
    requires TablesOk(s)
    ensures DraftMovesRightly(s, e, Step(s, e), draft)
  {
    if e.Advance? && e.handler in s.handlers {
      StepHandlerFrame(s, e.handler, s.handlers[e.handler], e.choice);
      FrameMovesRightly(s, e, Step(s, e), draft);
    }
  }

  lemma OnlyTheOwnerMovesASendingDraft(r: Trace, n: nat, draft: nat)
    requires IsRun(r) && n < |r.events|
    ensures DraftMovesRightly(r.states[n], r.events[n], r.states[n + 1], draft)
  {
    RunKeeps(r, n);
    assert Follows(r, n);
    StepMovesRightly(r.states[n], r.events[n], draft);
  }

  /** A step of a run hands a draft over only for the handler between claim and
      settle of it, with the content the row still has. */
  lemma OnlyTheOwnerHandsADraftOver(r: Trace, n: nat, draft: nat)
    requires IsRun(r) && n < |r.events|
    requires |r.states[n + 1].log| > |r.states[n].log|
    requires r.states[n + 1].log[|r.states[n].log|].draft == Some(draft)
    ensures var s, e, t := r.states[n], r.events[n], r.states[n + 1];
            && e.Advance? && e.handler in s.handlers
            && HoldsDraft(s.handlers[e.handler], draft)
            && t.log[|s.log|].handler == e.handler
            && t.drafts == s.drafts
            && (draft in s.drafts ==>
                  s.drafts[draft].status == Sending && t.log[|s.log|].body == s.drafts[draft].content)
  {
    RunKeeps(r, n);
    assert Follows(r, n);
    var s, e := r.states[n], r.events[n];
    if e.Advance? && e.handler in s.handlers {
      StepHandlerFrame(s, e.handler, s.handlers[e.handler], e.choice);
      assert HandlerOk(s, e.handler, s.handlers[e.handler]);
    }
  }
}
