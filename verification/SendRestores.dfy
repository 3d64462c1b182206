/**
 What a manual send that was not sent puts back: the status it claimed, exactly
 when its first read of the row and its claim agree on whether it was parked.
 */
module SendRestores {
  import opened Options
  import opened Drafts
  import opened SendProtocol
  import opened SendInvariant
  import opened SendSteps
  import opened SendFrames

  /** Step `k` is the first read of a draft, by the handler that starts as `id`. */
  ghost predicate ReadsDraft(r: Trace, k: nat, id: nat, draft: nat)
    requires k < |r.events| && |r.states| == |r.events| + 1
  {
    var s, e := r.states[k], r.events[k];
    && e.StartDraftSend? && e.draft == draft && draft in s.drafts && s.drafts[draft].inbox == e.inbox
    && id == s.nextHandler
  }

  /** Step `m` is the claim of the draft by handler `id`. */
  ghost predicate ClaimsDraft(r: Trace, m: nat, id: nat, draft: nat)
    requires m < |r.events| && |r.states| == |r.events| + 1
  {
    var s := r.states[m];
    && r.events[m] == Advance(id, Proceed) && id in s.handlers
    && s.handlers[id].pc == ClaimDraftRow && ClaimableByHand(s.drafts, draft)
  }

  /** Step `n` is the settle of the draft by handler `id`, as not sent. */
  ghost predicate SettlesUnsent(r: Trace, n: nat, id: nat, draft: nat)
    requires n < |r.events| && |r.states| == |r.events| + 1
  {
    var s := r.states[n];
    && r.events[n].Advance? && r.events[n].handler == id && r.events[n].choice != Fault
    && id in s.handlers && s.handlers[id].pc.Settle? && s.handlers[id].pc.status != Sent
    && draft in s.drafts
  }

  /** Handler numbers are not used again. */
  lemma HandlersAreNew(s: State, e: Event, id: nat)
    requires Inv(s) && id < s.nextHandler
    ensures id < Step(s, e).nextHandler
    ensures id in Step(s, e).handlers ==> id in s.handlers
    ensures id in s.handlers && id in Step(s, e).handlers && !(e.Advance? && e.handler == id) ==>
              Step(s, e).handlers[id] == s.handlers[id]
  {
    if e.Advance? && e.handler in s.handlers {
      StepHandlers(s, e.handler, s.handlers[e.handler], e.choice);
    }
  }

  /** A handler that still has to claim is as it was when it started. */
  ghost predicate StillAs(s: State, id: nat, h: Handler) {
    id in s.handlers && Claiming(s.handlers[id].pc) ==> s.handlers[id] == h
  }

  lemma {:induction false} UnclaimedIsAsStarted(r: Trace, k: nat, m: nat, id: nat, h: Handler)
    requires IsRun(r) && k <= m < |r.states|
    requires id < r.states[k].nextHandler && StillAs(r.states[k], id, h)
    ensures id < r.states[m].nextHandler && StillAs(r.states[m], id, h)
    decreases m
  {
    if k < m {
      UnclaimedIsAsStarted(r, k, m - 1, id, h);
      RunKeeps(r, m - 1);
      assert Follows(r, m - 1);
      StepKeepsUnclaimed(r.states[m - 1], r.events[m - 1], id, h);
    }
  }

  lemma StepKeepsUnclaimed(s: State, e: Event, id: nat, h: Handler)
    requires Inv(s) && id < s.nextHandler && StillAs(s, id, h)
    ensures id < Step(s, e).nextHandler && StillAs(Step(s, e), id, h)
  {
    HandlersAreNew(s, e, id);
    if e.Advance? && e.handler == id && id in s.handlers {
      StepHandlers(s, id, s.handlers[id], e.choice);
      if Claiming(s.handlers[id].pc) { ClaimIsTakenOrLost(s, id, s.handlers[id], e.choice); }
    }
  }

  ghost predicate NoLongerClaiming(s: State, id: nat) {
    id in s.handlers ==> !Claiming(s.handlers[id].pc)
  }

  lemma DraftClaimIsTakenOrLost(s: State, id: nat, h: Handler, c: Choice)
    ensures NoLongerClaiming(StepClaimDraftRow(s, id, h, c), id)
  {
  }

  lemma DueClaimIsTakenOrLost(s: State, id: nat, h: Handler, sendAt: SendAt, c: Choice)
    ensures NoLongerClaiming(StepClaimDueRow(s, id, h, sendAt, c), id)
  {
  }

  lemma ClaimIsTakenOrLost(s: State, id: nat, h: Handler, c: Choice)
    requires Claiming(h.pc)
    ensures NoLongerClaiming(StepHandler(s, id, h, c), id)
  {
    if h.pc == ClaimDraftRow {
      DraftClaimIsTakenOrLost(s, id, h, c);
    } else {
      DueClaimIsTakenOrLost(s, id, h, h.pc.sendAt, c);
    }
  }

  /** Behind its claim a manual sender keeps the status it may put back, and puts
      back nothing else. */
  ghost predicate Restores(s: State, id: nat, origin: Origin)
    requires origin.ByHand?
  {
    id in s.handlers ==>
      && s.handlers[id].origin == origin && !Claiming(s.handlers[id].pc)
      && (s.handlers[id].pc.Settle? ==> s.handlers[id].pc.status == Sent || s.handlers[id].pc.status == origin.restore)
  }

  /** A step of the sender itself, before it settles. */
  lemma OwnStepKeepsRestores(s: State, id: nat, h: Handler, t: State, origin: Origin)
    requires origin.ByHand? && id in s.handlers && s.handlers[id] == h && !h.pc.Settle?
    requires Restores(s, id, origin) && HandlersFrame(s, id, h, t)
    ensures Restores(t, id, origin)
  {
  }

  lemma StepKeepsRestores(s: State, e: Event, id: nat, origin: Origin)
    requires Inv(s) && id < s.nextHandler && origin.ByHand? && Restores(s, id, origin)
    ensures id < Step(s, e).nextHandler && Restores(Step(s, e), id, origin)
  {
    HandlersAreNew(s, e, id);
    if e.Advance? && e.handler == id && id in s.handlers {
      var h := s.handlers[id];
      if h.pc.Settle? {
        SettleStepDrops(s, id, h, e.choice);
      } else {
        StepHandlers(s, id, h, e.choice);
        OwnStepKeepsRestores(s, id, h, StepHandler(s, id, h, e.choice), origin);
      }
    }
  }

  lemma {:induction false} ClaimedKeepsItsOrigin(r: Trace, m: nat, n: nat, id: nat, origin: Origin)
    requires IsRun(r) && m <= n < |r.states| && origin.ByHand?
    requires id < r.states[m].nextHandler && Restores(r.states[m], id, origin)
    ensures Restores(r.states[n], id, origin) && id < r.states[n].nextHandler
    decreases n
  {
    if m < n {
      ClaimedKeepsItsOrigin(r, m, n - 1, id, origin);
      RunKeeps(r, n - 1);
      assert Follows(r, n - 1);
      StepKeepsRestores(r.states[n - 1], r.events[n - 1], id, origin);
    }
  }

  /** After the claim the sender will put back what its read and the claimed row say. */
  lemma ClaimFixesTheRestore(r: Trace, k: nat, m: nat, id: nat, draft: nat)
    requires IsRun(r) && k < m < |r.events| && ReadsDraft(r, k, id, draft) && ClaimsDraft(r, m, id, draft)
    ensures id < r.states[m + 1].nextHandler
    ensures var parked := r.states[k].drafts[draft].status == Failed;
            var restore := RestoreStatus(parked, r.states[m].drafts[draft].sendAt);
            Restores(r.states[m + 1], id, ByHand(draft, parked, restore))
  {
    assert Follows(r, k) && Follows(r, m);
    var started := r.states[k + 1].handlers[id];
    UnclaimedIsAsStarted(r, k + 1, m, id, started);
    assert r.states[m].handlers[id] == started;
  }

  lemma SettlePutsBack(r: Trace, n: nat, id: nat, draft: nat, origin: Origin)
    requires IsRun(r) && n < |r.events| && SettlesUnsent(r, n, id, draft)
    requires origin.ByHand? && origin.draft == draft && Restores(r.states[n], id, origin)
    ensures draft in r.states[n + 1].drafts && r.states[n + 1].drafts[draft].status == origin.restore
  {
    RunKeeps(r, n);
    assert Follows(r, n) && HandlerOk(r.states[n], id, r.states[n].handlers[id]);
  }

  /** Over every run, read at `k`, claim at `m`, settle at `n`: a manual send that was
      not sent leaves the row with the status it claimed if and only if read and claim
      agree on whether the row was parked (`failed`). A row claimed as parked comes back
      as scheduled if and only if the read had not seen it parked and it has a time. */
  lemma UnsentDraftComesBackAsClaimedIff(r: Trace, k: nat, m: nat, n: nat, id: nat, draft: nat)
    requires IsRun(r) && k < m < n < |r.events|
    requires ReadsDraft(r, k, id, draft) && ClaimsDraft(r, m, id, draft) && SettlesUnsent(r, n, id, draft)
    ensures draft in r.states[n + 1].drafts
    ensures var read, claimed := r.states[k].drafts[draft], r.states[m].drafts[draft];
            var left := r.states[n + 1].drafts[draft];
            && (left.status == claimed.status <==> (read.status == Failed <==> claimed.status == Failed))
            && (claimed.status == Failed ==>
                  (left.status == Scheduled <==> read.status != Failed && claimed.sendAt.Some?))
  {
    var parked := r.states[k].drafts[draft].status == Failed;
    var claimed := r.states[m].drafts[draft];
    var origin := ByHand(draft, parked, RestoreStatus(parked, claimed.sendAt));
    ClaimFixesTheRestore(r, k, m, id, draft);
    ClaimedKeepsItsOrigin(r, m + 1, n, id, origin);
    SettlePutsBack(r, n, id, draft, origin);
    RunKeeps(r, m);
    assert RowOk(claimed);
  }
}
