/**
 Two runs that show where the guarantees of outbound sending end: they hold
 for keyed sends only, and the restore status follows an earlier read.
 */
module SendExamples {
  import opened Options
  import opened SendClaims
  import opened Drafts
  import opened SendProtocol
  import opened SendTheorems

  /** One draft, and what the run has handed over so far. */
  ghost predicate Shows(s: State, row: DraftRow, next: nat, log: seq<HandOff>) {
    s.drafts == map[0 := row] && s.nextHandler == next && s.log == log
  }

  ghost predicate Live(s: State, id: nat, h: Handler) {
    id in s.handlers && s.handlers[id] == h
  }

  const IDLE := DraftRow("inbox", "body", None, Draft)
  const BUSY := DraftRow("inbox", "body", None, Sending)

  function Sender(pc: Pc): Handler {
    Handler(ByHand(0, false, Draft), NoHeader, "inbox", "body", pc)
  }

  lemma Claims(s: State, id: nat, log: seq<HandOff>)
    requires Shows(s, IDLE, id, log)
    ensures var t := Step(Step(s, StartDraftSend(0, "inbox", NoHeader)), Advance(id, Proceed));
            Shows(t, BUSY, id + 1, log) && Live(t, id, Sender(CheckLocally))
  {
    var s1 := Step(s, StartDraftSend(0, "inbox", NoHeader));
    assert Live(s1, id, Handler(ByHand(0, false, Failed), NoHeader, "inbox", "", ClaimDraftRow));
    assert Shows(s1, IDLE, id + 1, log);
  }

  lemma Sends(s: State, id: nat, log: seq<HandOff>)
    requires Shows(s, BUSY, id + 1, log) && Live(s, id, Sender(CheckLocally))
    ensures var t := Step(Step(Step(s, Advance(id, Proceed)), Advance(id, Proceed)), Advance(id, HandedThenFailed));
            && Shows(t, BUSY, id + 1, log + [HandOff(id, None, Some(0), "inbox", "body")])
            && Live(t, id, Sender(Settle(Draft, false)))
  {
    var s1 := Step(s, Advance(id, Proceed));
    assert Live(s1, id, Sender(CheckTransport)) && Shows(s1, BUSY, id + 1, log);
    var s2 := Step(s1, Advance(id, Proceed));
    assert Live(s2, id, Sender(HandToTransport)) && Shows(s2, BUSY, id + 1, log);
  }

  lemma Restores(s: State, id: nat, log: seq<HandOff>)
    requires Shows(s, BUSY, id + 1, log) && Live(s, id, Sender(Settle(Draft, false)))
    ensures Shows(Step(s, Advance(id, Proceed)), IDLE, id + 1, log)
  {
  }

  /** A manual send without a key that the transport fails after taking the
      message: the draft is handed over and is editable again. */
  function Attempt(id: nat): seq<Event> {
    [StartDraftSend(0, "inbox", NoHeader), Advance(id, Proceed), Advance(id, Proceed),
     Advance(id, Proceed), Advance(id, HandedThenFailed), Advance(id, Proceed)]
  }

  lemma AttemptRuns(s: State, id: nat, log: seq<HandOff>)
    requires Shows(s, IDLE, id, log)
    ensures Shows(Run(s, Attempt(id)), IDLE, id + 1, log + [HandOff(id, None, Some(0), "inbox", "body")])
  {
    var go := Advance(id, Proceed);
    RunOfSix(s, StartDraftSend(0, "inbox", NoHeader), go, go, go, Advance(id, HandedThenFailed), go);
    Claims(s, id, log);
    var t := Step(Step(s, StartDraftSend(0, "inbox", NoHeader)), go);
    Sends(t, id, log);
    Restores(Step(Step(Step(t, go), go), Advance(id, HandedThenFailed)), id,
             log + [HandOff(id, None, Some(0), "inbox", "body")]);
  }

  /** Without an idempotency key nothing stops a second hand-off: the draft is
      restored after any error, including one that follows the hand-off. */
  lemma UnkeyedDraftCanBeHandedOverTwice(legacy: set<string>)
    ensures exists events ::
              var log := Run(Init(legacy), events).log;
              && |log| == 2 && log[0].draft == log[1].draft == Some(0) && log[0].body == log[1].body
              && log[0].key == log[1].key == None
  {
    var create := CreateDraft("inbox", "body", None);
    var s0 := Init(legacy);
    Snoc(s0, [], create);
    assert [] + [create] == [create];
    var s1 := Run(s0, [create]);
    assert Shows(s1, IDLE, 0, []);
    AttemptRuns(s1, 0, []);
    RunAppend(s0, [create], Attempt(0));
    var s2 := Run(s1, Attempt(0));
    AttemptRuns(s2, 1, [] + [HandOff(0, None, Some(0), "inbox", "body")]);
    RunAppend(s0, [create] + Attempt(0), Attempt(1));
    var events := [create] + Attempt(0) + Attempt(1);
    assert |Run(s0, events).log| == 2;
  }

  const DUE := SendAt("2026-01-01T00:00:00Z", Some(0), Some(0))

  function Timed(status: Status): DraftRow {
    DraftRow("inbox", "body", Some(DUE), status)
  }

  /** The manual sender that read the row before the scheduler parked it. */
  function Late(restore: Status, body: string, pc: Pc): Handler {
    Handler(ByHand(0, false, restore), NoHeader, "inbox", body, pc)
  }

  function Clock(inbox: string, body: string, pc: Pc): Handler {
    Handler(Timer(0), NoHeader, inbox, body, pc)
  }

  lemma BothStart(s: State)
    requires Shows(s, Timed(Scheduled), 0, [])
    ensures var t := Step(Step(s, StartDraftSend(0, "inbox", NoHeader)), StartDueSend(0, 0));
            && Shows(t, Timed(Scheduled), 2, [])
            && Live(t, 0, Late(Failed, "", ClaimDraftRow)) && Live(t, 1, Clock("", "", ClaimDueRow(DUE)))
  {
    var s1 := Step(s, StartDraftSend(0, "inbox", NoHeader));
    assert Live(s1, 0, Late(Failed, "", ClaimDraftRow)) && Shows(s1, Timed(Scheduled), 1, []);
  }

  lemma SchedulerClaims(s: State)
    requires Shows(s, Timed(Scheduled), 2, [])
    requires Live(s, 0, Late(Failed, "", ClaimDraftRow)) && Live(s, 1, Clock("", "", ClaimDueRow(DUE)))
    ensures var t := Step(s, Advance(1, Proceed));
            && Shows(t, Timed(Sending), 2, []) && Live(t, 0, Late(Failed, "", ClaimDraftRow))
            && Live(t, 1, Clock("inbox", "body", CheckLocally))
  {
  }

  lemma SchedulerRefuses(s: State)
    requires Shows(s, Timed(Sending), 2, [])
    requires Live(s, 0, Late(Failed, "", ClaimDraftRow)) && Live(s, 1, Clock("inbox", "body", CheckLocally))
    ensures var t := Step(s, Advance(1, Refuse(false)));
            && Shows(t, Timed(Sending), 2, []) && Live(t, 0, Late(Failed, "", ClaimDraftRow))
            && Live(t, 1, Clock("inbox", "body", Settle(Failed, false)))
  {
  }

  lemma SchedulerSettles(s: State)
    requires Shows(s, Timed(Sending), 2, [])
    requires Live(s, 0, Late(Failed, "", ClaimDraftRow))
    requires Live(s, 1, Clock("inbox", "body", Settle(Failed, false)))
    ensures var t := Step(s, Advance(1, Proceed));
            Shows(t, Timed(Failed), 2, []) && Live(t, 0, Late(Failed, "", ClaimDraftRow))
  {
  }

  lemma LateSenderClaims(s: State)
    requires Shows(s, Timed(Failed), 2, []) && Live(s, 0, Late(Failed, "", ClaimDraftRow))
    ensures var t := Step(s, Advance(0, Proceed));
            Shows(t, Timed(Sending), 2, []) && Live(t, 0, Late(Scheduled, "body", CheckLocally))
  {
  }

  lemma LateSenderIsRefused(s: State)
    requires Shows(s, Timed(Sending), 2, []) && Live(s, 0, Late(Scheduled, "body", CheckLocally))
    ensures var t := Step(s, Advance(0, Refuse(false)));
            Shows(t, Timed(Sending), 2, []) && Live(t, 0, Late(Scheduled, "body", Settle(Scheduled, false)))
  {
  }

  lemma LateSenderSettles(s: State)
    requires Shows(s, Timed(Sending), 2, []) && Live(s, 0, Late(Scheduled, "body", Settle(Scheduled, false)))
    ensures Shows(Step(s, Advance(0, Proceed)), Timed(Scheduled), 2, [])
  {
  }

  lemma SchedulerParks(s: State)
    requires Shows(s, Timed(Scheduled), 0, [])
    ensures var t := Step(Step(s, StartDraftSend(0, "inbox", NoHeader)), StartDueSend(0, 0));
            var u := Step(Step(Step(t, Advance(1, Proceed)), Advance(1, Refuse(false))), Advance(1, Proceed));
            Shows(u, Timed(Failed), 2, []) && Live(u, 0, Late(Failed, "", ClaimDraftRow))
  {
    BothStart(s);
    var t := Step(Step(s, StartDraftSend(0, "inbox", NoHeader)), StartDueSend(0, 0));
    SchedulerClaims(t);
    SchedulerRefuses(Step(t, Advance(1, Proceed)));
    SchedulerSettles(Step(Step(t, Advance(1, Proceed)), Advance(1, Refuse(false))));
  }

  lemma LateSenderReschedules(s: State)
    requires Shows(s, Timed(Failed), 2, []) && Live(s, 0, Late(Failed, "", ClaimDraftRow))
    ensures var t := Step(Step(Step(s, Advance(0, Proceed)), Advance(0, Refuse(false))), Advance(0, Proceed));
            Shows(t, Timed(Scheduled), 2, [])
  {
    LateSenderClaims(s);
    LateSenderIsRefused(Step(s, Advance(0, Proceed)));
    LateSenderSettles(Step(Step(s, Advance(0, Proceed)), Advance(0, Refuse(false))));
  }

  lemma ParkingRun(legacy: set<string>, parking: seq<Event>)
    requires parking == [CreateDraft("inbox", "body", Some(DUE)), StartDraftSend(0, "inbox", NoHeader),
                         StartDueSend(0, 0), Advance(1, Proceed), Advance(1, Refuse(false)), Advance(1, Proceed)]
    ensures var t := Run(Init(legacy), parking);
            Shows(t, Timed(Failed), 2, []) && Live(t, 0, Late(Failed, "", ClaimDraftRow))
  {
    var s0, a := Init(legacy), CreateDraft("inbox", "body", Some(DUE));
    RunOfSix(s0, a, parking[1], parking[2], parking[3], parking[4], parking[5]);
    assert Shows(Step(s0, a), Timed(Scheduled), 0, []);
    SchedulerParks(Step(s0, a));
  }

  lemma LateRun(s: State, parking: seq<Event>, later: seq<Event>)
    requires later == [Advance(0, Proceed), Advance(0, Refuse(false)), Advance(0, Proceed)]
    ensures Run(s, parking + later) == Step(Step(Step(Run(s, parking), later[0]), later[1]), later[2])
  {
    Snoc(s, parking, later[0]);
    Snoc(s, parking + [later[0]], later[1]);
    Snoc(s, parking + [later[0]] + [later[1]], later[2]);
    assert parking + later == parking + [later[0]] + [later[1]] + [later[2]];
  }

  /** A refused manual send can hand a parked draft back to the scheduler: its
      read came before the scheduler parked the draft, its claim after. */
  lemma ParkedDraftCanBeRescheduled(legacy: set<string>)
    ensures exists parking: seq<Event>, later: seq<Event> ::
              && Run(Init(legacy), parking).drafts == map[0 := Timed(Failed)]
              && Run(Init(legacy), parking + later).drafts == map[0 := Timed(Scheduled)]
              && (forall i :: 0 <= i < |later| ==> later[i].Advance?)
  {
    var parking := [CreateDraft("inbox", "body", Some(DUE)), StartDraftSend(0, "inbox", NoHeader),
                    StartDueSend(0, 0), Advance(1, Proceed), Advance(1, Refuse(false)), Advance(1, Proceed)];
    var later := [Advance(0, Proceed), Advance(0, Refuse(false)), Advance(0, Proceed)];
    ParkingRun(legacy, parking);
    LateRun(Init(legacy), parking, later);
    LateSenderReschedules(Run(Init(legacy), parking));
  }
}
