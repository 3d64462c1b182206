/**
 Outbound sending as a transition system: any number of live handlers (direct
 sends, manual draft sends, scheduled draft sends) interleave on one claim table
 and one drafts table. Every store call and every transport call is one atomic
 step, `claim_send` is split at its read and its insert, any call may fail, a
 client that disconnects cancels its handler between any two steps, and a crash
 drops every handler; both keep the tables.
 */
module SendProtocol {
  import opened Options
  import opened SendClaims
  import opened Drafts

  /** The `idempotency-key` header of a request. */
  datatype KeyHeader = NoHeader | Unreadable | Text(text: string)

  /** Who runs the handler. `parked` is what `send_draft` saw in its first read
      of the row, `restore` the status it puts back when nothing was sent. */
  datatype Origin =
    | Direct
    | ByHand(draft: nat, parked: bool, restore: Status)
    | Timer(draft: nat)

  /** Where a handler stands; each name is the step it takes next. */
  datatype Pc =
    | ClaimDraftRow
    | ClaimDueRow(sendAt: SendAt)
    | CheckLocally
    | LookUpKey
    | CheckTransport
    | ReadClaim
    | InsertClaim
    | RereadClaim
    | HandToTransport
    | InsertMessageRow(provider: string)
    | Complete(response: Response)
    | ProbeKey
    | Settle(status: Status, clearSendAt: bool)

  datatype Handler = Handler(origin: Origin, header: KeyHeader, inbox: string, body: string, pc: Pc)

  /** How a `send_message` call ended. */
  datatype Answer =
    | AnsweredSent(response: Response)
    | AnsweredReplay(key: string, inbox: string, hash: Digest, response: Response)
    | RefusedBeforeClaim(serverError: bool)
    | KeyReused
    | KeyUnresolved
    | OutcomeUnresolved
    | ReplayNotSaved
    | TransportRefused

  /** One hand-off to the transport, successful or not. */
  datatype HandOff = HandOff(handler: nat, key: Option<string>, draft: Option<nat>, inbox: string, body: string)

  datatype State = State(
    claims: Claims,
    legacy: set<string>,
    drafts: Table,
    nextDraft: nat,
    handlers: map<nat, Handler>,
    nextHandler: nat,
    // History, read by no step.
    log: seq<HandOff>,
    winner: map<string, nat>,
    answers: map<nat, Answer>)

  /** What the environment decides at a step of a handler. */
  datatype Choice =
    | Proceed
    | Fault
    | Refuse(serverError: bool)
    | Accept(provider: string)
    | HandedThenFailed

  datatype Event =
    | StartSend(inbox: string, header: KeyHeader, body: string)
    | StartDraftSend(draft: nat, inbox: string, header: KeyHeader)
    | StartDueSend(draft: nat, now: int)
    | CreateDraft(inbox: string, content: string, sendAt: Option<SendAt>)
    | EditDraft(draft: nat, content: string, sendAt: Option<SendAt>)
    | DeleteDraft(draft: nat)
    | Advance(handler: nat, choice: Choice)
    | Cancel(handler: nat)
    | Crash

  predicate BlankText(text: string) {
    forall i :: 0 <= i < |text| ==> text[i] == ' ' || text[i] == '\t'
  }

  /** The key `send_message` works with. */
  function KeyOf(h: Handler): Option<string> {
    if h.header.Text? && !BlankText(h.header.text) then Some(h.header.text) else None
  }

  function DraftOf(h: Handler): Option<nat> {
    match h.origin
    case Direct => None
    case ByHand(draft, _, _) => Some(draft)
    case Timer(draft) => Some(draft)
  }

  function HashOf(h: Handler): Digest {
    Sha256Json(h.body)
  }

  /** Whether `send_draft` looks its key up again before it settles: the key
      header was readable and the status was 409 or a server error. */
  predicate NeedsProbe(h: Handler, answer: Answer) {
    && h.header.Text?
    && (match answer
        case KeyReused => true
        case KeyUnresolved => true
        case OutcomeUnresolved => true
        case ReplayNotSaved => true
        case RefusedBeforeClaim(serverError) => serverError
        case _ => false)
  }

  predicate Succeeded(answer: Answer) {
    answer.AnsweredSent? || answer.AnsweredReplay?
  }

  function Init(legacy: set<string>): State {
    State(map[], legacy, map[], 0, map[], 0, [], map[], map[])
  }

  function Spawn(s: State, h: Handler): State {
    s.(handlers := s.handlers[s.nextHandler := h], nextHandler := s.nextHandler + 1)
  }

  function Move(s: State, id: nat, h: Handler, pc: Pc): State {
    s.(handlers := s.handlers[id := h.(pc := pc)])
  }

  function Drop(s: State, id: nat): State {
    s.(handlers := s.handlers - {id})
  }

  /** Nothing durable changed and nothing was handed over. */
  ghost predicate SameTables(s: State, t: State) {
    && t.claims == s.claims && t.legacy == s.legacy && t.winner == s.winner && t.log == s.log
    && t.drafts == s.drafts && t.nextDraft == s.nextDraft
  }

  /** `send_message` answers; a draft send goes on to settle its claim. */
  function Reply(s: State, id: nat, h: Handler, answer: Answer): (t: State)
    ensures SameTables(s, t)
  {
    var t := s.(answers := s.answers[id := answer]);
    match h.origin
    case Direct => Drop(t, id)
    case Timer(_) =>
      Move(t, id, h, if Succeeded(answer) then Settle(Sent, true) else Settle(Failed, false))
    case ByHand(_, _, restore) =>
      Move(t, id, h,
           if Succeeded(answer) then Settle(Sent, true)
           else if NeedsProbe(h, answer) then ProbeKey
           else Settle(restore, false))
  }

  /** `send_claim_response` for a claim that is not new. */
  function ReplyClaim(s: State, id: nat, h: Handler, key: string, claim: SendClaim): (t: State)
    requires claim != New
    ensures SameTables(s, t)
  {
    match claim
    case Replay(response) => Reply(s, id, h, AnsweredReplay(key, h.inbox, HashOf(h), response))
    case Conflict => Reply(s, id, h, KeyReused)
    case Unresolved => Reply(s, id, h, KeyUnresolved)
  }

  function Refused(s: State, id: nat, h: Handler, serverError: bool): (t: State)
    ensures SameTables(s, t)
  {
    Reply(s, id, h, RefusedBeforeClaim(serverError))
  }

  /** `send_from_inbox` returned an error. */
  function SendFailed(s: State, id: nat, h: Handler): (t: State)
    ensures SameTables(s, t)
  {
    Reply(s, id, h, if KeyOf(h).Some? then OutcomeUnresolved else TransportRefused)
  }

  function Recorded(s: State, id: nat, h: Handler): State {
    s.(log := s.log + [HandOff(id, KeyOf(h), DraftOf(h), h.inbox, h.body)])
  }

  function StepClaimDraftRow(s: State, id: nat, h: Handler, c: Choice): State {
    if c != Proceed || !h.origin.ByHand? || !ClaimableByHand(s.drafts, h.origin.draft) then Drop(s, id)
    else
      var row := s.drafts[h.origin.draft];
      var restore := RestoreStatus(h.origin.parked, row.sendAt);
      var claimed := h.(origin := h.origin.(restore := restore), body := row.content);
      Move(s.(drafts := MarkSending(s.drafts, h.origin.draft)), id, claimed, CheckLocally)
  }

  function StepClaimDueRow(s: State, id: nat, h: Handler, sendAt: SendAt, c: Choice): State {
    if c != Proceed || !h.origin.Timer? || !ClaimableAt(s.drafts, h.origin.draft, sendAt) then Drop(s, id)
    else
      var row := s.drafts[h.origin.draft];
      var claimed := h.(body := row.content, inbox := row.inbox);
      Move(s.(drafts := MarkSending(s.drafts, h.origin.draft)), id, claimed,
           // A time that is neither blank nor a timestamp, once trimmed, parks the draft.
           if InOrder(sendAt) then CheckLocally else Settle(Failed, false))
  }

  /** Shape, inbox, policy and key-header checks. The scheduler skips the rest
      of `send_message` and hands the claimed row over itself. */
  function StepCheckLocally(s: State, id: nat, h: Handler, c: Choice): (t: State)
    ensures SameTables(s, t)
  {
    if h.origin.Timer? then
      if c == Proceed then Move(s, id, h, HandToTransport) else Move(s, id, h, Settle(Failed, false))
    else if c.Refuse? then Refused(s, id, h, c.serverError)
    else if !h.header.NoHeader? && KeyOf(h).None? then Refused(s, id, h, false)
    else if KeyOf(h).Some? then Move(s, id, h, LookUpKey)
    else Move(s, id, h, CheckTransport)
  }

  function StepLookUpKey(s: State, id: nat, h: Handler, c: Choice): (t: State)
    requires KeyOf(h).Some?
    ensures SameTables(s, t)
  {
    var key := KeyOf(h).value;
    if !ValidSendKey(key) then Refused(s, id, h, false)
    else if c == Fault then Refused(s, id, h, true)
    else match ReadSendClaim(s.claims, s.legacy, key, h.inbox, HashOf(h))
         case Some(claim) => ReplyClaim(s, id, h, key, claim)
         case None => Move(s, id, h, CheckTransport)
  }

  function StepCheckTransport(s: State, id: nat, h: Handler, c: Choice): (t: State)
    ensures SameTables(s, t)
  {
    if c != Proceed then Refused(s, id, h, false)
    else if KeyOf(h).Some? then Move(s, id, h, ReadClaim)
    else Move(s, id, h, HandToTransport)
  }

  function StepReadClaim(s: State, id: nat, h: Handler, c: Choice): (t: State)
    requires KeyOf(h).Some?
    ensures SameTables(s, t)
  {
    var key := KeyOf(h).value;
    if c == Fault then Refused(s, id, h, true)
    else match ReadSendClaim(s.claims, s.legacy, key, h.inbox, HashOf(h))
         case Some(claim) => ReplyClaim(s, id, h, key, claim)
         case None => Move(s, id, h, InsertClaim)
  }

  function StepInsertClaim(s: State, id: nat, h: Handler, c: Choice): State
    requires KeyOf(h).Some?
  {
    var key := KeyOf(h).value;
    if c == Fault then Refused(s, id, h, true)
    else if key in s.claims then Move(s, id, h, RereadClaim)
    else
      var t := s.(claims := InsertOrIgnore(s.claims, key, h.inbox, HashOf(h)),
               winner := s.winner[key := id]);
      Move(t, id, h, HandToTransport)
  }

  function StepRereadClaim(s: State, id: nat, h: Handler, c: Choice): (t: State)
    requires KeyOf(h).Some?
    ensures SameTables(s, t)
  {
    var key := KeyOf(h).value;
    if c == Fault then Refused(s, id, h, true)
    else match ReadSendClaim(s.claims, s.legacy, key, h.inbox, HashOf(h))
         case Some(claim) => ReplyClaim(s, id, h, key, claim)
         case None => Refused(s, id, h, true)
  }

  /** The transport may fail before or after it took the message. */
  function StepHandToTransport(s: State, id: nat, h: Handler, c: Choice): State {
    match c
    case Accept(provider) => Move(Recorded(s, id, h), id, h, InsertMessageRow(provider))
    case HandedThenFailed => SendFailed(Recorded(s, id, h), id, h)
    case _ => SendFailed(s, id, h)
  }

  function StepInsertMessageRow(s: State, id: nat, h: Handler, provider: string, c: Choice): (t: State)
    ensures SameTables(s, t)
  {
    if c != Proceed then SendFailed(s, id, h)
    else if KeyOf(h).Some? then Move(s, id, h, Complete(Response(id, provider)))
    else Reply(s, id, h, AnsweredSent(Response(id, provider)))
  }

  function StepComplete(s: State, id: nat, h: Handler, response: Response, c: Choice): State
    requires KeyOf(h).Some?
  {
    var key := KeyOf(h).value;
    if c == Fault || !Completable(s.claims, key, h.inbox, HashOf(h)) then
      Reply(s, id, h, ReplayNotSaved)
    else
      Reply(s.(claims := CompleteRow(s.claims, key, h.inbox, HashOf(h), response)), id, h,
            AnsweredSent(response))
  }

  /** `keyed_send_never_claimed`, with the header text as the key. */
  function StepProbeKey(s: State, id: nat, h: Handler, c: Choice): (t: State)
    ensures SameTables(s, t)
  {
    if c == Fault || !h.header.Text? || !h.origin.ByHand? || !ValidSendKey(h.header.text) then Drop(s, id)
    else
      var claim := ReadSendClaim(s.claims, s.legacy, h.header.text, h.inbox, HashOf(h));
      if claim == None || claim == Some(Conflict) then Move(s, id, h, Settle(h.origin.restore, false))
      else Drop(s, id)
  }

  function StepSettle(s: State, id: nat, h: Handler, status: Status, clear: bool, c: Choice): State {
    if c == Fault || DraftOf(h).None? then Drop(s, id)
    else Drop(s.(drafts := Finish(s.drafts, DraftOf(h).value, status, clear)), id)
  }

  predicate NeedsKey(pc: Pc) {
    pc.LookUpKey? || pc.ReadClaim? || pc.InsertClaim? || pc.RereadClaim? || pc.Complete?
  }

  function StepHandler(s: State, id: nat, h: Handler, c: Choice): State {
    if NeedsKey(h.pc) && KeyOf(h).None? then s
    else match h.pc
         case ClaimDraftRow => StepClaimDraftRow(s, id, h, c)
         case ClaimDueRow(sendAt) => StepClaimDueRow(s, id, h, sendAt, c)
         case CheckLocally => StepCheckLocally(s, id, h, c)
         case LookUpKey => StepLookUpKey(s, id, h, c)
         case CheckTransport => StepCheckTransport(s, id, h, c)
         case ReadClaim => StepReadClaim(s, id, h, c)
         case InsertClaim => StepInsertClaim(s, id, h, c)
         case RereadClaim => StepRereadClaim(s, id, h, c)
         case HandToTransport => StepHandToTransport(s, id, h, c)
         case InsertMessageRow(provider) => StepInsertMessageRow(s, id, h, provider, c)
         case Complete(response) => StepComplete(s, id, h, response, c)
         case ProbeKey => StepProbeKey(s, id, h, c)
         case Settle(status, clear) => StepSettle(s, id, h, status, clear, c)
  }

  function Step(s: State, e: Event): State {
    match e
    case StartSend(inbox, header, body) =>
      Spawn(s, Handler(Direct, header, inbox, body, CheckLocally))
    case StartDraftSend(draft, inbox, header) =>
      if draft in s.drafts && s.drafts[draft].inbox == inbox then
        Spawn(s, Handler(ByHand(draft, s.drafts[draft].status == Failed, Failed), header, inbox, "", ClaimDraftRow))
      else s
    case StartDueSend(draft, now) =>
      if && draft in s.drafts && s.drafts[draft].status == Scheduled
         && s.drafts[draft].sendAt.Some? && Due(s.drafts[draft].sendAt.value, now) then
        Spawn(s, Handler(Timer(draft), NoHeader, "", "", ClaimDueRow(s.drafts[draft].sendAt.value)))
      else s
    case CreateDraft(inbox, content, sendAt) =>
      s.(drafts := s.drafts[s.nextDraft := DraftRow(inbox, content, sendAt, ScheduleStatus(sendAt))],
      nextDraft := s.nextDraft + 1)
    case EditDraft(draft, content, sendAt) => s.(drafts := Edit(s.drafts, draft, content, sendAt))
    case DeleteDraft(draft) => s.(drafts := Remove(s.drafts, draft))
    case Advance(id, choice) =>
      if id in s.handlers then StepHandler(s, id, s.handlers[id], choice) else s
    case Cancel(id) => Drop(s, id)
    case Crash => s.(handlers := map[])
  }

  /** A run: the states it goes through and the events between them. */
  datatype Trace = Trace(legacy: set<string>, states: seq<State>, events: seq<Event>)

  ghost predicate Follows(r: Trace, n: nat)
    requires n < |r.events| && |r.states| == |r.events| + 1
  {
    r.states[n + 1] == Step(r.states[n], r.events[n])
  }

  ghost predicate IsRun(r: Trace) {
    && |r.states| == |r.events| + 1
    && r.states[0] == Init(r.legacy)
    && (forall n: nat :: n < |r.events| ==> Follows(r, n))
  }

  /** The last state of a run. */
  function Run(s: State, events: seq<Event>): State
    decreases |events|
  {
    if events == [] then s
    else Step(Run(s, events[..|events| - 1]), events[|events| - 1])
  }
}
