/**
 Inbound deliveries as a transition system. The wall clock is read twice by
 every delivery, once to check the signature window and once to stamp its
 tombstone; deliveries interleave, messages and inboxes are deleted, inserts
 fail, the process crashes, and the clock may be set back.
 */
module InboundProtocol {
  import opened Options
  import opened InboundStore

  /** The wall clock, split into its forward motion and the total it was set
      back by: the clock shows `forward - back`. */
  datatype Clock = Clock(forward: int, back: nat)

  function Shown(c: Clock): int {
    c.forward - c.back
  }

  /** Between the signature check and the commit of one delivery the clock moves
      forward by at most `delay`; over a whole run it is set back by at most
      `regress` in total. */
  datatype Limits = Limits(delay: nat, regress: nat)

  datatype Pc = Verified | Unseen | Stamped(seen: Clock)

  datatype Delivery = Delivery(
    inbox: string, signature: Signature, body: string, messageId: string, verified: Clock, pc: Pc)

  /** One stored delivery, with the clock readings it was accepted under. */
  datatype Record = Record(
    id: nat, inbox: string, signature: Signature, body: string, verified: Clock, seen: Clock)

  datatype State = State(
    inboxes: set<string>,
    messages: seq<Message>,
    tombstones: Tombstones,
    clock: Clock,
    live: map<nat, Delivery>,
    nextDelivery: nat,
    nextMessage: nat,
    // History, read by no step.
    stored: seq<Record>,
    readings: set<Clock>,
    committed: set<(string, nat)>,
    duplicates: seq<(string, nat)>)

  datatype Event =
    | CreateInbox(inbox: string)
    | DeleteInbox(inbox: string)
    | DeleteMessage(id: nat)
    | Elapse(secs: nat)
    | SetBack(secs: nat)
    | Deliver(inbox: string, signature: Signature, body: string, messageId: string)
    | LookForMessageId(delivery: nat, fault: bool)
    | Refuse(delivery: nat)
    | Stamp(delivery: nat)
    | Commit(delivery: nat, succeeds: bool)
    | Crash

  /** Tombstones an earlier version left without a message may be there. */
  predicate InitialTombstones(tombstones: Tombstones) {
    forall k :: k in tombstones ==> tombstones[k].message.None?
  }

  function Init(start: int, tombstones: Tombstones): State {
    State({}, [], tombstones, Clock(start, 0), map[], 0, 0, [], {}, {}, [])
  }

  function Keep(messages: seq<Message>, p: Message -> bool): (kept: seq<Message>)
    ensures forall i :: 0 <= i < |kept| ==> kept[i] in messages && p(kept[i])
    ensures forall message :: message in messages && p(message) ==> message in kept
  {
    if messages == [] then []
    else (if p(messages[0]) then [messages[0]] else []) + Keep(messages[1..], p)
  }

  /** The first message of the inbox with that message id, if it has one. */
  function FindMessageId(messages: seq<Message>, inbox: string, messageId: string): (id: Option<nat>)
    ensures id.None? <==>
            forall i :: 0 <= i < |messages| ==> messages[i].inbox != inbox || messages[i].messageId != messageId
    ensures id.Some? ==>
              exists i :: 0 <= i < |messages| && messages[i].id == id.value
                          && messages[i].inbox == inbox && messages[i].messageId == messageId
  {
    if messages == [] then None
    else if messages[0].inbox == inbox && messages[0].messageId == messageId then Some(messages[0].id)
    else
      var rest := FindMessageId(messages[1..], inbox, messageId);
      assert forall i :: 1 <= i < |messages| ==> messages[1..][i - 1] == messages[i];
      rest
  }

  function Finish(s: State, id: nat): State {
    s.(live := s.live - {id})
  }

  function Answer(s: State, id: nat, inbox: string, message: nat): State {
    Finish(s.(duplicates := s.duplicates + [(inbox, message)]), id)
  }

  function MessageOf(s: State, d: Delivery): Message {
    Message(s.nextMessage, d.inbox, d.body, d.messageId)
  }

  function KeyOf(d: Delivery, seen: Clock): Option<ReplayKey> {
    match d.signature
    case BodyOnly => None
    case Timestamped(text) => Some(ReplayKey(SignedContent(text, d.body), Shown(seen)))
  }

  function StepCommit(s: State, id: nat, d: Delivery, seen: Clock, succeeds: bool): State {
    var msg, key := MessageOf(s, d), KeyOf(d, seen);
    var r := Outcome(s.messages, s.tombstones, msg, key, succeeds && d.inbox in s.inboxes);
    match r
    case Duplicate(message) => Answer(s, id, d.inbox, message)
    case Failed => Finish(s, id)
    case Stored =>
      Finish(s.(messages := s.messages + [msg],
             tombstones := TombstonesAfter(s.tombstones, msg, key, r),
             nextMessage := s.nextMessage + 1,
             stored := s.stored + [Record(msg.id, d.inbox, d.signature, d.body, d.verified, seen)],
             committed := s.committed + {(d.inbox, msg.id)}), id)
  }

  function Step(limits: Limits, s: State, e: Event): State {
    match e
    case CreateInbox(inbox) => s.(inboxes := s.inboxes + {inbox})
    case DeleteInbox(inbox) =>
      s.(inboxes := s.inboxes - {inbox}, messages := Keep(s.messages, (m: Message) => m.inbox != inbox))
    case DeleteMessage(id) => s.(messages := Keep(s.messages, (m: Message) => m.id != id))
    case Elapse(secs) => s.(clock := s.clock.(forward := s.clock.forward + secs))
    case SetBack(secs) =>
      if s.clock.back + secs <= limits.regress then s.(clock := s.clock.(back := s.clock.back + secs)) else s
    case Deliver(inbox, signature, body, messageId) =>
      if && inbox in s.inboxes
         && (signature.Timestamped? ==> IsTimestamp(signature.text) && InWindow(signature.text, Shown(s.clock))) then
        s.(live := s.live[s.nextDelivery := Delivery(inbox, signature, body, messageId, s.clock, Verified)],
        nextDelivery := s.nextDelivery + 1)
      else s
    case LookForMessageId(id, fault) =>
      if id in s.live && s.live[id].pc == Verified then
        var found := FindMessageId(s.messages, s.live[id].inbox, s.live[id].messageId);
        if found.Some? && !fault then Answer(s, id, s.live[id].inbox, found.value)
        else s.(live := s.live[id := s.live[id].(pc := Unseen)])
      else s
    case Refuse(id) => Finish(s, id)
    case Stamp(id) =>
      if id in s.live && s.live[id].pc == Unseen then
        s.(live := s.live[id := s.live[id].(pc := Stamped(s.clock))], readings := s.readings + {s.clock})
      else s
    case Commit(id, succeeds) =>
      if && id in s.live && s.live[id].pc.Stamped?
         && s.clock.forward - s.live[id].verified.forward <= limits.delay then
        StepCommit(s, id, s.live[id], s.live[id].pc.seen, succeeds)
      else s
    case Crash => s.(live := map[])
  }

  function Run(limits: Limits, s: State, events: seq<Event>): State
    decreases |events|
  {
    if events == [] then s
    else Step(limits, Run(limits, s, events[..|events| - 1]), events[|events| - 1])
  }
}
