/**
 What inbound deduplication guarantees over every run, and the exact bound on
 handler delay and clock regress up to which a signed request is stored once.
 */
module InboundTheorems {
  import opened Options
  import opened Decimal
  import opened InboundStore
  import opened InboundProtocol

  predicate NotAfter(a: Clock, b: Clock) {
    a.forward <= b.forward && a.back <= b.back
  }

  ghost predicate ReadingsOk(limits: Limits, s: State) {
    && s.clock.back <= limits.regress
    && (forall a :: a in s.readings ==> NotAfter(a, s.clock))
    && (forall a, b :: a in s.readings && b in s.readings ==> NotAfter(a, b) || NotAfter(b, a))
  }

  predicate SignedOk(signature: Signature, verified: Clock) {
    signature.Timestamped? ==> IsTimestamp(signature.text) && InWindow(signature.text, Shown(verified))
  }

  ghost predicate DeliveryOk(s: State, d: Delivery) {
    && NotAfter(d.verified, s.clock)
    && SignedOk(d.signature, d.verified)
    && (d.pc.Stamped? ==> d.pc.seen in s.readings && NotAfter(d.verified, d.pc.seen))
  }

  ghost predicate DeliveriesOk(s: State) {
    forall id :: id in s.live ==> id < s.nextDelivery && DeliveryOk(s, s.live[id])
  }

  /** No signed request with this timestamp can be committed any more: it is
      outside the window for good, and was when the last one still on its way
      was checked. */
  predicate Dead(limits: Limits, s: State, text: string)
    requires IsTimestamp(text)
  {
    s.clock.forward > Value(text) + TOLERANCE_SECS + limits.delay + limits.regress
  }

  function TombstoneOf(r: Record): TombstoneKey
    requires r.signature.Timestamped?
  {
    TombstoneKey(r.inbox, SignedContent(r.signature.text, r.body))
  }

  ghost predicate RecordOk(limits: Limits, s: State, r: Record) {
    && SignedOk(r.signature, r.verified)
    && NotAfter(r.verified, r.seen) && r.seen in s.readings
    && (r.signature.Timestamped? ==>
          || Dead(limits, s, r.signature.text)
          || (TombstoneOf(r) in s.tombstones
              && s.tombstones[TombstoneOf(r)] == Tombstone(Some(r.id), Shown(r.seen))))
  }

  predicate SameRequest(a: Record, b: Record) {
    a.inbox == b.inbox && a.signature.Timestamped? && a.signature == b.signature && a.body == b.body
  }

  ghost predicate RecordsOk(limits: Limits, s: State) {
    forall i :: 0 <= i < |s.stored| ==> RecordOk(limits, s, s.stored[i])
  }

  ghost predicate StoredOnce(s: State) {
    forall i, j :: 0 <= i < j < |s.stored| ==> !SameRequest(s.stored[i], s.stored[j])
  }

  predicate Distinct(messages: seq<Message>) {
    forall i, j :: 0 <= i < j < |messages| ==>
                     !(messages[i].inbox == messages[j].inbox && messages[i].raw == messages[j].raw)
  }

  /** Everything that names a message names one its inbox has committed. */
  ghost predicate NamesOk(s: State) {
    && Distinct(s.messages)
    && (forall i :: 0 <= i < |s.messages| ==> (s.messages[i].inbox, s.messages[i].id) in s.committed)
    && (forall k :: k in s.tombstones && s.tombstones[k].message.Some? ==>
                      (k.inbox, s.tombstones[k].message.value) in s.committed)
    && (forall i :: 0 <= i < |s.duplicates| ==> s.duplicates[i] in s.committed)
  }

  ghost predicate Inv(limits: Limits, s: State) {
    && ReadingsOk(limits, s) && DeliveriesOk(s) && NamesOk(s)
    && RecordsOk(limits, s) && StoredOnce(s)
  }

  /** The bound: the retention covers both sides of the window, the longest
      delay and the largest set-back. */
  predicate Covered(limits: Limits) {
    2 * TOLERANCE_SECS + limits.delay + limits.regress <= RETENTION_SECS
  }

  // ── Every step keeps the invariant ────────────────────────────────────────

  /** A tombstone is only pruned once its request is dead. */
  lemma PrunedOnlyWhenDead(limits: Limits, s: State, r: Record, seen: Clock)
    requires Covered(limits) && ReadingsOk(limits, s) && seen in s.readings
    requires r.signature.Timestamped? && SignedOk(r.signature, r.verified)
    requires NotAfter(r.verified, r.seen) && r.seen in s.readings
    requires Shown(r.seen) < Shown(seen) - RETENTION_SECS
    ensures Dead(limits, s, r.signature.text)
  {
    assert NotAfter(r.seen, seen) || NotAfter(seen, r.seen);
  }

  /** A dead request is never committed again. */
  lemma DeadIsRefused(limits: Limits, s: State, d: Delivery)
    requires ReadingsOk(limits, s) && DeliveryOk(s, d) && d.signature.Timestamped?
    requires s.clock.forward - d.verified.forward <= limits.delay
    ensures !Dead(limits, s, d.signature.text)
  {
  }

  lemma {:induction false} KeepDistinct(messages: seq<Message>, p: Message -> bool)
    requires Distinct(messages)
    ensures Distinct(Keep(messages, p))
  {
    if messages != [] {
      var rest := Keep(messages[1..], p);
      KeepDistinct(messages[1..], p);
      forall j | 0 <= j < |rest|
        ensures !(messages[0].inbox == rest[j].inbox && messages[0].raw == rest[j].raw)
      {
        var k :| 0 <= k < |messages[1..]| && messages[1..][k] == rest[j];
        assert messages[k + 1] == rest[j];
      }
    }
  }

  /** What a step that stores nothing must leave in place. */
  ghost predicate Calm(s: State, t: State) {
    && t.stored == s.stored && t.tombstones == s.tombstones && t.committed == s.committed
    && NotAfter(s.clock, t.clock) && s.readings <= t.readings
  }

  lemma RecordsSurvive(limits: Limits, s: State, t: State)
    requires RecordsOk(limits, s) && StoredOnce(s) && Calm(s, t)
    ensures RecordsOk(limits, t) && StoredOnce(t)
  {
    forall i | 0 <= i < |t.stored| ensures RecordOk(limits, t, t.stored[i]) {
      assert RecordOk(limits, s, s.stored[i]);
    }
  }

  /** Where the tombstone of an earlier record ends up at a commit. */
  lemma TombstoneSurvives(limits: Limits, s: State, r: Record, d: Delivery, seen: Clock, t: State)
    requires Covered(limits) && ReadingsOk(limits, s) && RecordOk(limits, s, r)
    requires DeliveryOk(s, d) && d.pc == Stamped(seen)
    requires t.clock == s.clock && t.readings == s.readings
    requires KeyOf(d, seen).None? ==> t.tombstones == s.tombstones
    requires KeyOf(d, seen).Some? ==>
               && Blocking(s.tombstones, d.inbox, KeyOf(d, seen).value).None?
               && t.tombstones == Bury(s.tombstones, d.inbox, KeyOf(d, seen).value, s.nextMessage)
    ensures RecordOk(limits, t, r)
  {
    if r.signature.Timestamped? && !Dead(limits, s, r.signature.text) && KeyOf(d, seen).Some? {
      if Shown(r.seen) < Shown(seen) - RETENTION_SECS {
        PrunedOnlyWhenDead(limits, s, r, seen);
      }
    }
  }

  /** The commit of a request that is already stored answers a duplicate. */
  lemma CommittedIsNew(limits: Limits, s: State, r: Record, d: Delivery, seen: Clock)
    requires Covered(limits) && ReadingsOk(limits, s) && RecordOk(limits, s, r)
    requires DeliveryOk(s, d) && d.pc == Stamped(seen)
    requires s.clock.forward - d.verified.forward <= limits.delay
    requires d.signature.Timestamped? ==> Blocking(s.tombstones, d.inbox, KeyOf(d, seen).value).None?
    ensures !SameRequest(r, Record(s.nextMessage, d.inbox, d.signature, d.body, d.verified, seen))
  {
    if r.inbox == d.inbox && r.signature.Timestamped? && r.signature == d.signature && r.body == d.body {
      DeadIsRefused(limits, s, d);
      if Shown(r.seen) < Shown(seen) - RETENTION_SECS {
        PrunedOnlyWhenDead(limits, s, r, seen);
      }
    }
  }

  lemma StoreKeepsRecords(limits: Limits, s: State, id: nat, d: Delivery, seen: Clock, t: State)
    requires Covered(limits) && Inv(limits, s)
    requires id in s.live && s.live[id] == d && d.pc == Stamped(seen)
    requires s.clock.forward - d.verified.forward <= limits.delay
    requires t == StepCommit(s, id, d, seen, true)
    requires Outcome(s.messages, s.tombstones, MessageOf(s, d), KeyOf(d, seen), d.inbox in s.inboxes) == Stored
    ensures RecordsOk(limits, t) && StoredOnce(t)
  {
    forall i | 0 <= i < |s.stored|
      ensures RecordOk(limits, t, s.stored[i]) && !SameRequest(s.stored[i], t.stored[|s.stored|])
    {
      TombstoneSurvives(limits, s, s.stored[i], d, seen, t);
      CommittedIsNew(limits, s, s.stored[i], d, seen);
    }
    assert RecordOk(limits, t, t.stored[|s.stored|]);
  }

  lemma StoreKeepsNames(s: State, id: nat, d: Delivery, seen: Clock, succeeds: bool)
    requires NamesOk(s)
    ensures NamesOk(StepCommit(s, id, d, seen, succeeds))
  {
  }

  lemma CommitKeeps(limits: Limits, s: State, id: nat, d: Delivery, seen: Clock, succeeds: bool)
    requires Covered(limits) && Inv(limits, s)
    requires id in s.live && s.live[id] == d && d.pc == Stamped(seen)
    requires s.clock.forward - d.verified.forward <= limits.delay
    ensures Inv(limits, StepCommit(s, id, d, seen, succeeds))
  {
    var t := StepCommit(s, id, d, seen, succeeds);
    StoreKeepsNames(s, id, d, seen, succeeds);
    if Outcome(s.messages, s.tombstones, MessageOf(s, d), KeyOf(d, seen), succeeds && d.inbox in s.inboxes) == Stored {
      StoreKeepsRecords(limits, s, id, d, seen, t);
    } else {
      RecordsSurvive(limits, s, t);
    }
    assert ReadingsOk(limits, t) && DeliveriesOk(t);
  }

  /** The names part needs no bound on clocks or delays. */
  lemma NamesKeep(limits: Limits, s: State, e: Event)
    requires NamesOk(s)
    ensures NamesOk(Step(limits, s, e))
  {
    match e
    case Commit(id, succeeds) =>
      if Step(limits, s, e) != s {
        StoreKeepsNames(s, id, s.live[id], s.live[id].pc.seen, succeeds);
      }
    case DeleteInbox(inbox) => KeepDistinct(s.messages, (m: Message) => m.inbox != inbox);
    case DeleteMessage(id) => KeepDistinct(s.messages, (m: Message) => m.id != id);
    case _ =>
  }

  lemma CalmStepKeeps(limits: Limits, s: State, e: Event)
    requires ReadingsOk(limits, s) && DeliveriesOk(s) && RecordsOk(limits, s) && StoredOnce(s) && !e.Commit?
    ensures var t := Step(limits, s, e);
            ReadingsOk(limits, t) && DeliveriesOk(t) && RecordsOk(limits, t) && StoredOnce(t)
  {
    RecordsSurvive(limits, s, Step(limits, s, e));
  }

  lemma StepKeeps(limits: Limits, s: State, e: Event)
    requires Covered(limits) && Inv(limits, s)
    ensures Inv(limits, Step(limits, s, e))
  {
    if e.Commit? {
      if Step(limits, s, e) != s {
        CommitKeeps(limits, s, e.delivery, s.live[e.delivery], s.live[e.delivery].pc.seen, e.succeeds);
      }
    } else {
      NamesKeep(limits, s, e);
      CalmStepKeeps(limits, s, e);
    }
  }

  lemma {:induction false} RunKeeps(limits: Limits, start: int, tombstones: Tombstones, events: seq<Event>)
    requires Covered(limits) && InitialTombstones(tombstones)
    ensures Inv(limits, Run(limits, Init(start, tombstones), events))
    decreases |events|
  {
    if events != [] {
      RunKeeps(limits, start, tombstones, events[..|events| - 1]);
      StepKeeps(limits, Run(limits, Init(start, tombstones), events[..|events| - 1]), events[|events| - 1]);
    }
  }

  // ── The guarantees ────────────────────────────────────────────────────────

  /** In every reachable state an inbox holds at most one message with given
      raw bytes, and every id answered as a duplicate names a message the same
      inbox committed earlier. */
  lemma {:induction false} InboundIsLinearized(
    limits: Limits, start: int, tombstones: Tombstones, events: seq<Event>
  )
    requires InitialTombstones(tombstones)
    ensures NamesOk(Run(limits, Init(start, tombstones), events))
    decreases |events|
  {
    if events != [] {
      InboundIsLinearized(limits, start, tombstones, events[..|events| - 1]);
      NamesKeep(limits, Run(limits, Init(start, tombstones), events[..|events| - 1]), events[|events| - 1]);
    }
  }

  /** A commit stores the message and its tombstone together or changes no
      table; every other step, a crash included, writes neither. */
  lemma MessageAndTombstoneCommitTogether(limits: Limits, s: State, e: Event)
    ensures var t := Step(limits, s, e);
            || (t.tombstones == s.tombstones && t.stored == s.stored
                && (forall i :: 0 <= i < |t.messages| ==> t.messages[i] in s.messages))
            || (&& e.Commit? && e.succeeds && e.delivery in s.live
                && t.stored == s.stored + [t.stored[|s.stored|]]
                && var r := t.stored[|s.stored|];
                && t.messages == s.messages + [Message(r.id, r.inbox, r.body, s.live[e.delivery].messageId)]
                && (r.signature.Timestamped? ==>
                      && TombstoneOf(r) in t.tombstones
                      && t.tombstones[TombstoneOf(r)] == Tombstone(Some(r.id), Shown(r.seen))))
  {
  }

  /** A tombstone changes only when a delivery of exactly its signed content is
      stored, and then the old one named no message or had expired. */
  lemma TombstoneIsTakenOverOnce(limits: Limits, s: State, e: Event, k: TombstoneKey)
    requires k in s.tombstones && k in Step(limits, s, e).tombstones
    requires Step(limits, s, e).tombstones[k] != s.tombstones[k]
    ensures var t := Step(limits, s, e);
            && e.Commit? && |t.stored| == |s.stored| + 1
            && var r := t.stored[|s.stored|];
            && r.signature.Timestamped? && TombstoneOf(r) == k
            && t.tombstones[k] == Tombstone(Some(r.id), Shown(r.seen))
            && (s.tombstones[k].message.None? || s.tombstones[k].seenAt < Shown(r.seen) - RETENTION_SECS)
  {
  }

  /** Record `r` is the one tombstone `t` at key `k` stands for. */
  predicate StandsFor(r: Record, k: TombstoneKey, t: Tombstone) {
    r.signature.Timestamped? && TombstoneOf(r) == k && t == Tombstone(Some(r.id), Shown(r.seen))
  }

  ghost predicate IsFounded(s: State, k: TombstoneKey) {
    k in s.tombstones && s.tombstones[k].message.Some? ==>
      exists i :: 0 <= i < |s.stored| && StandsFor(s.stored[i], k, s.tombstones[k])
  }

  /** A new tombstone is that of the delivery stored in the same step. */
  lemma TombstoneStartsWithItsRecord(limits: Limits, s: State, e: Event, k: TombstoneKey)
    requires k !in s.tombstones && k in Step(limits, s, e).tombstones
    ensures var t := Step(limits, s, e);
            |t.stored| == |s.stored| + 1 && StandsFor(t.stored[|s.stored|], k, t.tombstones[k])
  {
  }

  lemma StepKeepsFounded(limits: Limits, s: State, e: Event, k: TombstoneKey)
    requires IsFounded(s, k)
    ensures IsFounded(Step(limits, s, e), k)
  {
    var t := Step(limits, s, e);
    if k in t.tombstones && t.tombstones[k].message.Some? {
      if k !in s.tombstones {
        TombstoneStartsWithItsRecord(limits, s, e, k);
      } else if t.tombstones[k] != s.tombstones[k] {
        TombstoneIsTakenOverOnce(limits, s, e, k);
        assert StandsFor(t.stored[|s.stored|], k, t.tombstones[k]);
      } else {
        MessageAndTombstoneCommitTogether(limits, s, e);
        var i :| 0 <= i < |s.stored| && StandsFor(s.stored[i], k, s.tombstones[k]);
        assert StandsFor(t.stored[i], k, t.tombstones[k]);
      }
    }
  }

  /** In every run a tombstone that names a message names one that was stored for
      exactly its inbox and signed content, with the reading it was stamped with. */
  lemma {:induction false} TombstonesAreFounded(
    limits: Limits, start: int, tombstones: Tombstones, events: seq<Event>, k: TombstoneKey
  )
    requires InitialTombstones(tombstones)
    ensures IsFounded(Run(limits, Init(start, tombstones), events), k)
    decreases |events|
  {
    if events != [] {
      var front := events[..|events| - 1];
      TombstonesAreFounded(limits, start, tombstones, front, k);
      StepKeepsFounded(limits, Run(limits, Init(start, tombstones), front), events[|events| - 1], k);
    }
  }

  /** Under the bound, in every run: a stored signed request that can still come
      again is found under its own tombstone, which names its message and no other. */
  lemma TombstoneNamesItsRequest(
    limits: Limits, start: int, tombstones: Tombstones, events: seq<Event>, i: nat
  )
    requires Covered(limits) && InitialTombstones(tombstones)
    requires i < |Run(limits, Init(start, tombstones), events).stored|
    requires var t := Run(limits, Init(start, tombstones), events);
             t.stored[i].signature.Timestamped? && IsTimestamp(t.stored[i].signature.text)
             && !Dead(limits, t, t.stored[i].signature.text)
    ensures var t := Run(limits, Init(start, tombstones), events);
            && TombstoneOf(t.stored[i]) in t.tombstones
            && (forall j :: 0 <= j < |t.stored| ==>
                              (StandsFor(t.stored[j], TombstoneOf(t.stored[i]), t.tombstones[TombstoneOf(t.stored[i])])
                               <==> j == i))
  {
    var t := Run(limits, Init(start, tombstones), events);
    RunKeeps(limits, start, tombstones, events);
    var r := t.stored[i];
    assert RecordOk(limits, t, r);
    forall j | 0 <= j < |t.stored| && StandsFor(t.stored[j], TombstoneOf(r), t.tombstones[TombstoneOf(r)])
      ensures j == i
    {
      assert RecordOk(limits, t, t.stored[j]);
      SignedContentIsInjective(r.signature.text, r.body, t.stored[j].signature.text, t.stored[j].body);
      assert SameRequest(r, t.stored[j]) && SameRequest(t.stored[j], r);
    }
  }

  predicate IsOf(r: Record, k: TombstoneKey) {
    r.signature.Timestamped? && TombstoneOf(r) == k
  }

  /** Under the bound at most one stored delivery ever has a given tombstone key. */
  lemma OneRecordOfAKey(limits: Limits, s: State, k: TombstoneKey, i: nat, j: nat)
    requires Inv(limits, s) && i < |s.stored| && j < |s.stored| && IsOf(s.stored[i], k) && IsOf(s.stored[j], k)
    ensures i == j
  {
    var a, b := s.stored[i], s.stored[j];
    assert RecordOk(limits, s, a) && RecordOk(limits, s, b);
    SignedContentIsInjective(a.signature.text, a.body, b.signature.text, b.body);
    assert SameRequest(a, b) && SameRequest(b, a);
  }

  lemma {:induction false} StoredOnlyGrows(limits: Limits, s: State, later: seq<Event>)
    ensures s.stored <= Run(limits, s, later).stored
    decreases |later|
  {
    if later != [] {
      var front := later[..|later| - 1];
      StoredOnlyGrows(limits, s, front);
      MessageAndTombstoneCommitTogether(limits, Run(limits, s, front), later[|later| - 1]);
    }
  }

  ghost predicate LeftEmpty(s: State, k: TombstoneKey) {
    k in s.tombstones && s.tombstones[k].message.None?
  }

  /** A tombstone without a message is one from the start that nobody took over. */
  lemma {:induction false} EmptyTombstonesAreOld(limits: Limits, s: State, later: seq<Event>, k: TombstoneKey)
    requires LeftEmpty(Run(limits, s, later), k)
    ensures LeftEmpty(s, k)
    decreases |later|
  {
    if later != [] {
      var front, e := Run(limits, s, later[..|later| - 1]), later[|later| - 1];
      if k !in front.tombstones {
        TombstoneStartsWithItsRecord(limits, front, e, k);
      } else if Step(limits, front, e).tombstones[k] != front.tombstones[k] {
        TombstoneIsTakenOverOnce(limits, front, e, k);
      }
      EmptyTombstonesAreOld(limits, s, later[..|later| - 1], k);
    }
  }

  /** Over every run under the bound a tombstone is taken over by one delivery at most,
      whether it was empty, was left without a message by an earlier version, or was
      pruned meanwhile; and once it names a message it never changes while it lasts. */
  lemma TombstoneIsTakenOverByOneDelivery(
    limits: Limits, start: int, tombstones: Tombstones, events: seq<Event>, later: seq<Event>, k: TombstoneKey
  )
    requires Covered(limits) && InitialTombstones(tombstones)
    ensures var s := Run(limits, Init(start, tombstones), events);
            var t := Run(limits, Init(start, tombstones), events + later);
            && s.stored <= t.stored
            && (forall i, j :: 0 <= i < j < |t.stored| ==> !(IsOf(t.stored[i], k) && IsOf(t.stored[j], k)))
            && (k in s.tombstones && s.tombstones[k].message.Some? && k in t.tombstones ==>
                  t.tombstones[k] == s.tombstones[k])
  {
    var s := Run(limits, Init(start, tombstones), events);
    var t := Run(limits, Init(start, tombstones), events + later);
    RunAppend(limits, Init(start, tombstones), events, later);
    StoredOnlyGrows(limits, s, later);
    RunKeeps(limits, start, tombstones, events + later);
    forall i, j | 0 <= i < j < |t.stored| && IsOf(t.stored[i], k) && IsOf(t.stored[j], k) ensures false {
      OneRecordOfAKey(limits, t, k, i, j);
    }
    TombstonesAreFounded(limits, start, tombstones, events, k);
    TombstonesAreFounded(limits, start, tombstones, events + later, k);
    if k in s.tombstones && s.tombstones[k].message.Some? && k in t.tombstones {
      if LeftEmpty(t, k) { EmptyTombstonesAreOld(limits, s, later, k); }
      var i :| 0 <= i < |s.stored| && StandsFor(s.stored[i], k, s.tombstones[k]);
      var j :| 0 <= j < |t.stored| && StandsFor(t.stored[j], k, t.tombstones[k]);
      assert t.stored[i] == s.stored[i];
      OneRecordOfAKey(limits, t, k, i, j);
    }
  }

  // ── The bound is exact ────────────────────────────────────────────────────

  function ClockAfter(c: Clock, e: Event): Clock {
    match e
    case Elapse(secs) => c.(forward := c.forward + secs)
    case SetBack(secs) => c.(back := c.back + secs)
    case _ => c
  }

  /** One delivery from its check to its commit, with one clock event between
      the two readings. */
  function DeliveryRun(id: nat, text: string, e: Event): seq<Event> {
    [Deliver("in", Timestamped(text), "mail", "m"), LookForMessageId(id, true), e, Stamp(id), Commit(id, true)]
  }

  ghost predicate Idle(s: State) {
    s.messages == [] && s.inboxes == {"in"}
  }

  lemma Snoc(limits: Limits, s: State, events: seq<Event>, e: Event)
    ensures Run(limits, s, events + [e]) == Step(limits, Run(limits, s, events), e)
  {
    assert (events + [e])[..|events + [e]| - 1] == events;
  }

  lemma RunOfFive(limits: Limits, s: State, a: Event, b: Event, c: Event, d: Event, e: Event)
    ensures Run(limits, s, [a, b, c, d, e])
         == Step(limits, Step(limits, Step(limits, Step(limits, Step(limits, s, a), b), c), d), e)
  {
    Snoc(limits, s, [], a);
    Snoc(limits, s, [a], b);
    Snoc(limits, s, [a, b], c);
    Snoc(limits, s, [a, b, c], d);
    Snoc(limits, s, [a, b, c, d], e);
    assert [] + [a] == [a] && [a] + [b] == [a, b] && [a, b] + [c] == [a, b, c];
    assert [a, b, c] + [d] == [a, b, c, d] && [a, b, c, d] + [e] == [a, b, c, d, e];
  }

  lemma {:induction false} RunAppend(limits: Limits, s: State, first: seq<Event>, rest: seq<Event>)
    ensures Run(limits, s, first + rest) == Run(limits, Run(limits, s, first), rest)
    decreases |rest|
  {
    if rest == [] {
      assert first + rest == first;
    } else {
      RunAppend(limits, s, first, rest[..|rest| - 1]);
      assert (first + rest)[..|first + rest| - 1] == first + rest[..|rest| - 1];
    }
  }

  lemma DeliveryRunStores(limits: Limits, s: State, text: string, e: Event)
    requires Idle(s) && IsTimestamp(text) && InWindow(text, Shown(s.clock))
    requires (e.Elapse? && e.secs <= limits.delay) || (e.SetBack? && s.clock.back + e.secs <= limits.regress)
    requires Blocking(s.tombstones, "in", ReplayKey(SignedContent(text, "mail"), Shown(ClockAfter(s.clock, e)))).None?
    ensures var t := Run(limits, s, DeliveryRun(s.nextDelivery, text, e));
            && t.inboxes == s.inboxes && t.clock == ClockAfter(s.clock, e) && t.nextDelivery == s.nextDelivery + 1
            && t.messages == [Message(s.nextMessage, "in", "mail", "m")] && t.nextMessage == s.nextMessage + 1
            && t.tombstones
               == Bury(s.tombstones, "in", ReplayKey(SignedContent(text, "mail"), Shown(t.clock)), s.nextMessage)
            && t.stored == s.stored + [Record(s.nextMessage, "in", Timestamped(text), "mail", s.clock, t.clock)]
  {
    var id := s.nextDelivery;
    var a, b := Deliver("in", Timestamped(text), "mail", "m"), LookForMessageId(id, true);
    RunOfFive(limits, s, a, b, e, Stamp(id), Commit(id, true));
    var s1 := Step(limits, s, a);
    assert id in s1.live && s1.live[id] == Delivery("in", Timestamped(text), "mail", "m", s.clock, Verified);
    var s2 := Step(limits, s1, b);
    assert id in s2.live && s2.live[id] == Delivery("in", Timestamped(text), "mail", "m", s.clock, Unseen);
    var s4 := Step(limits, Step(limits, s2, e), Stamp(id));
    assert s4.clock == ClockAfter(s.clock, e);
    assert id in s4.live && s4.live[id] == Delivery("in", Timestamped(text), "mail", "m", s.clock, Stamped(s4.clock));
  }

  /** The two deliveries of one signed request that the tombstone misses when
      the bound is exceeded: checked five minutes early and stamped after the
      whole set-back; then, the message deleted, checked five minutes late and
      stamped after the whole delay. */
  function Replayed(limits: Limits): seq<Event> {
    [CreateInbox("in")] + DeliveryRun(0, "1000", SetBack(limits.regress))
    + [DeleteMessage(0), Elapse(2 * TOLERANCE_SECS + limits.regress)]
    + DeliveryRun(1, "1000", Elapse(limits.delay))
  }

  lemma TheThousand()
    ensures IsTimestamp("1000") && Value("1000") == 1000
  {
    var s := "1000";
    assert s[..3] == "100" && "100"[..2] == "10" && "10"[..1] == "1" && "1"[..0] == "";
    assert Value("1") == 1;
    assert Value("10") == 10;
    assert Value("100") == 100;
  }

  lemma RunOfTwo(limits: Limits, s: State, a: Event, b: Event)
    ensures Run(limits, s, [a, b]) == Step(limits, Step(limits, s, a), b)
  {
    Snoc(limits, s, [], a);
    Snoc(limits, s, [a], b);
    assert [] + [a] == [a] && [a] + [b] == [a, b];
  }

  lemma BetweenDeliveries(limits: Limits, s: State, secs: nat)
    requires |s.messages| == 1 && s.messages[0].id == 0
    ensures var t := Run(limits, s, [DeleteMessage(0), Elapse(secs)]);
            t == s.(messages := [], clock := Clock(s.clock.forward + secs, s.clock.back))
  {
    RunOfTwo(limits, s, DeleteMessage(0), Elapse(secs));
    assert s.messages[1..] == [];
    assert Keep(s.messages, (m: Message) => m.id != 0) == [];
  }

  lemma FirstDelivery(limits: Limits, events: seq<Event>)
    requires events == [CreateInbox("in")] + DeliveryRun(0, "1000", SetBack(limits.regress))
    ensures var s := Run(limits, Init(700, map[]), events);
            && s.inboxes == {"in"} && s.clock == Clock(700, limits.regress)
            && |s.messages| == 1 && s.messages[0].id == 0 && s.nextDelivery == 1
            && s.tombstones == Bury(map[], "in", ReplayKey(SignedContent("1000", "mail"), 700 - limits.regress), 0)
            && s.stored == [Record(0, "in", Timestamped("1000"), "mail", Clock(700, 0), s.clock)]
  {
    TheThousand();
    var s0 := Init(700, map[]);
    var create := [CreateInbox("in")];
    Snoc(limits, s0, [], create[0]);
    assert [] + create == create;
    var s1 := Run(limits, s0, create);
    assert Idle(s1) && s1.tombstones == map[] && s1.stored == [];
    DeliveryRunStores(limits, s1, "1000", SetBack(limits.regress));
    RunAppend(limits, s0, create, DeliveryRun(0, "1000", SetBack(limits.regress)));
  }

  /** By the stamp of the second delivery the tombstone of the first is older
      than the retention. */
  lemma SecondDelivery(limits: Limits, s: State)
    requires !Covered(limits) && Idle(s) && s.nextDelivery == 1
    requires s.clock == Clock(1300 + limits.regress, limits.regress)
    requires s.tombstones == Bury(map[], "in", ReplayKey(SignedContent("1000", "mail"), 700 - limits.regress), 0)
    requires s.stored == [Record(0, "in", Timestamped("1000"), "mail", Clock(700, 0), Clock(700, limits.regress))]
    ensures !StoredOnce(Run(limits, s, DeliveryRun(1, "1000", Elapse(limits.delay))))
  {
    TheThousand();
    DeliveryRunStores(limits, s, "1000", Elapse(limits.delay));
    var t := Run(limits, s, DeliveryRun(1, "1000", Elapse(limits.delay)));
    assert SameRequest(t.stored[0], t.stored[1]);
  }

  lemma BeyondTheBoundStoresTwice(limits: Limits)
    requires !Covered(limits)
    ensures !StoredOnce(Run(limits, Init(700, map[]), Replayed(limits)))
  {
    var s0, secs := Init(700, map[]), 2 * TOLERANCE_SECS + limits.regress;
    var part2 := [CreateInbox("in")] + DeliveryRun(0, "1000", SetBack(limits.regress));
    var part3 := part2 + [DeleteMessage(0), Elapse(secs)];
    FirstDelivery(limits, part2);
    var s2 := Run(limits, s0, part2);
    RunAppend(limits, s0, part2, [DeleteMessage(0), Elapse(secs)]);
    BetweenDeliveries(limits, s2, secs);
    SecondDelivery(limits, Run(limits, s0, part3));
    RunAppend(limits, s0, part3, DeliveryRun(1, "1000", Elapse(limits.delay)));
  }

  /** One signed `{timestamp}.{body}` is stored at most once per inbox in every
      run, even after its message is deleted, if and only if the retention
      covers twice the window, the handler delay and the clock regress. */
  lemma SignedRequestIsStoredOnceIff(limits: Limits)
    ensures (forall start, tombstones, events :: InitialTombstones(tombstones) ==>
                                                   StoredOnce(Run(limits, Init(start, tombstones), events)))
       <==> 2 * TOLERANCE_SECS + limits.delay + limits.regress <= RETENTION_SECS
  {
    if Covered(limits) {
      forall start, tombstones, events | InitialTombstones(tombstones)
        ensures StoredOnce(Run(limits, Init(start, tombstones), events))
      {
        RunKeeps(limits, start, tombstones, events);
      }
    } else {
      BeyondTheBoundStoresTwice(limits);
      assert InitialTombstones(map[]);
    }
  }
}
