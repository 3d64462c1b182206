/**
 What a delivery is told and what it leaves behind: it is a duplicate exactly when the
 inbox has its message id, its bytes or its live tombstone, and is stored otherwise.
 */
module InboundAnswers {
  import opened Options
  import opened Decimal
  import opened InboundStore
  import opened InboundProtocol
  import opened InboundTheorems
  import opened Whitespace

  // ── Signatures ────────────────────────────────────────────────────────────

  lemma DigitsAreNoSpace(text: string)
    requires AllDigits(text) && text != ""
    ensures !IsSpace(text[0]) && !IsSpace(text[|text| - 1])
  {
    assert IsDigit(text[0]) && IsDigit(text[|text| - 1]);
  }

  /** A sender that signs timestamp and body is accepted up to five minutes off, white
      space around the timestamp or not, whatever the inbox requires; one that signs the
      body alone exactly where no timestamp is required. */
  lemma CorrectSignatureIsAccepted(
    mac: string -> string, required: bool, text: string, before: string, after: string, body: string, now: int
  )
    requires AllDigits(text) && 0 < |text| <= 12 && Blank(before) && Blank(after)
    requires -300 <= now - Value(text) <= 300
    ensures VerifyInboundSignature(mac, required, mac(text + "." + body), Some(before + text + after), body, now)
         == Accepted(Timestamped(text), text + "." + body)
    ensures VerifyInboundSignature(mac, required, mac(body), None, body, now)
         == if required then Rejected else Accepted(BodyOnly, "")
  {
    DigitsAreNoSpace(text);
    TrimGivesTheCore(before, text, after);
  }

  /** Nothing else is accepted: a timestamp header must be one to twelve digits, within five
      minutes, and signed together with the body; without the header the body must be
      signed where no timestamp is required. */
  lemma OtherSignaturesAreRefused(
    mac: string -> string, required: bool, provided: string, header: Option<string>, body: string, now: int
  )
    requires VerifyInboundSignature(mac, required, provided, header, body, now).Accepted?
    ensures header.None? ==> !required && provided == mac(body)
    ensures header.Some? ==>
              var text := Trim(header.value);
              && 0 < |text| <= 12 && AllDigits(text) && -300 <= now - Value(text) <= 300
              && provided == mac(text + "." + body)
  {
  }

  // ── Answers ───────────────────────────────────────────────────────────────

  /** A message of the inbox with that message id. */
  ghost predicate HasMessageId(s: State, inbox: string, messageId: string) {
    exists i :: 0 <= i < |s.messages| && s.messages[i].inbox == inbox && s.messages[i].messageId == messageId
  }

  ghost predicate HasBytes(s: State, inbox: string, raw: string) {
    exists i :: 0 <= i < |s.messages| && s.messages[i].inbox == inbox && s.messages[i].raw == raw
  }

  /** A message of that id and inbox, with that message id. */
  ghost predicate Names(s: State, inbox: string, messageId: string, id: nat) {
    exists i :: 0 <= i < |s.messages| && s.messages[i].id == id
                && s.messages[i].inbox == inbox && s.messages[i].messageId == messageId
  }

  /** A delivery that asks for its message id without a fault is answered as a duplicate
      there and then, of a message with that id in its inbox, if and only if its inbox
      has one; otherwise it goes on, and with a fault it always does. */
  lemma KnownMessageIdIsADuplicateIff(limits: Limits, s: State, id: nat, fault: bool)
    requires id in s.live && s.live[id].pc == Verified
    ensures var d, t := s.live[id], Step(limits, s, LookForMessageId(id, fault));
            && t.messages == s.messages && t.tombstones == s.tombstones && t.stored == s.stored
            && (HasMessageId(s, d.inbox, d.messageId) && !fault ==>
                  && id !in t.live && |t.duplicates| == |s.duplicates| + 1
                  && t.duplicates[|s.duplicates|].0 == d.inbox
                  && Names(s, d.inbox, d.messageId, t.duplicates[|s.duplicates|].1))
            && (!HasMessageId(s, d.inbox, d.messageId) || fault ==>
                  t.duplicates == s.duplicates && id in t.live && t.live[id] == d.(pc := Unseen))
  {
    var d := s.live[id];
    var found := FindMessageId(s.messages, d.inbox, d.messageId);
    assert found.Some? <==> HasMessageId(s, d.inbox, d.messageId);
  }

  /** The tombstone of the delivery's signed content names a message and has not expired
      by the delivery's own reading. */
  predicate IsReplay(s: State, d: Delivery, seen: Clock) {
    d.signature.Timestamped? &&
    var k := TombstoneKey(d.inbox, d.signature.text + "." + d.body);
    k in s.tombstones && s.tombstones[k].message.Some? && s.tombstones[k].seenAt >= Shown(seen) - 86400
  }

  ghost predicate CommitsInTime(limits: Limits, s: State, id: nat) {
    id in s.live && s.live[id].pc.Stamped? && s.clock.forward - s.live[id].verified.forward <= limits.delay
  }

  /** What a commit that succeeds does, for body-only and timestamped signatures: a
      delivery is stored, once, with its bytes and message id, if and only if its inbox is
      there and has no message with its bytes and it is no replay. */
  lemma DeliveryIsStoredIff(limits: Limits, s: State, id: nat)
    requires CommitsInTime(limits, s, id)
    ensures var d, t := s.live[id], Step(limits, s, Commit(id, true));
            var seen := d.pc.seen;
            var isNew := d.inbox in s.inboxes && !HasBytes(s, d.inbox, d.body) && !IsReplay(s, d, seen);
            && id !in t.live
            && (isNew ==>
                  && t.messages == s.messages + [Message(s.nextMessage, d.inbox, d.body, d.messageId)]
                  && t.stored == s.stored + [Record(s.nextMessage, d.inbox, d.signature, d.body, d.verified, seen)]
                  && t.duplicates == s.duplicates)
            && (!isNew ==> t.messages == s.messages && t.tombstones == s.tombstones && t.stored == s.stored)
  {
    var d := s.live[id];
    var msg := MessageOf(s, d);
    var copy := FindCopy(s.messages, msg.inbox, msg.raw);
    assert copy.Some? <==> HasBytes(s, d.inbox, d.body);
    if d.signature.Timestamped? {
      var key := KeyOf(d, d.pc.seen).value;
      assert Blocking(s.tombstones, d.inbox, key).Some? <==> IsReplay(s, d, d.pc.seen);
    }
  }

  /** A commit that is not stored is told why: a copy or a replay is a duplicate of a
      message with its bytes or of the message its tombstone names, a deleted inbox is a
      failure. */
  lemma UnstoredDeliveryIsTold(limits: Limits, s: State, id: nat, succeeds: bool)
    requires CommitsInTime(limits, s, id)
    ensures var d, t := s.live[id], Step(limits, s, Commit(id, succeeds));
            var k := TombstoneKey(d.inbox, if d.signature.Timestamped? then d.signature.text + "." + d.body else "");
            && (HasBytes(s, d.inbox, d.body) ==>
                  exists i :: 0 <= i < |s.messages| && s.messages[i].inbox == d.inbox && s.messages[i].raw == d.body
                              && t.duplicates == s.duplicates + [(d.inbox, s.messages[i].id)])
            && (!HasBytes(s, d.inbox, d.body) && IsReplay(s, d, d.pc.seen) ==>
                  t.duplicates == s.duplicates + [(d.inbox, s.tombstones[k].message.value)])
            && (!HasBytes(s, d.inbox, d.body) && !IsReplay(s, d, d.pc.seen) ==> t.duplicates == s.duplicates)
  {
    var d := s.live[id];
    var msg := MessageOf(s, d);
    var copy := FindCopy(s.messages, msg.inbox, msg.raw);
    assert copy.Some? <==> HasBytes(s, d.inbox, d.body);
    if copy.Some? {
      var i :| 0 <= i < |s.messages| && s.messages[i].id == copy.value
               && s.messages[i].inbox == d.inbox && s.messages[i].raw == d.body;
      assert Step(limits, s, Commit(id, succeeds)).duplicates == s.duplicates + [(d.inbox, s.messages[i].id)];
    }
  }

  /** In any state, a delivery from its check to its commit, with nothing in between: new
      mail to an inbox, signed in either way, is stored. */
  lemma NewMailIsStored(limits: Limits, s: State, inbox: string, signature: Signature, body: string, messageId: string)
    requires inbox in s.inboxes && !HasMessageId(s, inbox, messageId) && !HasBytes(s, inbox, body)
    requires signature.Timestamped? ==> IsTimestamp(signature.text) && InWindow(signature.text, Shown(s.clock))
    requires signature.Timestamped? ==>
               TombstoneKey(inbox, signature.text + "." + body) !in s.tombstones
    ensures var id := s.nextDelivery;
            var t := Run(limits, s, [Deliver(inbox, signature, body, messageId), LookForMessageId(id, false),
                                     Stamp(id), Commit(id, true)]);
            && t.messages == s.messages + [Message(s.nextMessage, inbox, body, messageId)]
            && t.duplicates == s.duplicates
            && (signature.Timestamped? ==>
                  var k := TombstoneKey(inbox, signature.text + "." + body);
                  k in t.tombstones && t.tombstones[k] == Tombstone(Some(s.nextMessage), Shown(s.clock)))
  {
    var id := s.nextDelivery;
    var deliver, look := Deliver(inbox, signature, body, messageId), LookForMessageId(id, false);
    RunOfFour(limits, s, deliver, look, Stamp(id), Commit(id, true));
    var a := Step(limits, s, deliver);
    assert Arrived(a, id, Delivery(inbox, signature, body, messageId, s.clock, Verified)) && SameMail(s, a);
    KnownMessageIdIsADuplicateIff(limits, a, id, false);
    var b := Step(limits, a, look);
    assert Arrived(b, id, Delivery(inbox, signature, body, messageId, s.clock, Unseen)) && SameMail(s, b);
    var c := Step(limits, b, Stamp(id));
    assert Arrived(c, id, Delivery(inbox, signature, body, messageId, s.clock, Stamped(s.clock))) && SameMail(s, c);
    DeliveryIsStoredIff(limits, c, id);
    MessageAndTombstoneCommitTogether(limits, c, Commit(id, true));
  }

  /** A delivery takes its steps in turn: what is not its turn changes nothing; a refusal
      or a crash ends it and leaves every table as it was. */
  lemma DeliveriesTakeTheirTurns(limits: Limits, s: State, id: nat, flag: bool)
    requires id in s.live
    ensures s.live[id].pc != Verified ==> Step(limits, s, LookForMessageId(id, flag)) == s
    ensures s.live[id].pc != Unseen ==> Step(limits, s, Stamp(id)) == s
    ensures !s.live[id].pc.Stamped? ==> Step(limits, s, Commit(id, flag)) == s
    ensures Step(limits, s, Refuse(id)) == s.(live := s.live - {id})
    ensures Step(limits, s, Crash) == s.(live := map[])
  {
  }

  /** Deleting an inbox takes its messages with it and nothing else, deleting a message
      just that; the tombstones stay, so what was seen stays a replay. */
  lemma DeletionsTakeNothingElse(limits: Limits, s: State, inbox: string, id: nat)
    ensures var t := Step(limits, s, DeleteInbox(inbox));
            && t.inboxes == s.inboxes - {inbox} && t.tombstones == s.tombstones && t.live == s.live
            && (forall m :: m in t.messages <==> m in s.messages && m.inbox != inbox)
    ensures var t := Step(limits, s, DeleteMessage(id));
            && t.inboxes == s.inboxes && t.tombstones == s.tombstones && t.live == s.live
            && (forall m :: m in t.messages <==> m in s.messages && m.id != id)
  {
  }

  ghost predicate Arrived(s: State, id: nat, d: Delivery) {
    id in s.live && s.live[id] == d
  }

  ghost predicate SameMail(s: State, t: State) {
    && t.inboxes == s.inboxes && t.messages == s.messages && t.tombstones == s.tombstones
    && t.clock == s.clock && t.nextMessage == s.nextMessage && t.duplicates == s.duplicates
  }

  lemma RunOfFour(limits: Limits, s: State, a: Event, b: Event, c: Event, d: Event)
    ensures Run(limits, s, [a, b, c, d])
         == Step(limits, Step(limits, Step(limits, Step(limits, s, a), b), c), d)
  {
    RunOfTwo(limits, s, a, b);
    Snoc(limits, s, [a, b], c);
    Snoc(limits, s, [a, b, c], d);
    assert [a, b] + [c] == [a, b, c] && [a, b, c] + [d] == [a, b, c, d];
  }
}
