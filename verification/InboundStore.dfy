/**
 Inbound deliveries: the signature check, the replay tombstones and the
 transaction that stores a message together with its tombstone.
 */
module InboundStore {
  import opened Options
  import opened Decimal
  import opened Whitespace

  const RETENTION_SECS := 86400
  const TOLERANCE_SECS := 300

  /** An inbound message row. The digest that names its raw blob is ideal, so
      the row carries the raw bytes themselves. */
  datatype Message = Message(id: nat, inbox: string, raw: string, messageId: string)

  /** The SHA-256 of a signed content, ideal as well, within one inbox. */
  datatype TombstoneKey = TombstoneKey(inbox: string, digest: string)

  /** `message` is `None` on a row an earlier version left behind. */
  datatype Tombstone = Tombstone(message: Option<nat>, seenAt: int)

  type Tombstones = map<TombstoneKey, Tombstone>

  datatype ReplayKey = ReplayKey(digest: string, seenAt: int)

  datatype InboundInsert = Stored | Duplicate(messageId: nat) | Failed

  // ── Signatures ────────────────────────────────────────────────────────────

  datatype Signature = BodyOnly | Timestamped(text: string)

  datatype Verdict = Accepted(signature: Signature, digest: string) | Rejected

  predicate IsTimestamp(text: string) {
    0 < |text| <= 12 && AllDigits(text)
  }

  function SignedContent(text: string, body: string): string {
    text + "." + body
  }

  predicate InWindow(text: string, now: int)
    requires IsTimestamp(text)
  {
    -TOLERANCE_SECS <= now - Value(text) <= TOLERANCE_SECS
  }

  /** `mac` is the HMAC under the secret of the inbox; `provided` is the hex
      signature without its prefix. A timestamp header never falls back to the
      body-only form. */
  function VerifyInboundSignature(
    mac: string -> string, requireTimestamp: bool, provided: string,
    timestamp: Option<string>, body: string, now: int
  ): Verdict
  {
    match timestamp
    case None =>
      if requireTimestamp || provided != mac(body) then Rejected else Accepted(BodyOnly, "")
    case Some(header) =>
      var text := Trim(header);
      if !IsTimestamp(text) || !InWindow(text, now) then Rejected
      else if provided != mac(SignedContent(text, body)) then Rejected
      else Accepted(Timestamped(text), SignedContent(text, body))
  }

  /** `{digits}.{body}` determines both parts: the first dot ends the digits. */
  lemma SignedContentIsInjective(text: string, body: string, text': string, body': string)
    requires AllDigits(text) && AllDigits(text')
    requires SignedContent(text, body) == SignedContent(text', body')
    ensures text == text' && body == body'
  {
    var s := SignedContent(text, body);
    assert s[|text|] == '.' && s[|text'|] == '.';
    assert forall i :: 0 <= i < |text| ==> s[i] == text[i] && IsDigit(s[i]);
    assert forall i :: 0 <= i < |text'| ==> s[i] == text'[i] && IsDigit(s[i]);
    assert |text| == |text'|;
    assert text == s[..|text|] && text' == s[..|text'|];
    assert body == s[|text| + 1..] && body' == s[|text'| + 1..];
  }

  /** With an injective HMAC one signature is accepted with a timestamp for at
      most one timestamp text and body, only inside the window around that
      timestamp, and stays refused when the timestamp is stripped. */
  lemma SignatureBindsTimestampAndBody(
    mac: string -> string, provided: string, required: bool, required': bool,
    header: Option<string>, header': Option<string>, body: string, body': string, now: int, now': int
  )
    requires forall x, y :: mac(x) == mac(y) ==> x == y
    requires VerifyInboundSignature(mac, required, provided, header, body, now).Accepted?
    requires VerifyInboundSignature(mac, required', provided, header', body', now').Accepted?
    requires header.Some?
    ensures var a := VerifyInboundSignature(mac, required, provided, header, body, now);
            var b := VerifyInboundSignature(mac, required', provided, header', body', now');
            && (header'.Some? ==>
                  && a == b && body == body'
                  && -2 * TOLERANCE_SECS <= now - now' <= 2 * TOLERANCE_SECS)
            && (header'.None? ==> !required' && body' == a.digest && body' != body)
  {
    var text := Trim(header.value);
    if header'.Some? {
      SignedContentIsInjective(text, body, Trim(header'.value), body');
    } else {
      assert |SignedContent(text, body)| > |body|;
    }
  }

  // ── Tombstones and the storing transaction ────────────────────────────────

  function Prune(tombstones: Tombstones, seenAt: int): Tombstones {
    map k | k in tombstones && tombstones[k].seenAt >= seenAt - RETENTION_SECS :: tombstones[k]
  }

  /** The message a live tombstone points at, after pruning. */
  function Blocking(tombstones: Tombstones, inbox: string, key: ReplayKey): Option<nat> {
    var pruned := Prune(tombstones, key.seenAt);
    var k := TombstoneKey(inbox, key.digest);
    if k in pruned then pruned[k].message else None
  }

  function Bury(tombstones: Tombstones, inbox: string, key: ReplayKey, id: nat): Tombstones {
    Prune(tombstones, key.seenAt)[TombstoneKey(inbox, key.digest) := Tombstone(Some(id), key.seenAt)]
  }

  function FindCopy(messages: seq<Message>, inbox: string, raw: string): (id: Option<nat>)
    ensures id.None? <==> forall i :: 0 <= i < |messages| ==> messages[i].inbox != inbox || messages[i].raw != raw
    ensures id.Some? ==>
              exists i :: 0 <= i < |messages| && messages[i].id == id.value
                          && messages[i].inbox == inbox && messages[i].raw == raw
  {
    if messages == [] then None
    else if messages[0].inbox == inbox && messages[0].raw == raw then Some(messages[0].id)
    else
      var rest := FindCopy(messages[1..], inbox, raw);
      assert forall i :: 1 <= i < |messages| ==> messages[1..][i - 1] == messages[i];
      rest
  }

  /** What the transaction answers; `Stored` and `Failed` are told apart by
      whether the row inserts and the commit succeed. */
  function Outcome(
    messages: seq<Message>, tombstones: Tombstones, msg: Message, key: Option<ReplayKey>, succeeds: bool
  ): InboundInsert
  {
    var copy := FindCopy(messages, msg.inbox, msg.raw);
    if copy.Some? then Duplicate(copy.value)
    else if key.Some? && Blocking(tombstones, msg.inbox, key.value).Some? then
      Duplicate(Blocking(tombstones, msg.inbox, key.value).value)
    else if succeeds then Stored
    else Failed
  }

  function TombstonesAfter(tombstones: Tombstones, msg: Message, key: Option<ReplayKey>, r: InboundInsert): Tombstones {
    if r == Stored && key.Some? then Bury(tombstones, msg.inbox, key.value, msg.id) else tombstones
  }

  class InboundTables {
    var inboxes: set<string>
    var messages: seq<Message>
    var tombstones: Tombstones

    constructor ()
      ensures inboxes == {} && messages == [] && tombstones == map[]
    {
      inboxes, messages, tombstones := {}, [], map[];
    }

    /** Prunes by the delivery's own clock, of every inbox, then inserts the
        tombstone or takes over one without a message. */
    method ClaimInboundTombstone(inbox: string, key: ReplayKey, id: nat) returns (earlier: Option<nat>)
      modifies this`tombstones
      ensures earlier.Some? ==>
                && TombstoneKey(inbox, key.digest) in old(tombstones)
                && old(tombstones)[TombstoneKey(inbox, key.digest)].message == earlier
                && old(tombstones)[TombstoneKey(inbox, key.digest)].seenAt >= key.seenAt - RETENTION_SECS
                && tombstones == Prune(old(tombstones), key.seenAt)
      ensures earlier.None? ==> tombstones == Bury(old(tombstones), inbox, key, id)
      ensures earlier == Blocking(old(tombstones), inbox, key)
    {
      tombstones := map k | k in tombstones && tombstones[k].seenAt >= key.seenAt - RETENTION_SECS :: tombstones[k];
      var k := TombstoneKey(inbox, key.digest);
      if k !in tombstones || tombstones[k].message.None? {
        tombstones := tombstones[k := Tombstone(Some(id), key.seenAt)];
        return None;
      }
      earlier := tombstones[k].message;
    }

    /** One transaction: a duplicate and a failure leave every table as it was,
        prunings included. `rowsFail` is a failing row insert or commit. */
    method InsertInboundMessage(msg: Message, key: Option<ReplayKey>, rowsFail: bool) returns (r: InboundInsert)
      modifies this
      ensures inboxes == old(inboxes)
      ensures r == Outcome(old(messages), old(tombstones), msg, key, !rowsFail && msg.inbox in inboxes)
      ensures r == Stored ==>
                && messages == old(messages) + [msg] && msg.inbox in inboxes
                && (forall i :: 0 <= i < |old(messages)| ==>
                                  old(messages)[i].inbox != msg.inbox || old(messages)[i].raw != msg.raw)
                && (key.Some? ==>
                      && TombstoneKey(msg.inbox, key.value.digest) in tombstones
                      && tombstones[TombstoneKey(msg.inbox, key.value.digest)]
                         == Tombstone(Some(msg.id), key.value.seenAt))
      ensures r != Stored ==> messages == old(messages) && tombstones == old(tombstones)
      ensures tombstones == TombstonesAfter(old(tombstones), msg, key, r)
    {
      var before := tombstones;
      var copy := FindCopy(messages, msg.inbox, msg.raw);
      if copy.Some? {
        return Duplicate(copy.value);
      }
      if key.Some? {
        var earlier := ClaimInboundTombstone(msg.inbox, key.value, msg.id);
        if earlier.Some? {
          tombstones := before;
          return Duplicate(earlier.value);
        }
      }
      if rowsFail || msg.inbox !in inboxes {
        tombstones := before;
        return Failed;
      }
      messages := messages + [msg];
      r := Stored;
    }
  }
}
