# Mail and key custody: a Dafny model

This project models the parts of the Ryu mail app and its shared crates where a
mistake loses or repeats a message, or locks a user out of sealed data, and proves
what they guarantee.

- **Outbound sending** (`SendClaims`, `Drafts`, `SendProtocol`, `SendInvariant`,
  `SendSteps`, `SendFrames`, `SendTheorems`, `SendAnswers`, `SendSettles`,
  `SendRestores`, `SendResends`, `SendExamples`). Any number of live handlers (direct
  sends, manual draft sends, scheduled sends) interleave with edits, deletions,
  cancellations and crashes on one claim table and one drafts table. Each store or
  transport call is one atomic step; `claim_send` is two, because a second connection
  may come between its read and its `INSERT OR IGNORE`. Any call may fail, and the
  transport may fail after it took the message.
- **Draft scheduler** (`Scheduler`, `SchedulerTheorems`). Listing, sorting, claiming
  and settling due drafts, poll after poll.
- **Inbound deliveries** (`InboundStore`, `InboundProtocol`, `InboundTheorems`,
  `InboundAnswers`). Signature window, replay tombstones with pruning, byte-identical
  copies, two clock readings per delivery, a clock that may be set back.
- **Blob directory** (`Blobs`, `BlobStore`, `BlobOutcomes`, `BlobTheorems`).
  Content-addressed files, message rows and the cleanup queue under rolled-back
  inserts, deletions, drains that die half way and the sweep at opening, over sessions
  with and without a key.
- **Stream and text engines** (`EventStream`, `Notify`, `Icu`, `Terms`, `Search`). The
  chunked event-stream reader, the message renderer, ICU's own reading of a message and
  where the two agree, the number grouper, the search-term tokenizer with its full-text
  queries, and the batched search.
- **Keys and contexts** (`AssociatedData`, `ContentKeys`, `ContentText`,
  `ContentBytes`, `AppKey`, `AppKeyTheorems`). Length-prefixed associated data, store
  keys along label paths with retired roots, text and binary envelopes with and without
  a key, and the app-key ladder over many launches.

`Options`, `Sequences`, `Bytes`, `Utf8`, `Decimal` and `Whitespace` hold what the others share.

Code that updates state is a class or a method with its loops, each proved equal to
a function of the old state; the theorems are lemmas about those functions.

## Assumptions

- SHA-256, HMAC, HKDF (RFC 5869) and the AEAD (section 2.8 of RFC 8439) are ideal:
  equal outputs come only from equal inputs, and a box opens only under its own key,
  nonce and associated data. For the 16-byte term tokens, where that cannot hold of
  all texts, the lemma asks only that no term of the query collides with another
  term of the document.
- New ids are fresh. JSON, base64, the UTF-8 check of a frame, Unicode normalization
  and categories, and RFC 3339 parsing are parameters; RFC 3339 accepts no text with
  white space at its ends.
- A database transaction is one atomic step, deleting a message deletes its
  attachment rows. A crash keeps the tables and drops every handler; a client that
  disconnects cancels its own handler between any two of its steps.
- The legacy idempotency table is only read by the send path, so it is a constant
  set. The claim and draft tables start empty.

## What the proofs showed

- The replay bound is exact. Storing one signed request at most once needs
  `2 * 300 + delay + regress <= 86400`, where `delay` is the longest time from the
  signature check to the commit and `regress` the most the clock is set back. One
  second more and a run stores it twice. The source only asserts that the retention
  exceeds twice the tolerance (`backend/src/api.rs:3934-3936`).
- Without a key, blobs are written in place; a write cut short leaves a short file
  that later inserts trust (`backend/src/store.rs:516`, `backend/src/store.rs:535-537`).
  Referenced blobs are safe in every history with given sessions exactly when none of
  the sessions is without a key. A key that comes later repairs nothing.
- "A parked draft is never handed back to the scheduler" is not true of all
  interleavings: `send_draft` reads the status before it claims
  (`backend/src/api.rs:2194-2208`). A refused send leaves the status it claimed exactly
  when that read and the claim agree on whether the draft was parked; it hands a parked
  draft back exactly when the read had not seen it parked and the draft has a time.
- "Never sent twice" has an exact condition. Over all runs a draft is handed over again
  only after a hand-off without a key, by hand or by the scheduler, that was answered as
  a refusal of the transport, which may have taken the message all the same; and after
  the settle of such a hand-off a continuation always hands the draft over again.
- Sixteen due drafts that stay unreadable stop the scheduler: as long as nobody edits
  the table, no later poll sends anything, however many other drafts are due by then.
- The comment on `list_due_drafts` says a time that does not parse fails visibly. What is
  due is decided on the text as it is (`backend/src/store.rs:2139-2147`), but the check
  that parks a draft trims it first and takes blank for "not scheduled"
  (`backend/src/api.rs:1496-1500`). So a draft fails visibly, whatever its sending would
  give, exactly when its trimmed time is neither blank nor a timestamp; and a time with
  white space around it counts as due at once, so the draft goes out before its instant,
  exactly when that instant is still ahead and nothing refuses it.
- A search pages by offset, so changes between two batches show exactly when some page
  it reads is not that page of the first table. A deletion can skip a matching row.
  Arriving mail skips none, but a row it shifts over a page boundary is read twice, and
  the repeat can take the place of a real match.
- The recorded app key stays the current one unless a launch meets another key in a
  reachable keychain while the key file is forbidden. That launch switches, and once
  the switch is recorded it is for good, under any later file policy. Both hold of
  launches without a key in the environment: a launch with one always takes that one and
  records it when it can.
- A store without a key refuses a binary value that starts like a content envelope,
  because it could never be read back. It takes a value that starts like any other Ryu
  magic, such as a sealed file's, and exactly those values are refused once a key arrives.
- The doc comment of the renderer promises ICU quoting. The renderer agrees with ICU on
  every source in which no quotation is closed by an apostrophe followed by another. On
  `'{''}'` it gives `{}` where ICU gives `{'}`, and it differs whenever a brace stands
  behind the first such close. For every source, `Icu.RendersAsIcuIff` decides it by one
  scan that keeps which reader is inside a quotation. Quoting each brace on its own, as
  `Notify.Quoted` does, renders right for every text.

## Model

| member | source | states |
|---|---|---|
| SendClaims.AnswersAreStable | backend/src/store.rs:2837-2875 | however the claim table grows, a claimed key is never answered as new, and a completed or conflicting claim keeps answering the same |
| SendClaims.SendClaimStore.LookupSend | backend/src/store.rs:2879-2888 | an invalid key and a stored response that does not open are errors, no claim exactly when the key is free and not legacy, and any other answer is the one the table gives for this key, inbox and hash |
| SendClaims.SendClaimStore.ClaimSend | backend/src/store.rs:2891-2914 | `New` exactly when the key is valid, unclaimed, not legacy and no other connection inserted it in between; rows are never changed or removed; every other answer is what the table says afterwards, an error when its response does not open |
| SendClaims.SendClaimStore.CompleteSend | backend/src/store.rs:2949-2968 | saves exactly on the original pending row; afterwards the key replays this response; no recorded response and no other row changes |
| Drafts.DraftStore.ClaimDraft | backend/src/store.rs:2221-2296 | claims exactly an editable row that opens, moves only it to `sending`, and returns it with its content untouched; a row that does not open is rolled back |
| Drafts.DraftStore.ClaimDueDraft | backend/src/store.rs:2233-2260 | claims a scheduled due row that opens only while it still has the `send_at` that was judged, whatever another connection does to it between the read and the claim; otherwise the table is as that connection left it |
| Drafts.DraftStore.FinishDraftSend | backend/src/store.rs:2303-2319 | settles exactly a `sending` row; content, inbox and every other row stay |
| Drafts.DraftStore.UpdateDraft | backend/src/store.rs:2190-2217 | edits exactly an editable row, never one a send has claimed or settled, and keeps its inbox; scheduled exactly when a time is given |
| Drafts.DraftStore.DeleteDraft | backend/src/store.rs:2321-2324 | removes that row and nothing else |
| SendSteps.StepKeeps | backend/src/api.rs:3764-3876 | every event keeps the invariant: each step of each handler, accepted, refused, failed or failed after acceptance, a start, an edit, a deletion, a cancelled handler, a crash |
| SendSteps.RunKeeps | backend/src/api.rs:3764-3876 | every state of every run satisfies the invariant |
| SendTheorems.AtMostOneHandOffPerKey | backend/src/api.rs:3793-3876 | in every state of every run each idempotency key causes at most one hand-off, carrying the inbox and body its claim row was written for; a legacy key causes none |
| SendTheorems.ReplayIsTheOriginalResponse | backend/src/store.rs:2862-2874 | a replayed response was recorded by the one other handler that claimed the key, for the same inbox and hash, after it handed that request over |
| SendTheorems.RefusalLeavesNoTrace | backend/src/api.rs:3770-3822 | a request refused before its claim, or answered from another's, wrote no claim and handed nothing over |
| SendAnswers.FoundKeyIsAnsweredByItsRow | backend/src/api.rs:3878-3891 | over every run, a handler that reads the table and finds its key is told the recorded response when inbox and body agree and there is one, that the key is in use when they differ, and that the outcome is unknown when the row is pending or the key is legacy |
| SendAnswers.SentWasHandedOver | backend/src/api.rs:3845-3876 | over every run, who is told a message was sent had it handed over and is told its own record |
| SendAnswers.RetryGetsTheResponse | backend/src/store.rs:2862-2874 | over every run, once the sender of a hand-off is told it was sent, every later request with its key, inbox and body that reads the table is told that same response |
| SendAnswers.AcceptedSendIsAnsweredAsSent | backend/src/api.rs:3845-3858 | over every run, whatever the others do, a handler past its hand-off that meets no fault stores its message and is answered as sent; completing its claim never fails for want of the row |
| SendAnswers.FreshRequestIsSent | backend/src/api.rs:3764-3876 | from any state, a request with a fresh valid key that nothing refuses is handed over once, answered as sent, and leaves that response in its row |
| SendAnswers.RetryOfASentRequest | backend/src/api.rs:3793-3803 | and its retry is told the same and hands nothing over |
| SendAnswers.UnkeyedRequestIsSent | backend/src/api.rs:3824-3876 | without a key a request that nothing refuses is handed over and answered too |
| SendFailures.BadKeyIsRefused | backend/src/api.rs:3770-3803 | over every run, a request whose key header is unreadable, blank or no valid key is refused as the caller's fault before anything is claimed; other local refusals are told as they are |
| SendFailures.FailureBeforeTheHandOffIsTold | backend/src/api.rs:3793-3822 | over every run, a store that fails before the hand-off is a server error, a transport that is not ready is not |
| SendFailures.InsertClaimsAFreeKey | backend/src/store.rs:2904-2914 | over every run, the insert claims a free key for this inbox and body before the hand-off, and leaves a taken one alone |
| SendFailures.FailureOfTheSendIsTold | backend/src/api.rs:3824-3858 | over every run, a failing transport or message row leaves the outcome open under a key and counts as a refusal without one; an unsaved response is told as that |
| SendFailures.DraftSendsStartIff | backend/src/api.rs:2180-2194 | when a manual and a scheduled draft send start, and what they know |
| SendFailures.ManualClaimTakesTheRow | backend/src/api.rs:2194-2201 | over every run, a manual claim takes exactly a draft that is neither being sent nor sent, and sends its content; a lost claim changes nothing |
| SendFailures.DueClaimTakesTheRow | backend/src/api.rs:659-677 | over every run, the scheduler's claim takes exactly a draft still scheduled for the time that was judged, and parks one whose trimmed time is neither blank nor a timestamp |
| SendSettles.AnsweredDraftGoesOn | backend/src/api.rs:2217-2250 | over every run, which answers of a draft send go on to settle it as sent, which put it back, and after which its key is looked up again |
| SendSettles.LookedUpDraftIsPutBackIff | backend/src/api.rs:2275-2286 | over every run, a manual send that looks its key up again puts the draft back exactly when the key is free or another request has it; otherwise the draft stays `sending` |
| SendSettles.SettledDraftIsAsSettled | backend/src/store.rs:2303-2319 | over every run, a settle leaves its draft with that status, inbox and content, and without a time exactly when it was sent |
| SendTheorems.StepHandlerFrame | backend/src/api.rs:3764-3876 | one step writes at most its own claim row, its own draft row, or one hand-off of exactly what the handler holds |
| SendTheorems.LogOnlyGrows | backend/src/store.rs:2837-2851 | over a run hand-offs are never forgotten and the legacy keys never change |
| SendTheorems.KeyedDraftIsNeverSentAgain | backend/src/api.rs:2191-2250 | once a keyed draft send has reached the transport the draft is for ever `sending`, `sent` or deleted, never editable, never handed over again by anyone |
| SendTheorems.DraftHasOneOwner | backend/src/store.rs:2262-2296 | at most one live handler stands between claim and settle of a draft, and the row is `sending` with the content that handler will hand over |
| SendTheorems.OnlyTheOwnerMovesASendingDraft | backend/src/store.rs:2298-2319 | a row leaves `sending` only by its holder's settle, content untouched; `sent` lasts until deletion; a deleted draft never returns |
| SendTheorems.OnlyTheOwnerHandsADraftOver | backend/src/api.rs:659-726 | a draft is handed over only by the handler between its claim and its settle, with the content the row still has |
| SendRestores.UnsentDraftComesBackAsClaimedIff | backend/src/api.rs:2194-2245 | over every run: a manual send that was not sent leaves the row with the status it claimed if and only if its first read and its claim agree on whether the row was parked; a row claimed as parked comes back scheduled if and only if that read had not seen it parked and it has a time |
| SendResends.RunKeepsResendInv | backend/src/api.rs:2217-2250 | in every state of every run the draft of any hand-off that was not refused without a key is out of reach of everyone but its handler |
| SendResends.ResentOnlyAfterARefusal | backend/src/api.rs:2217-2250 | over every run, keyed sends, unkeyed sends and the scheduler mixed: a draft is handed over twice only after a hand-off without a key whose caller was told the transport refused it |
| SendResends.EditableDraftGoesOut | backend/src/api.rs:2194-2245 | from any state an editable draft can be handed over, with its inbox and content |
| SendResends.HandedDraftGoesOutAgainIff | backend/src/api.rs:2217-2250 | once its handler has settled it, a draft that was handed over can go out again in some continuation if and only if that hand-off carried no key and was answered as a refusal of the transport |
| SendExamples.UnkeyedDraftCanBeHandedOverTwice | backend/src/api.rs:2236-2245 | a run of two sends without a key hands one draft over twice |
| SendExamples.ParkedDraftCanBeRescheduled | backend/src/api.rs:2194-2208 | a run in which a refused manual send hands a parked draft back to the scheduler |
| Scheduler.CollectDue | backend/src/store.rs:2128-2152 | in whatever order the rows come, collects each due draft once |
| Scheduler.ListDueDrafts | backend/src/store.rs:2118-2169 | returns the opening rows among the first `limit` due drafts, sorted by no time, then instant, then id |
| Scheduler.IncreasingListsAgree | backend/src/store.rs:2153-2154 | the order is total: the sorted list of due drafts is unique |
| Scheduler.SendScheduledDraft | backend/src/api.rs:659-732 | hands over exactly a draft still due by its text as it is, whose trimmed time is blank or parses and that nothing refuses, and leaves it `sent` or `failed` |
| Scheduler.Poll | backend/src/api.rs:642-657 | one poll settles exactly the listed drafts, in order |
| SchedulerTheorems.PollTakesTheFirstThatOpen | backend/src/api.rs:642-657 | a poll removes from the due drafts exactly the rows that open among the first sixteen |
| SchedulerTheorems.PollProgressesIffAFirstRowOpens | backend/src/store.rs:2158-2168 | the set of due drafts shrinks exactly when one of the first sixteen opens; otherwise nothing changes |
| SchedulerTheorems.PollsAreStuckIff | backend/src/store.rs:2158-2168 | any number of polls at one time changes nothing if and only if none of the first sixteen due rows opens |
| SchedulerTheorems.UnreadableDraftsStopTheScheduler | backend/src/store.rs:2158-2168 | once sixteen unreadable drafts come first, every poll at any later times sends nothing and changes nothing as long as nobody edits the table |
| SchedulerTheorems.PollsDrainInOrder | backend/src/api.rs:642-657 | when all rows open, `k` polls leave the due list without its first `16 * k` rows |
| SchedulerTheorems.EveryDueDraftIsSettled | backend/src/api.rs:642-657 | after enough polls every draft that was due is sent or failed, with its content |
| SchedulerTheorems.NoDraftIsHandedOverTwice | backend/src/api.rs:659-732 | over any polls, with any clocks, rows and outcomes, no draft is handed over twice and drafts only settle |
| SchedulerTheorems.PollSettlesEachByItsOutcome | backend/src/api.rs:659-726 | any poll leaves a listed draft `sent` without a time exactly when its trimmed time is blank or parses and the transport accepted it, and `failed` with its time otherwise; every other draft is untouched |
| SchedulerTheorems.TimeFailsVisiblyIff | backend/src/api.rs:659-677 | a listed draft is parked as failed and not handed over, whatever its sending would give, if and only if its time, trimmed, is not blank and does not parse |
| SchedulerTheorems.GoesOutEarlyIff | backend/src/store.rs:2251-2259 | a listed draft is handed over before its instant if and only if there is white space around a time still ahead and nothing refuses it; a time without white space is never early |
| SchedulerTheorems.PaddedTimeGoesOutEarly | backend/src/store.rs:2136-2147 | with any such time a poll hands the draft over at once and leaves it `sent` |
| SchedulerTheorems.OneBlankIsEnough | backend/src/api.rs:1496-1499 | the input: one blank behind a future time |
| InboundStore.SignedContentIsInjective | backend/src/api.rs:3994-3997 | `{digits}.{body}` determines both parts |
| InboundStore.SignatureBindsTimestampAndBody | backend/src/api.rs:3958-4004 | one timestamped signature is accepted for one timestamp and body only, at times at most ten minutes apart, and as body-only never for the same body |
| InboundAnswers.CorrectSignatureIsAccepted | backend/src/api.rs:3958-4004 | timestamp and body signed together are accepted up to five minutes off, white space around the timestamp or not; the body alone exactly where no timestamp is required |
| InboundAnswers.OtherSignaturesAreRefused | backend/src/api.rs:3958-4004 | nothing else is accepted: malformed, late or early timestamps, other signatures, a missing timestamp where one is required |
| InboundProtocol.FindMessageId | backend/src/store.rs:1665-1690 | finds a message with both that inbox and that message id exactly when there is one |
| InboundStore.FindCopy | backend/src/store.rs:1357-1371 | finds a stored message with the same raw bytes exactly when the inbox has one |
| InboundStore.InboundTables.ClaimInboundTombstone | backend/src/store.rs:1240-1269 | answers the message of a live tombstone of this inbox, otherwise writes or takes over the tombstone; prunes every inbox by this delivery's clock |
| InboundStore.InboundTables.InsertInboundMessage | backend/src/store.rs:1348-1384 | message and tombstone are written together or no table changes, prunings included |
| InboundTheorems.PrunedOnlyWhenDead | backend/src/store.rs:1246-1249 | under the bound a tombstone is pruned only when its request can no longer be committed |
| InboundTheorems.TombstoneSurvives | backend/src/store.rs:1240-1269 | another delivery's commit leaves the tombstone of every request that is not dead |
| InboundTheorems.RunKeeps | backend/src/store.rs:1348-1384 | the replay invariant holds after every run under the bound |
| InboundTheorems.InboundIsLinearized | backend/src/store.rs:1348-1384 | in every run an inbox holds at most one message with given raw bytes, and every duplicate id names a message this inbox committed earlier |
| InboundAnswers.KnownMessageIdIsADuplicateIff | backend/src/api.rs:4050-4060 | a delivery that asks without a fault is answered as a duplicate, of a message with its message id in its inbox, exactly when there is one; otherwise it goes on |
| InboundAnswers.DeliveryIsStoredIff | backend/src/store.rs:1348-1384 | a commit that succeeds in time stores the delivery exactly when its inbox exists, has no message with its bytes, and it is no replay |
| InboundAnswers.UnstoredDeliveryIsTold | backend/src/store.rs:1357-1371 | a copy or a replay is answered with the id of the message with its bytes, or of the one its tombstone names |
| InboundAnswers.NewMailIsStored | backend/src/api.rs:4050-4115 | in any state new mail to an inbox, signed in either way, is stored with its bytes, message id and tombstone |
| InboundAnswers.DeletionsTakeNothingElse | backend/src/store.rs:1271-1310 | deleting an inbox takes its messages, deleting a message just that one; the tombstones stay |
| InboundTheorems.TombstonesAreFounded | backend/src/store.rs:1250-1260 | in every run a tombstone that names a message names one stored for exactly its inbox and signed content, with the reading it was stamped with |
| InboundTheorems.TombstoneNamesItsRequest | backend/src/store.rs:1240-1269 | under the bound, in every run, a stored signed request that can still come again is found under its own tombstone, which stands for it and for no other stored request |
| InboundTheorems.TombstoneIsTakenOverByOneDelivery | backend/src/store.rs:1250-1260 | over every run under the bound one delivery at most is ever stored for a tombstone key, also for a tombstone an earlier version left empty, and a tombstone that names a message never changes while it lasts |
| InboundTheorems.BeyondTheBoundStoresTwice | backend/src/store.rs:1246-1249 | beyond the bound a concrete run stores one signed request twice |
| InboundTheorems.SignedRequestIsStoredOnceIff | backend/src/store.rs:197-201 | every run stores every signed request at most once per inbox if and only if `2 * 300 + delay + regress <= 86400` |
| BlobStore.MailBlobs.WriteBlob | backend/src/store.rs:514-541 | an existing file is trusted; success leaves the file with its bytes; no other blob file changes |
| BlobStore.MailBlobs.WriteBlobs | backend/src/store.rs:1417-1444 | writes the names in order up to the first failure and keeps what was written |
| BlobStore.MailBlobs.InsertMessage | backend/src/store.rs:1388-1446 | a stored row has a file for each attachment and for its raw MIME; without faults it is stored; a failure inserts no row and keeps what was written |
| BlobStore.MailBlobs.DrainBlobCleanup | backend/src/store.rs:1538-1584 | equals the drain function: referenced names and names whose file is gone leave the queue, what cannot be removed stays, a crash keeps the queue |
| BlobStore.MailBlobs.SweepOrphanBlobs | backend/src/store.rs:1597-1628 | removes exactly the removable files no row references |
| BlobStore.MailBlobs.Open | backend/src/store.rs:441-446 | opening is a drain followed by a sweep, whatever the drain's outcome |
| BlobStore.MailBlobs.DeleteMessage | backend/src/store.rs:1992-2025 | deletes the row, queues its blobs and drains; a missing row changes nothing |
| BlobStore.MailBlobs.DeleteInbox | backend/src/store.rs:1271-1310 | deletes the inbox's rows and queues exactly the blobs no remaining row references |
| Blobs.DrainQueueHolds | backend/src/store.rs:1549-1578 | a name stays queued exactly when it is unreferenced and its file is still there |
| Blobs.UnreferencedHolds | backend/src/store.rs:1297-1305 | the queued names are the candidates nothing references |
| BlobOutcomes.WriteLeaves | backend/src/store.rs:514-541 | when a write succeeds and what it leaves, mode by mode and fault by fault |
| BlobOutcomes.DrainLeaves | backend/src/store.rs:1538-1584 | a drain removes exactly the queued, unused, removable files and keeps queued what is left; cut short it keeps the queue |
| BlobOutcomes.SweepLeaves | backend/src/store.rs:1597-1628 | a sweep removes exactly the removable files no row uses |
| BlobOutcomes.DeleteMessageLeaves | backend/src/store.rs:1992-2025 | deleting a message takes its row and the files only it used, which are queued when they cannot be removed; nothing else |
| BlobOutcomes.DeleteInboxLeaves | backend/src/store.rs:1271-1310 | deleting an inbox takes the inbox, its rows and the files only they used |
| BlobOutcomes.InsertLeaves | backend/src/store.rs:1388-1446 | when an insert adds its row, and that it changes nothing but files otherwise |
| BlobTheorems.DrainKeeps | backend/src/store.rs:1538-1584 | a drain, whole or cut short, removes no referenced file and forgets no unreferenced one |
| BlobTheorems.RowsRemoved | backend/src/store.rs:2007-2019 | deleting rows keeps every file of the remaining rows and queues every file the deleted rows were the last to use |
| BlobTheorems.RunKeeps | backend/src/store.rs:1388-1446 | after every run, through sessions with and without a key, every referenced blob has a file and every other file is accounted for |
| BlobTheorems.ReferencedBlobsAreIntact | backend/src/store.rs:514-541 | in every run in which no session cut a write in place short, every referenced blob has the bytes of its digest |
| BlobTheorems.StoredMessagesAreComplete | backend/src/store.rs:1417-1444 | in every such run each stored message has its attachments and its raw MIME, byte for byte |
| BlobTheorems.UnusedFilesAreAccountedFor | backend/src/store.rs:441-446 | a file no row uses is in the queue or was left by an insert that rolled back |
| BlobTheorems.ReopeningReclaimsEverything | backend/src/store.rs:441-446 | when removals succeed, reopening after any run leaves exactly the referenced files, unchanged, and an empty queue |
| BlobTheorems.ShortWriteIsTrusted | backend/src/store.rs:535-537 | in a session without a key a write cut short leaves a file the next insert trusts, and a referenced blob lacks its bytes |
| BlobTheorems.ReopeningRepairsNothing | backend/src/store.rs:441-446 | reopening, in any mode and whatever it removes, keeps every referenced file as it is: it breaks nothing and repairs nothing |
| BlobTheorems.KeylessSessionBreaksABlob | backend/src/store.rs:514-541 | any list of sessions with one without a key has a history that ends with a referenced blob that lacks its bytes, also when a key came later |
| BlobTheorems.BlobsAreSafeIffEverySessionHasAKey | backend/src/store.rs:514-541 | whatever the sessions of a store are, all histories with these sessions keep every referenced blob intact if and only if none of them was without a key |
| EventStream.BoundaryIsLeftmost | crates/core/app-events/src/lib.rs:566-568 | the boundary found is the first pair of newlines, and none is found exactly when there is none |
| EventStream.FramesAppend | crates/core/app-events/src/lib.rs:351-366 | bytes that arrive later never move an earlier boundary: frames of a whole are those of its beginning and those of what was left over with the rest |
| EventStream.TakeFrames | crates/core/app-events/src/lib.rs:363-381 | the inner loop drains exactly the complete frames, up to the one that ends the stream |
| EventStream.ReadStream | crates/core/app-events/src/lib.rs:348-387 | the items are those of the joined bytes parsed at once and of how the connection ends; the cuts between chunks do not matter |
| EventStream.StreamEndsExactlyOnce | crates/core/app-events/src/lib.rs:348-387 | zero or more text deltas, then exactly one terminal item, then nothing |
| EventStream.FramesAreTheBytes | crates/core/app-events/src/lib.rs:363-365 | frames, boundaries and rest put together are the bytes |
| EventStream.NoBoundaryIsLeft | crates/core/app-events/src/lib.rs:363-365 | no frame and no rest contains a boundary |
| EventStream.SentFramesComeBack | crates/core/app-events/src/lib.rs:363-365 | frames a sender separates by boundaries come out unchanged |
| EventStream.FirstDataLineDecides | crates/core/app-events/src/lib.rs:576-579 | the first data line alone gives the data, without its padding |
| EventStream.CommentsAreSkipped | crates/core/app-events/src/lib.rs:576-579 | lines before it that are no data line change nothing |
| EventStream.SentEventsArrive | crates/core/app-events/src/lib.rs:570-602 | a sender may mix events, comments, other data, error reports, end marks and broken frames: each is heard as what it means, in order, up to the first that ends the stream |
| EventStream.EachFrameIsHeard | crates/core/app-events/src/lib.rs:570-602 | what the reader yields for each kind of frame: not UTF-8, no data, the end mark, broken JSON, an event, an error object, other JSON |
| EventStream.FirstDataIsTheData | crates/core/app-events/src/lib.rs:576-579 | the data of a frame is that of its first data line, trimmed, and none without one |
| EventStream.EndingSaysHow | crates/core/app-events/src/lib.rs:352-386 | the ending names the break of the connection, or that no terminal event came; bytes after a break do not count |
| Notify.NotifyMessage.English | crates/core/app-events/src/notify.rs:137-172 | the scan returns the meaning of the source |
| Notify.TakePiece | crates/core/app-events/src/notify.rs:141-169 | reads one construct: an apostrophe, a quotation, a placeholder or a character |
| Notify.RenderingFillsTheTemplate | crates/core/app-events/src/notify.rs:81-87 | rendering a template's source is instantiating the template with its arguments; argument text is not read again |
| Notify.NoArgumentsGiveTheSource | crates/core/app-events/src/notify.rs:81-87 | a message without arguments renders to its source |
| Notify.EarlierArgumentWins | crates/core/app-events/src/notify.rs:116-126 | of two arguments of one name the one added first shows |
| Notify.AddedArgumentFillsItsPlaces | crates/core/app-events/src/notify.rs:113-126 | a text or a count added under a new name fills exactly the places of that name: the text as it is, the count grouped by threes and reading back as the number |
| Notify.VerbatimIsVerbatim | crates/core/app-events/src/notify.rs:92-98 | verbatim text renders to itself, whatever it contains |
| Notify.QuotedTextComesBack | crates/core/app-events/src/notify.rs:142-156 | any text with apostrophes doubled and each brace quoted renders to itself before any rest |
| Notify.QuotedTemplateRendersAsMeant | crates/core/app-events/src/notify.rs:137-172 | a template of any literals renders as meant once they are quoted |
| Icu.RendersAsIcuIff | crates/core/app-events/src/notify.rs:134-172 | a source renders as ICU renders it, whatever the arguments are, if and only if a side-by-side walk of the two readers over it never comes to a place where one writes an apostrophe or a literal brace and the other does not |
| Icu.RendersAsIcu | crates/core/app-events/src/notify.rs:134-172 | the renderer gives what ICU gives for every source in which no quotation is closed by an apostrophe followed by another |
| Icu.BraceBehindDoubledDiffers | crates/core/app-events/src/notify.rs:141-156 | when the first quotation closed that way has a brace behind it, the two results differ, whatever the arguments |
| Icu.QuotedBracesDiffer | crates/core/app-events/src/notify.rs:141-156 | `'{''}'` renders to `{}` here and to `{'}` in ICU |
| Notify.PushedIsByThrees | crates/core/app-events/src/notify.rs:60-65 | the comma rule of the loop is grouping by threes from the right |
| Notify.EnglishCount | crates/core/app-events/src/notify.rs:54-67 | the loop writes the sign and the digits grouped by threes |
| Notify.GroupedRoundTrip | crates/core/app-events/src/notify.rs:54-67 | for every 64-bit number, dropping the commas and parsing gives it back |
| Notify.GroupShape | crates/core/app-events/src/notify.rs:54-67 | one to three digits first, then groups of exactly three |
| Utf8.ByteOrderIsCodePointOrder | crates/core/crypto/src/blind_index.rs:172-182 | sorting encoded terms by bytes sorts them by code points |
| Terms.PiecesAreTheText | crates/core/crypto/src/blind_index.rs:173 | splitting loses nothing and no piece holds a separator |
| Terms.TokenizeTerms | crates/core/crypto/src/blind_index.rs:169-187 | the loop computes the ordered set of terms |
| Terms.TokensAreTheTerms | crates/core/crypto/src/blind_index.rs:169-187 | the result is strictly increasing in bytes and holds exactly the terms of the pieces |
| Terms.TokensAreTheRuns | crates/core/crypto/src/blind_index.rs:173-180 | on the text itself: the tokens are the first 64 characters of each longest run of at least two term characters, unless those are a stopword |
| Terms.TermsAreWellFormed | crates/core/crypto/src/blind_index.rs:174-180 | each term has 2 to 64 code points, only term characters, and is no stopword |
| Terms.TokensOfBoth | crates/core/crypto/src/blind_index.rs:169-187 | tokenizing two texts with a separator between them is the union |
| Terms.TokenizingIsIdempotent | crates/core/crypto/src/blind_index.rs:169-187 | tokenizing the joined tokens returns them unchanged |
| Terms.QueryMatchesByTokens | crates/core/crypto/src/blind_index.rs:123-145 | a query matches exactly the documents with all its tokens, collisions included |
| Terms.QueryFindsExactlyItsTerms | crates/core/crypto/src/blind_index.rs:132-145 | without a collision a query matches exactly when it has a term and the text has all its terms |
| Search.OpenRow | backend/src/store.rs:3430-3463 | opens columns in order and stops at the first hit or the first that does not open |
| Search.MatchMeansAHit | backend/src/store.rs:3430-3463 | a row matches exactly when some column hits and all before it open |
| Search.UnreadableMeansAFailure | backend/src/store.rs:3430-3463 | a row is skipped exactly when some column does not open and none before it hits |
| Search.ReadableRowMatchesIff | backend/src/store.rs:3430-3463 | a row that opens matches exactly when its sender, subject, another address or a body shows the needle, capital letters of ASCII read as small |
| Search.RowIsSkippedIff | backend/src/store.rs:3430-3463 | a row is skipped exactly when a column does not open and none of those read before it shows the needle, in the order they are read |
| Search.SearchMessageIds | backend/src/store.rs:1749-1790 | the batch loop computes the truncated scan of the tables it reads |
| Search.SearchIsOneScan | backend/src/store.rs:1749-1790 | on a table that does not change: the first `limit` matches among the first thousand rows |
| Search.FoundIsTheFirstMatches | backend/src/store.rs:1749-1790 | whatever the tables are, batches, early stop and truncation together give the first `limit` matches of the rows the batches read |
| Search.ChangesGoUnnoticedIff | backend/src/store.rs:1749-1790 | every search, for anything and any limit, gives what one scan of the first table gives if and only if each page read is that page of the first table |
| Search.IdIsReturnedIff | backend/src/store.rs:1749-1790 | an id is returned exactly when some row read matches as it and fewer than `limit` rows read before match, a row read twice counted twice |
| Search.ArrivalsSkipNoRow | backend/src/store.rs:1749-1790 | mail that arrives during a search, in front or further down, makes it skip no row that is still among the first thousand at the last batch |
| Search.ArrivalsHideNothingBelowTheLimit | backend/src/store.rs:1749-1790 | so such a match is returned, unless the result is full, repeats counted |
| Search.ArrivalRepeatHidesAMatch | backend/src/store.rs:1749-1790 | one arrival between two batches returns a row twice in the place of another match |
| Search.DeletionHidesAMatch | backend/src/store.rs:1744-1790 | a deletion between two batches can hide a row that matches throughout |
| Bytes.BigEndianComesBack | crates/core/crypto/src/content.rs:176-179 | the big-endian length is read back |
| AssociatedData.AssociatedDataOf | crates/core/crypto/src/content.rs:153-179 | the pushes produce the length-prefixed parts in order |
| AssociatedData.LayoutOfParts | crates/core/crypto/src/content.rs:151-174 | the parts are the label, the store, the purpose and then each id with its name, in the order they were added |
| AssociatedData.PrefixFree | crates/core/crypto/src/content.rs:176-179 | no part is a proper beginning of another |
| AssociatedData.AadIsInjective | crates/core/crypto/src/content.rs:151-174 | equal bytes come only from the same store, purpose and list of ids |
| ContentKeys.KeyAtIsInjective | crates/core/crypto/src/content.rs:214-228 | different roots, stores or label paths never share a key |
| ContentKeys.WithRetiredRoots | crates/core/crypto/src/content.rs:359-385 | the loops keep each other root once, derived level by level |
| ContentKeys.RetiredKeysAreTheOtherRoots | crates/core/crypto/src/content.rs:359-385 | the retired keys are, once each, those of the listed roots other than the current one |
| ContentKeys.RetiringCommutesWithNesting | crates/core/crypto/src/content.rs:387-404 | attaching retired roots before nesting sub-ciphers is attaching them after, for any path and roots |
| ContentKeys.OpenBlob | crates/core/crypto/src/content.rs:513-522 | tries the current key, then the retired ones, and flags a retired success |
| ContentKeys.OpensExactlyWhereItWasSealed | crates/core/crypto/src/content.rs:446-522 | a value opens exactly at its own store, path and context under a listed root, to its own bytes, flagged exactly when that root is not the current one |
| ContentKeys.TamperedBlobDoesNotOpen | crates/core/crypto/src/content.rs:513-522 | a box behind another nonce, or bytes nobody sealed, open under no key |
| ContentKeys.MatchKcvClassifiesRoots | crates/core/crypto/src/content.rs:432-440 | a recorded check value is current, retired or unknown as its root is |
| ContentText.VersionsAreNumbers | crates/core/crypto/src/content.rs:587-594 | the refused prefixes are exactly `v`, digits, colon |
| ContentText.ForeignTextIsRefused | crates/core/crypto/src/content.rs:481-511 | an envelope of another version is refused as such; one of this version that does not decode, open or read as UTF-8 is refused too |
| ContentText.LegacyTextComesBack | crates/core/crypto/src/content.rs:481-511 | any other text comes back as it is, asking to be sealed unless empty |
| ContentText.TextOpensExactlyWhereItWasSealed | crates/core/crypto/src/content.rs:458-511 | any text, a lookalike of an envelope too, opens to itself exactly where it was sealed |
| ContentText.SealedTextOpens | crates/core/crypto/src/content.rs:458-511 | what a cipher seals it opens with nothing left to reseal |
| ContentText.KeylessTextSurvivesAKey | crates/core/crypto/src/plugin_keys/store_seal.rs:79-131 | any text written without a key reads back unchanged without one and still does once a key arrives |
| ContentText.StoredTextReadsBack | crates/core/crypto/src/plugin_keys/store_seal.rs:79-131 | a store with a key writes envelopes only, which it reads back and a store without the key refuses; an unhealthy store writes nothing; one without a key reads back what it wrote |
| ContentText.ResealingKeepsEveryValue | crates/core/crypto/src/content_sqlite.rs:411-439 | the resealing pass over a text column changes no readable value, rewrites exactly what asks for it, and its result asks no more |
| ContentBytes.BytesOpenExactlyWhereTheyWereSealed | crates/core/crypto/src/content.rs:524-576 | binary values are sealed exactly when they start with no magic of an envelope, a sealed file or a sealed log, and then open to themselves exactly where they were sealed |
| ContentBytes.KeylessBytesSurviveAKeyIff | crates/core/crypto/src/plugin_keys/store_seal.rs:146-171 | a binary value taken without a key reads back without one, and once a key arrives if and only if it does not start like a magic of any kind and version; else it is refused |
| ContentBytes.KeylessFileHeaderIsLost | crates/core/crypto/src/plugin_keys/store_seal.rs:149-158 | the input: the magic of a sealed file and anything behind it |
| ContentBytes.StoredBytesReadBack | crates/core/crypto/src/plugin_keys/store_seal.rs:146-171 | the same of binary values |
| ContentBytes.ResealingBytesKeepsEveryValue | crates/core/crypto/src/content_sqlite.rs:440-460 | the resealing pass over a binary column changes no value and rewrites exactly what asks for it and may be sealed; of values without an envelope it leaves exactly those that look like a magic |
| AppKey.Slot.Get | crates/core/crypto/src/app_key.rs:148-157 | the wrapper remembers that the keychain was out of reach and the last key it held |
| AppKey.Slot.WriteKeyFile | crates/core/crypto/src/lib.rs:1011-1054 | whatever key it returns is the one the file holds afterwards; a file that is there or that another process publishes first wins; without a key it leaves the file alone |
| AppKey.Slot.RetireMatching | crates/core/crypto/src/lib.rs:1357-1381 | removes the key file exactly when it holds the keychain key and the removal succeeds; a file that cannot be read is an error |
| AppKey.Slot.LoadGuarded | crates/core/crypto/src/lib.rs:1228-1348 | the steps of the ladder compute the ladder function |
| AppKey.Slot.ResolveAppKey | crates/core/crypto/src/app_key.rs:163-251 | one launch computes the resolver function, record included |
| AppKeyTheorems.EveryKeyInSightOpens | crates/core/crypto/src/app_key.rs:197-250 | current and retired keys are, once each, exactly the keys in the environment, the reachable keychain and the usable file when the launch ends |
| AppKeyTheorems.LaunchSucceedsIff | crates/core/crypto/src/lib.rs:1228-1348 | exactly when a launch succeeds, from what it meets: environment, keychain, key file, record, policy and which writes succeed |
| AppKeyTheorems.WithoutARecordTheFirstSourceDecides | crates/core/crypto/src/app_key.rs:216-246 | without a readable record the environment, then the keychain, then the key file decides; a slot with none gets a new key, which is kept where the next launch finds it |
| AppKeyTheorems.RecordedKeyIsChosenWhenInSight | crates/core/crypto/src/app_key.rs:216-246 | an environment key is always chosen; otherwise the recorded key is chosen exactly when it is in sight; the chosen key is recorded |
| AppKeyTheorems.LockedKeychainNeverSwitchesKeys | crates/core/crypto/src/app_key.rs:178-241 | no environment key, readable record, keychain out of reach: the recorded key when the usable file holds it, failure otherwise, and nothing changes |
| AppKeyTheorems.UsedSlotGetsNoNewKeyWhileLocked | crates/core/crypto/src/app_key.rs:178-193 | a slot with a record, readable or not, or sealed files gets no new key while its keychain is locked |
| AppKeyTheorems.RepeatedLaunchIsAFixedPoint | crates/core/crypto/src/app_key.rs:163-251 | a launch repeated under the same conditions gives the same keys and changes nothing |
| AppKeyTheorems.KeptKeyIsReturnedIff | crates/core/crypto/src/app_key.rs:197-246 | a launch that succeeds with the recorded key kept somewhere returns it if and only if it does not meet another key in a reachable keychain while the key file is forbidden |
| AppKeyTheorems.KeptKeyStaysOverLaunchesIff | crates/core/crypto/src/app_key.rs:163-251 | over launches under any policies, all fail or return the kept key if and only if none of them meets that condition; then the key is still kept |
| AppKeyTheorems.KeyIsPinnedOverLaunchesIff | crates/core/crypto/src/app_key.rs:163-251 | after one recorded success the later launches all fail or return that key under exactly the same condition |
| AppKeyTheorems.SwitchIsForGood | crates/core/crypto/src/app_key.rs:163-251 | a recorded key that the keychain holds is never switched away from, under any later policies |
| AppKeyTheorems.ForbiddingTheFileSwitchesKeys | crates/core/crypto/src/app_key.rs:197-246 | with another key in the keychain, one launch that forbids the key file switches to it, and every later launch under any policy fails or returns that one |

## Left out

- HTTP routing, bearer checks, OpenAPI, WebSocket fan-out, environment parsing and
  process start: plumbing around the modelled handlers.
- SMTP assembly, MIME parsing, DNS screening, webhook delivery: they rest on libraries
  that are not part of this model. Shape and policy checks of a request are one step
  that may refuse.
- SQL text, schema migrations, VACUUM and WAL; column sealing of the mail tables apart
  from whether a row opens.
- Event records and notifications of a send, open tracking, and the fields of a message
  beyond inbox, content, raw bytes and ids.
- Cryptographic primitives.
- The master-key custody around the ladder (retired vault, probes, health): only the
  ladder an app key climbs is modelled.
- Two processes resolving one app key at the same time, beyond another process
  publishing the key file or replacing the keychain entry during a launch.
- Inbox, domain, list, label, pod and webhook records, thread lists, metrics: only easy
  members.
- `address_allowed` of the store (`backend/src/store.rs:2662-2696`), which the handlers do
  not use.
- Scheduler.Poll: no other writer comes between the listing and the claims of one poll;
  the send protocol has that interleaving for every claim.
- The resealing pass starts from the text or the bytes of a column: numbers and values of
  the other kind are turned into those first, and null is skipped.
- Sealing blob files a keyless store left (`backend/src/store.rs:3783-3808`): each sealed
  copy is verified before it replaces its file, so what a file opens to stays, and the
  model's files are what they open to.
- Terms.TokenizeTerms: starts from normalized text; NFKC and lower-casing are not
  modelled, so idempotence is that of splitting, truncating and sorting.
- Search.SearchMessageIds: a column is what it opens to, an address list already joined
  by spaces; reading the found rows again in full is not modelled.
- EventStream.ReadStream: begins with the response body; the request, its status and a
  rejected stream are not modelled.
- AppKey.Slot.ResolveAppKey: the cache of one process, and the slot name, are not
  modelled; one launch is one call.
- The rate of the scheduler (five seconds between polls) and of every other timer.
