/**
 The durable send claims of the mail store: one row per idempotency key,
 written before the transport is called and never taken back.
 */
module SendClaims {
  import opened Options

  /** SHA-256 of the JSON of a request body, as an ideal (injective) digest. */
  datatype Digest = Sha256Json(body: string)

  /** The stored answer of a send: the record id of the message row and the
      id the transport gave it. */
  datatype Response = Response(record: nat, provider: string)

  datatype ClaimRow = ClaimRow(inbox: string, hash: Digest, response: Option<Response>)

  type Claims = map<string, ClaimRow>

  datatype SendClaim = New | Replay(response: Response) | Unresolved | Conflict

  /** `Unreadable` is a stored response that does not open or parse. */
  datatype ClaimResult = Claim(claim: SendClaim) | NoClaim | InvalidKey | Unreadable

  /** Printable ASCII, at most 256 bytes, not blank. */
  predicate ValidSendKey(key: string) {
    && |key| <= 256
    && (forall i :: 0 <= i < |key| ==> ' ' <= key[i] <= '~')
    && (exists i :: 0 <= i < |key| && key[i] != ' ')
  }

  /** What a stored row answers to a request for the same key. */
  function AnswerOf(row: ClaimRow, inbox: string, hash: Digest): SendClaim {
    if row.inbox != inbox || row.hash != hash then Conflict
    else match row.response
         case Some(response) => Replay(response)
         case None => Unresolved
  }

  function ReadSendClaim(
    claims: Claims, legacy: set<string>, key: string, inbox: string, hash: Digest
  ): Option<SendClaim>
  {
    if key in legacy then Some(Unresolved)
    else if key in claims then Some(AnswerOf(claims[key], inbox, hash))
    else None
  }

  /** `INSERT OR IGNORE` of a pending row. */
  function InsertOrIgnore(claims: Claims, key: string, inbox: string, hash: Digest): Claims {
    if key in claims then claims else claims[key := ClaimRow(inbox, hash, None)]
  }

  /** The guarded `UPDATE` that records a response on the original pending row. */
  predicate Completable(claims: Claims, key: string, inbox: string, hash: Digest) {
    key in claims && claims[key] == ClaimRow(inbox, hash, None)
  }

  function CompleteRow(
    claims: Claims, key: string, inbox: string, hash: Digest, response: Response
  ): Claims
  {
    if Completable(claims, key, inbox, hash)
    then claims[key := ClaimRow(inbox, hash, Some(response))]
    else claims
  }

  /** Rows only gain a response: key, inbox and request hash never change and a
      recorded response is never replaced. */
  ghost predicate Extends(before: Claims, after: Claims) {
    forall key :: key in before ==>
                    && key in after
                    && after[key].inbox == before[key].inbox
                    && after[key].hash == before[key].hash
                    && (before[key].response.Some? ==> after[key].response == before[key].response)
  }

  /** Whatever the store does to the table between two reads, a completed claim
      keeps answering every request the same way, and a pending one is never
      offered as new again. */
  lemma AnswersAreStable(
    before: Claims, after: Claims, legacy: set<string>, key: string, inbox: string, hash: Digest
  )
    requires Extends(before, after)
    requires ReadSendClaim(before, legacy, key, inbox, hash).Some?
    ensures ReadSendClaim(after, legacy, key, inbox, hash).Some?
    ensures ReadSendClaim(before, legacy, key, inbox, hash) != Some(Unresolved) ==>
              ReadSendClaim(after, legacy, key, inbox, hash)
              == ReadSendClaim(before, legacy, key, inbox, hash)
  {
    if key !in legacy {
      assert key in before && key in after;
    }
  }

  class SendClaimStore {
    var claims: Claims
    const legacy: set<string>

    constructor (legacy: set<string>)
      ensures claims == map[] && this.legacy == legacy
    {
      claims := map[];
      this.legacy := legacy;
    }

    /** Nonmutating lookup. `opens` says whether a stored response can be read. */
    method LookupSend(key: string, inbox: string, hash: Digest, opens: bool) returns (r: ClaimResult)
      ensures r == InvalidKey <==> !ValidSendKey(key)
      ensures r == NoClaim <==> ValidSendKey(key) && key !in legacy && key !in claims
      ensures r.Claim? ==> ReadSendClaim(claims, legacy, key, inbox, hash) == Some(r.claim) && r.claim != New
      ensures r == Unreadable <==>
              && ValidSendKey(key) && !opens && key !in legacy && key in claims
              && claims[key].inbox == inbox && claims[key].hash == hash && claims[key].response.Some?
      ensures r.Claim? && r.claim.Replay? ==>
                opens && key in claims && claims[key] == ClaimRow(inbox, hash, Some(r.claim.response))
      ensures r == Claim(Conflict) ==>
                key in claims && (claims[key].inbox != inbox || claims[key].hash != hash)
    {
      if !ValidSendKey(key) {
        return InvalidKey;
      }
      match ReadSendClaim(claims, legacy, key, inbox, hash) {
        case Some(claim) => return if claim.Replay? && !opens then Unreadable else Claim(claim);
        case None => return NoClaim;
      }
    }

    /** Read, `INSERT OR IGNORE`, and read again when the insert was ignored.
        `other` is the row a second connection commits between the two
        statements, if any. `New` is answered exactly to the caller whose row
        the table holds afterwards and that nobody had claimed before. */
    method ClaimSend(key: string, inbox: string, hash: Digest, other: Option<ClaimRow>, opens: bool)
      returns (r: ClaimResult)
      modifies this`claims
      ensures r == InvalidKey <==> !ValidSendKey(key)
      ensures Extends(old(claims), claims)
      ensures claims.Keys <= old(claims).Keys + {key}
      ensures r == Claim(New) <==>
              ValidSendKey(key) && key !in legacy && key !in old(claims) && other.None?
      ensures r == Claim(New) ==> claims == old(claims)[key := ClaimRow(inbox, hash, None)]
      ensures r != Claim(New) ==>
                claims == if ValidSendKey(key) && key !in legacy && key !in old(claims)
                then old(claims)[key := other.value] else old(claims)
      ensures r.Claim? && r != Claim(New) ==>
                ReadSendClaim(claims, legacy, key, inbox, hash) == Some(r.claim)
      ensures r == Unreadable <==>
              && ValidSendKey(key) && !opens && key !in legacy && key in claims
              && claims[key].inbox == inbox && claims[key].hash == hash && claims[key].response.Some?
      ensures r != NoClaim
    {
      if !ValidSendKey(key) {
        return InvalidKey;
      }
      var existing := ReadSendClaim(claims, legacy, key, inbox, hash);
      if existing.Some? {
        return if existing.value.Replay? && !opens then Unreadable else Claim(existing.value);
      }
      if other.Some? {
        claims := claims[key := other.value];
      }
      var inserted := key !in claims;
      claims := InsertOrIgnore(claims, key, inbox, hash);
      if inserted {
        return Claim(New);
      }
      var reread := ReadSendClaim(claims, legacy, key, inbox, hash);
      r := if reread.value.Replay? && !opens then Unreadable else Claim(reread.value);
    }

    /** Complete only the original pending claim. */
    method CompleteSend(key: string, inbox: string, hash: Digest, response: Response)
      returns (saved: bool)
      modifies this`claims
      ensures Extends(old(claims), claims) && claims.Keys == old(claims).Keys
      ensures saved <==> key in old(claims) && old(claims)[key] == ClaimRow(inbox, hash, None)
      ensures saved ==> ReadSendClaim(claims, {}, key, inbox, hash) == Some(Replay(response))
      ensures !saved ==> claims == old(claims)
      ensures forall other :: other in claims && other != key ==> claims[other] == old(claims)[other]
    {
      saved := Completable(claims, key, inbox, hash);
      claims := CompleteRow(claims, key, inbox, hash, response);
    }
  }
}
