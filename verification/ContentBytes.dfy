/**
 Binary values at rest: the envelope of a content cipher, what a store does with and
 without a key, and the pass that seals legacy values.
 */
module ContentBytes {
  import opened Options
  import opened Bytes
  import opened AssociatedData
  import opened ContentKeys
  import opened ContentText

  /** `RYU-`, then two capital letters for the kind and two digits for the version. */
  const RYU: seq<Byte> := [82, 89, 85, 45]
  const CONTENT_BYTES_MAGIC := RYU + [67, 66, 48, 49]
  const SEALED_FILE_MAGIC := RYU + [83, 70, 48, 49]
  const SEALED_LOG_MAGIC := RYU + [83, 76, 48, 49]

  predicate IsCapital(b: Byte) {
    65 <= b <= 90
  }

  predicate IsFigure(b: Byte) {
    48 <= b <= 57
  }

  predicate LooksLikeRyuMagic(stored: seq<Byte>) {
    && |stored| >= 8 && RYU <= stored
    && IsCapital(stored[4]) && IsCapital(stored[5]) && IsFigure(stored[6]) && IsFigure(stored[7])
  }

  /** The value is an envelope, a sealed file or a sealed log, and is not sealed again. */
  predicate StartsWithMagic(value: seq<Byte>) {
    CONTENT_BYTES_MAGIC <= value || SEALED_FILE_MAGIC <= value || SEALED_LOG_MAGIC <= value
  }

  /** The value starts with that ASCII text. */
  predicate Spells(value: seq<Byte>, text: string) {
    |text| <= |value| && forall i :: 0 <= i < |text| ==> value[i] == text[i] as int
  }

  const ENVELOPE := "RYU-CB01"
  const SEALED_FILE := "RYU-SF01"
  const SEALED_LOG := "RYU-SL01"

  /** Such values are not sealed again. */
  predicate IsSealedAlready(value: seq<Byte>) {
    Spells(value, ENVELOPE) || Spells(value, SEALED_FILE) || Spells(value, SEALED_LOG)
  }

  predicate IsMagic(magic: string) {
    && |magic| == 8 && magic[..4] == "RYU-"
    && 'A' <= magic[4] <= 'Z' && 'A' <= magic[5] <= 'Z' && '0' <= magic[6] <= '9' && '0' <= magic[7] <= '9'
  }

  /** It starts like a magic of some kind and version. */
  ghost predicate StartsLikeAMagic(value: seq<Byte>) {
    exists magic :: IsMagic(magic) && Spells(value, magic)
  }

  lemma LooksLikeIffStarts(value: seq<Byte>)
    ensures LooksLikeRyuMagic(value) <==> StartsLikeAMagic(value)
  {
    if LooksLikeRyuMagic(value) {
      var magic := "RYU-" + [value[4] as char, value[5] as char, value[6] as char, value[7] as char];
      assert magic[..4] == "RYU-";
      assert IsMagic(magic);
      assert forall i :: 0 <= i < 4 ==> RYU[i] == value[i];
      assert Spells(value, magic);
    }
    if magic :| IsMagic(magic) && Spells(value, magic) {
      assert forall i :: 0 <= i < 4 ==> magic[i] == magic[..4][i];
      assert value[..4] == RYU;
    }
  }

  lemma SpelledMagics(value: seq<Byte>)
    ensures Spells(value, ENVELOPE) <==> CONTENT_BYTES_MAGIC <= value
    ensures IsSealedAlready(value) <==> StartsWithMagic(value)
  {
    SpelledMagic(value, ENVELOPE, CONTENT_BYTES_MAGIC);
    SpelledMagic(value, SEALED_FILE, SEALED_FILE_MAGIC);
    SpelledMagic(value, SEALED_LOG, SEALED_LOG_MAGIC);
  }

  lemma SpelledMagic(value: seq<Byte>, text: string, magic: seq<Byte>)
    requires |text| == |magic| && forall i :: 0 <= i < |text| ==> magic[i] == text[i] as int
    ensures Spells(value, text) <==> magic <= value
  {
    if magic <= value {
      assert forall i :: 0 <= i < |magic| ==> value[i] == magic[i];
    }
    if Spells(value, text) {
      assert value[..|magic|] == magic;
    }
  }

  /** A blob as bytes, its nonce and then its ciphertext; `decode` also refuses what is
      shorter than a nonce and a tag. */
  datatype BlobCodec = BlobCodec(encode: Blob -> seq<Byte>, decode: seq<Byte> -> Option<Blob>)

  ghost predicate LawfulBlobs(codec: BlobCodec) {
    forall blob :: codec.decode(codec.encode(blob)) == Some(blob)
  }

  // ── The envelope ──────────────────────────────────────────────────────────

  function Enveloped(
    codec: BlobCodec, c: Cipher, plaintext: seq<Byte>, context: ContentContext, nonce: Nonce
  ): seq<Byte>
  {
    CONTENT_BYTES_MAGIC + codec.encode(SealBlob(c, plaintext, context, nonce))
  }

  function SealBytes(
    codec: BlobCodec, c: Cipher, plaintext: seq<Byte>, context: ContentContext, nonce: Nonce
  ): Opened<seq<Byte>>
  {
    if StartsWithMagic(plaintext) then Refused(AlreadyAnEnvelope)
    else Opened(Enveloped(codec, c, plaintext, context, nonce), false)
  }

  function OpenBytes(codec: BlobCodec, c: Cipher, stored: seq<Byte>, context: ContentContext): Opened<seq<Byte>> {
    if CONTENT_BYTES_MAGIC <= stored then
      match codec.decode(stored[|CONTENT_BYTES_MAGIC|..])
      case None => Refused(Malformed)
      case Some(blob) => FirstOpening(CandidateKeys(c), blob, Aad(c.store, context))
    else if LooksLikeRyuMagic(stored) then Refused(UnknownVersion)
    else Opened(stored, stored != [])
  }

  lemma EnvelopeRest(encoded: seq<Byte>)
    ensures CONTENT_BYTES_MAGIC <= CONTENT_BYTES_MAGIC + encoded
    ensures (CONTENT_BYTES_MAGIC + encoded)[|CONTENT_BYTES_MAGIC|..] == encoded
  {
  }

  lemma EnvelopeOpensAsItsBlob(codec: BlobCodec, c: Cipher, blob: Blob, context: ContentContext)
    requires LawfulBlobs(codec)
    ensures OpenBytes(codec, c, CONTENT_BYTES_MAGIC + codec.encode(blob), context)
         == FirstOpening(CandidateKeys(c), blob, Aad(c.store, context))
  {
    EnvelopeRest(codec.encode(blob));
    assert codec.decode(codec.encode(blob)) == Some(blob);
  }

  /** What is sealed opens to itself where it was sealed, under every listed root, and
      nowhere else; only what starts like an envelope, a sealed file or a sealed log is
      not sealed. */
  lemma BytesOpenExactlyWhereTheyWereSealed(
    codec: BlobCodec, root: Key, store: string, path: seq<string>, roots: seq<Key>, context: ContentContext,
    from: Key, store': string, path': seq<string>, context': ContentContext, plaintext: seq<Byte>, nonce: Nonce
  )
    requires LawfulBlobs(codec) && StoreNameOk(store) && StoreNameOk(store')
    requires PartsFit(ContextParts(store, context)) && PartsFit(ContextParts(store', context'))
    ensures var sealed := SealBytes(codec, CipherAt(from, store', path', []), plaintext, context', nonce);
            && (sealed.Refused?
                <==> IsSealedAlready(plaintext))
            && (sealed.Opened? ==>
                  OpenBytes(codec, CipherAt(root, store, path, roots), sealed.value, context)
                  == if store == store' && path == path' && context == context' && (from == root || from in roots)
                  then Opened(plaintext, from != root) else Refused(DoesNotOpen))
  {
    var blob := SealBlob(CipherAt(from, store', path', []), plaintext, context', nonce);
    SpelledMagics(plaintext);
    OpensExactlyWhereItWasSealed(
      root, store, path, roots, context, from, store', path', [], context', plaintext, nonce);
    CipherAtKeys(root, store, path, roots);
    EnvelopeOpensAsItsBlob(codec, CipherAt(root, store, path, roots), blob, context);
  }

  /** An envelope that does not decode or opens under no key is refused. */
  lemma BrokenEnvelopeIsRefused(codec: BlobCodec, c: Cipher, encoded: seq<Byte>, context: ContentContext)
    ensures var stored := CONTENT_BYTES_MAGIC + encoded;
            && (codec.decode(encoded).None? ==> OpenBytes(codec, c, stored, context) == Refused(Malformed))
            && (codec.decode(encoded).Some?
                && FirstOpening(CandidateKeys(c), codec.decode(encoded).value, Aad(c.store, context)).Refused? ==>
                  OpenBytes(codec, c, stored, context).Refused?)
  {
    EnvelopeRest(encoded);
  }

  // ── A store with or without a key ─────────────────────────────────────────

  function StoreBytes(
    codec: BlobCodec, seal: StoreSeal, value: seq<Byte>, context: ContentContext, nonce: Nonce
  ): Opened<seq<Byte>>
  {
    match seal
    case Sealing(cipher) => SealBytes(codec, cipher, value, context, nonce)
    case Compat => if CONTENT_BYTES_MAGIC <= value then Refused(Unwritable) else Opened(value, false)
    case Unhealthy => Refused(Unwritable)
  }

  function ReadBytes(
    codec: BlobCodec, seal: StoreSeal, stored: seq<Byte>, context: ContentContext
  ): Opened<seq<Byte>>
  {
    if seal.Sealing? then OpenBytes(codec, seal.cipher, stored, context)
    else if CONTENT_BYTES_MAGIC <= stored then Refused(NoKey)
    else Opened(stored, false)
  }

  lemma MagicsLookLikeMagics(value: seq<Byte>)
    ensures StartsWithMagic(value) ==> LooksLikeRyuMagic(value)
  {
    if StartsWithMagic(value) {
      var magic :=
        if CONTENT_BYTES_MAGIC <= value then CONTENT_BYTES_MAGIC
        else if SEALED_FILE_MAGIC <= value then SEALED_FILE_MAGIC
        else SEALED_LOG_MAGIC;
      assert magic[..4] == RYU && value[..4] == magic[..4];
      assert value[4] == magic[4] && value[5] == magic[5] && value[6] == magic[6] && value[7] == magic[7];
    }
  }

  /** A value a store takes without a key reads back without one. It still reads back
      once a key arrives if and only if it does not start like a magic of any kind and
      version: the check at the write looks for the content magic only. */
  lemma KeylessBytesSurviveAKeyIff(
    codec: BlobCodec, c: Cipher, value: seq<Byte>, context: ContentContext, nonce: Nonce
  )
    ensures StoreBytes(codec, Compat, value, context, nonce).Opened? <==> !(Spells(value, ENVELOPE))
    ensures var stored := StoreBytes(codec, Compat, value, context, nonce);
            stored.Opened? ==>
              && ReadBytes(codec, Compat, stored.value, context) == Opened(value, false)
              && (ReadBytes(codec, Sealing(c), stored.value, context) == Opened(value, value != [])
                  <==> !StartsLikeAMagic(value))
              && (StartsLikeAMagic(value) ==>
                    ReadBytes(codec, Sealing(c), stored.value, context) == Refused(UnknownVersion))
  {
    SpelledMagics(value);
    MagicsLookLikeMagics(value);
    LooksLikeIffStarts(value);
  }

  /** Such a value: the magic of a sealed file, and anything behind it. */
  lemma KeylessFileHeaderIsLost(
    codec: BlobCodec, c: Cipher, rest: seq<Byte>, context: ContentContext, nonce: Nonce
  )
    ensures StoreBytes(codec, Compat, SEALED_FILE_MAGIC + rest, context, nonce)
         == ReadBytes(codec, Compat, SEALED_FILE_MAGIC + rest, context)
         == Opened(SEALED_FILE_MAGIC + rest, false)
    ensures ReadBytes(codec, Sealing(c), SEALED_FILE_MAGIC + rest, context) == Refused(UnknownVersion)
  {
    var value := SEALED_FILE_MAGIC + rest;
    assert SEALED_FILE_MAGIC <= value;
    MagicsLookLikeMagics(value);
    assert value[4] == SEALED_FILE_MAGIC[4] != CONTENT_BYTES_MAGIC[4];
    SpelledMagics(value);
    LooksLikeIffStarts(value);
    KeylessBytesSurviveAKeyIff(codec, c, value, context, nonce);
  }

  /** A store with a key writes envelopes only, which it reads back with nothing left to
      reseal and a store without the key refuses; a store that is not healthy writes
      nothing; and one without a key writes the value as it is and reads it back. */
  lemma StoredBytesReadBack(
    codec: BlobCodec, seal: StoreSeal, value: seq<Byte>, context: ContentContext, nonce: Nonce
  )
    requires LawfulBlobs(codec)
    ensures var stored := StoreBytes(codec, seal, value, context, nonce);
            && (seal.Unhealthy? ==> stored.Refused?)
            && (seal.Sealing? ==> (stored.Refused? <==> IsSealedAlready(value)))
            && (stored.Opened? ==>
                  !stored.needsReseal && ReadBytes(codec, seal, stored.value, context) == Opened(value, false))
            && (seal.Sealing? && stored.Opened? ==>
                  && Spells(stored.value, ENVELOPE)
                  && ReadBytes(codec, Compat, stored.value, context) == Refused(NoKey)
                  && ReadBytes(codec, Unhealthy, stored.value, context) == Refused(NoKey))
  {
    SpelledMagics(value);
    if seal.Sealing? {
      EnvelopedReads(codec, seal.cipher, value, context, nonce);
    }
  }

  lemma EnvelopedReads(codec: BlobCodec, c: Cipher, value: seq<Byte>, context: ContentContext, nonce: Nonce)
    requires LawfulBlobs(codec)
    ensures var stored := Enveloped(codec, c, value, context, nonce);
            && Spells(stored, ENVELOPE)
            && ReadBytes(codec, Sealing(c), stored, context) == Opened(value, false)
            && ReadBytes(codec, Compat, stored, context) == Refused(NoKey)
            && ReadBytes(codec, Unhealthy, stored, context) == Refused(NoKey)
  {
    var blob := SealBlob(c, value, context, nonce);
    EnvelopeRest(codec.encode(blob));
    SpelledMagics(CONTENT_BYTES_MAGIC + codec.encode(blob));
    EnvelopeOpensAsItsBlob(codec, c, blob, context);
    SealedBlobOpens(c, value, context, nonce);
  }

  // ── The pass over stored values ───────────────────────────────────────────

  function ResealBytes(
    codec: BlobCodec, c: Cipher, stored: seq<Byte>, context: ContentContext, nonce: Nonce
  ): Resealed<seq<Byte>>
  {
    match OpenBytes(codec, c, stored, context)
    case Refused(_) => Unreadable
    case Opened(value, needsReseal) =>
      if !needsReseal then Already
      else match SealBytes(codec, c, value, context, nonce)
           case Refused(_) => Unreadable
           case Opened(sealed, _) => Sealed(sealed)
  }

  /** The pass left a value as it read before: rewritten exactly when it asked for it and
      may be sealed, to a form that reads the same and asks no more. */
  ghost predicate KeptBytes(
    codec: BlobCodec, c: Cipher, context: ContentContext, before: Opened<seq<Byte>>, outcome: Resealed<seq<Byte>>
  )
  {
    match before
    case Refused(_) => outcome == Unreadable
    case Opened(value, needsReseal) =>
      if !needsReseal then outcome == Already
      else if IsSealedAlready(value) then outcome == Unreadable
      else outcome.Sealed? && ReadBytes(codec, Sealing(c), outcome.stored, context) == Opened(value, false)
  }

  /** The pass changes no value; and of the values without an envelope it leaves behind
      only what does not open. */
  lemma ResealingBytesKeepsEveryValue(
    codec: BlobCodec, c: Cipher, stored: seq<Byte>, context: ContentContext, nonce: Nonce
  )
    requires LawfulBlobs(codec)
    ensures KeptBytes(
              codec, c, context, ReadBytes(codec, Sealing(c), stored, context),
              ResealBytes(codec, c, stored, context, nonce))
    ensures !(Spells(stored, ENVELOPE)) ==>
              (ResealBytes(codec, c, stored, context, nonce) == Unreadable <==> StartsLikeAMagic(stored))
  {
    SpelledMagics(stored);
    LooksLikeIffStarts(stored);
    MagicsLookLikeMagics(stored);
    var before := OpenBytes(codec, c, stored, context);
    if before.Opened? { SpelledMagics(before.value); }
    if before.Opened? && before.needsReseal && !StartsWithMagic(before.value) {
      EnvelopeOpensAsItsBlob(codec, c, SealBlob(c, before.value, context, nonce), context);
      SealedBlobOpens(c, before.value, context, nonce);
    }
  }
}
