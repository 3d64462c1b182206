/**
 Text values at rest: the envelope of a content cipher, what a store does with and
 without a key, and the pass that seals legacy values.
 */
module ContentText {
  import opened Options
  import opened Bytes
  import opened Decimal
  import opened Utf8
  import opened AssociatedData
  import opened ContentKeys

  const CONTENT_TEXT_PREFIX := "encb:v1:"
  const CONTENT_TEXT_FAMILY := "encb:"
  const COMPAT_ESCAPE := "encb:raw:"

  /** Base64 of a blob, which is its nonce of twelve bytes and its ciphertext, and the
      UTF-8 reading of a plaintext, as their libraries do them; `decode` also refuses
      what is shorter than a nonce and a tag. */
  datatype Codec = Codec(
    encode: Blob -> string, decode: string -> Option<Blob>, text: seq<Byte> -> Option<string>)

  ghost predicate Lawful(codec: Codec) {
    && (forall blob :: codec.decode(codec.encode(blob)) == Some(blob))
    && (forall s :: codec.text(Encode(s)) == Some(s))
  }

  // ── The envelope ──────────────────────────────────────────────────────────

  function SealText(codec: Codec, c: Cipher, plaintext: string, context: ContentContext, nonce: Nonce): string {
    CONTENT_TEXT_PREFIX + codec.encode(SealBlob(c, Encode(plaintext), context, nonce))
  }

  function DigitsAhead(s: string): (n: nat)
    ensures n <= |s|
  {
    if s != "" && IsDigit(s[0]) then 1 + DigitsAhead(s[1..]) else 0
  }

  /** `v`, digits and a colon: the rest of an envelope prefix of some version. */
  predicate IsVersion(rest: string) {
    if !("v" <= rest) then false
    else
      var digits := DigitsAhead(rest[1..]);
      digits > 0 && 1 + digits < |rest| && rest[1 + digits] == ':'
  }

  predicate IsVersionedFamily(stored: string) {
    CONTENT_TEXT_FAMILY <= stored && IsVersion(stored[|CONTENT_TEXT_FAMILY|..])
  }

  function OpenText(codec: Codec, c: Cipher, stored: string, context: ContentContext): Opened<string> {
    if !(CONTENT_TEXT_PREFIX <= stored) then
      if IsVersionedFamily(stored) then Refused(UnknownVersion)
      else Opened(stored, stored != "")
    else match codec.decode(stored[|CONTENT_TEXT_PREFIX|..])
         case None => Refused(Malformed)
         case Some(blob) =>
           match FirstOpening(CandidateKeys(c), blob, Aad(c.store, context))
           case Refused(why) => Refused(why)
           case Opened(bytes, retired) =>
             match codec.text(bytes)
             case None => Refused(Malformed)
             case Some(value) => Opened(value, retired)
  }

  lemma {:induction false} DigitsAheadStop(digits: string, rest: string)
    requires AllDigits(digits) && (rest != "" ==> !IsDigit(rest[0]))
    ensures DigitsAhead(digits + rest) == |digits|
  {
    var s := digits + rest;
    if digits == "" {
      assert s == rest;
    } else {
      DigitsAheadStop(digits[1..], rest);
      assert s[1..] == digits[1..] + rest;
    }
  }

  lemma {:induction false} DigitsAheadAreDigits(s: string)
    ensures AllDigits(s[..DigitsAhead(s)])
  {
    if s != "" && IsDigit(s[0]) {
      DigitsAheadAreDigits(s[1..]);
      assert s[..DigitsAhead(s)] == [s[0]] + s[1..][..DigitsAhead(s[1..])];
    }
  }

  /** Exactly the texts that begin like an envelope of some version number. */
  lemma VersionsAreNumbers(rest: string)
    ensures IsVersion(rest)
       <==> exists digits, tail :: digits != "" && AllDigits(digits) && rest == "v" + digits + ":" + tail
  {
    if IsVersion(rest) {
      var n := DigitsAhead(rest[1..]);
      DigitsAheadAreDigits(rest[1..]);
      var digits, tail := rest[1..][..n], rest[2 + n..];
      assert rest == "v" + digits + ":" + tail;
    }
    if digits, tail :| digits != "" && AllDigits(digits) && rest == "v" + digits + ":" + tail {
      assert rest[1..] == digits + (":" + tail);
      DigitsAheadStop(digits, ":" + tail);
    }
  }

  /** Every text, also one that looks like an envelope, opens to itself where it was
      sealed, under every listed root, and nowhere else. */
  lemma TextOpensExactlyWhereItWasSealed(
    codec: Codec, root: Key, store: string, path: seq<string>, roots: seq<Key>, context: ContentContext,
    from: Key, store': string, path': seq<string>, context': ContentContext, plaintext: string, nonce: Nonce
  )
    requires Lawful(codec) && StoreNameOk(store) && StoreNameOk(store')
    requires PartsFit(ContextParts(store, context)) && PartsFit(ContextParts(store', context'))
    ensures var sealed := SealText(codec, CipherAt(from, store', path', []), plaintext, context', nonce);
            OpenText(codec, CipherAt(root, store, path, roots), sealed, context)
            == if store == store' && path == path' && context == context' && (from == root || from in roots)
            then Opened(plaintext, from != root) else Refused(DoesNotOpen)
  {
    var bytes := Encode(plaintext);
    var blob := SealBlob(CipherAt(from, store', path', []), bytes, context', nonce);
    EnvelopeRest(codec.encode(blob));
    OpensExactlyWhereItWasSealed(
      root, store, path, roots, context, from, store', path', [], context', bytes, nonce);
    CipherAtKeys(root, store, path, roots);
    assert codec.decode(codec.encode(blob)) == Some(blob) && codec.text(bytes) == Some(plaintext);
  }

  lemma EnvelopeRest(encoded: string)
    ensures CONTENT_TEXT_PREFIX <= CONTENT_TEXT_PREFIX + encoded
    ensures (CONTENT_TEXT_PREFIX + encoded)[|CONTENT_TEXT_PREFIX|..] == encoded
  {
  }

  lemma EnvelopeOpens(
    codec: Codec, c: Cipher, blob: Blob, bytes: seq<Byte>, value: string, context: ContentContext, retired: bool
  )
    requires codec.decode(codec.encode(blob)) == Some(blob) && codec.text(bytes) == Some(value)
    requires FirstOpening(CandidateKeys(c), blob, Aad(c.store, context)) == Opened(bytes, retired)
    ensures OpenText(codec, c, CONTENT_TEXT_PREFIX + codec.encode(blob), context) == Opened(value, retired)
  {
    EnvelopeRest(codec.encode(blob));
  }

  /** What a cipher seals it opens, with nothing left to reseal. */
  lemma SealedTextOpens(codec: Codec, c: Cipher, plaintext: string, context: ContentContext, nonce: Nonce)
    requires Lawful(codec)
    ensures OpenText(codec, c, SealText(codec, c, plaintext, context, nonce), context) == Opened(plaintext, false)
  {
    var blob := SealBlob(c, Encode(plaintext), context, nonce);
    SealedBlobOpens(c, Encode(plaintext), context, nonce);
    EnvelopeOpens(codec, c, blob, Encode(plaintext), plaintext, context, false);
  }

  /** `encb:v`, a version number, a colon and anything. */
  predicate IsOfVersion(stored: string, digits: string, rest: string) {
    digits != "" && AllDigits(digits) && stored == "encb:v" + digits + ":" + rest
  }

  /** A text of another version of the envelope is refused, and so is one of this version
      that does not decode, opens under no key, or is no UTF-8. */
  lemma ForeignTextIsRefused(
    codec: Codec, c: Cipher, stored: string, digits: string, rest: string, context: ContentContext
  )
    requires IsOfVersion(stored, digits, rest)
    ensures digits != "1" ==> OpenText(codec, c, stored, context) == Refused(UnknownVersion)
    ensures digits == "1" && codec.decode(rest).None? ==> OpenText(codec, c, stored, context) == Refused(Malformed)
    ensures digits == "1" && codec.decode(rest).Some? ==>
              match FirstOpening(CandidateKeys(c), codec.decode(rest).value, Aad(c.store, context))
              case Refused(_) => OpenText(codec, c, stored, context).Refused?
              case Opened(bytes, _) =>
                codec.text(bytes).None? ==> OpenText(codec, c, stored, context) == Refused(Malformed)
  {
    var tail := "v" + digits + ":" + rest;
    assert stored == CONTENT_TEXT_FAMILY + tail;
    assert stored[|CONTENT_TEXT_FAMILY|..] == tail;
    VersionsAreNumbers(tail);
    OnlyVersionOneHasThePrefix(stored, digits, rest);
    if digits == "1" { EnvelopeRest(rest); }
  }

  lemma OnlyVersionOneHasThePrefix(stored: string, digits: string, rest: string)
    requires IsOfVersion(stored, digits, rest)
    ensures CONTENT_TEXT_PREFIX <= stored <==> digits == "1"
    ensures digits == "1" ==> stored == CONTENT_TEXT_PREFIX + rest
  {
    assert forall i :: 0 <= i < |digits| ==> stored[6 + i] == digits[i];
    assert stored[6 + |digits|] == ':';
    if digits != "1" {
      assert |digits| == 1 ==> digits[0] != '1';
      assert |digits| > 1 ==> IsDigit(stored[7]);
      assert stored[6] != CONTENT_TEXT_PREFIX[6] || stored[7] != CONTENT_TEXT_PREFIX[7];
    }
  }

  lemma EnvelopesHaveVersions(stored: string)
    requires CONTENT_TEXT_PREFIX <= stored || IsVersionedFamily(stored)
    ensures exists digits, rest :: IsOfVersion(stored, digits, rest)
  {
    if IsVersionedFamily(stored) {
      var tail := stored[|CONTENT_TEXT_FAMILY|..];
      VersionsAreNumbers(tail);
      var digits, rest :| digits != "" && AllDigits(digits) && tail == "v" + digits + ":" + rest;
      assert stored == CONTENT_TEXT_FAMILY + tail;
      assert IsOfVersion(stored, digits, rest);
    } else {
      assert IsOfVersion(stored, "1", stored[|CONTENT_TEXT_PREFIX|..]);
    }
  }

  /** Any other text is legacy: it comes back as it is, asking to be sealed unless it is
      empty. */
  lemma LegacyTextComesBack(codec: Codec, c: Cipher, stored: string, context: ContentContext)
    requires !exists digits, rest :: IsOfVersion(stored, digits, rest)
    ensures OpenText(codec, c, stored, context) == Opened(stored, stored != "")
  {
    if CONTENT_TEXT_PREFIX <= stored || IsVersionedFamily(stored) {
      EnvelopesHaveVersions(stored);
    }
  }

  // ── A store with or without a key ─────────────────────────────────────────

  datatype StoreSeal = Sealing(cipher: Cipher) | Compat | Unhealthy

  function StoreText(
    codec: Codec, seal: StoreSeal, value: string, context: ContentContext, nonce: Nonce
  ): Opened<string>
  {
    match seal
    case Sealing(cipher) => Opened(SealText(codec, cipher, value, context, nonce), false)
    case Compat => Opened(if CONTENT_TEXT_FAMILY <= value then COMPAT_ESCAPE + value else value, false)
    case Unhealthy => Refused(Unwritable)
  }

  function ReadText(codec: Codec, seal: StoreSeal, stored: string, context: ContentContext): Opened<string> {
    if COMPAT_ESCAPE <= stored then Opened(stored[|COMPAT_ESCAPE|..], seal.Sealing?)
    else if seal.Sealing? then OpenText(codec, seal.cipher, stored, context)
    else if CONTENT_TEXT_PREFIX <= stored then Refused(NoKey)
    else Opened(stored, false)
  }

  lemma EscapeIsNoEnvelope(value: string)
    ensures COMPAT_ESCAPE <= COMPAT_ESCAPE + value
    ensures (COMPAT_ESCAPE + value)[|COMPAT_ESCAPE|..] == value
    ensures !(CONTENT_TEXT_PREFIX <= COMPAT_ESCAPE + value)
    ensures !IsVersionedFamily(COMPAT_ESCAPE + value)
  {
    var stored := COMPAT_ESCAPE + value;
    assert stored[5] == 'r' && CONTENT_TEXT_PREFIX[5] == 'v';
    assert stored[|CONTENT_TEXT_FAMILY|..][0] == 'r';
  }

  lemma FamilyIsSharedPrefix(stored: string)
    ensures COMPAT_ESCAPE <= stored || CONTENT_TEXT_PREFIX <= stored ==> CONTENT_TEXT_FAMILY <= stored
    ensures CONTENT_TEXT_PREFIX <= stored ==> !(COMPAT_ESCAPE <= stored)
  {
    if COMPAT_ESCAPE <= stored {
      assert stored[5] == COMPAT_ESCAPE[5];
      assert stored[..5] == COMPAT_ESCAPE[..5] == CONTENT_TEXT_FAMILY;
    }
    if CONTENT_TEXT_PREFIX <= stored {
      assert stored[5] == CONTENT_TEXT_PREFIX[5];
      assert stored[..5] == CONTENT_TEXT_PREFIX[..5] == CONTENT_TEXT_FAMILY;
    }
  }

  /** A text written without a key reads back unchanged without a key, and still does
      once a key arrives, then asking to be sealed unless it is empty. */
  lemma KeylessTextSurvivesAKey(codec: Codec, c: Cipher, value: string, context: ContentContext, nonce: Nonce)
    ensures var stored := StoreText(codec, Compat, value, context, nonce);
            && stored.Opened?
            && ReadText(codec, Compat, stored.value, context) == Opened(value, false)
            && ReadText(codec, Unhealthy, stored.value, context) == Opened(value, false)
            && ReadText(codec, Sealing(c), stored.value, context) == Opened(value, value != "")
  {
    FamilyIsSharedPrefix(value);
    EscapeIsNoEnvelope(value);
  }

  datatype Resealed<T> = Sealed(stored: T) | Already | Unreadable

  /** The pass over stored values once a key is held. */
  function ResealValue(
    codec: Codec, c: Cipher, stored: string, context: ContentContext, nonce: Nonce
  ): Resealed<string>
  {
    match OpenText(codec, c, stored, context)
    case Refused(_) => Unreadable
    case Opened(value, needsReseal) =>
      if !needsReseal then Already
      else
        var plain :=
          if CONTENT_TEXT_PREFIX <= stored then value
          else if COMPAT_ESCAPE <= value then value[|COMPAT_ESCAPE|..]
          else value;
        Sealed(SealText(codec, c, plain, context, nonce))
  }

  lemma ReadingAnother(codec: Codec, c: Cipher, stored: string, context: ContentContext)
    requires !(COMPAT_ESCAPE <= stored)
    ensures ReadText(codec, Sealing(c), stored, context) == OpenText(codec, c, stored, context)
  {
  }

  lemma SealedHasPrefix(codec: Codec, c: Cipher, value: string, context: ContentContext, nonce: Nonce)
    ensures CONTENT_TEXT_PREFIX <= SealText(codec, c, value, context, nonce)
    ensures !(COMPAT_ESCAPE <= SealText(codec, c, value, context, nonce))
  {
    EnvelopeRest(codec.encode(SealBlob(c, Encode(value), context, nonce)));
    FamilyIsSharedPrefix(SealText(codec, c, value, context, nonce));
  }

  lemma SealedReads(codec: Codec, c: Cipher, value: string, context: ContentContext, nonce: Nonce)
    requires Lawful(codec)
    ensures ReadText(codec, Sealing(c), SealText(codec, c, value, context, nonce), context) == Opened(value, false)
  {
    SealedTextOpens(codec, c, value, context, nonce);
    SealedHasPrefix(codec, c, value, context, nonce);
    ReadingAnother(codec, c, SealText(codec, c, value, context, nonce), context);
  }

  /** A store with a key writes envelopes only, which it reads back with nothing left to
      reseal and a store without the key refuses; a store that is not healthy writes
      nothing; and one without a key writes what it reads back. */
  lemma StoredTextReadsBack(codec: Codec, seal: StoreSeal, value: string, context: ContentContext, nonce: Nonce)
    requires Lawful(codec)
    ensures var stored := StoreText(codec, seal, value, context, nonce);
            && (stored.Refused? <==> seal.Unhealthy?)
            && (stored.Opened? ==>
                  !stored.needsReseal && ReadText(codec, seal, stored.value, context) == Opened(value, false))
            && (seal.Sealing? ==>
                  && CONTENT_TEXT_PREFIX <= stored.value
                  && ReadText(codec, Compat, stored.value, context) == Refused(NoKey)
                  && ReadText(codec, Unhealthy, stored.value, context) == Refused(NoKey))
  {
    if seal.Sealing? {
      SealedReads(codec, seal.cipher, value, context, nonce);
      SealedHasPrefix(codec, seal.cipher, value, context, nonce);
      EnvelopeNeedsAKey(codec, SealText(codec, seal.cipher, value, context, nonce), context);
    } else if seal.Compat? {
      KeylessTextReadsBack(codec, value, context, nonce);
    }
  }

  lemma EnvelopeNeedsAKey(codec: Codec, stored: string, context: ContentContext)
    requires CONTENT_TEXT_PREFIX <= stored
    ensures ReadText(codec, Compat, stored, context) == ReadText(codec, Unhealthy, stored, context) == Refused(NoKey)
  {
    FamilyIsSharedPrefix(stored);
  }

  lemma KeylessTextReadsBack(codec: Codec, value: string, context: ContentContext, nonce: Nonce)
    ensures var stored := StoreText(codec, Compat, value, context, nonce);
            && stored == Opened(if CONTENT_TEXT_FAMILY <= value then COMPAT_ESCAPE + value else value, false)
            && ReadText(codec, Compat, stored.value, context) == Opened(value, false)
  {
    FamilyIsSharedPrefix(value);
    EscapeIsNoEnvelope(value);
  }

  lemma ResealingAnEscape(codec: Codec, c: Cipher, value: string, context: ContentContext, nonce: Nonce)
    ensures ResealValue(codec, c, COMPAT_ESCAPE + value, context, nonce)
         == Sealed(SealText(codec, c, value, context, nonce))
  {
    EscapeIsNoEnvelope(value);
  }

  lemma ResealingAnother(codec: Codec, c: Cipher, stored: string, context: ContentContext, nonce: Nonce)
    requires !(COMPAT_ESCAPE <= stored)
    ensures ResealValue(codec, c, stored, context, nonce)
         == match OpenText(codec, c, stored, context)
            case Refused(_) => Unreadable
            case Opened(value, needsReseal) =>
              if needsReseal then Sealed(SealText(codec, c, value, context, nonce)) else Already
  {
    match OpenText(codec, c, stored, context)
    case Refused(_) =>
    case Opened(value, needsReseal) =>
      if !(CONTENT_TEXT_PREFIX <= stored) {
        assert value == stored;
      }
  }

  /** The pass left a value as it read before: rewritten exactly when it asked for
      it, to a form that reads the same and asks no more. */
  ghost predicate Kept(
    codec: Codec, c: Cipher, context: ContentContext, before: Opened<string>, outcome: Resealed<string>
  )
  {
    match before
    case Refused(_) => outcome == Unreadable
    case Opened(value, needsReseal) =>
      if needsReseal
      then outcome.Sealed? && ReadText(codec, Sealing(c), outcome.stored, context) == Opened(value, false)
      else outcome == Already
  }

  lemma SealedIsKept(codec: Codec, c: Cipher, value: string, context: ContentContext, nonce: Nonce)
    requires Lawful(codec)
    ensures Kept(codec, c, context, Opened(value, true), Sealed(SealText(codec, c, value, context, nonce)))
  {
    SealedReads(codec, c, value, context, nonce);
  }

  /** The pass changes no readable value and leaves what does not open alone. */
  lemma ResealingKeepsEveryValue(codec: Codec, c: Cipher, stored: string, context: ContentContext, nonce: Nonce)
    requires Lawful(codec)
    ensures Kept(
              codec, c, context, ReadText(codec, Sealing(c), stored, context),
              ResealValue(codec, c, stored, context, nonce))
  {
    if COMPAT_ESCAPE <= stored {
      var value := stored[|COMPAT_ESCAPE|..];
      assert stored == COMPAT_ESCAPE + value;
      ResealingAnEscape(codec, c, value, context, nonce);
      SealedIsKept(codec, c, value, context, nonce);
    } else {
      ResealingAnother(codec, c, stored, context, nonce);
      ReadingAnother(codec, c, stored, context);
      var result := OpenText(codec, c, stored, context);
      if result.Opened? && result.needsReseal {
        SealedIsKept(codec, c, result.value, context, nonce);
      }
    }
  }
}
