/**
 The keys of a content cipher: derivation by store and label path, retired roots,
 and which sealed blobs open. HKDF (section 2 of RFC 5869), HMAC and the AEAD
 (section 2.8 of RFC 8439) are ideal: a derived key, a check value and a box are
 terms, so they are equal only when everything that went into them is.
 */
module ContentKeys {
  import opened Options
  import opened Bytes
  import opened AssociatedData

  const CONTENT_KDF_SALT := "ryu-content-crypto-v1"
  const CONTENT_KDF_INFO_PREFIX := "ryu-content-crypto-v1:"
  const SUB_KDF_SALT := "ryu-content-sub-v1"
  const SUB_KDF_INFO_PREFIX := "ryu-content-sub-v1:"

  datatype Key = Root(id: nat) | Derived(ikm: Key, salt: string, info: string)

  datatype Kcv = Kcv(root: Key)

  datatype ContentKey = ContentKey(key: Key, rootKcv: Kcv)

  datatype Cipher = Cipher(store: string, labels: seq<string>, current: ContentKey, retired: seq<ContentKey>)

  const NONCE_LEN := 12

  type Nonce = nonce: seq<Byte> | |nonce| == NONCE_LEN witness [0, 0, 0, 0, 0, 0, 0, 0, 0, 0, 0, 0]

  datatype Ciphertext =
    | Box(key: Key, nonce: Nonce, aad: seq<Byte>, plaintext: seq<Byte>)
    | NoBox(id: nat)

  datatype Blob = Blob(nonce: Nonce, ciphertext: Ciphertext)

  datatype Refusal = UnknownVersion | DoesNotOpen | Malformed | NoKey | Unwritable | AlreadyAnEnvelope

  datatype Opened<T> = Opened(value: T, needsReseal: bool) | Refused(why: Refusal)

  // ── Derivation ────────────────────────────────────────────────────────────

  function DeriveContentKey(root: Key, store: string): Key {
    Derived(root, CONTENT_KDF_SALT, CONTENT_KDF_INFO_PREFIX + store)
  }

  function DeriveSubKey(key: Key, name: string): Key {
    Derived(key, SUB_KDF_SALT, SUB_KDF_INFO_PREFIX + name)
  }

  /** The key of a store under a root, then one level down for each label. */
  function KeyAt(root: Key, store: string, labels: seq<string>): Key {
    if labels == [] then DeriveContentKey(root, store)
    else DeriveSubKey(KeyAt(root, store, labels[..|labels| - 1]), labels[|labels| - 1])
  }

  lemma SamePrefix(prefix: string, a: string, b: string)
    requires prefix + a == prefix + b
    ensures a == b
  {
    assert (prefix + a)[|prefix|..] == a && (prefix + b)[|prefix|..] == b;
  }

  /** Different roots, stores or label paths never share a key. */
  lemma {:induction false} KeyAtIsInjective(
    root: Key, store: string, labels: seq<string>, root': Key, store': string, labels': seq<string>
  )
    requires KeyAt(root, store, labels) == KeyAt(root', store', labels')
    ensures root == root' && store == store' && labels == labels'
    decreases |labels|
  {
    assert |CONTENT_KDF_SALT| != |SUB_KDF_SALT|;
    if labels == [] {
      assert labels' == [];
      SamePrefix(CONTENT_KDF_INFO_PREFIX, store, store');
    } else {
      assert labels' != [];
      var n, m := |labels| - 1, |labels'| - 1;
      SamePrefix(SUB_KDF_INFO_PREFIX, labels[n], labels'[m]);
      KeyAtIsInjective(root, store, labels[..n], root', store', labels'[..m]);
      assert labels[..n] + [labels[n]] == labels && labels'[..m] + [labels'[m]] == labels';
    }
  }

  predicate StoreNameOk(store: string) {
    0 < |store| <= 128 && forall i :: 0 <= i < |store| ==> '!' <= store[i] <= '~'
  }

  function FromRoot(root: Key, store: string): Cipher
    requires StoreNameOk(store)
  {
    Cipher(store, [], ContentKey(DeriveContentKey(root, store), Kcv(root)), [])
  }

  function SubKeys(keys: seq<ContentKey>, name: string): (subs: seq<ContentKey>)
    ensures |subs| == |keys|
    ensures forall i :: 0 <= i < |keys| ==> subs[i] == ContentKey(DeriveSubKey(keys[i].key, name), keys[i].rootKcv)
  {
    seq(|keys|, i requires 0 <= i < |keys| => ContentKey(DeriveSubKey(keys[i].key, name), keys[i].rootKcv))
  }

  function Subcipher(c: Cipher, name: string): Cipher {
    Cipher(
      c.store, c.labels + [name],
      ContentKey(DeriveSubKey(c.current.key, name), c.current.rootKcv), SubKeys(c.retired, name))
  }

  function Nest(c: Cipher, path: seq<string>): Cipher
    decreases |path|
  {
    if path == [] then c else Nest(Subcipher(c, path[0]), path[1..])
  }

  // ── Retired roots ─────────────────────────────────────────────────────────

  predicate HasKcv(keys: seq<ContentKey>, kcv: Kcv) {
    exists i :: 0 <= i < |keys| && keys[i].rootKcv == kcv
  }

  /** The roots that are kept: neither the current one nor one already kept. */
  function RetiredKeys(store: string, labels: seq<string>, current: Kcv, roots: seq<Key>): seq<ContentKey> {
    if roots == [] then []
    else
      var kept := RetiredKeys(store, labels, current, roots[..|roots| - 1]);
      var root := roots[|roots| - 1];
      if Kcv(root) == current || HasKcv(kept, Kcv(root)) then kept
      else kept + [ContentKey(KeyAt(root, store, labels), Kcv(root))]
  }

  function Retiring(c: Cipher, roots: seq<Key>): Cipher {
    c.(retired := RetiredKeys(c.store, c.labels, c.current.rootKcv, roots))
  }

  method DeriveAlong(root: Key, store: string, labels: seq<string>) returns (key: Key)
    ensures key == KeyAt(root, store, labels)
  {
    key := DeriveContentKey(root, store);
    for level := 0 to |labels|
      invariant key == KeyAt(root, store, labels[..level])
    {
      assert labels[..level + 1][..level] == labels[..level];
      key := DeriveSubKey(key, labels[level]);
    }
    assert labels[..|labels|] == labels;
  }

  method WithRetiredRoots(c: Cipher, roots: seq<Key>) returns (able: Cipher)
    ensures able == Retiring(c, roots)
  {
    var retired: seq<ContentKey> := [];
    for next := 0 to |roots|
      invariant retired == RetiredKeys(c.store, c.labels, c.current.rootKcv, roots[..next])
    {
      assert roots[..next + 1][..next] == roots[..next];
      var kcv := Kcv(roots[next]);
      if kcv == c.current.rootKcv || HasKcv(retired, kcv) {
        continue;
      }
      var key := DeriveAlong(roots[next], c.store, c.labels);
      retired := retired + [ContentKey(key, kcv)];
    }
    assert roots[..|roots|] == roots;
    able := c.(retired := retired);
  }

  /** Once each: exactly the listed roots other than the current one. */
  lemma {:induction false} RetiredKeysAreTheOtherRoots(
    store: string, labels: seq<string>, current: Key, roots: seq<Key>
  )
    ensures var kept := RetiredKeys(store, labels, Kcv(current), roots);
            && (forall i :: 0 <= i < |kept| ==>
                              && kept[i].rootKcv.root in roots && kept[i].rootKcv.root != current
                              && kept[i].key == KeyAt(kept[i].rootKcv.root, store, labels))
            && (forall root :: root in roots && root != current ==> HasKcv(kept, Kcv(root)))
            && (forall i, j :: 0 <= i < j < |kept| ==> kept[i].rootKcv != kept[j].rootKcv)
    decreases |roots|
  {
    if roots != [] {
      var front, last := roots[..|roots| - 1], roots[|roots| - 1];
      RetiredKeysAreTheOtherRoots(store, labels, current, front);
      var before := RetiredKeys(store, labels, Kcv(current), front);
      var kept := RetiredKeys(store, labels, Kcv(current), roots);
      assert forall root :: root in roots <==> root in front || root == last;
      assert forall i :: 0 <= i < |before| ==> kept[i] == before[i];
      forall root | root in roots && root != current ensures HasKcv(kept, Kcv(root)) {
        if root in front {
          var i :| 0 <= i < |before| && before[i].rootKcv == Kcv(root);
          assert kept[i].rootKcv == Kcv(root);
        } else if !HasKcv(before, Kcv(last)) {
          assert kept[|before|].rootKcv == Kcv(last);
        } else {
          assert kept == before;
        }
      }
    }
  }

  lemma {:induction false} RetiredOneLevelDown(
    store: string, labels: seq<string>, name: string, current: Kcv, roots: seq<Key>
  )
    ensures SubKeys(RetiredKeys(store, labels, current, roots), name)
         == RetiredKeys(store, labels + [name], current, roots)
    decreases |roots|
  {
    if roots != [] {
      var front, last := roots[..|roots| - 1], roots[|roots| - 1];
      RetiredOneLevelDown(store, labels, name, current, front);
      var kept := RetiredKeys(store, labels, current, front);
      SameKcvs(kept, SubKeys(kept, name), Kcv(last));
      assert (labels + [name])[..|labels|] == labels;
      assert KeyAt(last, store, labels + [name]) == DeriveSubKey(KeyAt(last, store, labels), name);
    }
  }

  lemma SameKcvs(keys: seq<ContentKey>, others: seq<ContentKey>, kcv: Kcv)
    requires |keys| == |others| && forall i :: 0 <= i < |keys| ==> keys[i].rootKcv == others[i].rootKcv
    ensures HasKcv(keys, kcv) == HasKcv(others, kcv)
  {
    if i :| 0 <= i < |keys| && keys[i].rootKcv == kcv {
      assert others[i].rootKcv == kcv;
    }
    if i :| 0 <= i < |others| && others[i].rootKcv == kcv {
      assert keys[i].rootKcv == kcv;
    }
  }

  lemma SubcipherFollowsRetired(c: Cipher, name: string, roots: seq<Key>)
    ensures Subcipher(Retiring(c, roots), name) == Retiring(Subcipher(c, name), roots)
  {
    RetiredOneLevelDown(c.store, c.labels, name, c.current.rootKcv, roots);
  }

  /** Attaching retired roots before nesting is attaching them after. */
  lemma {:induction false} RetiringCommutesWithNesting(c: Cipher, path: seq<string>, roots: seq<Key>)
    ensures Nest(Retiring(c, roots), path) == Retiring(Nest(c, path), roots)
    decreases |path|
  {
    if path != [] {
      SubcipherFollowsRetired(c, path[0], roots);
      RetiringCommutesWithNesting(Subcipher(c, path[0]), path[1..], roots);
    }
  }

  lemma {:induction false} NestedKeys(c: Cipher, root: Key, path: seq<string>)
    requires c.current == ContentKey(KeyAt(root, c.store, c.labels), Kcv(root))
    ensures Nest(c, path).store == c.store && Nest(c, path).labels == c.labels + path
    ensures Nest(c, path).current == ContentKey(KeyAt(root, c.store, c.labels + path), Kcv(root))
    decreases |path|
  {
    if path == [] {
      assert c.labels + path == c.labels;
    } else {
      assert (c.labels + [path[0]])[..|c.labels|] == c.labels;
      NestedKeys(Subcipher(c, path[0]), root, path[1..]);
      assert (c.labels + [path[0]]) + path[1..] == c.labels + path;
    }
  }

  // ── Sealing and opening blobs ─────────────────────────────────────────────

  function SealBlob(c: Cipher, plaintext: seq<Byte>, context: ContentContext, nonce: Nonce): Blob {
    Blob(nonce, Box(c.current.key, nonce, Aad(c.store, context), plaintext))
  }

  function OpenWith(key: Key, blob: Blob, aad: seq<Byte>): Option<seq<Byte>> {
    match blob.ciphertext
    case Box(k, nonce, a, plaintext) => if k == key && nonce == blob.nonce && a == aad then Some(plaintext) else None
    case NoBox(_) => None
  }

  /** The current key first, then the retired ones, with a retired flag. */
  function CandidateKeys(c: Cipher): (candidates: seq<(ContentKey, bool)>)
    ensures |candidates| == 1 + |c.retired| && candidates[0] == (c.current, false)
    ensures forall i :: 0 <= i < |c.retired| ==> candidates[i + 1] == (c.retired[i], true)
  {
    [(c.current, false)] + seq(|c.retired|, i requires 0 <= i < |c.retired| => (c.retired[i], true))
  }

  function FirstOpening(candidates: seq<(ContentKey, bool)>, blob: Blob, aad: seq<Byte>): Opened<seq<Byte>> {
    if candidates == [] then Refused(DoesNotOpen)
    else match OpenWith(candidates[0].0.key, blob, aad)
         case Some(plaintext) => Opened(plaintext, candidates[0].1)
         case None => FirstOpening(candidates[1..], blob, aad)
  }

  method TryKeys(candidates: seq<(ContentKey, bool)>, blob: Blob, aad: seq<Byte>) returns (result: Opened<seq<Byte>>)
    ensures result == FirstOpening(candidates, blob, aad)
  {
    var next := 0;
    while next < |candidates|
      invariant 0 <= next <= |candidates|
      invariant FirstOpening(candidates[next..], blob, aad) == FirstOpening(candidates, blob, aad)
    {
      var plaintext := OpenWith(candidates[next].0.key, blob, aad);
      if plaintext.Some? {
        return Opened(plaintext.value, candidates[next].1);
      }
      next := next + 1;
    }
    return Refused(DoesNotOpen);
  }

  method OpenBlob(c: Cipher, blob: Blob, context: ContentContext) returns (result: Opened<seq<Byte>>)
    ensures result == FirstOpening(CandidateKeys(c), blob, Aad(c.store, context))
  {
    var aad := AssociatedDataOf(context, c.store);
    result := TryKeys(CandidateKeys(c), blob, aad);
  }

  /** When every candidate with the right key carries the same flag, that flag and
      the box decide the result. */
  lemma {:induction false} FirstOpeningDecides(
    candidates: seq<(ContentKey, bool)>, nonce: Nonce, box: Ciphertext, aad: seq<Byte>, flag: bool
  )
    requires box.Box? && box.nonce == nonce
    requires forall i :: 0 <= i < |candidates| && candidates[i].0.key == box.key ==> candidates[i].1 == flag
    ensures FirstOpening(candidates, Blob(nonce, box), aad)
         == if box.aad == aad && exists i :: 0 <= i < |candidates| && candidates[i].0.key == box.key
            then Opened(box.plaintext, flag) else Refused(DoesNotOpen)
  {
    if candidates != [] && candidates[0].0.key != box.key {
      FirstOpeningDecides(candidates[1..], nonce, box, aad, flag);
      if i :| 0 <= i < |candidates| && candidates[i].0.key == box.key {
        assert candidates[1..][i - 1].0.key == box.key;
      }
    } else if candidates != [] && box.aad != aad {
      FirstOpeningDecides(candidates[1..], nonce, box, aad, flag);
    }
  }

  lemma FirstCandidateOpens(candidates: seq<(ContentKey, bool)>, nonce: Nonce, aad: seq<Byte>, plaintext: seq<Byte>)
    requires candidates != []
    ensures FirstOpening(candidates, Blob(nonce, Box(candidates[0].0.key, nonce, aad, plaintext)), aad)
         == Opened(plaintext, candidates[0].1)
  {
  }

  lemma SealedBlobOpens(c: Cipher, plaintext: seq<Byte>, context: ContentContext, nonce: Nonce)
    ensures FirstOpening(CandidateKeys(c), SealBlob(c, plaintext, context, nonce), Aad(c.store, context))
         == Opened(plaintext, false)
  {
    FirstCandidateOpens(CandidateKeys(c), nonce, Aad(c.store, context), plaintext);
  }

  /** The cipher of a store under a root, nested along a path, that also opens what
      was sealed under other roots. */
  function CipherAt(root: Key, store: string, path: seq<string>, roots: seq<Key>): Cipher
    requires StoreNameOk(store)
  {
    Retiring(Nest(FromRoot(root, store), path), roots)
  }

  lemma CipherAtKeys(root: Key, store: string, path: seq<string>, roots: seq<Key>)
    requires StoreNameOk(store)
    ensures var c := CipherAt(root, store, path, roots);
            && c.store == store
            && c.current == ContentKey(KeyAt(root, store, path), Kcv(root))
            && c.retired == RetiredKeys(store, path, Kcv(root), roots)
  {
    NestedKeys(FromRoot(root, store), root, path);
    assert [] + path == path;
  }

  /** Some candidate has the key of `from` along the sealing path exactly when the
      paths agree and the root is listed; then its flag says whether it is retired. */
  lemma CandidatesHoldTheRoots(
    root: Key, store: string, path: seq<string>, roots: seq<Key>, from: Key, store': string, path': seq<string>
  )
    requires StoreNameOk(store)
    ensures var candidates := CandidateKeys(CipherAt(root, store, path, roots));
            var key := KeyAt(from, store', path');
            && ((exists i :: 0 <= i < |candidates| && candidates[i].0.key == key)
                <==> store == store' && path == path' && (from == root || from in roots))
            && (forall i :: 0 <= i < |candidates| && candidates[i].0.key == key ==> candidates[i].1 == (from != root))
  {
    var c := CipherAt(root, store, path, roots);
    var candidates, key := CandidateKeys(c), KeyAt(from, store', path');
    CipherAtKeys(root, store, path, roots);
    RetiredKeysAreTheOtherRoots(store, path, root, roots);
    forall i | 0 <= i < |candidates| && candidates[i].0.key == key
      ensures store == store' && path == path' && (from == root || from in roots) && candidates[i].1 == (from != root)
    {
      var owner := candidates[i].0.rootKcv.root;
      if i > 0 { assert candidates[i] == (c.retired[i - 1], true); }
      KeyAtIsInjective(owner, store, path, from, store', path');
    }
    if store == store' && path == path' && (from == root || from in roots) {
      if from == root {
        assert candidates[0].0.key == key;
      } else {
        var i :| 0 <= i < |c.retired| && c.retired[i].rootKcv == Kcv(from);
        assert candidates[i + 1].0.key == key;
      }
    }
  }

  /** A value opens exactly at its own store, path and context under a listed root,
      to its own bytes, flagged for resealing exactly when that root is not the
      current one. */
  lemma OpensExactlyWhereItWasSealed(
    root: Key, store: string, path: seq<string>, roots: seq<Key>, context: ContentContext,
    from: Key, store': string, path': seq<string>, roots': seq<Key>, context': ContentContext,
    plaintext: seq<Byte>, nonce: Nonce
  )
    requires StoreNameOk(store) && StoreNameOk(store')
    requires PartsFit(ContextParts(store, context)) && PartsFit(ContextParts(store', context'))
    ensures var blob := SealBlob(CipherAt(from, store', path', roots'), plaintext, context', nonce);
            FirstOpening(CandidateKeys(CipherAt(root, store, path, roots)), blob, Aad(store, context))
            == if store == store' && path == path' && context == context' && (from == root || from in roots)
            then Opened(plaintext, from != root) else Refused(DoesNotOpen)
  {
    CipherAtKeys(from, store', path', roots');
    CandidatesHoldTheRoots(root, store, path, roots, from, store', path');
    if Aad(store', context') == Aad(store, context) {
      AadIsInjective(store, context, store', context');
    }
    var box := Box(KeyAt(from, store', path'), nonce, Aad(store', context'), plaintext);
    var candidates := CandidateKeys(CipherAt(root, store, path, roots));
    FirstOpeningDecides(candidates, nonce, box, Aad(store, context), from != root);
  }

  /** What was sealed opens only behind its own nonce, and what nobody sealed not at all. */
  lemma {:induction false} TamperedBlobDoesNotOpen(candidates: seq<(ContentKey, bool)>, blob: Blob, aad: seq<Byte>)
    requires blob.ciphertext.Box? ==> blob.nonce != blob.ciphertext.nonce
    ensures FirstOpening(candidates, blob, aad) == Refused(DoesNotOpen)
  {
    if candidates != [] {
      TamperedBlobDoesNotOpen(candidates[1..], blob, aad);
    }
  }

  /** A store name is one to 128 printable ASCII characters without spaces. */
  lemma StoreNames(store: string)
    ensures StoreNameOk(store) <==> store != "" && |store| <= 128 && forall c :: c in store ==> 0x21 <= c as int < 0x7F
  {
    if store != "" && |store| <= 128 && forall c :: c in store ==> 0x21 <= c as int < 0x7F {
      forall i | 0 <= i < |store| ensures '!' <= store[i] <= '~' {
        assert store[i] in store;
      }
    }
  }

  datatype KcvMatch = Current | Retired | Unknown

  function MatchKcv(c: Cipher, kcv: Kcv): KcvMatch {
    if kcv == c.current.rootKcv then Current
    else if HasKcv(c.retired, kcv) then Retired
    else Unknown
  }

  /** A recorded check value is classified by what its root can still do: seal and
      open, only open, or nothing. */
  lemma MatchKcvClassifiesRoots(root: Key, store: string, path: seq<string>, roots: seq<Key>, from: Key)
    requires StoreNameOk(store)
    ensures MatchKcv(CipherAt(root, store, path, roots), Kcv(from))
         == if from == root then Current else if from in roots then Retired else Unknown
  {
    CipherAtKeys(root, store, path, roots);
    RetiredKeysAreTheOtherRoots(store, path, root, roots);
  }
}
