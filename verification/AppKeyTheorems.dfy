/** What the app-key resolver promises, for one launch and over many. */
module AppKeyTheorems {
  import opened Options
  import opened ContentKeys
  import opened AppKey

  // ── The candidate list ────────────────────────────────────────────────────

  ghost predicate NoDuplicates(keys: seq<Key>) {
    forall i, j :: 0 <= i < j < |keys| ==> keys[i] != keys[j]
  }

  lemma {:induction false} GatheredKeys(first: Key, inSight: seq<Option<Key>>)
    ensures var keys := Gathered([first], inSight);
            && NoDuplicates(keys)
            && (forall key :: key in keys <==> key == first || Some(key) in inSight)
    decreases |inSight|
  {
    if inSight != [] {
      var front, last := inSight[..|inSight| - 1], inSight[|inSight| - 1];
      GatheredKeys(first, front);
      assert forall key: Key :: Some(key) in inSight <==> Some(key) in front || last == Some(key);
    }
  }

  lemma HeadIsNew(keys: seq<Key>)
    requires keys != [] && NoDuplicates(keys)
    ensures keys[0] !in keys[1..] && NoDuplicates(keys[1..])
  {
    forall i | 0 <= i < |keys| - 1 ensures keys[1..][i] != keys[0] {
      assert keys[1..][i] == keys[i + 1];
    }
  }

  lemma NewHead(head: Key, keys: seq<Key>)
    requires head !in keys && NoDuplicates(keys)
    ensures NoDuplicates([head] + keys)
  {
  }

  lemma {:induction false} WithoutOne(keys: seq<Key>, key: Key)
    requires NoDuplicates(keys)
    ensures NoDuplicates(Without(keys, key))
    ensures forall k :: k in Without(keys, key) <==> k in keys && k != key
  {
    if keys != [] {
      HeadIsNew(keys);
      WithoutOne(keys[1..], key);
      var rest := Without(keys[1..], key);
      assert forall k :: k in keys <==> k == keys[0] || k in keys[1..];
      if keys[0] == key {
        assert Without(keys, key) == [] + rest == rest;
      } else {
        NewHead(keys[0], rest);
        assert Without(keys, key) == [keys[0]] + rest;
      }
    }
  }

  lemma {:induction false} WithKcvFinds(keys: seq<Key>, kcv: Kcv)
    ensures WithKcv(keys, kcv) == if kcv.root in keys then Some(kcv.root) else None
  {
    if keys != [] {
      WithKcvFinds(keys[1..], kcv);
    }
  }

  /** A key this launch can see: in the environment, in a keychain it could ask, or
      in a key file it may use. */
  ghost predicate InSight(l: Launch, d: Disk, key: Key) {
    || EnvKey(l) == Some(key)
    || (l.env.NotSet? && l.reachable && d.keychain == Holds(key))
    || (l.allowFile && d.file == FileKey(key))
  }

  ghost predicate InSightOf(l: Launch, rung: Rung, key: Key) {
    || EnvKey(l) == Some(key)
    || rung.held == Some(key)
    || (l.allowFile && rung.file == FileKey(key))
  }

  /** The ladder's own key is always kept somewhere that outlives the launch or was
      given from outside. */
  lemma LadderKeyIsKept(l: Launch, d: Disk, key: Key)
    requires Ladder(l, d).climb.Climbed?
    ensures var rung := Ladder(l, d);
            && InSightOf(l, rung, rung.climb.key)
            && (InSightOf(l, rung, key) <==> InSight(l, Disk(rung.file, rung.keychain, d.record), key))
  {
  }

  lemma CandidatesAreInSight(l: Launch, d: Disk)
    requires Ladder(l, d).climb.Climbed?
    ensures var rung := Ladder(l, d);
            && NoDuplicates(Candidates(l, rung))
            && (forall key :: key in Candidates(l, rung) <==> InSight(l, Disk(rung.file, rung.keychain, d.record), key))
  {
    var rung := Ladder(l, d);
    var inSight := [EnvKey(l), rung.held, if l.allowFile then KeyIn(rung.file) else None];
    GatheredKeys(rung.climb.key, inSight);
    forall key ensures key in Candidates(l, rung) <==> InSight(l, Disk(rung.file, rung.keychain, d.record), key) {
      LadderKeyIsKept(l, d, key);
      assert Some(key) in inSight <==> InSightOf(l, rung, key);
    }
  }

  // ── One launch ────────────────────────────────────────────────────────────

  /** The current and the retired keys are, once each, exactly the keys in sight
      when the launch ends: nothing is sealed under a key that is kept nowhere. */
  lemma EveryKeyInSightOpens(l: Launch, d: Disk)
    ensures var (resolution, after) := Resolve(l, d);
            resolution.Resolved? ==>
              && NoDuplicates([resolution.key] + resolution.retired)
              && (forall key :: key in [resolution.key] + resolution.retired <==> InSight(l, after, key))
  {
    var (resolution, after) := Resolve(l, d);
    if resolution.Resolved? {
      var rung := Ladder(l, d);
      var candidates := Candidates(l, rung);
      CandidatesAreInSight(l, d);
      if d.record.Recorded? { WithKcvFinds(candidates, d.record.kcv); }
      LadderKeyIsKept(l, d, rung.climb.key);
      WithoutOne(candidates, resolution.key);
      var all := [resolution.key] + resolution.retired;
      forall key ensures key in all <==> InSight(l, after, key) {
        assert key in all <==> key == resolution.key || key in resolution.retired;
        assert InSight(l, after, key) <==> InSight(l, Disk(rung.file, rung.keychain, d.record), key);
      }
    }
  }

  /** Without an environment key the recorded key is chosen exactly when it is in
      sight; an environment key is always chosen. */
  lemma RecordedKeyIsChosenWhenInSight(l: Launch, d: Disk)
    ensures var (resolution, after) := Resolve(l, d);
            resolution.Resolved? ==>
              && (l.env.Decoded? ==> resolution.key == l.env.key)
              && (!l.env.Decoded? && d.record.Recorded? ==>
                    (resolution.key == d.record.kcv.root <==> InSight(l, after, d.record.kcv.root)))
              && (l.recordWrites ==> after.record == Recorded(Kcv(resolution.key)))
  {
    var (resolution, after) := Resolve(l, d);
    if resolution.Resolved? && d.record.Recorded? {
      var rung := Ladder(l, d);
      CandidatesAreInSight(l, d);
      WithKcvFinds(Candidates(l, rung), d.record.kcv);
      assert InSight(l, after, d.record.kcv.root)
        <==> InSight(l, Disk(rung.file, rung.keychain, d.record), d.record.kcv.root);
    }
  }

  // ── When a launch succeeds ────────────────────────────────────────────────

  /** A new key file can be had: another process publishes one, or the write succeeds. */
  predicate FileCanBeHad(l: Launch) {
    l.published.Some? || l.fileWrites
  }

  /** The keychain is locked: only a file that may be used serves, the recorded one or
      any when there is no readable record; a new one only in a slot never used. */
  predicate LockedSucceeds(l: Launch, d: Disk) {
    && l.allowFile
    && match d.file
       case FileKey(key) => d.record.Recorded? ==> d.record.kcv == Kcv(key)
       case NoFile => d.record.NoRecord? && !l.sealedFiles && FileCanBeHad(l)
       case BadFile => false
  }

  /** The keychain is open and empty: a key goes into it and must read back, or it takes
      none and a file may be used. */
  predicate EmptySucceeds(l: Launch, d: Disk) {
    match d.file
    case FileKey(key) => if l.writable then l.afterStore == HasKey(key) && l.removes else l.allowFile
    case NoFile => if l.writable then l.afterStore == HasKey(l.generated) else l.allowFile && FileCanBeHad(l)
    case BadFile => false
  }

  /** Exactly when a launch succeeds, from what it meets. */
  lemma LaunchSucceedsIff(l: Launch, d: Disk)
    ensures Resolve(l, d).0.Resolved?
       <==> match l.env
            case Decoded(_) => true
            case Undecodable => false
            case NotSet =>
              && !d.file.BadFile?
              && if !l.reachable then LockedSucceeds(l, d)
                 else match d.keychain
                      case Holds(key) => d.file == FileKey(key) ==> l.removes
                      case Garbage => false
                      case NoEntry => EmptySucceeds(l, d)
  {
    if l.env.NotSet? && !l.reachable && d.file.FileKey? && l.allowFile {
      OnlyTheFile(l, Ladder(l, d));
      if d.record.Recorded? { WithKcvFinds([d.file.key], d.record.kcv); }
    }
  }

  /** Without a readable record the first source that has a key decides: environment,
      keychain, key file; and a slot with none gets the new key or the one another process
      published first. What it resolved is kept where the next launch finds it. */
  lemma WithoutARecordTheFirstSourceDecides(l: Launch, d: Disk)
    requires !d.record.Recorded? && Resolve(l, d).0.Resolved?
    ensures var (resolution, after) := Resolve(l, d);
            && (l.env.Decoded? ==> resolution.key == l.env.key)
            && (!l.env.Decoded? && l.reachable && d.keychain.Holds? ==> resolution.key == d.keychain.key)
            && (!l.env.Decoded? && !(l.reachable && d.keychain.Holds?) && d.file.FileKey? ==>
                  resolution.key == d.file.key)
            && (!l.env.Decoded? && !(l.reachable && d.keychain.Holds?) && d.file.NoFile? ==>
                  && (resolution.key == l.generated || l.published == Some(resolution.key))
                  && (after.keychain == Holds(resolution.key) || after.file == FileKey(resolution.key)))
  {
  }

  /** With a readable record and the keychain out of reach, the launch returns the
      recorded key when the usable key file holds it, fails in every other case, and
      changes nothing. */
  lemma LockedKeychainNeverSwitchesKeys(l: Launch, d: Disk)
    requires l.env.NotSet? && !l.reachable && d.record.Recorded?
    ensures Resolve(l, d)
         == if l.allowFile && d.file == FileKey(d.record.kcv.root)
            then (Resolved(d.record.kcv.root, []), d) else (Refusal, d)
  {
    if l.allowFile && d.file.FileKey? {
      var rung := Ladder(l, d);
      var candidates := Candidates(l, rung);
      assert candidates == [d.file.key] by { OnlyTheFile(l, rung); }
      WithKcvFinds(candidates, d.record.kcv);
      assert Without([d.file.key], d.file.key) == [];
    }
  }

  lemma OnlyTheFile(l: Launch, rung: Rung)
    requires l.env.NotSet? && l.allowFile && rung.held == None && rung.climb.Climbed?
    requires rung.file == FileKey(rung.climb.key)
    ensures Candidates(l, rung) == [rung.climb.key]
  {
    var inSight := [None, None, Some(rung.climb.key)];
    assert inSight[..2] == [None, None] && inSight[..2][..1] == [None] && inSight[..2][..1][..0] == [];
    assert Gathered([rung.climb.key], inSight[..2][..1]) == [rung.climb.key];
    assert Gathered([rung.climb.key], inSight[..2]) == [rung.climb.key];
  }

  /** A slot with any sign of use gets no new key while its keychain is locked: only
      the key already in a usable key file may serve, and nothing is written but the
      record. */
  lemma UsedSlotGetsNoNewKeyWhileLocked(l: Launch, d: Disk)
    requires l.env.NotSet? && !l.reachable && (d.record != NoRecord || l.sealedFiles)
    ensures var (resolution, after) := Resolve(l, d);
            && after.file == d.file && after.keychain == d.keychain
            && (resolution.Resolved? ==>
                  l.allowFile && d.file == FileKey(resolution.key) && resolution.retired == [])
  {
    if l.allowFile && d.file.FileKey? {
      OnlyTheFile(l, Ladder(l, d));
      assert Without([d.file.key], d.file.key) == [];
      if d.record.Recorded? { WithKcvFinds([d.file.key], d.record.kcv); }
    }
  }

  // ── Many launches ─────────────────────────────────────────────────────────

  /** Launching again under the same conditions gives the same keys and changes
      nothing more. */
  lemma RepeatedLaunchIsAFixedPoint(l: Launch, d: Disk)
    requires Resolve(l, d).0.Resolved?
    ensures Resolve(l, Resolve(l, d).1) == Resolve(l, d)
  {
    var rung := Ladder(l, d);
    var (resolution, after) := Resolve(l, d);
    LadderAgain(l, d, after.record);
    var again := Ladder(l, after);
    CandidatesAgain(l, rung, again);
    WithKcvFinds(Candidates(l, rung), Kcv(resolution.key));
    CandidatesAreInSight(l, d);
    LadderKeyIsKept(l, d, rung.climb.key);
    if d.record.Recorded? { WithKcvFinds(Candidates(l, rung), d.record.kcv); }
  }

  lemma LadderAgain(l: Launch, d: Disk, record: Record)
    requires Ladder(l, d).climb.Climbed?
    ensures var rung := Ladder(l, d);
            var again := Ladder(l, Disk(rung.file, rung.keychain, record));
            && again.climb == rung.climb && again.file == rung.file && again.keychain == rung.keychain
            && again.held == rung.held && again.unavailable == rung.unavailable
  {
  }

  lemma CandidatesAgain(l: Launch, rung: Rung, again: Rung)
    requires rung.climb.Climbed? && again.climb == rung.climb && again.file == rung.file && again.held == rung.held
    ensures Candidates(l, again) == Candidates(l, rung)
  {
  }

  /** The disk after some launches. */
  ghost function After(d: Disk, launches: seq<Launch>): Disk
    decreases |launches|
  {
    if launches == [] then d else After(Resolve(launches[0], d).1, launches[1..])
  }

  /** The recorded key is kept in the keychain or in the key file. */
  ghost predicate KeyIsKept(d: Disk, key: Key) {
    d.record == Recorded(Kcv(key)) && (d.keychain == Holds(key) || d.file == FileKey(key))
  }

  /** The keychain answers with another key and the file may not be used. */
  predicate Switches(l: Launch, d: Disk, key: Key) {
    l.reachable && !l.allowFile && d.keychain.Holds? && d.keychain.key != key
  }

  /** A launch that does not switch keeps the key, and succeeds only with it. */
  lemma KeptKeyStays(l: Launch, d: Disk, key: Key)
    requires l.env.NotSet? && KeyIsKept(d, key) && !Switches(l, d, key)
    ensures var (resolution, after) := Resolve(l, d);
            KeyIsKept(after, key) && (resolution.Resolved? ==> resolution.key == key)
  {
    if !l.reachable {
      LockedKeychainNeverSwitchesKeys(l, d);
    } else {
      var rung := Ladder(l, d);
      var (resolution, after) := Resolve(l, d);
      assert rung.keychain == Holds(key) || rung.file == FileKey(key);
      if resolution.Resolved? {
        RecordedKeyIsChosenWhenInSight(l, d);
        assert InSight(l, after, key);
      }
    }
  }

  /** A launch that switches succeeds with the keychain's key, which is kept from
      then on if it could be recorded. */
  lemma SwitchingLaunchSwitches(l: Launch, d: Disk, key: Key)
    requires l.env.NotSet? && KeyIsKept(d, key) && Switches(l, d, key)
    ensures var (resolution, after) := Resolve(l, d);
            && resolution == Resolved(d.keychain.key, [])
            && after == d.(record := if l.recordWrites then Recorded(Kcv(d.keychain.key)) else d.record)
  {
    var other := d.keychain.key;
    OnlyTheKeychain(l, Ladder(l, d));
    WithKcvFinds([other], Kcv(key));
    assert Without([other], other) == [];
  }

  lemma OnlyTheKeychain(l: Launch, rung: Rung)
    requires l.env.NotSet? && !l.allowFile && rung.climb.Climbed? && rung.held == Some(rung.climb.key)
    ensures Candidates(l, rung) == [rung.climb.key]
  {
    var inSight := [None, rung.held, None];
    assert inSight[..2] == [None, rung.held] && inSight[..2][..1] == [None] && inSight[..2][..1][..0] == [];
    assert Gathered([rung.climb.key], inSight[..2][..1]) == [rung.climb.key];
    assert Gathered([rung.climb.key], inSight[..2]) == [rung.climb.key];
  }

  /** Exactly when the recorded key that is kept stays the current one: the launch
      must not meet another key in the keychain while the file is forbidden. */
  lemma KeptKeyIsReturnedIff(l: Launch, d: Disk, key: Key)
    requires l.env.NotSet? && KeyIsKept(d, key) && Resolve(l, d).0.Resolved?
    ensures Resolve(l, d).0.key == key
       <==> !(l.reachable && !l.allowFile && d.keychain.Holds? && d.keychain.key != key)
  {
    if Switches(l, d, key) {
      SwitchingLaunchSwitches(l, d, key);
    } else {
      KeptKeyStays(l, d, key);
    }
  }

  /** What launch `i` of a sequence meets and how it ends. */
  ghost function Before(d: Disk, launches: seq<Launch>, i: nat): Disk
    requires i < |launches|
  {
    After(d, launches[..i])
  }

  ghost predicate EndsWith(d: Disk, launches: seq<Launch>, i: nat, key: Key)
    requires i < |launches|
  {
    var resolution := Resolve(launches[i], Before(d, launches, i)).0;
    resolution.Refusal? || resolution.key == key
  }

  lemma BeforeOfRest(d: Disk, launches: seq<Launch>, i: nat)
    requires 0 < i < |launches|
    ensures Before(d, launches, i) == Before(Resolve(launches[0], d).1, launches[1..], i - 1)
    ensures launches[i] == launches[1..][i - 1]
  {
    assert launches[..i][1..] == launches[1..][..i - 1];
  }

  /** Over launches under any policies and whatever the keychain answers: all of them
      fail or return the kept key if and only if none of them switches. */
  lemma {:induction false} KeptKeyStaysOverLaunchesIff(d: Disk, launches: seq<Launch>, key: Key)
    requires KeyIsKept(d, key)
    requires forall l :: l in launches ==> l.env.NotSet?
    ensures (forall i: nat :: i < |launches| ==> EndsWith(d, launches, i, key))
       <==> (forall i: nat :: i < |launches| ==> !Switches(launches[i], Before(d, launches, i), key))
    ensures (forall i: nat :: i < |launches| ==> EndsWith(d, launches, i, key)) ==> KeyIsKept(After(d, launches), key)
    decreases |launches|
  {
    if launches != [] {
      var next, rest := Resolve(launches[0], d).1, launches[1..];
      assert launches[..0] == [] && Before(d, launches, 0) == d;
      if Switches(launches[0], d, key) {
        SwitchingLaunchSwitches(launches[0], d, key);
        assert !EndsWith(d, launches, 0, key);
      } else {
        KeptKeyStays(launches[0], d, key);
        KeptKeyStaysOverLaunchesIff(next, rest, key);
        forall i: nat | 0 < i < |launches|
          ensures EndsWith(d, launches, i, key) == EndsWith(next, rest, i - 1, key)
          ensures Before(d, launches, i) == Before(next, rest, i - 1) && launches[i] == rest[i - 1]
        {
          BeforeOfRest(d, launches, i);
        }
        forall i: nat | i < |rest|
          ensures EndsWith(next, rest, i, key) == EndsWith(d, launches, i + 1, key)
          ensures Before(next, rest, i) == Before(d, launches, i + 1) && rest[i] == launches[i + 1]
        {
          BeforeOfRest(d, launches, i + 1);
        }
      }
    }
  }

  /** After a launch that succeeded and recorded its key, the later ones all fail or
      return that key if and only if none of them switches. */
  lemma KeyIsPinnedOverLaunchesIff(d: Disk, first: Launch, launches: seq<Launch>)
    requires first.env.NotSet? && first.recordWrites && Resolve(first, d).0.Resolved?
    requires forall l :: l in launches ==> l.env.NotSet?
    ensures var (resolution, after) := Resolve(first, d);
            (forall i: nat :: i < |launches| ==> EndsWith(after, launches, i, resolution.key))
            <==> (forall i: nat :: i < |launches| ==>
                                     !Switches(launches[i], Before(after, launches, i), resolution.key))
  {
    var (resolution, after) := Resolve(first, d);
    EveryKeyInSightOpens(first, d);
    RecordedKeyIsChosenWhenInSight(first, d);
    assert resolution.key in [resolution.key] + resolution.retired;
    assert InSight(first, after, resolution.key);
    KeptKeyStaysOverLaunchesIff(after, launches, resolution.key);
  }

  /** The keychain keeps a key it holds, so the key a launch switched to is never
      switched away from again. */
  lemma {:induction false} SwitchIsForGood(d: Disk, launches: seq<Launch>, key: Key)
    requires KeyIsKept(d, key) && d.keychain == Holds(key)
    requires forall l :: l in launches ==> l.env.NotSet?
    ensures forall i: nat :: i < |launches| ==> EndsWith(d, launches, i, key)
    decreases |launches|
  {
    if launches != [] {
      var next, rest := Resolve(launches[0], d).1, launches[1..];
      assert launches[..0] == [] && Before(d, launches, 0) == d;
      KeptKeyStays(launches[0], d, key);
      assert next.keychain == Holds(key);
      SwitchIsForGood(next, rest, key);
      forall i: nat | i < |launches| ensures EndsWith(d, launches, i, key) {
        if i > 0 {
          BeforeOfRest(d, launches, i);
          assert EndsWith(next, rest, i - 1, key);
        }
      }
    }
  }

  /** The file policy matters: with a different key in the keychain, one launch that
      forbids the file switches to it, and every later launch under any policy fails
      or returns the key it switched to. */
  lemma ForbiddingTheFileSwitchesKeys(l: Launch, inKeychain: Key, inFile: Key, later: seq<Launch>)
    requires l.env.NotSet? && l.reachable && l.recordWrites && inKeychain != inFile
    requires forall m :: m in later ==> m.env.NotSet?
    ensures var d := Disk(FileKey(inFile), Holds(inKeychain), Recorded(Kcv(inFile)));
            var switched := Resolve(l.(allowFile := false), d);
            && Resolve(l.(allowFile := true), d) == (Resolved(inFile, [inKeychain]), d)
            && switched == (Resolved(inKeychain, []), d.(record := Recorded(Kcv(inKeychain))))
            && (forall i: nat :: i < |later| ==> EndsWith(switched.1, later, i, inKeychain))
  {
    var d := Disk(FileKey(inFile), Holds(inKeychain), Recorded(Kcv(inFile)));
    var without := l.(allowFile := false);
    AllowedFileKeepsItsKey(l.(allowFile := true), inKeychain, inFile);
    SwitchingLaunchSwitches(without, d, inFile);
    SwitchIsForGood(Resolve(without, d).1, later, inKeychain);
  }

  lemma AllowedFileKeepsItsKey(l: Launch, inKeychain: Key, inFile: Key)
    requires l.env.NotSet? && l.reachable && l.allowFile && inKeychain != inFile
    ensures var d := Disk(FileKey(inFile), Holds(inKeychain), Recorded(Kcv(inFile)));
            Resolve(l, d) == (Resolved(inFile, [inKeychain]), d)
  {
    var d := Disk(FileKey(inFile), Holds(inKeychain), Recorded(Kcv(inFile)));
    var rung := Ladder(l, d);
    assert rung == Rung(Climbed(inKeychain, Keychain), d.file, d.keychain, false, Some(inKeychain));
    KeychainThenFile(l, rung);
    WithKcvFinds([inKeychain, inFile], Kcv(inFile));
    assert Pinned(d.record, rung, [inKeychain, inFile]) == Some(inFile);
    assert Without([inFile], inFile) == [];
    assert [inKeychain, inFile][1..] == [inFile];
    assert Without([inKeychain, inFile], inFile) == [inKeychain] + [] == [inKeychain];
  }

  lemma KeychainThenFile(l: Launch, rung: Rung)
    requires l.env.NotSet? && l.allowFile && rung.climb.Climbed? && rung.held == Some(rung.climb.key)
    requires rung.file.FileKey? && rung.file.key != rung.climb.key
    ensures Candidates(l, rung) == [rung.climb.key, rung.file.key]
  {
    var inSight := [None, rung.held, KeyIn(rung.file)];
    assert inSight[..2] == [None, rung.held] && inSight[..2][..1] == [None] && inSight[..2][..1][..0] == [];
    assert Gathered([rung.climb.key], inSight[..2][..1]) == [rung.climb.key];
    assert Gathered([rung.climb.key], inSight[..2]) == [rung.climb.key];
  }
}
