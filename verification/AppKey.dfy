/**
 The key of an application's own slot: the custody ladder (environment, keychain,
 key file), the guard on generating a key, and the recorded check value that pins
 which key is current. One launch is one call; what the operating system answers
 during it is given by `Launch`.
 */
module AppKey {
  import opened Options
  import opened ContentKeys

  datatype KeyFile = NoFile | FileKey(key: Key) | BadFile

  datatype Entry = NoEntry | Holds(key: Key) | Garbage

  datatype Record = NoRecord | Recorded(kcv: Kcv) | UnreadableRecord

  datatype Source = Env | Keychain | File

  datatype KeychainState = HasKey(key: Key) | Empty | Corrupt | Unavailable

  /** The environment key, when set, may not decode. */
  datatype EnvValue = NotSet | Decoded(key: Key) | Undecodable

  /** What one launch meets: the environment key, whether the keychain answers and
      takes a key, what it answers after taking one, whether the host allows the
      key file, the random key to use when one is generated, whether sealed files of the slot exist, a key
      another process may publish first, and which writes succeed. */
  datatype Launch = Launch(
    env: EnvValue, reachable: bool, writable: bool, afterStore: KeychainState, allowFile: bool,
    generated: Key, sealedFiles: bool, published: Option<Key>, fileWrites: bool, removes: bool, recordWrites: bool)

  /** What outlives a launch. */
  datatype Disk = Disk(file: KeyFile, keychain: Entry, record: Record)

  datatype Climb = Climbed(key: Key, source: Source) | Stuck

  datatype Resolution = Resolved(key: Key, retired: seq<Key>) | Refusal

  // ── The ladder ────────────────────────────────────────────────────────────

  function StateOf(entry: Entry): KeychainState {
    match entry
    case NoEntry => Empty
    case Holds(key) => HasKey(key)
    case Garbage => Corrupt
  }

  function EntryAfterStore(after: KeychainState, stored: Key): Entry {
    match after
    case HasKey(key) => Holds(key)
    case Empty => NoEntry
    case Corrupt => Garbage
    case Unavailable => Holds(stored)
  }

  /** A fresh key may be made unless the keychain was unavailable and the slot shows
      signs of use. */
  predicate MayGenerate(record: Record, unavailable: bool, sealedFiles: bool) {
    unavailable ==> record.NoRecord? && !sealedFiles
  }

  /** Where a climb ends: its outcome, the key file and keychain it leaves, and what
      it saw of the keychain. */
  datatype Rung = Rung(climb: Climb, file: KeyFile, keychain: Entry, unavailable: bool, held: Option<Key>)

  function Written(l: Launch, key: Key): (Option<Key>, KeyFile) {
    if l.published.Some? then (l.published, FileKey(l.published.value))
    else if l.fileWrites then (Some(key), FileKey(key))
    else (None, NoFile)
  }

  function WrittenRung(l: Launch, key: Key, keychain: Entry, unavailable: bool): Rung {
    var (onDisk, file) := Written(l, key);
    Rung(if onDisk.Some? then Climbed(onDisk.value, File) else Stuck, file, keychain, unavailable, None)
  }

  /** The keychain's key counts, and its copy in the key file goes. */
  function KeychainRung(l: Launch, file: KeyFile, key: Key): Rung {
    if file != FileKey(key) then Rung(Climbed(key, Keychain), file, Holds(key), false, Some(key))
    else if l.removes then Rung(Climbed(key, Keychain), NoFile, Holds(key), false, Some(key))
    else Rung(Stuck, file, Holds(key), false, Some(key))
  }

  function EmptyRung(l: Launch, file: KeyFile): Rung
    requires !file.BadFile?
  {
    var key := if file.FileKey? then file.key else l.generated;
    if l.writable then
      if l.afterStore == HasKey(key) then KeychainRung(l, file, key)
      else Rung(
             Stuck, file, EntryAfterStore(l.afterStore, key), l.afterStore.Unavailable?,
             if l.afterStore.HasKey? then Some(l.afterStore.key) else None)
    else if !l.allowFile then Rung(Stuck, file, NoEntry, false, None)
    else if file.FileKey? then Rung(Climbed(key, File), file, NoEntry, false, None)
    else WrittenRung(l, key, NoEntry, false)
  }

  function UnavailableRung(l: Launch, d: Disk): Rung
    requires !d.file.BadFile?
  {
    if !l.allowFile then Rung(Stuck, d.file, d.keychain, true, None)
    else if d.file.FileKey? then Rung(Climbed(d.file.key, File), d.file, d.keychain, true, None)
    else if !MayGenerate(d.record, true, l.sealedFiles) then Rung(Stuck, d.file, d.keychain, true, None)
    else WrittenRung(l, l.generated, d.keychain, true)
  }

  function Ladder(l: Launch, d: Disk): Rung {
    if l.env.Decoded? then Rung(Climbed(l.env.key, Env), d.file, d.keychain, false, None)
    else if l.env.Undecodable? || d.file.BadFile? then Rung(Stuck, d.file, d.keychain, false, None)
    else if !l.reachable then UnavailableRung(l, d)
    else match d.keychain
         case Holds(key) => KeychainRung(l, d.file, key)
         case Garbage => Rung(Stuck, d.file, d.keychain, false, None)
         case NoEntry => EmptyRung(l, d.file)
  }

  // ── The resolver ──────────────────────────────────────────────────────────

  function EnvKey(l: Launch): Option<Key> {
    if l.env.Decoded? then Some(l.env.key) else None
  }

  function KeyIn(file: KeyFile): Option<Key> {
    if file.FileKey? then Some(file.key) else None
  }

  /** The keys in sight added to the candidates, each once, in order. */
  function Gathered(candidates: seq<Key>, inSight: seq<Option<Key>>): seq<Key> {
    if inSight == [] then candidates
    else
      var before, last := Gathered(candidates, inSight[..|inSight| - 1]), inSight[|inSight| - 1];
      if last.Some? && last.value !in before then before + [last.value] else before
  }

  function Candidates(l: Launch, rung: Rung): seq<Key>
    requires rung.climb.Climbed?
  {
    Gathered([rung.climb.key], [EnvKey(l), rung.held, if l.allowFile then KeyIn(rung.file) else None])
  }

  function WithKcv(candidates: seq<Key>, kcv: Kcv): Option<Key> {
    if candidates == [] then None
    else if Kcv(candidates[0]) == kcv then Some(candidates[0])
    else WithKcv(candidates[1..], kcv)
  }

  function Without(candidates: seq<Key>, key: Key): seq<Key> {
    if candidates == [] then []
    else (if candidates[0] == key then [] else [candidates[0]]) + Without(candidates[1..], key)
  }

  /** The current key among the candidates, or none when the launch must fail. */
  function Pinned(record: Record, rung: Rung, candidates: seq<Key>): Option<Key>
    requires rung.climb.Climbed?
  {
    var ladderKey := rung.climb.key;
    if record.Recorded? && record.kcv != Kcv(ladderKey) && !rung.climb.source.Env? then
      if WithKcv(candidates, record.kcv).Some? then WithKcv(candidates, record.kcv)
      else if rung.climb.source.File? && rung.unavailable then None
      else Some(ladderKey)
    else Some(ladderKey)
  }

  function Resolve(l: Launch, d: Disk): (Resolution, Disk) {
    var rung := Ladder(l, d);
    var after := Disk(rung.file, rung.keychain, d.record);
    if rung.climb.Stuck? then (Refusal, after)
    else
      var candidates := Candidates(l, rung);
      match Pinned(d.record, rung, candidates)
      case None => (Refusal, after)
      case Some(key) =>
        var record := if d.record == Recorded(Kcv(key)) || !l.recordWrites then d.record else Recorded(Kcv(key));
        (Resolved(key, Without(candidates, key)), after.(record := record))
  }

  class Slot {
    var file: KeyFile
    var keychain: Entry
    var record: Record
    /** What this launch has seen of the keychain. */
    var unavailable: bool
    var held: Option<Key>

    constructor (disk: Disk)
      ensures Contents() == disk && !unavailable && held == None
    {
      file, keychain, record := disk.file, disk.keychain, disk.record;
      unavailable, held := false, None;
    }

    ghost function Contents(): Disk
      reads this
    {
      Disk(file, keychain, record)
    }

    /** A reading of the keychain, remembered. */
    method Get(state: KeychainState)
      modifies this`unavailable, this`held
      ensures unavailable == (old(unavailable) || state.Unavailable?)
      ensures held == if state.HasKey? then Some(state.key) else old(held)
    {
      match state {
        case Unavailable => unavailable := true;
        case HasKey(key) => held := Some(key);
        case Empty =>
        case Corrupt =>
      }
    }

    /** Publishes a key file unless one is there, or another process is first. The key
        it returns is the one on disk, so no caller seals under a key kept nowhere. */
    method WriteKeyFile(l: Launch, key: Key) returns (onDisk: Option<Key>)
      modifies this`file
      ensures onDisk.Some? ==> file == FileKey(onDisk.value)
      ensures onDisk.None? ==> file == old(file)
      ensures old(file).FileKey? ==> onDisk == Some(old(file).key)
      ensures old(file).BadFile? ==> onDisk == None
      ensures old(file).NoFile? && l.published.Some? ==> onDisk == l.published
      ensures old(file).NoFile? && l.published.None? ==> onDisk == if l.fileWrites then Some(key) else None
    {
      if file.NoFile? && l.published.Some? {
        file := FileKey(l.published.value);
      }
      match file {
        case FileKey(existing) => return Some(existing);
        case BadFile => return None;
        case NoFile =>
      }
      if !l.fileWrites {
        return None;
      }
      file := FileKey(key);
      return Some(key);
    }

    /** Removes the key file when it holds the keychain's own key. A file that cannot be
        read fails the launch; a different key stays. */
    method RetireMatching(l: Launch, key: Key) returns (ok: bool)
      modifies this`file
      ensures ok <==> !old(file).BadFile? && (old(file) == FileKey(key) ==> l.removes)
      ensures file == if old(file) == FileKey(key) && l.removes then NoFile else old(file)
    {
      if file.BadFile? {
        return false;
      }
      if file != FileKey(key) {
        return true;
      }
      if !l.removes {
        return false;
      }
      file := NoFile;
      return true;
    }

    method LoadGuarded(l: Launch) returns (climb: Climb)
      requires !unavailable && held == None
      modifies this`file, this`keychain, this`unavailable, this`held
      ensures Rung(climb, file, keychain, unavailable, held) == Ladder(l, old(Contents()))
    {
      match l.env {
        case Decoded(key) => return Climbed(key, Env);
        case Undecodable => return Stuck;
        case NotSet =>
      }
      if file.BadFile? {
        return Stuck;
      }
      var first := if l.reachable then StateOf(keychain) else Unavailable;
      Get(first);
      match first {
        case HasKey(key) =>
          var ok := RetireMatching(l, key);
          return if ok then Climbed(key, Keychain) else Stuck;
        case Corrupt =>
          return Stuck;
        case Empty =>
          var key := if file.FileKey? then file.key else l.generated;
          if l.writable {
            keychain := EntryAfterStore(l.afterStore, key);
            Get(l.afterStore);
            if l.afterStore != HasKey(key) {
              return Stuck;
            }
            var ok := RetireMatching(l, key);
            return if ok then Climbed(key, Keychain) else Stuck;
          }
          if !l.allowFile {
            return Stuck;
          }
          if file.FileKey? {
            return Climbed(file.key, File);
          }
          var onDisk := WriteKeyFile(l, key);
          return if onDisk.Some? then Climbed(onDisk.value, File) else Stuck;
        case Unavailable =>
          if !l.allowFile {
            return Stuck;
          }
          if file.FileKey? {
            return Climbed(file.key, File);
          }
          if !MayGenerate(record, unavailable, l.sealedFiles) {
            return Stuck;
          }
          var onDisk := WriteKeyFile(l, l.generated);
          return if onDisk.Some? then Climbed(onDisk.value, File) else Stuck;
      }
    }

    /** One launch: climb, gather every key in sight, pin the recorded one, record. */
    method ResolveAppKey(l: Launch) returns (resolution: Resolution)
      requires !unavailable && held == None
      modifies this
      ensures (resolution, Contents()) == Resolve(l, old(Contents()))
    {
      var recorded := record;
      var climb := LoadGuarded(l);
      if climb.Stuck? {
        return Refusal;
      }
      var inSight := [EnvKey(l), held, if l.allowFile then KeyIn(file) else None];
      var candidates := [climb.key];
      for next := 0 to |inSight|
        invariant candidates == Gathered([climb.key], inSight[..next])
      {
        assert inSight[..next + 1][..next] == inSight[..next];
        if inSight[next].Some? && inSight[next].value !in candidates {
          candidates := candidates + [inSight[next].value];
        }
      }
      assert inSight[..|inSight|] == inSight;
      var key := climb.key;
      if recorded.Recorded? && recorded.kcv != Kcv(key) && !climb.source.Env? {
        var pinned := WithKcv(candidates, recorded.kcv);
        if pinned.Some? {
          key := pinned.value;
        } else if climb.source.File? && unavailable {
          return Refusal;
        }
      }
      if recorded != Recorded(Kcv(key)) && l.recordWrites {
        record := Recorded(Kcv(key));
      }
      return Resolved(key, Without(candidates, key));
    }
  }
}
