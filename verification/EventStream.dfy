/**
 The model-stream reader: bytes arrive in arbitrary chunks, are cut into frames
 at blank lines, and each frame yields at most one item.
 */
module EventStream {
  import opened Options
  import opened Bytes
  import opened Sequences
  import opened Whitespace

  const NEWLINE: Byte := 10

  datatype Item =
    | TextDelta(requestId: string, delta: string)
    | Completed(requestId: string)
    | Failed(requestId: string, code: string, message: string)
    | TransportError(reason: string)
    | ProtocolError(reason: string)

  datatype FrameResult = Yield(item: Item) | Skip

  /** What `serde_json` makes of the data of a frame. */
  datatype Json = NotJson | StreamEvent(item: Item) | ErrorObject | OtherJson

  datatype Chunk = Data(bytes: seq<Byte>) | Broken(reason: string)

  predicate IsEvent(item: Item) {
    item.TextDelta? || item.Completed? || item.Failed?
  }

  /** Everything but a text delta ends the stream. */
  predicate IsTerminal(item: Item) {
    !item.TextDelta?
  }

  // ── One frame ─────────────────────────────────────────────────────────────

  function Line(text: string): (line: string)
    ensures line <= text
  {
    if text == "" || text[0] == '\n' then "" else [text[0]] + Line(text[1..])
  }

  /** The data of the first line that starts with `data:`, or nothing. */
  function FirstData(text: string): string
    decreases |text|
  {
    var line := Line(text);
    if "data:" <= line then Trim(line[5..])
    else if |line| == |text| then ""
    else FirstData(text[|line| + 1..])
  }

  function ParseFrame(
    utf8: seq<Byte> -> Option<string>, json: string -> Json, requestId: string, frame: seq<Byte>
  ): FrameResult
  {
    match utf8(frame)
    case None => Yield(ProtocolError("stream frame is not UTF-8"))
    case Some(text) =>
      var data := FirstData(text);
      if data == "" then Skip
      else if data == "[DONE]" then Yield(Completed(requestId))
      else match json(data)
           case NotJson => Yield(ProtocolError("stream frame is not valid JSON"))
           case StreamEvent(item) => if IsEvent(item) then Yield(item) else Skip
           case ErrorObject => Yield(Failed(requestId, "providerError", "model stream failed"))
           case OtherJson => Skip
  }

  // ── The whole stream at once ──────────────────────────────────────────────

  /** The first window of two newlines. */
  function FindBoundary(buffer: seq<Byte>): (position: Option<nat>)
    ensures position.Some? ==> position.value + 2 <= |buffer|
  {
    if |buffer| < 2 then None
    else if buffer[0] == buffer[1] == NEWLINE then Some(0)
    else match FindBoundary(buffer[1..])
         case None => None
         case Some(p) => Some(p + 1)
  }

  lemma {:induction false} BoundaryIsLeftmost(buffer: seq<Byte>, p: nat)
    ensures FindBoundary(buffer) == Some(p)
       <==> && p + 2 <= |buffer| && buffer[p] == buffer[p + 1] == NEWLINE
            && (forall i :: 0 <= i < p ==> !(buffer[i] == buffer[i + 1] == NEWLINE))
  {
    if |buffer| >= 2 && !(buffer[0] == buffer[1] == NEWLINE) && p > 0 {
      BoundaryIsLeftmost(buffer[1..], p - 1);
      if FindBoundary(buffer) == Some(p) {
        forall i | 0 <= i < p ensures !(buffer[i] == buffer[i + 1] == NEWLINE) {
          if i > 0 { assert !(buffer[1..][i - 1] == buffer[1..][i] == NEWLINE); }
        }
      }
    }
  }

  /** The complete frames of a byte string. */
  function Frames(bytes: seq<Byte>): seq<seq<Byte>>
    decreases |bytes|
  {
    match FindBoundary(bytes)
    case None => []
    case Some(p) => [bytes[..p]] + Frames(bytes[p + 2..])
  }

  /** What follows the last boundary. */
  function Rest(bytes: seq<Byte>): seq<Byte>
    decreases |bytes|
  {
    match FindBoundary(bytes)
    case None => bytes
    case Some(p) => Rest(bytes[p + 2..])
  }

  /** The items of a list of frames, up to the first terminal one. */
  function Play(parse: seq<Byte> -> FrameResult, frames: seq<seq<Byte>>): (seq<Item>, bool) {
    if frames == [] then ([], false)
    else match parse(frames[0])
         case Skip => Play(parse, frames[1..])
         case Yield(item) =>
           if IsTerminal(item) then ([item], true)
           else
             var (items, ended) := Play(parse, frames[1..]);
             ([item] + items, ended)
  }

  /** All bytes before the connection breaks. */
  function Joined(chunks: seq<Chunk>): seq<Byte> {
    if chunks == [] || chunks[0].Broken? then []
    else chunks[0].bytes + Joined(chunks[1..])
  }

  /** How a stream without a terminal event ends. */
  function Ending(chunks: seq<Chunk>): Item {
    if chunks == [] then ProtocolError("stream ended without a terminal event")
    else if chunks[0].Broken? then TransportError(chunks[0].reason)
    else Ending(chunks[1..])
  }

  /** The items of the stream, read from its whole byte string. */
  function Items(parse: seq<Byte> -> FrameResult, bytes: seq<Byte>, ending: Item): seq<Item> {
    var (items, ended) := Play(parse, Frames(bytes));
    if ended then items else items + [ending]
  }

  // ── Lemmas about cutting ──────────────────────────────────────────────────

  lemma {:induction false} BoundaryStays(a: seq<Byte>, b: seq<Byte>)
    requires FindBoundary(a).Some?
    ensures FindBoundary(a + b) == FindBoundary(a)
  {
    if !(a[0] == a[1] == NEWLINE) {
      BoundaryStays(a[1..], b);
      assert (a + b)[1..] == a[1..] + b;
    }
  }

  /** Bytes that arrive later never move an earlier boundary. */
  lemma {:induction false} FramesAppend(a: seq<Byte>, b: seq<Byte>)
    ensures Frames(a + b) == Frames(a) + Frames(Rest(a) + b)
    ensures Rest(a + b) == Rest(Rest(a) + b)
    decreases |a|
  {
    match FindBoundary(a)
    case None =>
      assert [] + Frames(a + b) == Frames(a + b);
    case Some(p) =>
      BoundaryStays(a, b);
      assert (a + b)[..p] == a[..p] && (a + b)[p + 2..] == a[p + 2..] + b;
      FramesAppend(a[p + 2..], b);
      assert Rest(a) == Rest(a[p + 2..]);
      Associative([a[..p]], Frames(a[p + 2..]), Frames(Rest(a) + b));
  }

  lemma {:induction false} PlayAppend(parse: seq<Byte> -> FrameResult, a: seq<seq<Byte>>, b: seq<seq<Byte>>)
    ensures var (items, ended) := Play(parse, a);
            var (more, later) := Play(parse, b);
            Play(parse, a + b) == if ended then (items, true) else (items + more, later)
    decreases |a|
  {
    if a == [] {
      assert a + b == b && [] + Play(parse, b).0 == Play(parse, b).0;
    } else {
      PlayAppend(parse, a[1..], b);
      assert (a + b)[1..] == a[1..] + b;
      var head, tail, more := parse(a[0]), Play(parse, a[1..]).0, Play(parse, b).0;
      if head.Yield? {
        assert [head.item] + (tail + more) == ([head.item] + tail) + more;
      }
    }
  }

  lemma {:induction false} JoinedSnoc(chunks: seq<Chunk>, k: nat)
    requires k < |chunks| && forall i :: 0 <= i < k ==> chunks[i].Data?
    ensures Joined(chunks) == Joined(chunks[..k]) + Joined(chunks[k..])
    ensures Ending(chunks) == Ending(chunks[k..])
    decreases k
  {
    if k > 0 {
      JoinedSnoc(chunks[1..], k - 1);
      assert chunks[..k][1..] == chunks[1..][..k - 1];
      assert chunks[1..][k - 1..] == chunks[k..];
    } else {
      assert chunks[0..] == chunks;
    }
  }

  lemma JoinedOneMore(chunks: seq<Chunk>, k: nat)
    requires k < |chunks| && forall i :: 0 <= i <= k ==> chunks[i].Data?
    ensures Joined(chunks[..k + 1]) == Joined(chunks[..k]) + chunks[k].bytes
  {
    JoinedSnoc(chunks[..k + 1], k);
    assert chunks[..k + 1][..k] == chunks[..k] && chunks[..k + 1][k..] == [chunks[k]];
    assert Joined([chunks[k]]) == chunks[k].bytes + [];
  }

  // ── The reader ────────────────────────────────────────────────────────────

  /** What the buffer and the items so far say about the bytes so far. */
  ghost predicate CaughtUp(
    parse: seq<Byte> -> FrameResult, seen: seq<Byte>, buffer: seq<Byte>, items: seq<Item>, terminal: bool
  )
  {
    if terminal then Play(parse, Frames(seen)) == (items, true)
    else
      var (more, ended) := Play(parse, Frames(buffer));
      Rest(seen) == Rest(buffer) && Play(parse, Frames(seen)) == (items + more, ended)
  }

  lemma ChunkArrives(
    parse: seq<Byte> -> FrameResult, seen: seq<Byte>, buffer: seq<Byte>, items: seq<Item>, bytes: seq<Byte>
  )
    requires CaughtUp(parse, seen, buffer, items, false) && FindBoundary(buffer).None?
    ensures CaughtUp(parse, seen + bytes, buffer + bytes, items, false)
  {
    assert items + [] == items;
    FramesAppend(seen, bytes);
    PlayAppend(parse, Frames(seen), Frames(buffer + bytes));
  }

  /** Takes the complete frames off the buffer until one ends the stream. */
  method TakeFrames(
    parse: seq<Byte> -> FrameResult, ghost seen: seq<Byte>, buffer0: seq<Byte>, items0: seq<Item>
  ) returns (buffer: seq<Byte>, items: seq<Item>, terminal: bool)
    requires CaughtUp(parse, seen, buffer0, items0, false)
    ensures CaughtUp(parse, seen, buffer, items, terminal)
    ensures terminal || FindBoundary(buffer).None?
  {
    buffer, items, terminal := buffer0, items0, false;
    var position := FindBoundary(buffer);
    while position.Some? && !terminal
      invariant position == FindBoundary(buffer)
      invariant CaughtUp(parse, seen, buffer, items, terminal)
      decreases |buffer|, !terminal
    {
      var frame := buffer[..position.value];
      ghost var later := Play(parse, Frames(buffer[position.value + 2..])).0;
      buffer := buffer[position.value + 2..];
      match parse(frame) {
        case Yield(item) =>
          assert items + ([item] + later) == (items + [item]) + later;
          items := items + [item];
          terminal := IsTerminal(item);
        case Skip =>
      }
      position := FindBoundary(buffer);
    }
  }

  lemma NothingAfterTheEnd(
    parse: seq<Byte> -> FrameResult, seen: seq<Byte>, later: seq<Byte>, items: seq<Item>, ending: Item
  )
    requires Play(parse, Frames(seen)) == (items, true)
    ensures Items(parse, seen + later, ending) == items
  {
    FramesAppend(seen, later);
    PlayAppend(parse, Frames(seen), Frames(Rest(seen) + later));
  }

  /** The items depend on the bytes and on how the connection ends, never on how
      the bytes were cut into chunks. */
  method ReadStream(parse: seq<Byte> -> FrameResult, chunks: seq<Chunk>) returns (items: seq<Item>)
    ensures items == Items(parse, Joined(chunks), Ending(chunks))
  {
    items := [];
    var buffer: seq<Byte> := [];
    var terminal := false;
    var next := 0;
    ghost var seen: seq<Byte> := [];
    assert items + Play(parse, Frames(buffer)).0 == [];
    while next < |chunks| && chunks[next].Data? && !terminal
      invariant 0 <= next <= |chunks| && forall i :: 0 <= i < next ==> chunks[i].Data?
      invariant Joined(chunks[..next]) == seen
      invariant CaughtUp(parse, seen, buffer, items, terminal)
      invariant terminal || FindBoundary(buffer).None?
      decreases |chunks| - next, !terminal
    {
      var bytes := chunks[next].bytes;
      ChunkArrives(parse, seen, buffer, items, bytes);
      JoinedOneMore(chunks, next);
      seen := seen + bytes;
      buffer, items, terminal := TakeFrames(parse, seen, buffer + bytes, items);
      next := next + 1;
    }
    JoinedPrefix(chunks, next);
    if terminal {
      NothingAfterTheEnd(parse, seen, Joined(chunks[next..]), items, Ending(chunks));
    } else if next < |chunks| {
      items := EndStream(parse, seen, buffer, items, TransportError(chunks[next].reason));
    } else {
      items := EndStream(parse, seen, buffer, items, ProtocolError("stream ended without a terminal event"));
    }
  }

  method EndStream(
    parse: seq<Byte> -> FrameResult, ghost seen: seq<Byte>, buffer: seq<Byte>, items0: seq<Item>, ending: Item
  ) returns (items: seq<Item>)
    requires CaughtUp(parse, seen, buffer, items0, false) && FindBoundary(buffer).None?
    ensures items == Items(parse, seen, ending)
  {
    assert items0 + [] == items0;
    items := items0 + [ending];
  }

  lemma JoinedPrefix(chunks: seq<Chunk>, k: nat)
    requires k <= |chunks| && forall i :: 0 <= i < k ==> chunks[i].Data?
    ensures Joined(chunks) == Joined(chunks[..k]) + Joined(chunks[k..])
    ensures k == |chunks| ==> Ending(chunks) == ProtocolError("stream ended without a terminal event")
    ensures k < |chunks| ==> Ending(chunks) == Ending(chunks[k..])
    ensures k == |chunks| || chunks[k].Broken? ==> Joined(chunks) == Joined(chunks[..k])
  {
    var front := Joined(chunks[..k]);
    assert front + [] == front;
    if k < |chunks| {
      JoinedSnoc(chunks, k);
    } else {
      assert chunks[..k] == chunks;
      EndingAtEnd(chunks);
    }
  }

  lemma {:induction false} EndingAtEnd(chunks: seq<Chunk>)
    requires forall i :: 0 <= i < |chunks| ==> chunks[i].Data?
    ensures Ending(chunks) == ProtocolError("stream ended without a terminal event")
  {
    if chunks != [] {
      EndingAtEnd(chunks[1..]);
    }
  }

  // ── What the items look like ──────────────────────────────────────────────

  lemma {:induction false} PlayShape(parse: seq<Byte> -> FrameResult, frames: seq<seq<Byte>>)
    ensures var (items, ended) := Play(parse, frames);
            && (forall i :: 0 <= i < |items| && (i < |items| - 1 || !ended) ==> !IsTerminal(items[i]))
            && (ended ==> |items| > 0 && IsTerminal(items[|items| - 1]))
    decreases |frames|
  {
    if frames != [] {
      PlayShape(parse, frames[1..]);
    }
  }

  /** Zero or more text deltas, then exactly one terminal item, then nothing. */
  lemma StreamEndsExactlyOnce(parse: seq<Byte> -> FrameResult, bytes: seq<Byte>, chunks: seq<Chunk>)
    ensures var items := Items(parse, bytes, Ending(chunks));
            && |items| > 0 && IsTerminal(items[|items| - 1])
            && (forall i :: 0 <= i < |items| - 1 ==> items[i].TextDelta?)
  {
    PlayShape(parse, Frames(bytes));
    EndingIsTerminal(chunks);
  }

  lemma {:induction false} EndingIsTerminal(chunks: seq<Chunk>)
    ensures IsTerminal(Ending(chunks))
  {
    if chunks != [] && chunks[0].Data? {
      EndingIsTerminal(chunks[1..]);
    }
  }

  /** The ending names the break of the connection, or that there was no terminal event. */
  lemma {:induction false} EndingSaysHow(chunks: seq<Chunk>, k: nat)
    requires k <= |chunks| && forall i :: 0 <= i < k ==> chunks[i].Data?
    ensures k == |chunks| ==> Ending(chunks) == ProtocolError("stream ended without a terminal event")
    ensures k < |chunks| && chunks[k].Broken? ==> Ending(chunks) == TransportError(chunks[k].reason)
    ensures k == |chunks| || chunks[k].Broken? ==> Joined(chunks) == Concatenated(chunks[..k])
  {
    if k > 0 {
      assert chunks[..k][1..] == chunks[1..][..k - 1];
      EndingSaysHow(chunks[1..], k - 1);
    }
  }

  /** The bytes of all chunks. */
  function Concatenated(chunks: seq<Chunk>): seq<Byte> {
    if chunks == [] then []
    else (if chunks[0].Data? then chunks[0].bytes else []) + Concatenated(chunks[1..])
  }

  /** The frames and the rest put back together with their boundaries are the
      byte string, and no frame contains a boundary. */
  function Unframe(frames: seq<seq<Byte>>, rest: seq<Byte>): seq<Byte> {
    if frames == [] then rest else frames[0] + [NEWLINE, NEWLINE] + Unframe(frames[1..], rest)
  }

  lemma {:induction false} FramesAreTheBytes(bytes: seq<Byte>)
    ensures Unframe(Frames(bytes), Rest(bytes)) == bytes
    decreases |bytes|
  {
    match FindBoundary(bytes)
    case None =>
    case Some(p) =>
      FramesAreTheBytes(bytes[p + 2..]);
      BoundaryIsLeftmost(bytes, p);
      assert bytes == bytes[..p] + [NEWLINE, NEWLINE] + bytes[p + 2..];
  }

  lemma {:induction false} NoBoundaryIsLeft(bytes: seq<Byte>)
    ensures FindBoundary(Rest(bytes)).None?
    ensures forall i :: 0 <= i < |Frames(bytes)| ==> FindBoundary(Frames(bytes)[i]).None?
    decreases |bytes|
  {
    match FindBoundary(bytes)
    case None =>
    case Some(p) =>
      NoBoundaryIsLeft(bytes[p + 2..]);
      assert bytes[..p] + bytes[p..] == bytes;
      if FindBoundary(bytes[..p]).Some? {
        BoundaryStays(bytes[..p], bytes[p..]);
      }
  }

  lemma {:induction false} FrameEnds(frame: seq<Byte>, tail: seq<Byte>)
    requires FindBoundary(frame + [NEWLINE]).None?
    ensures FindBoundary(frame + [NEWLINE, NEWLINE] + tail) == Some(|frame|)
  {
    var whole := frame + [NEWLINE, NEWLINE] + tail;
    if frame != [] {
      assert (frame + [NEWLINE])[1..] == frame[1..] + [NEWLINE];
      assert whole[1..] == frame[1..] + [NEWLINE, NEWLINE] + tail;
      assert whole[0] == (frame + [NEWLINE])[0] && whole[1] == (frame + [NEWLINE])[1];
      FrameEnds(frame[1..], tail);
    }
  }

  lemma FrameComesFirst(frame: seq<Byte>, later: seq<Byte>)
    requires FindBoundary(frame + [NEWLINE]).None?
    ensures Frames(frame + [NEWLINE, NEWLINE] + later) == [frame] + Frames(later)
    ensures Rest(frame + [NEWLINE, NEWLINE] + later) == Rest(later)
  {
    var whole := frame + [NEWLINE, NEWLINE] + later;
    FrameEnds(frame, later);
    assert whole[..|frame|] == frame && whole[|frame| + 2..] == later;
  }

  /** The other direction: what a sender puts between boundaries comes out as it
      was, when no frame holds or ends in the beginning of a boundary. */
  lemma {:induction false} SentFramesComeBack(frames: seq<seq<Byte>>, rest: seq<Byte>)
    requires forall i :: 0 <= i < |frames| ==> FindBoundary(frames[i] + [NEWLINE]).None?
    ensures Frames(Unframe(frames, rest)) == frames + Frames(rest)
    ensures Rest(Unframe(frames, rest)) == Rest(rest)
    decreases |frames|
  {
    if frames != [] {
      FrameComesFirst(frames[0], Unframe(frames[1..], rest));
      SentFramesComeBack(frames[1..], rest);
      assert [frames[0]] + frames[1..] == frames;
      Associative([frames[0]], frames[1..], Frames(rest));
    }
  }

  // ── What one frame says ───────────────────────────────────────────────────

  /** Text that fills one line: white space, a core, white space. */
  ghost predicate Padded(before: string, core: string, after: string) {
    && Blank(before) && Blank(after)
    && core != "" && !IsSpace(core[0]) && !IsSpace(core[|core| - 1])
    && (forall i :: 0 <= i < |before + core + after| ==> (before + core + after)[i] != '\n')
  }

  lemma DataOfLine(text: string, data: string)
    requires Line(text) == "data:" + data
    ensures FirstData(text) == Trim(data)
  {
    assert "data:" <= Line(text) && Line(text)[5..] == data;
  }

  /** The first data line alone decides: the padding around its data and every
      line after it change nothing. */
  lemma FirstDataLineDecides(before: string, core: string, after: string, later: string)
    requires Padded(before, core, after)
    ensures FirstData("data:" + (before + core + after) + "\n" + later) == core
    ensures FirstData("data:" + (before + core + after)) == core
  {
    var data := before + core + after;
    LineOfComment("data:" + data, later);
    LineOfAll("data:" + data);
    DataOfLine("data:" + data + "\n" + later, data);
    DataOfLine("data:" + data, data);
    TrimGivesTheCore(before, core, after);
  }

  lemma {:induction false} LineOfAll(s: string)
    requires forall i :: 0 <= i < |s| ==> s[i] != '\n'
    ensures Line(s) == s
  {
    if s != "" {
      LineOfAll(s[1..]);
      assert [s[0]] + s[1..] == s;
    }
  }

  // ── From sender to reader ─────────────────────────────────────────────────

  /** The lines of a text, at its newlines. */
  function Lines(text: string): (lines: seq<string>)
    ensures |lines| > 0
  {
    if text == "" then [""]
    else
      var rest := Lines(text[1..]);
      if text[0] == '\n' then [""] + rest else [[text[0]] + rest[0]] + rest[1..]
  }

  predicate IsDataLine(line: string) {
    "data:" <= line
  }

  /** Line `k` is the first data line, with that data once trimmed. */
  ghost predicate DataAt(text: string, k: nat, data: string) {
    && k < |Lines(text)| && IsDataLine(Lines(text)[k]) && data == Trim(Lines(text)[k][5..])
    && (forall j :: 0 <= j < k ==> !IsDataLine(Lines(text)[j]))
  }

  /** The data of a frame's text: that of its first data line, or none. */
  ghost predicate HasData(text: string, data: string) {
    || (exists k: nat :: DataAt(text, k, data))
    || (data == "" && forall j :: 0 <= j < |Lines(text)| ==> !IsDataLine(Lines(text)[j]))
  }

  lemma {:induction false} LinesByLine(text: string)
    ensures Lines(text)[0] == Line(text)
    ensures if |Line(text)| == |text| then |Lines(text)| == 1 else Lines(text)[1..] == Lines(text[|Line(text)| + 1..])
  {
    if text != "" && text[0] != '\n' {
      LinesByLine(text[1..]);
      var line := Line(text[1..]);
      assert Line(text) == [text[0]] + line;
      if |line| < |text| - 1 {
        assert text[1..][|line| + 1..] == text[|line| + 2..];
      }
    }
  }

  /** A first line without data changes nothing. */
  lemma DataIsFurtherDown(text: string, data: string)
    requires |Line(text)| < |text| && !IsDataLine(Line(text))
    ensures HasData(text, data) <==> HasData(text[|Line(text)| + 1..], data)
  {
    LinesByLine(text);
    var rest := text[|Line(text)| + 1..];
    var lines, later := Lines(text), Lines(rest);
    assert forall j :: 0 < j < |lines| ==> lines[j] == later[j - 1];
    assert forall j :: 0 <= j < |later| ==> later[j] == lines[j + 1];
    if k: nat :| DataAt(text, k, data) {
      assert k > 0 && DataAt(rest, k - 1, data);
    }
    if k: nat :| DataAt(rest, k, data) {
      assert DataAt(text, k + 1, data);
    }
  }

  lemma {:induction false} FirstDataIsTheData(text: string, data: string)
    ensures HasData(text, data) <==> FirstData(text) == data
    decreases |text|
  {
    var line := Line(text);
    LinesByLine(text);
    if IsDataLine(line) {
      assert DataAt(text, 0, Trim(line[5..]));
    } else if |line| < |text| {
      DataIsFurtherDown(text, data);
      FirstDataIsTheData(text[|line| + 1..], data);
    }
  }

  /** What a sender means by a frame. */
  datatype Meaning =
    | NotText
    | NoData
    | DoneMark
    | BrokenJson
    | Event(item: Item)
    | ErrorReport
    | OtherData

  datatype Sent = Sent(frame: seq<Byte>, text: string, data: string, meaning: Meaning)

  ghost predicate WellSent(utf8: seq<Byte> -> Option<string>, json: string -> Json, sent: Sent) {
    && FindBoundary(sent.frame + [NEWLINE]).None?
    && (sent.meaning != NotText ==> utf8(sent.frame) == Some(sent.text) && HasData(sent.text, sent.data))
    && (sent.meaning != NotText && sent.meaning != NoData && sent.meaning != DoneMark ==>
          sent.data != "" && sent.data != "[DONE]")
    && match sent.meaning
       case NotText => utf8(sent.frame) == None
       case NoData => sent.data == ""
       case DoneMark => sent.data == "[DONE]"
       case BrokenJson => json(sent.data) == NotJson
       case Event(item) =>
         json(sent.data) == StreamEvent(item) && (item.TextDelta? || item.Completed? || item.Failed?)
       case ErrorReport => json(sent.data) == ErrorObject
       case OtherData => json(sent.data) == OtherJson
  }

  /** What the reader is to make of it. */
  function Heard(requestId: string, meaning: Meaning): Option<Item> {
    match meaning
    case NotText => Some(ProtocolError("stream frame is not UTF-8"))
    case NoData => None
    case DoneMark => Some(Completed(requestId))
    case BrokenJson => Some(ProtocolError("stream frame is not valid JSON"))
    case Event(item) => Some(item)
    case ErrorReport => Some(Failed(requestId, "providerError", "model stream failed"))
    case OtherData => None
  }

  function Parser(
    utf8: seq<Byte> -> Option<string>, json: string -> Json, requestId: string
  ): seq<Byte> -> FrameResult
  {
    (frame: seq<Byte>) => ParseFrame(utf8, json, requestId, frame)
  }

  lemma FrameIsHeard(utf8: seq<Byte> -> Option<string>, json: string -> Json, requestId: string, sent: Sent)
    requires WellSent(utf8, json, sent)
    ensures Parser(utf8, json, requestId)(sent.frame)
         == match Heard(requestId, sent.meaning)
            case None => Skip
            case Some(item) => Yield(item)
  {
    FirstDataIsTheData(sent.text, sent.data);
  }

  function FramesOf(sent: seq<Sent>): (frames: seq<seq<Byte>>)
    ensures |frames| == |sent| && forall i :: 0 <= i < |sent| ==> frames[i] == sent[i].frame
  {
    seq(|sent|, i requires 0 <= i < |sent| => sent[i].frame)
  }

  /** What is heard up to the first item that ends the stream, and whether one does. */
  function UpToTheEnd(requestId: string, sent: seq<Sent>): (seq<Item>, bool) {
    if sent == [] then ([], false)
    else
      var (later, ended) := UpToTheEnd(requestId, sent[1..]);
      match Heard(requestId, sent[0].meaning)
      case None => (later, ended)
      case Some(item) => if item.TextDelta? then ([item] + later, ended) else ([item], true)
  }

  lemma {:induction false} PlayOfSent(
    utf8: seq<Byte> -> Option<string>, json: string -> Json, requestId: string, sent: seq<Sent>
  )
    requires forall i :: 0 <= i < |sent| ==> WellSent(utf8, json, sent[i])
    ensures Play(Parser(utf8, json, requestId), FramesOf(sent)) == UpToTheEnd(requestId, sent)
    decreases |sent|
  {
    if sent != [] {
      FrameIsHeard(utf8, json, requestId, sent[0]);
      assert FramesOf(sent)[1..] == FramesOf(sent[1..]);
      PlayOfSent(utf8, json, requestId, sent[1..]);
    }
  }

  /** Whatever a sender mixes, events, comments, other data, error reports, end marks and
      broken frames, is heard in order, up to the first item that ends the stream, whatever
      bytes follow. */
  lemma SentEventsArrive(
    utf8: seq<Byte> -> Option<string>, json: string -> Json, requestId: string, sent: seq<Sent>,
    rest: seq<Byte>, ending: Item
  )
    requires forall i :: 0 <= i < |sent| ==> WellSent(utf8, json, sent[i])
    requires UpToTheEnd(requestId, sent).1 || Frames(rest) == []
    ensures var (heard, ended) := UpToTheEnd(requestId, sent);
            Items(Parser(utf8, json, requestId), Unframe(FramesOf(sent), rest), ending)
            == if ended then heard else heard + [ending]
  {
    SentFramesComeBack(FramesOf(sent), rest);
    PlayOfSent(utf8, json, requestId, sent);
    PlayAppend(Parser(utf8, json, requestId), FramesOf(sent), Frames(rest));
    assert UpToTheEnd(requestId, sent).0 + [] == UpToTheEnd(requestId, sent).0;
  }

  /** One frame at a time: what a stream of this frame alone, ending as `ending`, gives. */
  lemma EachFrameIsHeard(
    utf8: seq<Byte> -> Option<string>, json: string -> Json, requestId: string, sent: Sent, ending: Item
  )
    requires WellSent(utf8, json, sent)
    ensures var items := Items(Parser(utf8, json, requestId), sent.frame + [NEWLINE, NEWLINE], ending);
            match sent.meaning
            case NotText => items == [ProtocolError("stream frame is not UTF-8")]
            case NoData => items == [ending]
            case DoneMark => items == [Completed(requestId)]
            case BrokenJson => items == [ProtocolError("stream frame is not valid JSON")]
            case Event(item) => items == if item.TextDelta? then [item, ending] else [item]
            case ErrorReport => items == [Failed(requestId, "providerError", "model stream failed")]
            case OtherData => items == [ending]
  {
    SentEventsArrive(utf8, json, requestId, [sent], [], ending);
    assert FramesOf([sent]) == [sent.frame];
    assert Unframe([sent.frame], []) == sent.frame + [NEWLINE, NEWLINE];
    assert UpToTheEnd(requestId, [][..]) == ([], false);
  }

  /** Lines before the first data line change nothing. */
  lemma {:induction false} CommentsAreSkipped(comment: string, text: string)
    requires forall i :: 0 <= i < |comment| ==> comment[i] != '\n'
    requires !("data:" <= comment)
    ensures FirstData(comment + "\n" + text) == FirstData(text)
  {
    LineOfComment(comment, text);
    var whole := comment + "\n" + text;
    assert whole[|comment| + 1..] == text;
  }

  lemma {:induction false} LineOfComment(comment: string, text: string)
    requires forall i :: 0 <= i < |comment| ==> comment[i] != '\n'
    ensures Line(comment + "\n" + text) == comment
  {
    if comment != "" {
      LineOfComment(comment[1..], text);
      assert (comment + "\n" + text)[1..] == comment[1..] + "\n" + text;
    }
  }
}
