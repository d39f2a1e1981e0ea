/** What goes on the air for a file, and what a frame does to the node that gets it, spelled out. */
module FileWord {
  import opened Prelude
  import opened Bytes
  import opened FileTransfer
  import opened FieldLayouts
  import WireLayout
  import W = Wire
  import F = Fragment
  import FP = FilePackets

  // ---------- Sending ----------

  /** A packet of either kind reads back from its frame. */
  lemma PacketReadsBack(msgType: byte, me: Id, payload: seq<byte>, madeAt: u64, frame: seq<byte>, inflate: W.Inflater)
    requires |payload| <= 0xFFFF && W.Encode(NewPacket(msgType, me, payload, madeAt)) == Some(frame)
    ensures W.Decode(frame, inflate) == Some(W.Packet(1, msgType, 7, madeAt, me, None, payload, None, None, false))
  {
    W.RoundTrip(NewPacket(msgType, me, payload, madeAt), true, inflate);
  }

  lemma PiecesAreShort(id: u64, body: seq<byte>, pieces: seq<seq<byte>>, j: nat)
    requires pieces == F.Split(id, 0x22, body, 213) && j < |pieces|
    ensures |pieces[j]| <= 226
  {
    F.SplitShape(id, 0x22, body, 213);
    F.ChunksJoin(body, 213);
    assert F.Chunks(body, 213)[j] in F.Chunks(body, 213);
  }

  lemma PieceFrame(me: Id, id: u64, body: seq<byte>, sentAt: nat -> u64, pieces: seq<seq<byte>>, i: nat,
                   inflate: W.Inflater)
    requires pieces == F.Split(id, 0x22, body, 213) && i < |FramesOf(me, pieces, sentAt)|
    ensures |FramesOf(me, pieces, sentAt)| == |pieces|
    ensures W.Decode(FramesOf(me, pieces, sentAt)[i], inflate)
         == Some(W.Packet(1, 0x20, 7, sentAt(i), me, None, pieces[i], None, None, false))
  {
    forall j | 0 <= j < |pieces| ensures |pieces[j]| <= 0xFFFF {
      PiecesAreShort(id, body, pieces, j);
    }
    FramesOfAll(me, pieces, sentAt);
    PacketReadsBack(0x20, me, pieces[i], sentAt(i), FramesOf(me, pieces, sentAt)[i], inflate);
  }

  /** Frame `i` is an unsigned broadcast of type 0x20 with seven hops to go, about its own stretch of the transfer. */
  lemma FrameIsAPacket(t: Transfer, i: nat, at: nat, inflate: W.Inflater) returns (payload: seq<byte>)
    requires t.Goes() && i < |t.Frames()| && at == i * 213
    ensures W.Decode(t.Frames()[i], inflate)
         == Some(W.Packet(1, 0x20, 7, t.sentAt(i), t.me, None, payload, None, None, false))
    ensures at < |t.Inner()|
    ensures FragmentIs(payload, t.id, i, |t.Frames()|, 0x22, t.Inner()[at..Least(at + 213, |t.Inner()|)])
  {
    var body := t.Inner();
    var pieces := F.Split(t.id, 0x22, body, 213);
    PieceFrame(t.me, t.id, body, t.sentAt, pieces, i, inflate);
    payload := pieces[i];
    PieceLayout(t.id, 0x22, body, 213, i, at);
  }

  /** And those stretches are of this: a packet of type 0x22 made of the file's name, size, type and content. */
  lemma InnerIsAPacket(t: Transfer, inflate: W.Inflater) returns (size: seq<byte>, payload: seq<byte>)
    requires t.Goes()
    ensures W.Decode(t.Inner(), inflate)
         == Some(W.Packet(1, 0x22, 7, t.madeAt, t.me, None, payload, None, None, false))
    ensures |size| == 4 && WireLayout.Word(size) == |t.content|
    ensures FileFieldsAre(payload, TextFields(1, Some(t.name))
                                   + ([Field(2, size)] + (TextFields(3, t.mime) + [Field(4, t.content)])))
  {
    var file := FileOf(t.name, t.mime, t.content);
    SmallTransferSplits(t.Packet(), t.id);
    size := FileLayout(file);
    payload := FP.Encoded(file).value;
    PacketReadsBack(0x22, t.me, payload, t.madeAt, t.Inner(), inflate);
  }

  /** Which files are refused, and for what. */
  lemma RefusedExactlyWhen(me: Id, name: seq<byte>, mime: Option<seq<byte>>, content: seq<byte>, id: u64, madeAt: u64,
                           sentAt: nat -> u64)
    requires |content| < 0x1_0000_0000_0000_0000
    ensures var r := Frames(me, name, mime, content, id, madeAt, sentAt);
            if content == [] then r == Err("that file is empty")
            else if |content| > 1024 * 1024 then r == Err("too large for one transfer")
            else if TransferSize(name, mime, content) > 65535 then r == Err("could not encode the transfer")
            else r.Ok?
  {
    FramesExactlyWhen(me, name, mime, content, id, madeAt, sentAt);
  }

  // ---------- Receiving ----------

  /** What is told of a file: by its name, if that is not blank, and whether it is an image. */
  ghost predicate FileIs(rx: Receiver, e: Event, sender: Id, file: FP.FilePacket) {
    && e.FileReceived? && e.peer == Hex(sender) && e.content == file.content && e.mimeType == file.mimeType
    && e.title == (if file.fileName.Some? && !rx.blank(file.fileName.value) then FP.Named(file.fileName.value)
                   else FP.Untitled(file.mimeType))
    && (e.isImage <==> if file.mimeType.Some?
                       then |file.mimeType.value| >= 6 && Spells(file.mimeType.value[..6], "image/")
                       else file.fileName.Some?
                            && exists i :: 0 <= i < |PICTURES| && EndsWith(file.fileName.value, PICTURES[i]))
  }

  lemma EventIs(rx: Receiver, sender: Id, file: FP.FilePacket)
    ensures FileIs(rx, FileEvent(rx, Hex(sender), file), sender, file)
  {
    ImageExactlyWhen(file);
  }

  /** What is told of a transfer that arrives is the name, type and content that were sent. */
  lemma ToldIs(t: Transfer, rx: Receiver)
    requires t.Goes()
    ensures FileIs(rx, FileTold(t, rx), t.me,
                   FP.FilePacket(if |t.name| <= 65535 then Some(t.name) else None, Some(|t.content|),
                                 if t.mime.Some? && |t.mime.value| <= 65535 then t.mime else None, t.content))
  {
    EventIs(rx, t.me, FP.Sent(FileOf(t.name, t.mime, t.content)));
  }

  /** What a packet that is not a fragment is told as. */
  ghost predicate ToldAs(rx: Receiver, p: W.Packet, events: seq<Event>) {
    if p.msgType != 0x22 then events == [OtherPacket(p.msgType)]
    else
      var file := FP.Decoded(p.payload, rx.utf8);
      if file.None? then events == [Notice("unreadable file")]
      else |events| == 1 && FileIs(rx, events[0], p.sender, file.value)
  }

  ghost predicate WholeIs(rx: Receiver, body: seq<byte>, events: seq<Event>) {
    var p := W.Decode(body, rx.inflate);
    if p.None? then events == [Notice("reassembled into an undecodable packet")]
    else if !Hears(rx, p.value.sender) then events == []
    else if p.value.msgType == 0x20 then events == [Notice("ignored a fragment nested inside a fragment")]
    else ToldAs(rx, p.value, events)
  }

  ghost predicate AnswerIs(rx: Receiver, answer: F.Append, events: seq<Event>) {
    match answer
    case Pending(_, _) => events == []
    case Rejected(reason) => events == [Notice("dropped a fragment: " + reason)]
    case Complete(body) => WholeIs(rx, body, events)
  }

  /** What a frame does: to the fragments held, and as told to the user. */
  ghost predicate Does(rx: Receiver, inFlight: F.InFlight, raw: seq<byte>, now: nat, next: F.InFlight,
                       events: seq<Event>)
  {
    var p := W.Decode(raw, rx.inflate);
    if p.None? then next == inFlight && events == [Notice("dropped an undecodable frame")]
    else if !Hears(rx, p.value.sender) then next == inFlight && events == []
    else if p.value.msgType != 0x20 then next == inFlight && ToldAs(rx, p.value, events)
    else
      var h := F.Parse(p.value);
      if h.None? then next == inFlight && events == [Notice("malformed fragment")]
      else
        && next == F.Appended(inFlight, h.value, now).0
        && AnswerIs(rx, F.Appended(inFlight, h.value, now).1, events)
  }

  lemma HeardExactlyWhen(rx: Receiver, sender: Id)
    ensures Hears(rx, sender) <==> Hex(sender) != rx.me && !IsBlocked(rx.blocked, Hex(sender))
  {
    BlockedExactlyWhen(rx.blocked, Hex(sender));
  }

  lemma WholeTold(rx: Receiver, p: W.Packet, reassembled: bool)
    requires Hears(rx, p.sender) && !(p.msgType == 0x20 && reassembled)
    ensures ToldAs(rx, p, HandleWhole(rx, p, reassembled))
  {
    HeardExactlyWhen(rx, p.sender);
    var file := FP.Decoded(p.payload, rx.utf8);
    if file.Some? {
      EventIs(rx, p.sender, file.value);
    }
  }

  lemma AnswerTold(rx: Receiver, answer: F.Append)
    ensures AnswerIs(rx, answer, AnswerEvents(rx, answer))
  {
    if answer.Complete? && W.Decode(answer.body, rx.inflate).Some? {
      var p := W.Decode(answer.body, rx.inflate).value;
      HeardExactlyWhen(rx, p.sender);
      if Hears(rx, p.sender) && p.msgType != 0x20 {
        WholeTold(rx, p, true);
      }
    }
  }

  /** Every frame, of whatever kind and from whomever, in whatever state. */
  lemma FrameDoes(rx: Receiver, inFlight: F.InFlight, raw: seq<byte>, now: nat)
    ensures var (next, events) := HandleFrame(rx, inFlight, raw, now);
            Does(rx, inFlight, raw, now, next, events)
  {
    var p := W.Decode(raw, rx.inflate);
    if p.Some? {
      HeardExactlyWhen(rx, p.value.sender);
      if Hears(rx, p.value.sender) {
        if p.value.msgType != 0x20 {
          WholeTold(rx, p.value, false);
        } else if F.Parse(p.value).Some? {
          AnswerTold(rx, F.Appended(inFlight, F.Parse(p.value).value, now).1);
        }
      }
    }
  }
}
