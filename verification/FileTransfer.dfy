/** A file from `file_frames` on one side of the mesh to the dispatch on the other (`mesh.rs`). */
module FileTransfer {
  import opened Prelude
  import opened Bytes
  import opened Wire
  import Relay
  import F = Fragment
  import FP = FilePackets

  const MESSAGE_TTL := 7

  /** What the transfer path can tell the user; handlers of other packet types are not part of this model. */
  datatype Event =
    | FileReceived(peer: string, title: FP.Title, mimeType: Option<seq<byte>>, isImage: bool, content: seq<byte>)
    | Notice(text: string)
    | OtherPacket(msgType: byte)

  // ---------- Sending ----------

  /** `Packet::new`: version 1, unsigned, broadcast. */
  function NewPacket(msgType: byte, sender: Id, payload: seq<byte>, timestamp: u64): Packet {
    Packet(1, msgType, MESSAGE_TTL, timestamp, sender, None, payload, None, None, false)
  }

  function FileOf(name: seq<byte>, mime: Option<seq<byte>>, content: seq<byte>): FP.FilePacket
    requires |content| < 0x1_0000_0000_0000_0000
  {
    FP.FilePacket(Some(name), Some(|content|), mime, content)
  }

  /** The transfer packet on its own, and the frames of its fragments; times are when each packet is made. */
  function Frames(me: Id, name: seq<byte>, mime: Option<seq<byte>>, content: seq<byte>, id: u64, madeAt: u64,
                  sentAt: nat -> u64): Result<seq<seq<byte>>, string>
    requires |content| < 0x1_0000_0000_0000_0000
  {
    if content == [] then Err("that file is empty")
    else
      var payload := FP.Encoded(FileOf(name, mime, content));
      if payload.None? then Err("too large for one transfer")
      else
        var inner := Encode(NewPacket(Relay.FILE_TRANSFER, me, payload.value, madeAt));
        if inner.None? then Err("could not encode the transfer")
        else
          var pieces := F.Split(id, Relay.FILE_TRANSFER, inner.value, F.SLICE_BYTES);
          if pieces == [] then Err("needs more fragments than the protocol allows")
          else Ok(FramesOf(me, pieces, sentAt))
  }

  /** The encoded fragments, dropping any that would not encode. */
  function FramesOf(me: Id, pieces: seq<seq<byte>>, sentAt: nat -> u64): seq<seq<byte>> {
    Somes(seq(|pieces|, i requires 0 <= i < |pieces| => Encode(NewPacket(Relay.FRAGMENT, me, pieces[i], sentAt(i)))))
  }

  function Somes(items: seq<Option<seq<byte>>>): seq<seq<byte>> {
    if items == [] then []
    else (if items[0].Some? then [items[0].value] else []) + Somes(items[1..])
  }

  lemma {:induction false} AllSomes(items: seq<Option<seq<byte>>>)
    requires forall i :: 0 <= i < |items| ==> items[i].Some?
    ensures |Somes(items)| == |items|
    ensures forall i :: 0 <= i < |items| ==> Somes(items)[i] == items[i].value
  {
    if items != [] {
      AllSomes(items[1..]);
    }
  }

  function TextBytes(text: Option<seq<byte>>): nat {
    if text.Some? && |text.value| <= 0xFFFF then 3 + |text.value| else 0
  }

  /** Bytes of the transfer packet's payload. */
  function TransferSize(name: seq<byte>, mime: Option<seq<byte>>, content: seq<byte>): nat {
    TextBytes(Some(name)) + 7 + TextBytes(mime) + 5 + |content|
  }

  lemma FramesOfAll(me: Id, pieces: seq<seq<byte>>, sentAt: nat -> u64)
    requires forall i :: 0 <= i < |pieces| ==> |pieces[i]| <= 0xFFFF
    ensures |FramesOf(me, pieces, sentAt)| == |pieces|
    ensures forall i :: 0 <= i < |pieces|
              ==> Some(FramesOf(me, pieces, sentAt)[i]) == Encode(NewPacket(Relay.FRAGMENT, me, pieces[i], sentAt(i)))
  {
    var items := seq(|pieces|, i requires 0 <= i < |pieces| =>
                               Encode(NewPacket(Relay.FRAGMENT, me, pieces[i], sentAt(i))));
    forall i | 0 <= i < |items| ensures items[i].Some? {
      WellFormedEncodes(NewPacket(Relay.FRAGMENT, me, pieces[i], sentAt(i)));
    }
    AllSomes(items);
  }

  /**
   * A transfer is put on the air exactly when there is content and the whole transfer packet fits the two-byte length
   * of a version 1 frame: about 64 KiB, not the 1 MiB the file format allows.
   */
  lemma FramesExactlyWhen(me: Id, name: seq<byte>, mime: Option<seq<byte>>, content: seq<byte>, id: u64, madeAt: u64,
                          sentAt: nat -> u64)
    requires |content| < 0x1_0000_0000_0000_0000
    ensures Frames(me, name, mime, content, id, madeAt, sentAt).Ok?
       <==> content != [] && TransferSize(name, mime, content) <= 0xFFFF
  {
    if content != [] && |content| <= FP.MAX_PAYLOAD_BYTES {
      var packet := NewPacket(Relay.FILE_TRANSFER, me, FP.Encoded(FileOf(name, mime, content)).value, madeAt);
      if |packet.payload| <= 0xFFFF {
        SmallTransferSplits(packet, id);
      }
    }
  }

  lemma SmallTransferSplits(packet: Packet, id: u64)
    requires packet.version == 1 && |packet.payload| <= 0xFFFF && WellFormed(packet) && packet.signature.None?
    ensures Encode(packet).Some?
    ensures var inner := Encode(packet).value;
            && 22 <= |inner| <= 0xFFFF + 22 + 8 + 256
            && 1 <= F.DivCeil(|inner|, F.SLICE_BYTES) <= 400
            && F.Split(id, Relay.FILE_TRANSFER, inner, F.SLICE_BYTES) != []
  {
    var data := Header(packet) + Body(packet);
    PaddedSize(data);
    var inner := Encode(packet).value;
    F.DivCeilIsCeiling(|inner|, F.SLICE_BYTES);
    F.SplitShape(id, Relay.FILE_TRANSFER, inner, F.SLICE_BYTES);
  }

  /** Every fragment frame fits 256 bytes: padded to exactly that, or, for the last 8 slice sizes, sent bare. */
  lemma FragmentFrameSize(me: Id, piece: seq<byte>, sentAt: u64)
    requires F.HEADER_BYTES < |piece| <= F.HEADER_BYTES + F.SLICE_BYTES
    ensures var frame := Encode(NewPacket(Relay.FRAGMENT, me, piece, sentAt));
            frame.Some? && |frame.value| == (if |piece| <= 218 then 256 else 22 + |piece|) && |frame.value| <= 256
  {
    var p := NewPacket(Relay.FRAGMENT, me, piece, sentAt);
    PaddedSize(Header(p) + Body(p));
  }

  // ---------- Receiving ----------

  /** A peer is blocked when its id and a blocked fingerprint share a prefix, either way round. */
  predicate IsBlocked(blocked: set<string>, peer: string) {
    exists fingerprint :: fingerprint in blocked && (peer <= fingerprint || fingerprint <= peer)
  }

  /** An id and a fingerprint that are the same as far as both go. */
  ghost predicate Agree(fingerprint: string, peer: string) {
    forall i :: 0 <= i < |fingerprint| && i < |peer| ==> fingerprint[i] == peer[i]
  }

  lemma BlockedExactlyWhen(blocked: set<string>, peer: string)
    ensures IsBlocked(blocked, peer) <==> exists f :: f in blocked && Agree(f, peer)
  {
    forall f ensures Agree(f, peer) <==> peer <= f || f <= peer {
      if Agree(f, peer) && |f| <= |peer| {
        assert f == peer[..|f|];
      } else if Agree(f, peer) {
        assert peer == f[..|peer|];
      }
    }
  }

  datatype Receiver = Receiver(me: string, blocked: set<string>, inflate: Inflater, utf8: FP.Utf8,
                               blank: seq<byte> -> bool)

  function FileEvent(rx: Receiver, peer: string, file: FP.FilePacket): Event {
    FileReceived(peer, FP.DisplayName(file, rx.blank), file.mimeType, FP.IsImage(file), file.content)
  }

  function HandleFile(rx: Receiver, p: Packet): seq<Event> {
    var file := FP.Decoded(p.payload, rx.utf8);
    if file.None? then [Notice("unreadable file")]
    else [FileEvent(rx, Hex(p.sender), file.value)]
  }

  /** A packet that came out of the assembler: a fragment inside a fragment goes no further. */
  function HandleWhole(rx: Receiver, p: Packet, reassembled: bool): seq<Event> {
    if Hex(p.sender) == rx.me || IsBlocked(rx.blocked, Hex(p.sender)) then []
    else if p.msgType == Relay.FRAGMENT && reassembled then [Notice("ignored a fragment nested inside a fragment")]
    else if p.msgType == Relay.FILE_TRANSFER then HandleFile(rx, p)
    else [OtherPacket(p.msgType)]
  }

  function Handle(rx: Receiver, inFlight: F.InFlight, p: Packet, now: nat): (F.InFlight, seq<Event>) {
    if Hex(p.sender) == rx.me || IsBlocked(rx.blocked, Hex(p.sender)) then (inFlight, [])
    else if p.msgType == Relay.FRAGMENT then
      var header := F.Parse(p);
      if header.None? then (inFlight, [Notice("malformed fragment")])
      else
        var (next, answer) := F.Appended(inFlight, header.value, now);
        (next, AnswerEvents(rx, answer))
    else (inFlight, HandleWhole(rx, p, false))
  }

  function AnswerEvents(rx: Receiver, answer: F.Append): seq<Event> {
    match answer
    case Pending(_, _) => []
    case Rejected(reason) => [Notice("dropped a fragment: " + reason)]
    case Complete(body) =>
      var inner := Decode(body, rx.inflate);
      if inner.None? then [Notice("reassembled into an undecodable packet")] else HandleWhole(rx, inner.value, true)
  }

  function HandleFrame(rx: Receiver, inFlight: F.InFlight, raw: seq<byte>, now: nat): (F.InFlight, seq<Event>) {
    var p := Decode(raw, rx.inflate);
    if p.None? then (inFlight, [Notice("dropped an undecodable frame")]) else Handle(rx, inFlight, p.value, now)
  }

  // ---------- Blocking ----------

  /** Whatever a blocked peer sends changes nothing and is not heard of. */
  lemma BlockedIsSilent(rx: Receiver, inFlight: F.InFlight, raw: seq<byte>, now: nat, fingerprint: string)
    requires Decode(raw, rx.inflate).Some? && fingerprint in rx.blocked
    requires Agree(fingerprint, Hex(Decode(raw, rx.inflate).value.sender))
    ensures HandleFrame(rx, inFlight, raw, now) == (inFlight, [])
  {
    BlockedExactlyWhen(rx.blocked, Hex(Decode(raw, rx.inflate).value.sender));
  }

  /** Nor does it help to hide in the fragments of somebody else. */
  lemma BlockedInsideIsSilent(rx: Receiver, body: seq<byte>, fingerprint: string)
    requires Decode(body, rx.inflate).Some? && fingerprint in rx.blocked
    requires Agree(fingerprint, Hex(Decode(body, rx.inflate).value.sender))
    ensures AnswerEvents(rx, F.Complete(body)) == []
  {
    BlockedExactlyWhen(rx.blocked, Hex(Decode(body, rx.inflate).value.sender));
  }

  lemma WholeNamesNoBlocked(rx: Receiver, p: Packet, reassembled: bool, e: Event)
    requires e in HandleWhole(rx, p, reassembled) && e.FileReceived?
    ensures e.peer != rx.me && forall f :: f in rx.blocked ==> !Agree(f, e.peer)
  {
    BlockedExactlyWhen(rx.blocked, Hex(p.sender));
  }

  /** No file is ever reported as from a blocked peer, or from ourselves, whatever arrives in whatever state. */
  lemma NoFileFromBlocked(rx: Receiver, inFlight: F.InFlight, raw: seq<byte>, now: nat, e: Event)
    requires e in HandleFrame(rx, inFlight, raw, now).1 && e.FileReceived?
    ensures e.peer != rx.me && forall f :: f in rx.blocked ==> !Agree(f, e.peer)
  {
    var p := Decode(raw, rx.inflate).value;
    if p.msgType == Relay.FRAGMENT {
      var answer := F.Appended(inFlight, F.Parse(p).value, now).1;
      WholeNamesNoBlocked(rx, Decode(answer.body, rx.inflate).value, true, e);
    } else {
      WholeNamesNoBlocked(rx, p, false, e);
    }
  }

  class MeshService {
    const rx: Receiver
    const assembler: F.Assembler

    constructor (rx: Receiver)
      ensures this.rx == rx && assembler.inFlight == map[] && fresh(assembler)
    {
      this.rx := rx;
      assembler := new F.Assembler();
    }

    method Receive(raw: seq<byte>, now: nat) returns (events: seq<Event>)
      modifies assembler
      ensures (assembler.inFlight, events) == HandleFrame(rx, old(assembler.inFlight), raw, now)
    {
      var p := Decode(raw, rx.inflate);
      if p.None? {
        return [Notice("dropped an undecodable frame")];
      }
      var packet := p.value;
      if Hex(packet.sender) == rx.me || IsBlocked(rx.blocked, Hex(packet.sender)) {
        return [];
      }
      if packet.msgType == Relay.FRAGMENT {
        var header := F.Parse(packet);
        if header.None? {
          return [Notice("malformed fragment")];
        }
        var answer := assembler.Append(header.value, now);
        return AnswerEvents(rx, answer);
      }
      return HandleWhole(rx, packet, false);
    }
  }

  // ---------- End to end ----------

  /** Everything about one transfer that both ends agree on. */
  datatype Transfer = Transfer(me: Id, name: seq<byte>, mime: Option<seq<byte>>, content: seq<byte>, id: u64,
                               madeAt: u64, sentAt: nat -> u64)
  {
    ghost predicate Goes() {
      content != [] && TransferSize(name, mime, content) <= 0xFFFF
    }

    function Packet(): Packet
      requires Goes()
    {
      NewPacket(Relay.FILE_TRANSFER, me, FP.Encoded(FileOf(name, mime, content)).value, madeAt)
    }

    function Inner(): seq<byte>
      requires Goes()
    {
      SmallTransferSplits(Packet(), id);
      Encode(Packet()).value
    }

    function Chunks(): seq<seq<byte>>
      requires Goes()
    {
      F.Chunks(Inner(), F.SLICE_BYTES)
    }

    function Frames(): seq<seq<byte>>
      requires Goes()
    {
      FramesOf(me, F.Split(id, Relay.FILE_TRANSFER, Inner(), F.SLICE_BYTES), sentAt)
    }

    function Key(): F.Key {
      F.Key(me, id)
    }
  }

  /** What `file_frames` returns for a transfer that goes. */
  lemma FramesAreTheTransfers(t: Transfer)
    requires t.Goes()
    ensures Frames(t.me, t.name, t.mime, t.content, t.id, t.madeAt, t.sentAt) == Ok(t.Frames())
  {
    SmallTransferSplits(t.Packet(), t.id);
  }

  /** A frame that decodes to piece `i` of a stream. */
  ghost predicate CarriesPiece(raw: seq<byte>, key: F.Key, chunks: seq<seq<byte>>, i: nat, inflate: Inflater)
    requires i < |chunks|
  {
    var p := Decode(raw, inflate);
    && p.Some? && p.value.sender == key.sender && p.value.msgType == Relay.FRAGMENT
    && F.Parse(p.value) == Some(F.Piece(key, chunks, i, Relay.FILE_TRANSFER))
  }

  ghost predicate Carries(frames: seq<seq<byte>>, key: F.Key, chunks: seq<seq<byte>>, inflate: Inflater) {
    && F.Fits(chunks) && |frames| == |chunks|
    && forall i :: 0 <= i < |chunks| ==> CarriesAt(frames, key, chunks, i, inflate)
  }

  ghost predicate CarriesAt(frames: seq<seq<byte>>, key: F.Key, chunks: seq<seq<byte>>, i: int, inflate: Inflater)
    requires 0 <= i < |chunks| == |frames|
  {
    CarriesPiece(frames[i], key, chunks, i, inflate)
  }

  lemma PieceIsCarried(me: Id, id: u64, body: seq<byte>, i: nat, madeAt: u64, frame: seq<byte>, inflate: Inflater)
    requires i < |F.Split(id, Relay.FILE_TRANSFER, body, F.SLICE_BYTES)| && i < |F.Chunks(body, F.SLICE_BYTES)|
    requires var piece := F.Split(id, Relay.FILE_TRANSFER, body, F.SLICE_BYTES)[i];
             F.HEADER_BYTES < |piece| <= F.HEADER_BYTES + F.SLICE_BYTES
             && Some(frame) == Encode(NewPacket(Relay.FRAGMENT, me, piece, madeAt))
    requires |F.Split(id, Relay.FILE_TRANSFER, body, F.SLICE_BYTES)| == |F.Chunks(body, F.SLICE_BYTES)|
    ensures |frame| <= 256 && CarriesPiece(frame, F.Key(me, id), F.Chunks(body, F.SLICE_BYTES), i, inflate)
  {
    var piece := F.Split(id, Relay.FILE_TRANSFER, body, F.SLICE_BYTES)[i];
    var packet := NewPacket(Relay.FRAGMENT, me, piece, madeAt);
    FragmentFrameSize(me, piece, madeAt);
    RoundTrip(packet, true, inflate);
    F.ParseSplit(packet, id, Relay.FILE_TRANSFER, body, F.SLICE_BYTES, i);
  }

  lemma BodyIsCarried(me: Id, id: u64, body: seq<byte>, sentAt: nat -> u64, inflate: Inflater)
    requires body != [] && 1 <= F.DivCeil(|body|, F.SLICE_BYTES) <= 400
    ensures var frames := FramesOf(me, F.Split(id, Relay.FILE_TRANSFER, body, F.SLICE_BYTES), sentAt);
            && Carries(frames, F.Key(me, id), F.Chunks(body, F.SLICE_BYTES), inflate)
            && forall i :: 0 <= i < |frames| ==> |frames[i]| <= 256
    ensures F.Flatten(F.Chunks(body, F.SLICE_BYTES)) == body
  {
    var pieces, chunks := F.Split(id, Relay.FILE_TRANSFER, body, F.SLICE_BYTES), F.Chunks(body, F.SLICE_BYTES);
    F.ChunksJoin(body, F.SLICE_BYTES);
    F.SplitShape(id, Relay.FILE_TRANSFER, body, F.SLICE_BYTES);
    F.DivCeilIsCeiling(|body|, F.SLICE_BYTES);
    forall i | 0 <= i < |pieces| ensures F.HEADER_BYTES < |pieces[i]| <= F.HEADER_BYTES + F.SLICE_BYTES {
      assert chunks[i] in chunks;
    }
    FramesOfAll(me, pieces, sentAt);
    var frames := FramesOf(me, pieces, sentAt);
    forall i | 0 <= i < |chunks|
      ensures |frames[i]| <= 256 && CarriesAt(frames, F.Key(me, id), chunks, i, inflate)
    {
      PieceIsCarried(me, id, body, i, sentAt(i), frames[i], inflate);
    }
  }

  /**
   * The frames of a transfer carry its pieces, each in at most 256 bytes, and the pieces join to the transfer packet.
   */
  lemma TransferIsCarried(t: Transfer, inflate: Inflater)
    requires t.Goes()
    ensures Carries(t.Frames(), t.Key(), t.Chunks(), inflate) && F.Flatten(t.Chunks()) == t.Inner()
    ensures forall i :: 0 <= i < |t.Frames()| ==> |t.Frames()[i]| <= 256
  {
    SmallTransferSplits(t.Packet(), t.id);
    BodyIsCarried(t.me, t.id, t.Inner(), t.sentAt, inflate);
  }

  /** Somebody else than the receiver, who agrees with no blocked fingerprint. */
  ghost predicate Hears(rx: Receiver, sender: Id) {
    Hex(sender) != rx.me && forall f :: f in rx.blocked ==> !Agree(f, Hex(sender))
  }

  /** A receiver that is somebody else, does not block the sender and reads the same text. */
  ghost predicate Listens(rx: Receiver, t: Transfer) {
    && Hears(rx, t.me) && rx.utf8(t.name) && (t.mime.Some? ==> rx.utf8(t.mime.value))
  }

  /** What the user is told of a transfer: the file as it was sent, its size filled in. */
  function FileTold(t: Transfer, rx: Receiver): Event
    requires t.Goes()
  {
    FileEvent(rx, Hex(t.me), FP.Sent(FileOf(t.name, t.mime, t.content)))
  }

  /** Bytes that come out of the assembler and are told as this event alone. */
  predicate Yields(rx: Receiver, body: seq<byte>, told: Event) {
    AnswerEvents(rx, F.Complete(body)) == [told]
  }

  /** The joined bytes are the transfer: decoded and handled, they yield the file. */
  lemma WholeTransferYieldsFile(t: Transfer, rx: Receiver)
    requires t.Goes() && Listens(rx, t)
    ensures Yields(rx, t.Inner(), FileTold(t, rx))
    ensures FileTold(t, rx).peer == Hex(t.me) && FileTold(t, rx).content == t.content
    ensures FileTold(t, rx).mimeType == FP.Fitting(t.mime)
    ensures |t.name| <= 0xFFFF && !rx.blank(t.name) ==> FileTold(t, rx).title == FP.Named(t.name)
  {
    SmallTransferSplits(t.Packet(), t.id);
    RoundTrip(t.Packet(), true, rx.inflate);
    HeardIsHandled(rx, t.Packet());
    FileIsHandled(rx, t.Packet(), FileOf(t.name, t.mime, t.content));
  }

  lemma HeardIsHandled(rx: Receiver, p: Packet)
    requires Hears(rx, p.sender) && p.msgType == Relay.FILE_TRANSFER
    ensures HandleWhole(rx, p, true) == HandleFile(rx, p)
  {
    BlockedExactlyWhen(rx.blocked, Hex(p.sender));
  }

  lemma FileIsHandled(rx: Receiver, p: Packet, file: FP.FilePacket)
    requires FP.Encoded(file) == Some(p.payload) && file.content != []
    requires file.fileName.Some? ==> rx.utf8(file.fileName.value)
    requires file.mimeType.Some? ==> rx.utf8(file.mimeType.value)
    ensures HandleFile(rx, p) == [FileEvent(rx, Hex(p.sender), FP.Sent(file))]
  {
    FP.RoundTrip(file, rx.utf8);
  }

  // ---------- Runs of the receiver ----------

  /** What arrives: a frame of the transfer, by its number, or any other frame there is; and when. */
  datatype Delivery = Own(frame: nat, now: nat) | Other(raw: seq<byte>, now: nat)

  function Seen(deliveries: seq<Delivery>, k: nat): set<nat>
    requires k <= |deliveries|
  {
    set i | 0 <= i < k && deliveries[i].Own? :: deliveries[i].frame
  }

  /** The receiver, the stream of the transfer, and the other streams it may be assembling meanwhile: at most 127. */
  datatype Setting = Setting(rx: Receiver, frames: seq<seq<byte>>, key: F.Key, chunks: seq<seq<byte>>,
                             others: set<F.Key>, since: nat)
  {
    ghost predicate Valid() {
      && Carries(frames, key, chunks, rx.inflate) && Hears(rx, key.sender)
      && |others| < F.MAX_IN_FLIGHT && key !in others
    }
  }

  /** Another frame may be anything, but if it is a fragment then one of the other streams. */
  predicate Elsewhere(x: Setting, raw: seq<byte>) {
    var p := Decode(raw, x.rx.inflate);
    p.Some? && p.value.msgType == Relay.FRAGMENT && F.Parse(p.value).Some? ==> F.Parse(p.value).value.key in x.others
  }

  /** One delivery through the dispatch, and its events. */
  ghost predicate Handled(x: Setting, s: F.InFlight, d: Delivery, s': F.InFlight, e: seq<Event>) {
    && x.since <= d.now < x.since + F.ASSEMBLY_LIFETIME
    && match d
       case Own(frame, now) => frame < |x.frames| && (s', e) == HandleFrame(x.rx, s, x.frames[frame], now)
       case Other(raw, now) => Elsewhere(x, raw) && (s', e) == HandleFrame(x.rx, s, raw, now)
  }

  ghost predicate IsRun(x: Setting, states: seq<F.InFlight>, deliveries: seq<Delivery>, events: seq<seq<Event>>) {
    && |states| == |deliveries| + 1 && |events| == |deliveries|
    && forall i :: 0 <= i < |deliveries| ==> HandledAt(x, states, deliveries, events, i)
  }

  ghost predicate HandledAt(x: Setting, states: seq<F.InFlight>, deliveries: seq<Delivery>, events: seq<seq<Event>>,
                            i: int)
    requires 0 <= i < |deliveries| == |events| && |states| == |deliveries| + 1
  {
    Handled(x, states[i], deliveries[i], states[i + 1], events[i])
  }

  /** The assembler knows this stream and the others, and no more. */
  ghost predicate Room(x: Setting, s: F.InFlight) {
    F.Kept(s) && s.Keys <= x.others + {x.key}
  }

  /** And of this stream it holds exactly these pieces. */
  ghost predicate InHand(x: Setting, s: F.InFlight, got: set<nat>) {
    F.Holds(s, x.key, x.chunks, got, x.since) && Room(x, s)
  }

  /** And it holds nothing of this stream yet. */
  ghost predicate Ready(x: Setting, s: F.InFlight) {
    Room(x, s) && x.key !in s
  }

  lemma RoomLasts(x: Setting, s: F.InFlight, h: F.FragmentHeader, now: nat)
    requires Room(x, s) && h.Valid() && h.key in x.others + {x.key}
    ensures Room(x, F.Appended(s, h, now).0)
  {
    F.AppendKeeps(s, h, now);
    F.AppendAddsOnly(s, h, now);
  }

  lemma RoomForOwn(x: Setting, s: F.InFlight)
    requires Room(x, s) && |x.others| < F.MAX_IN_FLIGHT && x.key !in s
    ensures |s| < F.MAX_IN_FLIGHT
  {
    F.Smaller(s.Keys, x.others);
    assert |s| == |s.Keys|;
  }

  /** The pieces held after a delivery: none once they are all there. */
  ghost function GotAfter(got: set<nat>, d: Delivery, n: nat): set<nat> {
    if d.Other? || d.frame in got then got else F.GotAfter(got, d.frame, n)
  }

  lemma OwnAppends(x: Setting, s: F.InFlight, frame: nat, now: nat)
    requires x.Valid() && frame < |x.frames|
    ensures var (s', answer) := F.Appended(s, F.Piece(x.key, x.chunks, frame, Relay.FILE_TRANSFER), now);
            HandleFrame(x.rx, s, x.frames[frame], now) == (s', AnswerEvents(x.rx, answer))
  {
    assert CarriesAt(x.frames, x.key, x.chunks, frame, x.rx.inflate);
    BlockedExactlyWhen(x.rx.blocked, Hex(x.key.sender));
  }

  /** One frame of the stream: what it leaves in the assembler and what the user is told. */
  lemma OwnStep(x: Setting, got: set<nat>, s: F.InFlight, frame: nat, now: nat)
    requires x.Valid() && frame < |x.frames| && x.since <= now < x.since + F.ASSEMBLY_LIFETIME
    requires InHand(x, s, got)
    ensures var (s', e) := HandleFrame(x.rx, s, x.frames[frame], now);
            && InHand(x, s', GotAfter(got, Own(frame, now), |x.chunks|))
            && Told(x.rx, x.chunks, got, frame, e)
  {
    OwnAppends(x, s, frame, now);
    if x.key !in s {
      RoomForOwn(x, s);
    }
    var piece := F.Piece(x.key, x.chunks, frame, Relay.FILE_TRANSFER);
    F.StreamStep(s, x.key, x.chunks, got, frame, Relay.FILE_TRANSFER, x.since, now);
    RoomLasts(x, s, piece, now);
    AnswerIsTold(x.rx, F.Appended(s, piece, now).1, x.chunks, got, frame);
  }

  /** Any other frame leaves the stream alone. */
  lemma OtherStep(x: Setting, got: set<nat>, s: F.InFlight, raw: seq<byte>, now: nat)
    requires x.Valid() && Elsewhere(x, raw) && x.since <= now < x.since + F.ASSEMBLY_LIFETIME
    requires InHand(x, s, got)
    ensures var s' := HandleFrame(x.rx, s, raw, now).0;
            InHand(x, s', got)
  {
    var p := Decode(raw, x.rx.inflate);
    if p.Some? && p.value.msgType == Relay.FRAGMENT && F.Parse(p.value).Some? {
      var h := F.Parse(p.value).value;
      F.OtherStep(s, x.key, x.chunks, got, h, x.since, now);
      RoomLasts(x, s, h, now);
    }
  }

  /** The user hears of the joined bytes when the last missing piece arrives, and of nothing but drops before. */
  ghost predicate Told(rx: Receiver, chunks: seq<seq<byte>>, got: set<nat>, i: nat, e: seq<Event>) {
    if i !in got && F.Covers(got + {i}, |chunks|) then e == AnswerEvents(rx, F.Complete(F.Flatten(chunks)))
    else forall x :: x in e ==> x.Notice?
  }

  lemma AnswerIsTold(rx: Receiver, answer: F.Append, chunks: seq<seq<byte>>, got: set<nat>, i: nat)
    requires F.Answers(answer, chunks, got, i)
    ensures Told(rx, chunks, got, i, AnswerEvents(rx, answer))
  {
  }

  lemma StepOfRun(x: Setting, got: set<nat>, states: seq<F.InFlight>, deliveries: seq<Delivery>,
                  events: seq<seq<Event>>, i: nat)
    requires x.Valid() && IsRun(x, states, deliveries, events) && i < |deliveries|
    requires InHand(x, states[i], got)
    ensures InHand(x, states[i + 1], GotAfter(got, deliveries[i], |x.chunks|))
    ensures deliveries[i].Own? ==> Told(x.rx, x.chunks, got, deliveries[i].frame, events[i])
  {
    assert HandledAt(x, states, deliveries, events, i);
    match deliveries[i]
    case Own(frame, now) => OwnStep(x, got, states[i], frame, now);
    case Other(raw, now) => OtherStep(x, got, states[i], raw, now);
  }

  lemma SeenGrows(deliveries: seq<Delivery>, k: nat)
    requires k < |deliveries|
    ensures Seen(deliveries, k + 1)
         == Seen(deliveries, k) + (if deliveries[k].Own? then {deliveries[k].frame} else {})
    ensures deliveries[k].Own? && deliveries[k].frame in Seen(deliveries, k)
        ==> Seen(deliveries, k + 1) == Seen(deliveries, k)
  {
  }

  lemma SeenStep(deliveries: seq<Delivery>, k: nat, n: nat)
    requires k < |deliveries| && !F.Covers(Seen(deliveries, k + 1), n)
    ensures Seen(deliveries, k + 1) == GotAfter(Seen(deliveries, k), deliveries[k], n)
  {
    SeenGrows(deliveries, k);
  }

  lemma SeenLess(deliveries: seq<Delivery>, k: nat, n: nat)
    requires k < |deliveries| && !F.Covers(Seen(deliveries, k + 1), n)
    ensures !F.Covers(Seen(deliveries, k), n)
  {
    SeenGrows(deliveries, k);
  }

  /** If the assembler holds exactly the frames seen before a delivery, and some are missing after it, it does again. */
  ghost predicate KeepsUp(x: Setting, states: seq<F.InFlight>, deliveries: seq<Delivery>, k: nat, next: nat)
    requires next <= |deliveries| < |states| && k <= next
  {
    InHand(x, states[k], Seen(deliveries, k)) && !F.Covers(Seen(deliveries, next), |x.chunks|)
    ==> InHand(x, states[next], Seen(deliveries, next))
  }

  lemma OneMoreDelivery(x: Setting, states: seq<F.InFlight>, deliveries: seq<Delivery>, events: seq<seq<Event>>, k: nat,
                        next: nat)
    requires x.Valid() && IsRun(x, states, deliveries, events) && k < |deliveries| && next == k + 1
    ensures KeepsUp(x, states, deliveries, k, next)
  {
    if InHand(x, states[k], Seen(deliveries, k)) && !F.Covers(Seen(deliveries, next), |x.chunks|) {
      SeenStep(deliveries, k, |x.chunks|);
      StepOfRun(x, Seen(deliveries, k), states, deliveries, events, k);
    }
  }

  lemma ReadyHoldsNothing(x: Setting, s: F.InFlight, got: set<nat>)
    requires Ready(x, s) && got == {}
    ensures InHand(x, s, got)
  {
  }

  lemma {:induction false} AllKeepUp(x: Setting, states: seq<F.InFlight>, deliveries: seq<Delivery>, k: nat)
    requires k <= |deliveries| < |states| && InHand(x, states[0], Seen(deliveries, 0))
    requires forall i, next :: 0 <= i && next == i + 1 <= |deliveries| ==> KeepsUp(x, states, deliveries, i, next)
    requires !F.Covers(Seen(deliveries, k), |x.chunks|)
    ensures InHand(x, states[k], Seen(deliveries, k))
  {
    if k > 0 {
      SeenLess(deliveries, k - 1, |x.chunks|);
      AllKeepUp(x, states, deliveries, k - 1);
      assert KeepsUp(x, states, deliveries, k - 1, k);
    }
  }

  /** While the stream is not complete, the assembler holds exactly the frames seen. */
  lemma HoldsWhatCame(x: Setting, states: seq<F.InFlight>, deliveries: seq<Delivery>, events: seq<seq<Event>>, k: nat)
    requires x.Valid() && IsRun(x, states, deliveries, events) && Ready(x, states[0])
    requires k <= |deliveries| && !F.Covers(Seen(deliveries, k), |x.chunks|)
    ensures InHand(x, states[k], Seen(deliveries, k))
  {
    ReadyHoldsNothing(x, states[0], Seen(deliveries, 0));
    forall i: nat, next: nat | next == i + 1 <= |deliveries| ensures KeepsUp(x, states, deliveries, i, next) {
      OneMoreDelivery(x, states, deliveries, events, i, next);
    }
    AllKeepUp(x, states, deliveries, k);
  }

  lemma LastFrameCompletes(x: Setting, states: seq<F.InFlight>, deliveries: seq<Delivery>, events: seq<seq<Event>>,
                           k: nat, told: Event)
    requires x.Valid() && IsRun(x, states, deliveries, events) && Ready(x, states[0])
    requires k < |deliveries| && deliveries[k].Own? && !F.Covers(Seen(deliveries, k), |x.frames|)
    requires Yields(x.rx, F.Flatten(x.chunks), told)
    ensures F.Covers(Seen(deliveries, k + 1), |x.frames|) ==> events[k] == [told]
    ensures !F.Covers(Seen(deliveries, k + 1), |x.frames|) ==> forall e :: e in events[k] ==> e.Notice?
  {
    SeenGrows(deliveries, k);
    HoldsWhatCame(x, states, deliveries, events, k);
    StepOfRun(x, Seen(deliveries, k), states, deliveries, events, k);
  }

  /** Over any run of deliveries, no file is reported as from a blocked peer. */
  lemma RunNamesNoBlocked(x: Setting, states: seq<F.InFlight>, deliveries: seq<Delivery>, events: seq<seq<Event>>,
                          i: nat, e: Event)
    requires IsRun(x, states, deliveries, events) && i < |deliveries| && e in events[i] && e.FileReceived?
    ensures e.peer != x.rx.me && forall f :: f in x.rx.blocked ==> !Agree(f, e.peer)
  {
    assert HandledAt(x, states, deliveries, events, i);
    match deliveries[i]
    case Own(frame, now) => NoFileFromBlocked(x.rx, states[i], x.frames[frame], now, e);
    case Other(raw, now) => NoFileFromBlocked(x.rx, states[i], raw, now, e);
  }

  /** The stream is this transfer's, and at most 127 others are about. */
  ghost predicate Concerns(x: Setting, t: Transfer)
    requires t.Goes()
  {
    && x.frames == t.Frames() && x.key == t.Key() && x.chunks == t.Chunks()
    && |x.others| < F.MAX_IN_FLIGHT && x.key !in x.others
  }

  lemma SettingYieldsFile(x: Setting, t: Transfer, told: Event)
    requires t.Goes() && Listens(x.rx, t) && Concerns(x, t) && told == FileTold(t, x.rx)
    ensures x.Valid() && Yields(x.rx, F.Flatten(x.chunks), told)
  {
    TransferIsCarried(t, x.rx.inflate);
    WholeTransferYieldsFile(t, x.rx);
  }

  /**
   * End to end, through four layers: the frames of a transfer reach an unblocked peer in any order, each any number of
   * times before the last is in, among frames of up to 127 other streams and anything else. The file arrives, whole,
   * exactly with the frame that was still missing, and not before.
   */
  lemma FileArrivesWithLastFrame(t: Transfer, x: Setting, states: seq<F.InFlight>, deliveries: seq<Delivery>,
                                 events: seq<seq<Event>>, k: nat)
    requires t.Goes() && Listens(x.rx, t) && Concerns(x, t)
    requires IsRun(x, states, deliveries, events) && Ready(x, states[0])
    requires k < |deliveries| && deliveries[k].Own? && !F.Covers(Seen(deliveries, k), |x.frames|)
    ensures F.Covers(Seen(deliveries, k + 1), |x.frames|) ==> events[k] == [FileTold(t, x.rx)]
    ensures !F.Covers(Seen(deliveries, k + 1), |x.frames|) ==> forall e :: e in events[k] ==> e.Notice?
  {
    var told := FileTold(t, x.rx);
    SettingYieldsFile(x, t, told);
    LastFrameCompletes(x, states, deliveries, events, k, told);
  }
}
