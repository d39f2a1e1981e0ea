/** The frame format of `protocol.rs`: encoding, decoding, PKCS#7 padding and the bytes a signature covers. */
module Wire {
  import opened Prelude
  import opened Bytes

  const V1_HEADER_SIZE := 14
  const V2_HEADER_SIZE := 16
  const SENDER_ID_SIZE := 8
  const SIGNATURE_SIZE := 64
  const MAX_FRAMED_PAYLOAD := 8 * 1024 * 1024
  const BROADCAST_RECIPIENT: Id := [0xFF, 0xFF, 0xFF, 0xFF, 0xFF, 0xFF, 0xFF, 0xFF]

  const HAS_RECIPIENT := 0x01
  const HAS_SIGNATURE := 0x02
  const IS_COMPRESSED := 0x04
  const HAS_ROUTE := 0x08
  const IS_RSR := 0x10

  datatype Packet = Packet(
    version: byte, msgType: byte, ttl: byte, timestamp: u64, sender: Id, recipient: Option<Id>,
    payload: seq<byte>, signature: Option<seq<byte>>, route: Option<seq<Id>>, isRsr: bool)
  {
    predicate IsBroadcast() {
      recipient.None? || recipient.value == BROADCAST_RECIPIENT
    }
  }

  /** DEFLATE, left abstract: compressed bytes and the announced size give the original or fail. */
  type Inflater = (seq<byte>, nat) -> Option<seq<byte>>

  /** The packets the format can carry exactly; `RoundTripIff` shows the others do not survive the wire. */
  predicate WellFormed(p: Packet) {
    && (p.version == 1 || p.version == 2)
    && |p.payload| <= (if p.version == 1 then 0xFFFF else MAX_FRAMED_PAYLOAD)
    && (p.signature.Some? ==> |p.signature.value| == SIGNATURE_SIZE)
    && (p.route.Some? ==> p.version == 2 && 1 <= |p.route.value| <= 255)
  }

  // ---------- Encoding ----------

  function LengthWidth(version: byte): nat {
    if version == 2 then 4 else 2
  }

  /** The hops that go on the wire: a version 1 frame has no route section. */
  function WireRoute(p: Packet): seq<Id> {
    if p.version >= 2 && p.route.Some? then p.route.value else []
  }

  function FlagByte(p: Packet): byte {
    (if p.recipient.Some? then HAS_RECIPIENT else 0) + (if p.signature.Some? then HAS_SIGNATURE else 0)
    + (if WireRoute(p) != [] then HAS_ROUTE else 0) + (if p.isRsr then IS_RSR else 0)
  }

  function Join(hops: seq<Id>): (s: seq<byte>)
    ensures |s| == 8 * |hops|
  {
    if hops == [] then [] else hops[0] + Join(hops[1..])
  }

  function RecipientBytes(p: Packet): seq<byte> {
    if p.recipient.Some? then p.recipient.value else []
  }

  function RouteBytes(p: Packet): seq<byte>
    requires |WireRoute(p)| <= 255
  {
    var hops := WireRoute(p);
    if hops == [] then [] else [|hops|] + Join(hops)
  }

  function SignatureBytes(p: Packet): seq<byte> {
    if p.signature.None? then []
    else if |p.signature.value| > SIGNATURE_SIZE then p.signature.value[..SIGNATURE_SIZE]
    else p.signature.value
  }

  function Header(p: Packet): seq<byte> {
    [p.version, p.msgType, p.ttl] + BigEndian(p.timestamp, 8) + [FlagByte(p)]
    + BigEndian(|p.payload|, LengthWidth(p.version)) + p.sender
  }

  function Body(p: Packet): seq<byte>
    requires |WireRoute(p)| <= 255
  {
    RecipientBytes(p) + (RouteBytes(p) + (p.payload + SignatureBytes(p)))
  }

  function Encoded(p: Packet, padding: bool): Option<seq<byte>> {
    if p.version != 1 && p.version != 2 then None
    else if |WireRoute(p)| > 255 then None
    else if p.version == 1 && |p.payload| > 0xFFFF then None
    else
      var data := Header(p) + Body(p);
      Some(if padding then Pad(data, OptimalBlockSize(|data|)) else data)
  }

  function Encode(p: Packet): Option<seq<byte>> {
    Encoded(p, true)
  }

  function Unsigned(p: Packet): Packet {
    p.(signature := None, ttl := 0, isRsr := false)
  }

  function SigningBytes(p: Packet): Option<seq<byte>> {
    Encoded(Unsigned(p), true)
  }

  // ---------- Padding ----------

  function OptimalBlockSize(size: nat): nat {
    var total := size + 16;
    if total <= 256 then 256 else if total <= 512 then 512
    else if total <= 1024 then 1024 else if total <= 2048 then 2048 else size
  }

  function Repeat(b: byte, n: nat): (s: seq<byte>)
    ensures |s| == n && forall i :: 0 <= i < n ==> s[i] == b
  {
    seq(n, _ => b)
  }

  function Pad(data: seq<byte>, target: nat): seq<byte> {
    if |data| >= target || target - |data| > 255 then data
    else data + Repeat(target - |data|, target - |data|)
  }

  function Unpad(data: seq<byte>): seq<byte> {
    if data == [] then data
    else
      var last := data[|data| - 1];
      if last == 0 || last > |data| then data
      else if exists i :: |data| - last <= i < |data| && data[i] != last then data
      else data[..|data| - last]
  }

  // ---------- Decoding ----------

  predicate Bit(flags: byte, mask: nat)
    requires mask > 0
  {
    (flags / mask) % 2 == 1
  }

  function Take(s: seq<byte>, n: nat): Option<(seq<byte>, seq<byte>)> {
    if n <= |s| then Some((s[..n], s[n..])) else None
  }

  function ReadRecipient(present: bool, s: seq<byte>): Option<(Option<Id>, seq<byte>)> {
    if !present then Some((None, s))
    else
      var (id, rest) :- Take(s, 8);
      Some((Some(id), rest))
  }

  function ReadHops(count: nat, s: seq<byte>): (r: Option<(seq<Id>, seq<byte>)>)
    ensures r.Some? ==> |r.value.0| == count
  {
    if count == 0 then Some(([], s))
    else
      var (hop, rest) :- Take(s, 8);
      var (hops, rest') :- ReadHops(count - 1, rest);
      Some(([hop] + hops, rest'))
  }

  function ReadRoute(present: bool, s: seq<byte>): Option<(Option<seq<Id>>, seq<byte>)> {
    if !present then Some((None, s))
    else
      var (count, rest) :- Take(s, 1);
      if count[0] == 0 then Some((None, rest))
      else
        var (hops, rest') :- ReadHops(count[0], rest);
        Some((Some(hops), rest'))
  }

  function ReadPayload(compressed: bool, length: nat, width: nat, s: seq<byte>, inflate: Inflater)
    : Option<(seq<byte>, seq<byte>)>
  {
    if !compressed then Take(s, length)
    else if length < width then None
    else
      var (size, rest) :- Take(s, width);
      var original := FromBigEndian(size);
      if original > MAX_FRAMED_PAYLOAD || length == width then None
      else
        var (deflated, rest') :- Take(rest, length - width);
        if original > 50_000 * (length - width) then None
        else
          var bytes :- inflate(deflated, original);
          if |bytes| != original then None else Some((bytes, rest'))
  }

  function ReadSignature(present: bool, s: seq<byte>): Option<(Option<seq<byte>>, seq<byte>)> {
    if !present then Some((None, s))
    else
      var (sig, rest) :- Take(s, SIGNATURE_SIZE);
      Some((Some(sig), rest))
  }

  datatype Head = Head(version: byte, msgType: byte, ttl: byte, timestamp: u64, flags: byte, length: nat, sender: Id)

  /** The fixed header and the sender id. */
  function ReadHead(raw: seq<byte>): Option<(Head, seq<byte>)> {
    if |raw| < V1_HEADER_SIZE + SENDER_ID_SIZE || (raw[0] != 1 && raw[0] != 2) then None
    else
      var width := LengthWidth(raw[0]);
      if |raw| < 12 + width + SENDER_ID_SIZE then None
      else
        var length := FromBigEndian(raw[12..12 + width]);
        if length > MAX_FRAMED_PAYLOAD then None
        else
          BigEndianIsU64(raw[3..11]);
          Some((Head(raw[0], raw[1], raw[2], FromBigEndian(raw[3..11]), raw[11], length, raw[12 + width..20 + width]),
                raw[20 + width..]))
  }

  function ReadBody(h: Head, s: seq<byte>, inflate: Inflater): Option<(Packet, seq<byte>)> {
    var (recipient, afterRecipient) :- ReadRecipient(Bit(h.flags, HAS_RECIPIENT), s);
    var (route, afterRoute) :- ReadRoute(h.version >= 2 && Bit(h.flags, HAS_ROUTE), afterRecipient);
    var (payload, afterPayload) :-
      ReadPayload(Bit(h.flags, IS_COMPRESSED), h.length, LengthWidth(h.version), afterRoute, inflate);
    var (signature, rest) :- ReadSignature(Bit(h.flags, HAS_SIGNATURE), afterPayload);
    Some((Packet(h.version, h.msgType, h.ttl, h.timestamp, h.sender, recipient, payload, signature, route,
                 Bit(h.flags, IS_RSR)), rest))
  }

  /** The packet at the front of `raw`, and the bytes behind it, which decoding ignores. */
  function DecodeFront(raw: seq<byte>, inflate: Inflater): Option<(Packet, seq<byte>)> {
    var (head, rest) :- ReadHead(raw);
    ReadBody(head, rest, inflate)
  }

  function DecodeCore(raw: seq<byte>, inflate: Inflater): Option<Packet> {
    var (packet, _) :- DecodeFront(raw, inflate);
    Some(packet)
  }

  function Decode(raw: seq<byte>, inflate: Inflater): Option<Packet> {
    var direct := DecodeCore(raw, inflate);
    if direct.Some? then direct
    else
      var unpadded := Unpad(raw);
      if |unpadded| == |raw| then None else DecodeCore(unpadded, inflate)
  }

  lemma BigEndianIsU64(s: seq<byte>)
    requires |s| == 8
    ensures FromBigEndian(s) < 0x1_0000_0000_0000_0000
  {
    FromBigEndianBound(s);
    Pow256Values();
  }

  // ---------- Reading back what was written ----------

  lemma {:induction false} ReadHopsOfJoin(hops: seq<Id>, rest: seq<byte>)
    ensures ReadHops(|hops|, Join(hops) + rest) == Some((hops, rest))
  {
    if hops != [] {
      ReadHopsOfJoin(hops[1..], rest);
      assert Join(hops) + rest == hops[0] + (Join(hops[1..]) + rest);
      assert hops == [hops[0]] + hops[1..];
    } else {
      assert Join(hops) + rest == rest;
    }
  }

  lemma TakeFront(front: seq<byte>, rest: seq<byte>)
    ensures Take(front + rest, |front|) == Some((front, rest))
    ensures front == [] ==> front + rest == rest
  {
    assert (front + rest)[..|front|] == front && (front + rest)[|front|..] == rest;
  }

  lemma FlagsReadBack(p: Packet)
    ensures Bit(FlagByte(p), HAS_RECIPIENT) == p.recipient.Some?
    ensures Bit(FlagByte(p), HAS_SIGNATURE) == p.signature.Some?
    ensures !Bit(FlagByte(p), IS_COMPRESSED)
    ensures Bit(FlagByte(p), HAS_ROUTE) == (WireRoute(p) != [])
    ensures Bit(FlagByte(p), IS_RSR) == p.isRsr
  {
  }

  lemma RouteReadsBack(p: Packet, rest: seq<byte>)
    requires WellFormed(p)
    ensures ReadRoute(WireRoute(p) != [], RouteBytes(p) + rest) == Some((p.route, rest))
  {
    var hops := WireRoute(p);
    if hops != [] {
      assert RouteBytes(p) + rest == [|hops|] + (Join(hops) + rest);
      TakeFront([|hops|], Join(hops) + rest);
      ReadHopsOfJoin(hops, rest);
    } else {
      TakeFront([], rest);
    }
  }

  /** The four sections behind the header come back exactly, whatever follows them. */
  lemma BodyReadsBack(p: Packet, junk: seq<byte>, inflate: Inflater)
    requires WellFormed(p)
    ensures ReadBody(HeadOf(p), Body(p) + junk, inflate) == Some((p, junk))
  {
    var s3 := SignatureBytes(p) + junk;
    var s2 := p.payload + s3;
    var s1 := RouteBytes(p) + s2;
    assert Body(p) + junk == RecipientBytes(p) + s1;
    FlagsReadBack(p);
    TakeFront(RecipientBytes(p), s1);
    RouteReadsBack(p, s2);
    TakeFront(p.payload, s3);
    TakeFront(SignatureBytes(p), junk);
  }

  function HeadOf(p: Packet): Head {
    Head(p.version, p.msgType, p.ttl, p.timestamp, FlagByte(p), |p.payload|, p.sender)
  }

  lemma HeaderReadsBack(p: Packet, tail: seq<byte>)
    requires WellFormed(p)
    ensures ReadHead(Header(p) + tail) == Some((HeadOf(p), tail))
  {
    Pow256Values();
    var raw := Header(p) + tail;
    var width := LengthWidth(p.version);
    BigEndianRoundTrip(p.timestamp, 8);
    BigEndianRoundTrip(|p.payload|, width);
    assert raw[3..11] == BigEndian(p.timestamp, 8);
    assert raw[12..12 + width] == BigEndian(|p.payload|, width);
    assert raw[12 + width..20 + width] == p.sender;
    assert raw[20 + width..] == tail;
  }

  lemma FrontOfFrame(p: Packet, junk: seq<byte>, inflate: Inflater)
    requires WellFormed(p)
    ensures DecodeFront(Header(p) + Body(p) + junk, inflate) == Some((p, junk))
  {
    assert Header(p) + Body(p) + junk == Header(p) + (Body(p) + junk);
    HeaderReadsBack(p, Body(p) + junk);
    BodyReadsBack(p, junk, inflate);
  }

  lemma PadAppends(data: seq<byte>, target: nat)
    ensures exists junk :: Pad(data, target) == data + junk
  {
    assert data == data + [];
  }

  lemma WellFormedEncodes(p: Packet)
    requires WellFormed(p)
    ensures Encode(p).Some?
  {
  }

  /** Decoding an encoded packet gives it back, padded or not. */
  lemma RoundTrip(p: Packet, padding: bool, inflate: Inflater)
    requires WellFormed(p)
    ensures Encoded(p, padding).Some?
    ensures Decode(Encoded(p, padding).value, inflate) == Some(p)
  {
    var data := Header(p) + Body(p);
    PadAppends(data, OptimalBlockSize(|data|));
    var junk :| Encoded(p, padding).value == data + junk
      by { assert data == data + []; }
    FrontOfFrame(p, junk, inflate);
  }

  // ---------- What decoding can produce ----------

  lemma FrontIsWellFormed(raw: seq<byte>, inflate: Inflater)
    requires DecodeFront(raw, inflate).Some?
    ensures WellFormed(DecodeFront(raw, inflate).value.0)
  {
    if raw[0] == 1 {
      Pow256Values();
      FromBigEndianBound(raw[12..14]);
      forall s: seq<byte> | |s| == 2 ensures FromBigEndian(s) <= 0xFFFF {
        FromBigEndianBound(s);
      }
    }
  }

  lemma DecodedIsWellFormed(raw: seq<byte>, inflate: Inflater)
    requires Decode(raw, inflate).Some?
    ensures WellFormed(Decode(raw, inflate).value)
  {
    if DecodeCore(raw, inflate).Some? {
      FrontIsWellFormed(raw, inflate);
    } else {
      FrontIsWellFormed(Unpad(raw), inflate);
    }
  }

  /** The packets that survive the wire are exactly the well-formed ones. */
  lemma RoundTripIff(p: Packet, inflate: Inflater)
    ensures WellFormed(p) <==> Encode(p).Some? && Decode(Encode(p).value, inflate) == Some(p)
  {
    if WellFormed(p) {
      RoundTrip(p, true, inflate);
    } else if Encode(p).Some? && Decode(Encode(p).value, inflate) == Some(p) {
      DecodedIsWellFormed(Encode(p).value, inflate);
    }
  }

  /** Whatever decodes, compressed or not, re-encodes to a frame that decodes to the same packet. */
  lemma ReencodeIsStable(raw: seq<byte>, inflate: Inflater)
    requires Decode(raw, inflate).Some?
    ensures
      var p := Decode(raw, inflate).value;
      Encode(p).Some? && Decode(Encode(p).value, inflate) == Some(p)
  {
    DecodedIsWellFormed(raw, inflate);
    RoundTripIff(Decode(raw, inflate).value, inflate);
  }

  // ---------- Trailing bytes ----------

  lemma TakeExtends(s: seq<byte>, n: nat, more: seq<byte>)
    requires n <= |s|
    ensures Take(s + more, n) == Some((s[..n], s[n..] + more))
  {
    assert (s + more)[..n] == s[..n];
    assert (s + more)[n..] == s[n..] + more;
  }

  lemma {:induction false} ReadHopsExtends(count: nat, s: seq<byte>, more: seq<byte>)
    requires ReadHops(count, s).Some?
    ensures ReadHops(count, s + more) == Some((ReadHops(count, s).value.0, ReadHops(count, s).value.1 + more))
  {
    if count > 0 {
      TakeExtends(s, 8, more);
      ReadHopsExtends(count - 1, s[8..], more);
    }
  }

  lemma ReadRouteExtends(present: bool, s: seq<byte>, more: seq<byte>)
    requires ReadRoute(present, s).Some?
    ensures ReadRoute(present, s + more) == Some((ReadRoute(present, s).value.0, ReadRoute(present, s).value.1 + more))
  {
    if present {
      TakeExtends(s, 1, more);
      if s[0] != 0 {
        ReadHopsExtends(s[0], s[1..], more);
      }
    }
  }

  lemma ReadPayloadExtends(compressed: bool, length: nat, width: nat, s: seq<byte>, more: seq<byte>, inflate: Inflater)
    requires ReadPayload(compressed, length, width, s, inflate).Some?
    ensures ReadPayload(compressed, length, width, s + more, inflate)
         == Some((ReadPayload(compressed, length, width, s, inflate).value.0,
                  ReadPayload(compressed, length, width, s, inflate).value.1 + more))
  {
    if !compressed {
      TakeExtends(s, length, more);
    } else {
      TakeExtends(s, width, more);
      TakeExtends(s[width..], length - width, more);
    }
  }

  lemma ReadHeadExtends(raw: seq<byte>, more: seq<byte>)
    requires ReadHead(raw).Some?
    ensures ReadHead(raw + more) == Some((ReadHead(raw).value.0, ReadHead(raw).value.1 + more))
  {
    var whole, width := raw + more, LengthWidth(raw[0]);
    assert whole[3..11] == raw[3..11] && whole[12..12 + width] == raw[12..12 + width];
    assert whole[12 + width..20 + width] == raw[12 + width..20 + width];
    assert whole[20 + width..] == raw[20 + width..] + more;
  }

  lemma ReadBodyExtends(h: Head, s: seq<byte>, more: seq<byte>, inflate: Inflater)
    requires ReadBody(h, s, inflate).Some?
    ensures ReadBody(h, s + more, inflate)
         == Some((ReadBody(h, s, inflate).value.0, ReadBody(h, s, inflate).value.1 + more))
  {
    if Bit(h.flags, HAS_RECIPIENT) {
      TakeExtends(s, 8, more);
    }
    var s1 := ReadRecipient(Bit(h.flags, HAS_RECIPIENT), s).value.1;
    var routed := h.version >= 2 && Bit(h.flags, HAS_ROUTE);
    ReadRouteExtends(routed, s1, more);
    var s2 := ReadRoute(routed, s1).value.1;
    var width := LengthWidth(h.version);
    ReadPayloadExtends(Bit(h.flags, IS_COMPRESSED), h.length, width, s2, more, inflate);
    var s3 := ReadPayload(Bit(h.flags, IS_COMPRESSED), h.length, width, s2, inflate).value.1;
    if Bit(h.flags, HAS_SIGNATURE) {
      TakeExtends(s3, SIGNATURE_SIZE, more);
    }
  }

  /** Bytes behind a frame never change what is decoded. */
  lemma FrontIgnoresTail(raw: seq<byte>, more: seq<byte>, inflate: Inflater)
    requires DecodeFront(raw, inflate).Some?
    ensures DecodeFront(raw + more, inflate)
         == Some((DecodeFront(raw, inflate).value.0, DecodeFront(raw, inflate).value.1 + more))
  {
    ReadHeadExtends(raw, more);
    ReadBodyExtends(ReadHead(raw).value.0, ReadHead(raw).value.1, more, inflate);
  }

  /** The retry after stripping padding never rescues a frame: it can only see a prefix of what already failed. */
  lemma RetryNeverHelps(raw: seq<byte>, inflate: Inflater)
    ensures Decode(raw, inflate) == DecodeCore(raw, inflate)
  {
    var front := Unpad(raw);
    if |front| != |raw| && DecodeCore(front, inflate).Some? {
      assert raw == front + raw[|front|..];
      FrontIgnoresTail(front, raw[|front|..], inflate);
    }
  }

  lemma FrontNeedsItAll(front: seq<byte>, back: seq<byte>, p: Packet, inflate: Inflater)
    requires back != [] && DecodeFront(front + back, inflate) == Some((p, []))
    ensures DecodeFront(front, inflate).None?
  {
    if DecodeFront(front, inflate).Some? {
      FrontIgnoresTail(front, back, inflate);
    }
  }

  /** A strict prefix of an unpadded frame is refused, never misread. */
  lemma TruncationIsRefused(p: Packet, end: nat, inflate: Inflater)
    requires WellFormed(p) && end < |Header(p) + Body(p)|
    ensures Decode((Header(p) + Body(p))[..end], inflate).None?
  {
    var whole := Header(p) + Body(p);
    FrontOfFrame(p, [], inflate);
    assert whole + [] == whole[..end] + whole[end..];
    FrontNeedsItAll(whole[..end], whole[end..], p, inflate);
    RetryNeverHelps(whole[..end], inflate);
  }

  // ---------- Padding laws (section 6.3 of RFC 5652) ----------

  /** Stripping undoes padding whenever padding was applied. */
  lemma UnpadPad(data: seq<byte>, target: nat)
    requires |data| < target <= |data| + 255
    ensures |Pad(data, target)| == target && Unpad(Pad(data, target)) == data
  {
    var padded := Pad(data, target);
    var n := target - |data|;
    assert padded[|padded| - 1] == n;
    assert forall i :: |padded| - n <= i < |padded| ==> padded[i] == n;
    assert padded[..|data|] == data;
  }

  /** The size on the air: a block, or the bare frame when it is within 16 of its block's end or needs more than 255. */
  lemma PaddedSize(data: seq<byte>)
    ensures
      var n := |Pad(data, OptimalBlockSize(|data|))|;
      n == (if 1 <= |data| <= 240 then 256 else if 257 <= |data| <= 496 then 512
            else if 769 <= |data| <= 1008 then 1024 else if 1793 <= |data| <= 2032 then 2048
            else |data|)
  {
  }

  // ---------- Signatures ----------

  /** The signature pins down everything but the hop count, the RSR flag and the signature itself. */
  lemma SigningBytesPinPacket(p: Packet, q: Packet)
    requires WellFormed(p) && WellFormed(q)
    ensures SigningBytes(p) == SigningBytes(q) <==> Unsigned(p) == Unsigned(q)
  {
    var inflate: Inflater := (_, _) => None;
    RoundTrip(Unsigned(p), true, inflate);
    RoundTrip(Unsigned(q), true, inflate);
  }

  // ---------- The buffers of the source ----------

  method EncodeWithPadding(p: Packet, padding: bool) returns (r: Option<seq<byte>>)
    ensures r == Encoded(p, padding)
  {
    if p.version != 1 && p.version != 2 {
      return None;
    }
    var route := WireRoute(p);
    if |route| > 255 {
      return None;
    }
    if p.version == 1 && |p.payload| > 0xFFFF {
      return None;
    }
    var data := PushHeader(p);
    data := PushBody(data, p);
    r := Some(if padding then Pad(data, OptimalBlockSize(|data|)) else data);
  }

  method PushBody(start: seq<byte>, p: Packet) returns (data: seq<byte>)
    requires |WireRoute(p)| <= 255
    ensures data == start + Body(p)
  {
    data := PushOptional(start, p.recipient);
    data := PushRoute(data, WireRoute(p));
    data := data + p.payload;
    data := PushOptional(data, if p.signature.None? then None else Some(SignatureBytes(p)));
    Regroup(start, RecipientBytes(p), RouteBytes(p), p.payload, SignatureBytes(p));
  }

  lemma Regroup(a: seq<byte>, b: seq<byte>, c: seq<byte>, d: seq<byte>, e: seq<byte>)
    ensures a + (b + (c + (d + e))) == a + b + c + d + e
  {
  }

  method PushOptional(start: seq<byte>, field: Option<seq<byte>>) returns (data: seq<byte>)
    ensures data == start + (if field.Some? then field.value else [])
  {
    data := start;
    if field.Some? {
      data := data + field.value;
    }
  }

  method PushRoute(start: seq<byte>, route: seq<Id>) returns (data: seq<byte>)
    requires |route| <= 255
    ensures data == start + (if route == [] then [] else [|route|] + Join(route))
  {
    data := start;
    if route != [] {
      data := PushHops(data + [|route|], route);
    }
  }

  method PushHeader(p: Packet) returns (data: seq<byte>)
    ensures data == Header(p)
  {
    data := [p.version, p.msgType, p.ttl];
    data := data + BigEndian(p.timestamp, 8);
    var flagByte := 0;
    if p.recipient.Some? {
      flagByte := flagByte + HAS_RECIPIENT;
    }
    if p.signature.Some? {
      flagByte := flagByte + HAS_SIGNATURE;
    }
    if WireRoute(p) != [] && p.version >= 2 {
      flagByte := flagByte + HAS_ROUTE;
    }
    if p.isRsr {
      flagByte := flagByte + IS_RSR;
    }
    data := data + [flagByte];
    data := data + BigEndian(|p.payload|, LengthWidth(p.version));
    data := data + p.sender;
  }

  method PushHops(start: seq<byte>, route: seq<Id>) returns (data: seq<byte>)
    ensures data == start + Join(route)
  {
    data := start;
    assert route[0..] == route;
    for i := 0 to |route|
      invariant start + Join(route) == data + Join(route[i..])
    {
      assert route[i..][1..] == route[i + 1..];
      data := data + route[i];
    }
    assert data + [] == data;
  }

  /** The hops of a route section as the source reads them, moving an offset along the frame. */
  method ReadHopsAt(raw: seq<byte>, start: nat, count: nat) returns (r: Option<(seq<Id>, nat)>)
    requires start <= |raw|
    ensures r.None? <==> ReadHops(count, raw[start..]).None?
    ensures r.Some? ==> start <= r.value.1 <= |raw|
    ensures r.Some? ==> ReadHops(count, raw[start..]) == Some((r.value.0, raw[r.value.1..]))
  {
    var hops: seq<Id>, offset, left: nat := [], start, count;
    ghost var all := ReadHops(count, raw[start..]);
    assert all.Some? ==> [] + all.value.0 == all.value.0;
    while left > 0
      invariant start <= offset <= |raw|
      invariant ReadHops(count, raw[start..]) == Prefixed(hops, ReadHops(left, raw[offset..]))
    {
      if offset + 8 > |raw| {
        return None;
      }
      var hop := raw[offset..offset + 8];
      assert raw[offset..][..8] == hop && raw[offset..][8..] == raw[offset + 8..];
      ghost var tail := ReadHops(left - 1, raw[offset + 8..]);
      assert tail.Some? ==> hops + ([hop] + tail.value.0) == hops + [hop] + tail.value.0;
      hops, offset, left := hops + [hop], offset + 8, left - 1;
    }
    assert hops + [] == hops;
    return Some((hops, offset));
  }

  ghost function Prefixed(hops: seq<Id>, tail: Option<(seq<Id>, seq<byte>)>): Option<(seq<Id>, seq<byte>)> {
    if tail.None? then None else Some((hops + tail.value.0, tail.value.1))
  }

  method ReadRouteAt(raw: seq<byte>, start: nat, present: bool) returns (r: Option<(Option<seq<Id>>, nat)>)
    requires start <= |raw|
    ensures r.None? <==> ReadRoute(present, raw[start..]).None?
    ensures r.Some? ==> start <= r.value.1 <= |raw|
    ensures r.Some? ==> ReadRoute(present, raw[start..]) == Some((r.value.0, raw[r.value.1..]))
  {
    if !present {
      return Some((None, start));
    }
    if start + 1 > |raw| {
      return None;
    }
    SliceTake(raw, start, 1);
    if raw[start] == 0 {
      return Some((None, start + 1));
    }
    var hops := ReadHopsAt(raw, start + 1, raw[start]);
    if hops.None? {
      return None;
    }
    return Some((Some(hops.value.0), hops.value.1));
  }

  method ReadPayloadAt(raw: seq<byte>, start: nat, compressed: bool, length: nat, width: nat, inflate: Inflater)
    returns (r: Option<(seq<byte>, nat)>)
    requires start <= |raw|
    ensures r.None? <==> ReadPayload(compressed, length, width, raw[start..], inflate).None?
    ensures r.Some? ==> start <= r.value.1 <= |raw|
    ensures r.Some?
        ==> ReadPayload(compressed, length, width, raw[start..], inflate) == Some((r.value.0, raw[r.value.1..]))
  {
    var offset := start;
    if !compressed {
      if offset + length > |raw| {
        return None;
      }
      SliceTake(raw, offset, length);
      return Some((raw[offset..offset + length], offset + length));
    }
    if length < width || offset + width > |raw| {
      return None;
    }
    SliceTake(raw, offset, width);
    var original := FromBigEndian(raw[offset..offset + width]);
    offset := offset + width;
    if original > MAX_FRAMED_PAYLOAD {
      return None;
    }
    var deflatedSize := length - width;
    if deflatedSize == 0 || offset + deflatedSize > |raw| {
      return None;
    }
    SliceTake(raw, offset, deflatedSize);
    if original > 50_000 * deflatedSize {
      return None;
    }
    var inflated := inflate(raw[offset..offset + deflatedSize], original);
    if inflated.None? || |inflated.value| != original {
      return None;
    }
    return Some((inflated.value, offset + deflatedSize));
  }

  /** The frame as it is first, then without the padding at its end if it has any. */
  method DecodePacket(data: seq<byte>, inflate: Inflater) returns (r: Option<Packet>)
    ensures r == Decode(data, inflate)
  {
    r := DecodeFrame(data, inflate);
    if r.Some? {
      return;
    }
    var unpadded := Unpad(data);
    if |unpadded| == |data| {
      return None;
    }
    r := DecodeFrame(unpadded, inflate);
  }

  /** `decode_core`: one offset moving along the frame, field by field. */
  method DecodeFrame(raw: seq<byte>, inflate: Inflater) returns (r: Option<Packet>)
    ensures r == DecodeCore(raw, inflate)
  {
    if |raw| < V1_HEADER_SIZE + SENDER_ID_SIZE {
      return None;
    }
    var version := raw[0];
    if version != 1 && version != 2 {
      return None;
    }
    var width := LengthWidth(version);
    if |raw| < (if version == 2 then V2_HEADER_SIZE else V1_HEADER_SIZE) + SENDER_ID_SIZE {
      return None;
    }
    var offset := 12;
    var length := FromBigEndian(raw[offset..offset + width]);
    offset := offset + width;
    if length > MAX_FRAMED_PAYLOAD {
      return None;
    }
    var sender := raw[offset..offset + SENDER_ID_SIZE];
    offset := offset + SENDER_ID_SIZE;
    BigEndianIsU64(raw[3..11]);
    var head := Head(version, raw[1], raw[2], FromBigEndian(raw[3..11]), raw[11], length, sender);
    r := DecodeSections(raw, offset, head, inflate);
  }

  method DecodeSections(raw: seq<byte>, start: nat, h: Head, inflate: Inflater) returns (r: Option<Packet>)
    requires start <= |raw|
    ensures r == (var body := ReadBody(h, raw[start..], inflate); if body.None? then None else Some(body.value.0))
  {
    var offset := start;
    var recipient: Option<Id> := None;
    if Bit(h.flags, HAS_RECIPIENT) {
      if offset + 8 > |raw| {
        return None;
      }
      SliceTake(raw, offset, 8);
      recipient := Some(raw[offset..offset + 8]);
      offset := offset + 8;
    }
    var route := ReadRouteAt(raw, offset, h.version >= 2 && Bit(h.flags, HAS_ROUTE));
    if route.None? {
      return None;
    }
    offset := route.value.1;
    var payload := ReadPayloadAt(raw, offset, Bit(h.flags, IS_COMPRESSED), h.length, LengthWidth(h.version), inflate);
    if payload.None? {
      return None;
    }
    offset := payload.value.1;
    var signature: Option<seq<byte>> := None;
    if Bit(h.flags, HAS_SIGNATURE) {
      if offset + SIGNATURE_SIZE > |raw| {
        return None;
      }
      SliceTake(raw, offset, SIGNATURE_SIZE);
      signature := Some(raw[offset..offset + SIGNATURE_SIZE]);
    }
    return Some(Packet(h.version, h.msgType, h.ttl, h.timestamp, h.sender, recipient, payload.value.0, signature,
                       route.value.0, Bit(h.flags, IS_RSR)));
  }

  lemma SliceTake(raw: seq<byte>, offset: nat, n: nat)
    requires offset + n <= |raw|
    ensures Take(raw[offset..], n) == Some((raw[offset..offset + n], raw[offset + n..]))
  {
    assert raw[offset..][..n] == raw[offset..offset + n] && raw[offset..][n..] == raw[offset + n..];
  }
}
