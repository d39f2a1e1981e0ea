/** Frames byte by byte: where every field lies, and which bytes are a frame of which packet. */
module WireLayout {
  import opened Prelude
  import opened Bytes
  import opened Wire

  /** Two and four bytes as the number they stand for, the first counting most. */
  function Short(s: seq<byte>): int
    requires |s| == 2
  {
    s[0] as int * 0x100 + s[1]
  }

  function Word(s: seq<byte>): int
    requires |s| == 4
  {
    s[0] as int * 0x100_0000 + s[1] as int * 0x1_0000 + s[2] as int * 0x100 + s[3]
  }

  function Long(s: seq<byte>): int
    requires |s| == 8
  {
    Word(s[..4]) * 0x1_0000_0000 + Word(s[4..])
  }

  lemma ShortRead(s: seq<byte>)
    requires |s| == 2
    ensures FromBigEndian(s) == Short(s)
  {
    assert s[..1] == [s[0]] && [s[0]][..0] == [];
    assert FromBigEndian([s[0]]) == s[0];
  }

  lemma WordRead(s: seq<byte>)
    requires |s| == 4
    ensures FromBigEndian(s) == Word(s)
  {
    assert s[..3][..2] == s[..2] && s[..3][2] == s[2];
    ShortRead(s[..2]);
  }

  lemma LongRead(s: seq<byte>)
    requires |s| == 8
    ensures FromBigEndian(s) == Long(s)
  {
    WordRead(s[..4]);
    assert s[..7][..6] == s[..6] && s[..6][..5] == s[..5] && s[..5][..4] == s[..4];
    assert FromBigEndian(s[..5]) == 0x100 * FromBigEndian(s[..4]) + s[4];
    assert FromBigEndian(s[..6]) == 0x100 * FromBigEndian(s[..5]) + s[5];
    assert FromBigEndian(s[..7]) == 0x100 * FromBigEndian(s[..6]) + s[6];
    assert FromBigEndian(s) == 0x100 * FromBigEndian(s[..7]) + s[7];
    var low := s[4..];
    assert low[0] == s[4] && low[1] == s[5] && low[2] == s[6] && low[3] == s[7];
  }

  // ---------- What a frame looks like ----------

  /** The sections of a frame, and what is behind it. */
  datatype Sections = Sections(
    flags: byte, length: nat, recipient: seq<byte>, route: seq<byte>, body: seq<byte>, signature: seq<byte>,
    junk: seq<byte>)

  function Number(s: seq<byte>, version: byte): int
    requires |s| == (if version == 2 then 4 else 2)
  {
    if version == 2 then Word(s) else Short(s)
  }

  /** The fixed part: 22 bytes, two more in version 2 for a length of four bytes. */
  ghost predicate HeaderIs(raw: seq<byte>, p: Packet, flags: byte, length: nat) {
    var width := if p.version == 2 then 4 else 2;
    && (p.version == 1 || p.version == 2) && |raw| >= 20 + width
    && raw[0] == p.version && raw[1] == p.msgType && raw[2] == p.ttl
    && Long(raw[3..11]) == p.timestamp
    && raw[11] == flags
    && Number(raw[12..12 + width], p.version) == length
    && raw[12 + width..20 + width] == p.sender
  }

  ghost predicate RecipientIs(present: bool, section: seq<byte>, recipient: Option<Id>) {
    if present then |section| == 8 && recipient == Some(section) else section == [] && recipient == None
  }

  /** A count and as many ids of eight bytes; a count of nought is no route. */
  ghost predicate RouteIs(present: bool, section: seq<byte>, route: Option<seq<Id>>) {
    if !present then section == [] && route == None
    else if route.None? then section == [0]
    else && 1 <= |route.value| <= 255 && |section| == 1 + 8 * |route.value| && section[0] == |route.value|
         && HopsAre(section[1..], route.value)
  }

  ghost predicate HopsAre(s: seq<byte>, hops: seq<Id>) {
    |s| == 8 * |hops| && forall i :: 0 <= i < |hops| ==> s[8 * i..8 * i + 8] == hops[i]
  }

  /** The payload itself, or its size and its compressed bytes, which may not promise more than 50000 to one. */
  ghost predicate BodyIs(compressed: bool, version: byte, section: seq<byte>, payload: seq<byte>, inflate: Inflater) {
    if !compressed then section == payload
    else
      var width := if version == 2 then 4 else 2;
      && |section| > width && |payload| == Number(section[..width], version)
      && |payload| <= 8 * 1024 * 1024 && |payload| <= 50_000 * (|section| - width)
      && inflate(section[width..], |payload|) == Some(payload)
  }

  ghost predicate SignatureIs(present: bool, section: seq<byte>, signature: Option<seq<byte>>) {
    if present then |section| == 64 && signature == Some(section) else section == [] && signature == None
  }

  function Rest(raw: seq<byte>, version: byte): seq<byte>
    requires |raw| >= (if version == 2 then 24 else 22)
  {
    raw[if version == 2 then 24 else 22..]
  }

  /** The sections behind the header, each in its place if the flags say that it is there. */
  ghost predicate BodyHas(rest: seq<byte>, p: Packet, s: Sections, inflate: Inflater) {
    && rest == s.recipient + (s.route + (s.body + (s.signature + s.junk)))
    && RecipientIs(s.flags % 2 == 1, s.recipient, p.recipient)
    && RouteIs(p.version == 2 && (s.flags / 8) % 2 == 1, s.route, p.route)
    && |s.body| == s.length && BodyIs((s.flags / 4) % 2 == 1, p.version, s.body, p.payload, inflate)
    && SignatureIs((s.flags / 2) % 2 == 1, s.signature, p.signature)
    && p.isRsr == ((s.flags / 16) % 2 == 1)
  }

  /** `raw` begins with a frame of `p`, made of these sections. */
  ghost predicate FrameIs(raw: seq<byte>, p: Packet, s: Sections, inflate: Inflater) {
    && HeaderIs(raw, p, s.flags, s.length) && s.length <= 8 * 1024 * 1024
    && BodyHas(Rest(raw, p.version), p, s, inflate)
  }

  // ---------- Section by section ----------

  lemma NumberRead(s: seq<byte>, version: byte)
    requires |s| == (if version == 2 then 4 else 2)
    ensures FromBigEndian(s) == Number(s, version)
  {
    if version == 2 {
      WordRead(s);
    } else {
      ShortRead(s);
    }
  }

  lemma HeadIs(raw: seq<byte>, p: Packet, flags: byte, length: nat)
    ensures HeaderIs(raw, p, flags, length) && length <= MAX_FRAMED_PAYLOAD
       <==> && ReadHead(raw).Some?
            && ReadHead(raw).value.0 == Head(p.version, p.msgType, p.ttl, p.timestamp, flags, length, p.sender)
            && ReadHead(raw).value.1 == Rest(raw, p.version)
  {
    if |raw| >= 22 && (raw[0] == 1 || raw[0] == 2) && |raw| >= 20 + LengthWidth(raw[0]) {
      LongRead(raw[3..11]);
      NumberRead(raw[12..12 + LengthWidth(raw[0])], raw[0]);
    }
  }

  lemma RecipientRead(present: bool, s: seq<byte>, section: seq<byte>, rest: seq<byte>, recipient: Option<Id>)
    requires s == section + rest && RecipientIs(present, section, recipient)
    ensures ReadRecipient(present, s) == Some((recipient, rest))
  {
    TakeFront(section, rest);
  }

  lemma {:induction false} HopsJoined(s: seq<byte>, hops: seq<Id>)
    requires HopsAre(s, hops)
    ensures s == Join(hops)
  {
    if hops != [] {
      forall i | 0 <= i < |hops[1..]| ensures s[8..][8 * i..8 * i + 8] == hops[1..][i] {
        assert s[8..][8 * i..8 * i + 8] == s[8 * (i + 1)..8 * (i + 1) + 8] == hops[i + 1];
      }
      HopsJoined(s[8..], hops[1..]);
      assert s[8 * 0..8 * 0 + 8] == hops[0];
      assert s == s[..8] + s[8..];
    }
  }

  lemma {:induction false} JoinedHops(hops: seq<Id>)
    ensures HopsAre(Join(hops), hops)
  {
    if hops != [] {
      JoinedHops(hops[1..]);
      var s := Join(hops);
      var rest := Join(hops[1..]);
      forall i | 0 <= i < |hops| ensures s[8 * i..8 * i + 8] == hops[i] {
        if i > 0 {
          assert s[8 * i..8 * i + 8] == rest[8 * (i - 1)..8 * (i - 1) + 8] == hops[1..][i - 1];
        }
      }
    }
  }

  lemma RouteRead(present: bool, s: seq<byte>, section: seq<byte>, rest: seq<byte>, route: Option<seq<Id>>)
    requires s == section + rest && RouteIs(present, section, route)
    ensures ReadRoute(present, s) == Some((route, rest))
  {
    if present {
      TakeFront([section[0]], section[1..] + rest);
      assert s == [section[0]] + (section[1..] + rest);
      if route.Some? {
        HopsJoined(section[1..], route.value);
        ReadHopsOfJoin(route.value, rest);
      } else {
        assert section[1..] + rest == rest;
      }
    } else {
      assert s == rest;
    }
  }

  lemma BodyRead(compressed: bool, version: byte, s: seq<byte>, section: seq<byte>, rest: seq<byte>,
                 payload: seq<byte>, inflate: Inflater)
    requires s == section + rest && BodyIs(compressed, version, section, payload, inflate)
    ensures ReadPayload(compressed, |section|, LengthWidth(version), s, inflate) == Some((payload, rest))
  {
    if compressed {
      var width := LengthWidth(version);
      TakeFront(section[..width], section[width..] + rest);
      assert s == section[..width] + (section[width..] + rest);
      TakeFront(section[width..], rest);
      NumberRead(section[..width], version);
    } else {
      TakeFront(section, rest);
    }
  }

  lemma SignatureRead(present: bool, s: seq<byte>, section: seq<byte>, rest: seq<byte>, signature: Option<seq<byte>>)
    requires s == section + rest && SignatureIs(present, section, signature)
    ensures ReadSignature(present, s) == Some((signature, rest))
  {
    TakeFront(section, rest);
  }

  lemma SectionsRead(h: Head, rest: seq<byte>, p: Packet, s: Sections, inflate: Inflater)
    requires h == Head(p.version, p.msgType, p.ttl, p.timestamp, s.flags, s.length, p.sender)
    requires (p.version == 1 || p.version == 2) && BodyHas(rest, p, s, inflate)
    ensures ReadBody(h, rest, inflate) == Some((p, s.junk))
  {
    var s3 := s.signature + s.junk;
    var s2 := s.body + s3;
    var s1 := s.route + s2;
    RecipientRead(Bit(h.flags, HAS_RECIPIENT), rest, s.recipient, s1, p.recipient);
    RouteRead(h.version >= 2 && Bit(h.flags, HAS_ROUTE), s1, s.route, s2, p.route);
    BodyRead(Bit(h.flags, IS_COMPRESSED), p.version, s2, s.body, s3, p.payload, inflate);
    SignatureRead(Bit(h.flags, HAS_SIGNATURE), s3, s.signature, s.junk, p.signature);
  }

  /** A frame of a packet is read as that packet. */
  lemma FrameIsRead(raw: seq<byte>, p: Packet, s: Sections, inflate: Inflater)
    requires FrameIs(raw, p, s, inflate)
    ensures DecodeFront(raw, inflate) == Some((p, s.junk))
  {
    HeadIs(raw, p, s.flags, s.length);
    SectionsRead(ReadHead(raw).value.0, Rest(raw, p.version), p, s, inflate);
  }

  // ---------- And back ----------

  lemma TakeSplits(s: seq<byte>, n: nat)
    requires Take(s, n).Some?
    ensures Take(s, n).value.0 + Take(s, n).value.1 == s && |Take(s, n).value.0| == n
  {
  }

  lemma RecipientFound(present: bool, s: seq<byte>) returns (section: seq<byte>)
    requires ReadRecipient(present, s).Some?
    ensures RecipientIs(present, section, ReadRecipient(present, s).value.0)
    ensures s == section + ReadRecipient(present, s).value.1
  {
    section := if present then s[..8] else [];
  }

  lemma {:induction false} HopsFound(count: nat, s: seq<byte>)
    requires ReadHops(count, s).Some?
    ensures s == Join(ReadHops(count, s).value.0) + ReadHops(count, s).value.1
  {
    if count > 0 {
      HopsFound(count - 1, s[8..]);
      assert s == s[..8] + s[8..];
      assert ReadHops(count, s).value.0[1..] == ReadHops(count - 1, s[8..]).value.0;
    }
  }

  lemma RouteFound(present: bool, s: seq<byte>) returns (section: seq<byte>)
    requires ReadRoute(present, s).Some?
    ensures RouteIs(present, section, ReadRoute(present, s).value.0)
    ensures s == section + ReadRoute(present, s).value.1
  {
    if !present {
      section := [];
    } else if s[0] == 0 {
      section := [0];
    } else {
      var hops := ReadHops(s[0], s[1..]).value.0;
      HopsFound(s[0], s[1..]);
      JoinedHops(hops);
      section := [s[0]] + Join(hops);
      assert section[1..] == Join(hops);
      assert s == [s[0]] + s[1..];
    }
  }

  lemma BodyFound(compressed: bool, length: nat, version: byte, s: seq<byte>, inflate: Inflater)
    returns (section: seq<byte>)
    requires ReadPayload(compressed, length, LengthWidth(version), s, inflate).Some?
    ensures var (payload, rest) := ReadPayload(compressed, length, LengthWidth(version), s, inflate).value;
            && |section| == length && BodyIs(compressed, version, section, payload, inflate)
            && s == section + rest
  {
    if compressed {
      var width := LengthWidth(version);
      assert s == s[..width] + s[width..];
      section := s[..length];
      assert section[..width] == s[..width];
      assert section[width..] == s[width..][..length - width];
      assert s[width..][length - width..] == s[length..];
      NumberRead(section[..width], version);
    } else {
      section := s[..length];
    }
  }

  lemma SignatureFound(present: bool, s: seq<byte>) returns (section: seq<byte>)
    requires ReadSignature(present, s).Some?
    ensures SignatureIs(present, section, ReadSignature(present, s).value.0)
    ensures s == section + ReadSignature(present, s).value.1
  {
    section := if present then s[..64] else [];
  }

  /** The sections behind the route. */
  function ReadEnd(h: Head, s: seq<byte>, inflate: Inflater): Option<(seq<byte>, Option<seq<byte>>, seq<byte>)> {
    var (payload, rest) :-
      ReadPayload(Bit(h.flags, IS_COMPRESSED), h.length, LengthWidth(h.version), s, inflate);
    var (signature, junk) :- ReadSignature(Bit(h.flags, HAS_SIGNATURE), rest);
    Some((payload, signature, junk))
  }

  lemma EndFound(h: Head, s: seq<byte>, inflate: Inflater) returns (body: seq<byte>, signature: seq<byte>)
    requires ReadEnd(h, s, inflate).Some?
    ensures |body| == h.length
    ensures BodyIs((h.flags / 4) % 2 == 1, h.version, body, ReadEnd(h, s, inflate).value.0, inflate)
    ensures SignatureIs((h.flags / 2) % 2 == 1, signature, ReadEnd(h, s, inflate).value.1)
    ensures s == body + (signature + ReadEnd(h, s, inflate).value.2)
  {
    body := BodyFound(Bit(h.flags, IS_COMPRESSED), h.length, h.version, s, inflate);
    var rest := ReadPayload(Bit(h.flags, IS_COMPRESSED), h.length, LengthWidth(h.version), s, inflate).value.1;
    signature := SignatureFound(Bit(h.flags, HAS_SIGNATURE), rest);
  }

  lemma BodySections(h: Head, s0: seq<byte>, inflate: Inflater) returns (s: Sections)
    requires (h.version == 1 || h.version == 2) && ReadBody(h, s0, inflate).Some?
    ensures BodyHas(s0, ReadBody(h, s0, inflate).value.0, s, inflate)
    ensures s.flags == h.flags && s.length == h.length && s.junk == ReadBody(h, s0, inflate).value.1
  {
    var recipient := RecipientFound(Bit(h.flags, HAS_RECIPIENT), s0);
    var s1 := ReadRecipient(Bit(h.flags, HAS_RECIPIENT), s0).value.1;
    var routed := h.version >= 2 && Bit(h.flags, HAS_ROUTE);
    var route := RouteFound(routed, s1);
    var s2 := ReadRoute(routed, s1).value.1;
    var body, signature := EndFound(h, s2, inflate);
    var (p, junk) := ReadBody(h, s0, inflate).value;
    assert ReadEnd(h, s2, inflate) == Some((p.payload, p.signature, junk));
    s := Sections(h.flags, h.length, recipient, route, body, signature, junk);
    assert s0 == recipient + s1 && s1 == route + s2 && s2 == body + (signature + junk);
  }

  /** Whatever is read was a frame. */
  lemma ReadIsAFrame(raw: seq<byte>, inflate: Inflater) returns (s: Sections)
    requires DecodeFront(raw, inflate).Some?
    ensures FrameIs(raw, DecodeFront(raw, inflate).value.0, s, inflate)
    ensures s.junk == DecodeFront(raw, inflate).value.1
  {
    var (h, s0) := ReadHead(raw).value;
    s := BodySections(h, s0, inflate);
    HeadIs(raw, DecodeFront(raw, inflate).value.0, h.flags, h.length);
  }

  /** Bytes are decoded as a packet exactly if a frame of that packet stands at their front. */
  lemma DecodesExactlyWhen(raw: seq<byte>, p: Packet, inflate: Inflater)
    ensures Decode(raw, inflate) == Some(p) <==> exists s :: FrameIs(raw, p, s, inflate)
  {
    RetryNeverHelps(raw, inflate);
    if Decode(raw, inflate) == Some(p) {
      var s := ReadIsAFrame(raw, inflate);
    }
    if s :| FrameIs(raw, p, s, inflate) {
      FrameIsRead(raw, p, s, inflate);
    }
  }

  // ---------- What is written ----------

  /** The hops a frame of this packet carries. */
  function Hops(p: Packet): seq<Id> {
    if p.version == 2 && p.route.Some? then p.route.value else []
  }

  /** Only the version, too many hops or too long a payload for two bytes of length keep a packet from being written. */
  lemma EncodesExactlyWhen(p: Packet, padding: bool)
    ensures Encoded(p, padding).Some?
       <==> && (p.version == 1 || p.version == 2)
            && |Hops(p)| <= 255
            && (p.version == 1 ==> |p.payload| <= 65535)
  {
  }

  /** The sections that are written: a payload as it is, never compressed, and of a signature the first 64 bytes. */
  ghost predicate WrittenAs(p: Packet, s: Sections) {
    && s.flags == (if p.recipient.Some? then 1 else 0) + (if p.signature.Some? then 2 else 0)
                + (if Hops(p) != [] then 8 else 0) + (if p.isRsr then 16 else 0)
    && s.length == |p.payload|
    && RecipientIs(p.recipient.Some?, s.recipient, p.recipient)
    && RouteIs(Hops(p) != [], s.route, if Hops(p) == [] then None else Some(Hops(p)))
    && s.body == p.payload
    && s.signature == (if p.signature.None? then []
                       else if |p.signature.value| > 64 then p.signature.value[..64] else p.signature.value)
    && s.junk == []
  }

  lemma NumberWritten(n: nat, version: byte)
    requires version == 1 || version == 2
    requires n < (if version == 2 then 0x1_0000_0000 else 0x1_0000)
    ensures Number(BigEndian(n, LengthWidth(version)), version) == n
  {
    Pow256Values();
    BigEndianRoundTrip(n, LengthWidth(version));
    NumberRead(BigEndian(n, LengthWidth(version)), version);
  }

  lemma HeaderWritten(p: Packet, tail: seq<byte>)
    requires p.version == 1 || p.version == 2
    requires |p.payload| < (if p.version == 2 then 0x1_0000_0000 else 0x1_0000)
    ensures HeaderIs(Header(p) + tail, p, FlagByte(p), |p.payload|)
    ensures Rest(Header(p) + tail, p.version) == tail
  {
    var raw := Header(p) + tail;
    var width := LengthWidth(p.version);
    Pow256Values();
    BigEndianRoundTrip(p.timestamp, 8);
    LongRead(BigEndian(p.timestamp, 8));
    NumberWritten(|p.payload|, p.version);
    assert raw[3..11] == BigEndian(p.timestamp, 8);
    assert raw[12..12 + width] == BigEndian(|p.payload|, width);
  }

  /** Every byte of an unpadded frame, whatever packet it is of, so long as four bytes hold its length. */
  lemma FrameWritten(p: Packet) returns (s: Sections)
    requires Encoded(p, false).Some? && |p.payload| < 0x1_0000_0000
    ensures WrittenAs(p, s)
    ensures HeaderIs(Encoded(p, false).value, p, s.flags, s.length)
    ensures Rest(Encoded(p, false).value, p.version) == s.recipient + (s.route + (s.body + s.signature))
  {
    JoinedHops(WireRoute(p));
    HeaderWritten(p, Body(p));
    s := Sections(FlagByte(p), |p.payload|, RecipientBytes(p), RouteBytes(p), p.payload, SignatureBytes(p), []);
    if Hops(p) != [] {
      assert s.route[1..] == Join(Hops(p));
    }
  }

  /** What a signature covers: the padded frame of the packet as first sent, with no hops left and no signature. */
  lemma SigningBytesAre(p: Packet)
    ensures SigningBytes(p)
         == Encode(Packet(p.version, p.msgType, 0, p.timestamp, p.sender, p.recipient, p.payload, None, p.route, false))
  {
  }

  /** Padding keeps the frame in front and fills up with bytes that tell how many they are. */
  lemma PaddingIs(p: Packet)
    requires Encoded(p, false).Some?
    ensures var (bare, padded) := (Encoded(p, false).value, Encoded(p, true).value);
            && |padded| >= |bare| && padded[..|bare|] == bare
            && forall i :: |bare| <= i < |padded| ==> padded[i] == |padded| - |bare|
  {
  }

  /** Bytes lose their end to unpadding exactly if it is some number of bytes, each of which is that number. */
  lemma UnpadsExactlyWhen(data: seq<byte>, n: nat)
    requires 1 <= n <= 255
    ensures n <= |data| && (forall i :: |data| - n <= i < |data| ==> data[i] == n)
       <==> |data| - |Unpad(data)| == n
    ensures Unpad(data) <= data
  {
  }
}
