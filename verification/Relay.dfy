/** Whether to pass a packet along (`relay.rs`) and what goes back on the air (`relay_plan` in `main.rs`). */
module Relay {
  import opened Prelude
  import opened Bytes
  import opened Wire
  import opened FifoMemory

  const MAX_TTL := 7
  const FORWARDED_LIMIT := 1024

  const ANNOUNCE := 0x01
  const LEAVE := 0x03
  const FRAGMENT := 0x20
  const REQUEST_SYNC := 0x21
  const FILE_TRANSFER := 0x22

  /** The type bytes `MessageType::from_u8` knows. */
  predicate KnownType(t: byte) {
    0x01 <= t <= 0x04 || t == 0x10 || t == 0x11 || 0x20 <= t <= 0x29
  }

  datatype Relay<L> = Forward(ttl: byte, exceptLink: L) | Suppress(reason: string)

  /** `links` are all links we could send on; `ingress` is the one the packet came from. */
  function Plan<L(==)>(p: Packet, links: set<L>, ingress: L, localId: string): Relay<L> {
    if Hex(p.sender) == localId then Suppress("our own packet")
    else if p.ttl <= 1 then Suppress("time to live exhausted")
    else if p.ttl > MAX_TTL then Suppress("time to live above the protocol maximum")
    else if !p.IsBroadcast() && Hex(p.recipient.value) == localId then Suppress("addressed to us")
    else if p.msgType == ANNOUNCE || p.msgType == LEAVE then Suppress("presence is not relayed")
    else if p.msgType == REQUEST_SYNC then Suppress("a sync request does not leave its link")
    else if !KnownType(p.msgType) then Suppress("unknown packet type")
    else if links - {ingress} == {} then Suppress("no link other than the one it came from")
    else Forward(p.ttl - 1, ingress)
  }

  /** What identifies a packet across hops; the source's 64-bit digest of these fields is taken to be injective. */
  datatype Digest = Digest(sender: Id, recipient: Option<Id>, timestamp: u64, msgType: byte, payload: seq<byte>)

  function DigestOf(p: Packet): Digest {
    Digest(p.sender, p.recipient, p.timestamp, p.msgType, p.payload)
  }

  /** The copy of `p` that leaves for the next hop. */
  function OneHopOn(p: Packet): Packet
    requires p.ttl > 0
  {
    p.(ttl := p.ttl - 1)
  }

  /** Policy before memory: a packet the policy refuses is not remembered. */
  method RelayPacket<L(==)>(me: string, p: Packet, ingress: L, links: set<L>, forwarded: Memory<Digest>)
    returns (ttl: Option<byte>)
    requires forwarded.Valid() && forwarded.limit == FORWARDED_LIMIT
    modifies forwarded
    ensures forwarded.Valid()
    ensures ttl.Some? == (&& Plan(p, links, ingress, me).Forward?
                          && DigestOf(p) !in Last(old(forwarded.history), FORWARDED_LIMIT))
    ensures ttl.Some? ==> p.ttl > 1 && ttl.value == p.ttl - 1
    ensures forwarded.history == (if ttl.Some? then old(forwarded.history) + [DigestOf(p)] else old(forwarded.history))
  {
    var plan := Plan(p, links, ingress, me);
    if plan.Suppress? {
      return None;
    }
    var isNew := forwarded.Insert(DigestOf(p));
    ttl := if isNew then Some(plan.ttl) else None;
  }

  method RelayPlan<L(==)>(me: string, data: seq<byte>, ingress: L, links: set<L>, forwarded: Memory<Digest>,
                          inflate: Inflater)
    returns (onward: Option<seq<byte>>)
    requires forwarded.Valid() && forwarded.limit == FORWARDED_LIMIT
    modifies forwarded
    ensures forwarded.Valid()
    ensures onward.Some? == (&& Decode(data, inflate).Some?
                             && Plan(Decode(data, inflate).value, links, ingress, me).Forward?
                             && DigestOf(Decode(data, inflate).value) !in Last(old(forwarded.history), FORWARDED_LIMIT))
    ensures onward.Some? ==> Relayed(data, onward.value, inflate)
    ensures forwarded.history
         == (if onward.Some? then old(forwarded.history) + [DigestOf(Decode(data, inflate).value)]
             else old(forwarded.history))
  {
    var decoded := Decode(data, inflate);
    if decoded.None? {
      return None;
    }
    var packet := decoded.value;
    var ttl := RelayPacket(me, packet, ingress, links, forwarded);
    if ttl.None? {
      return None;
    }
    DecodedIsWellFormed(data, inflate);
    var next := packet.(ttl := ttl.value);
    WellFormedEncodes(next);
    onward := EncodeWithPadding(next, true);
  }

  /** One hop changes the TTL, by one, and nothing else; the signed bytes stay the same. */
  lemma HopChangesOnlyTtl(raw: seq<byte>, inflate: Inflater)
    requires Decode(raw, inflate).Some? && Decode(raw, inflate).value.ttl > 0
    ensures
      var p := Decode(raw, inflate).value;
      && Encode(OneHopOn(p)).Some?
      && Decode(Encode(OneHopOn(p)).value, inflate) == Some(OneHopOn(p))
      && SigningBytes(OneHopOn(p)) == SigningBytes(p)
      && DigestOf(OneHopOn(p)) == DigestOf(p)
  {
    DecodedIsWellFormed(raw, inflate);
    RoundTrip(OneHopOn(Decode(raw, inflate).value), true, inflate);
  }

  /** Frames of one packet along a path: each is what a relay sends for the one before. */
  ghost predicate HopChain(frames: seq<seq<byte>>, inflate: Inflater) {
    forall i :: 0 <= i < |frames| - 1 ==> Relayed(frames[i], frames[i + 1], inflate)
  }

  ghost predicate Relayed(raw: seq<byte>, onward: seq<byte>, inflate: Inflater) {
    var p := Decode(raw, inflate);
    p.Some? && 1 < p.value.ttl <= MAX_TTL && Encode(OneHopOn(p.value)) == Some(onward)
  }

  lemma RelayedDecodes(raw: seq<byte>, onward: seq<byte>, inflate: Inflater)
    requires Relayed(raw, onward, inflate)
    ensures Decode(onward, inflate) == Some(OneHopOn(Decode(raw, inflate).value))
  {
    HopChangesOnlyTtl(raw, inflate);
  }

  lemma {:induction false} TtlCountsDown(packets: seq<Packet>, k: nat)
    requires k < |packets|
    requires forall i :: 0 <= i < |packets| - 1
               ==> 1 < packets[i].ttl <= MAX_TTL && packets[i + 1] == OneHopOn(packets[i])
    ensures k <= packets[0].ttl && k <= 6 && packets[k] == packets[0].(ttl := packets[0].ttl - k)
    ensures k < |packets| - 1 ==> k < 6
  {
    if k > 0 {
      TtlCountsDown(packets, k - 1);
    }
  }

  /** Over any number of hops only the TTL moves, one per hop and at most six hops, and the signed bytes never do. */
  lemma ChainChangesOnlyTtl(frames: seq<seq<byte>>, packets: seq<Packet>, k: nat, inflate: Inflater)
    requires HopChain(frames, inflate) && k < |frames| == |packets|
    requires forall i :: 0 <= i < |frames| ==> Decode(frames[i], inflate) == Some(packets[i])
    ensures k <= packets[0].ttl && k <= 6 && packets[k] == packets[0].(ttl := packets[0].ttl - k)
    ensures SigningBytes(packets[k]) == SigningBytes(packets[0])
  {
    forall i | 0 <= i < |packets| - 1
      ensures 1 < packets[i].ttl <= MAX_TTL && packets[i + 1] == OneHopOn(packets[i])
    {
      assert Relayed(frames[i], frames[i + 1], inflate);
      RelayedDecodes(frames[i], frames[i + 1], inflate);
    }
    TtlCountsDown(packets, k);
    assert Unsigned(packets[k]) == Unsigned(packets[0]);
  }

  /** Every frame of a chain decodes: a relay only sends what the next hop can read. */
  lemma ChainDecodes(frames: seq<seq<byte>>, k: nat, inflate: Inflater)
    requires HopChain(frames, inflate) && k < |frames| && Decode(frames[0], inflate).Some?
    ensures Decode(frames[k], inflate).Some?
  {
    if k > 0 {
      assert Relayed(frames[k - 1], frames[k], inflate);
      RelayedDecodes(frames[k - 1], frames[k], inflate);
    }
  }
}
