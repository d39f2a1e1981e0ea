/** Splitting an encoded packet into fragments and putting it together again (`fragment.rs`). */
module Fragment {
  import opened Prelude
  import opened Bytes
  import opened Wire

  const MAX_ASSEMBLED_BYTES := 1024 * 1024 + 18 + 2 * 65535 + 16 + 8 + 8 + 64
  const MAX_IN_FLIGHT := 128
  /** Milliseconds an assembly may wait for its remaining fragments. */
  const ASSEMBLY_LIFETIME := 30_000
  const MAX_FRAGMENTS := 10_000
  const SLICE_BYTES := 213
  const HEADER_BYTES := 13

  datatype Key = Key(sender: Id, id: u64)

  datatype FragmentHeader = FragmentHeader(key: Key, index: nat, total: nat, originalType: byte, data: seq<byte>) {
    /** What `parse` guarantees of every header it returns. */
    predicate Valid() {
      index < total <= MAX_FRAGMENTS
    }
  }

  // ---------- Splitting and parsing ----------

  function Chunks(body: seq<byte>, size: nat): (c: seq<seq<byte>>)
    requires size > 0
  {
    if |body| <= size then [body] else [body[..size]] + Chunks(body[size..], size)
  }

  function Flatten(chunks: seq<seq<byte>>): seq<byte> {
    if chunks == [] then [] else chunks[0] + Flatten(chunks[1..])
  }

  function Payload(id: u64, index: nat, total: nat, originalType: byte, slice: seq<byte>): seq<byte> {
    BigEndian(id, 8) + BigEndian(index, 2) + BigEndian(total, 2) + [originalType] + slice
  }

  /** How many slices of `d` bytes cover `n` bytes; `DivCeilIsCeiling` says it is the rounded-up quotient. */
  function DivCeil(n: nat, d: nat): nat
    requires d > 0
  {
    if n == 0 then 0 else if n <= d then 1 else 1 + DivCeil(n - d, d)
  }

  lemma {:induction false} DivCeilIsCeiling(n: nat, d: nat)
    requires d > 0
    ensures d * DivCeil(n, d) < n + d && n <= d * DivCeil(n, d)
  {
    if n > d {
      DivCeilIsCeiling(n - d, d);
      assert d * (1 + DivCeil(n - d, d)) == d + d * DivCeil(n - d, d);
    }
  }

  function Split(id: u64, originalType: byte, body: seq<byte>, sliceBytes: nat): seq<seq<byte>> {
    if body == [] || sliceBytes == 0 then []
    else
      var total := DivCeil(|body|, sliceBytes);
      if total > MAX_FRAGMENTS then []
      else
        var chunks := Chunks(body, sliceBytes);
        seq(|chunks|, i requires 0 <= i < |chunks| => Payload(id, i, total, originalType, chunks[i]))
  }

  function Parse(p: Packet): (h: Option<FragmentHeader>)
    ensures h.Some? ==> h.value.Valid()
  {
    if |p.payload| < HEADER_BYTES then None
    else
      var index := FromBigEndian(p.payload[8..10]);
      var total := FromBigEndian(p.payload[10..12]);
      if total == 0 || total > MAX_FRAGMENTS || index >= total then None
      else
        BigEndianIsU64(p.payload[0..8]);
        Some(FragmentHeader(Key(p.sender, FromBigEndian(p.payload[0..8])), index, total, p.payload[12],
                            p.payload[13..]))
  }

  lemma {:induction false} ChunksFlatten(body: seq<byte>, size: nat)
    requires size > 0
    ensures Flatten(Chunks(body, size)) == body
  {
    if |body| <= size {
      assert Flatten([body]) == body + Flatten([]);
    } else {
      var rest := Chunks(body[size..], size);
      ChunksFlatten(body[size..], size);
      assert ([body[..size]] + rest)[1..] == rest;
      assert body == body[..size] + body[size..];
    }
  }

  lemma {:induction false} ChunksCount(body: seq<byte>, size: nat)
    requires size > 0 && body != []
    ensures |Chunks(body, size)| == DivCeil(|body|, size)
  {
    if |body| > size {
      ChunksCount(body[size..], size);
    }
  }

  lemma {:induction false} ChunksSize(body: seq<byte>, size: nat)
    requires size > 0 && body != []
    ensures forall c :: c in Chunks(body, size) ==> 1 <= |c| <= size
  {
    if |body| > size {
      ChunksSize(body[size..], size);
    }
  }

  /** Chunks are nonempty, at most `size` long, as many as the announced total, and join to the body. */
  lemma ChunksJoin(body: seq<byte>, size: nat)
    requires size > 0 && body != []
    ensures Flatten(Chunks(body, size)) == body
    ensures |Chunks(body, size)| == DivCeil(|body|, size)
    ensures forall c :: c in Chunks(body, size) ==> 1 <= |c| <= size
  {
    ChunksFlatten(body, size);
    ChunksCount(body, size);
    ChunksSize(body, size);
  }

  lemma SplitShape(id: u64, originalType: byte, body: seq<byte>, sliceBytes: nat)
    requires body != [] && sliceBytes > 0 && DivCeil(|body|, sliceBytes) <= MAX_FRAGMENTS
    ensures var pieces, chunks := Split(id, originalType, body, sliceBytes), Chunks(body, sliceBytes);
            && |pieces| == |chunks| == DivCeil(|body|, sliceBytes)
            && forall i :: 0 <= i < |pieces| ==> pieces[i] == Payload(id, i, |chunks|, originalType, chunks[i])
  {
    ChunksJoin(body, sliceBytes);
  }

  /** Parsing a split fragment recovers its stream, place, count, type and slice. */
  lemma ParseSplit(p: Packet, id: u64, originalType: byte, body: seq<byte>, sliceBytes: nat, i: nat)
    requires i < |Split(id, originalType, body, sliceBytes)|
    requires p.payload == Split(id, originalType, body, sliceBytes)[i]
    ensures Parse(p) == Some(FragmentHeader(Key(p.sender, id), i, |Split(id, originalType, body, sliceBytes)|,
                                            originalType, Chunks(body, sliceBytes)[i]))
  {
    SplitShape(id, originalType, body, sliceBytes);
    ParsePayload(p, id, i, |Chunks(body, sliceBytes)|, originalType, Chunks(body, sliceBytes)[i]);
  }

  lemma ParsePayload(p: Packet, id: u64, i: nat, total: nat, originalType: byte, slice: seq<byte>)
    requires p.payload == Payload(id, i, total, originalType, slice) && i < total <= MAX_FRAGMENTS
    ensures Parse(p) == Some(FragmentHeader(Key(p.sender, id), i, total, originalType, slice))
  {
    Pow256Values();
    BigEndianRoundTrip(id, 8);
    BigEndianRoundTrip(i, 2);
    BigEndianRoundTrip(total, 2);
    assert p.payload[0..8] == BigEndian(id, 8);
    assert p.payload[8..10] == BigEndian(i, 2);
    assert p.payload[10..12] == BigEndian(total, 2);
    assert p.payload[13..] == slice;
  }

  // ---------- Assembling ----------

  datatype Assembly = Assembly(pieces: seq<Option<seq<byte>>>, received: nat, bytes: nat, started: nat)

  datatype Append =
    | Pending(have: nat, total: nat)
    | Complete(body: seq<byte>)
    | Rejected(reason: string)

  type InFlight = map<Key, Assembly>

  function Empty(total: nat): (pieces: seq<Option<seq<byte>>>)
    ensures |pieces| == total && forall i :: 0 <= i < total ==> pieces[i].None?
  {
    seq(total, _ => None)
  }

  /** Assemblies whose lifetime has not run out. */
  function Live(inFlight: InFlight, now: nat): InFlight {
    map k | k in inFlight && now < inFlight[k].started + ASSEMBLY_LIFETIME :: inFlight[k]
  }

  function Found(live: InFlight, h: FragmentHeader, now: nat): Assembly {
    if h.key in live then live[h.key] else Assembly(Empty(h.total), 0, 0, now)
  }

  function Stored(a: Assembly, h: FragmentHeader): Assembly
    requires h.index < |a.pieces|
  {
    a.(pieces := a.pieces[h.index := Some(h.data)], received := a.received + 1, bytes := a.bytes + |h.data|)
  }

  /** What `append` leaves in flight and answers, once expired assemblies are gone. */
  function Taken(live: InFlight, h: FragmentHeader, now: nat): (InFlight, Append)
    requires h.Valid()
  {
    if h.key !in live && |live| >= MAX_IN_FLIGHT then (live, Rejected("too many assemblies in flight"))
    else
      var a := Found(live, h, now);
      if |a.pieces| != h.total then (live - {h.key}, Rejected("fragment count changed mid-assembly"))
      else if a.pieces[h.index].Some? then (live, Rejected("duplicate fragment"))
      else if a.bytes + |h.data| > MAX_ASSEMBLED_BYTES
      then (live - {h.key}, Rejected("assembly exceeds the size limit"))
      else Settled(live, h.key, Stored(a, h))
  }

  function Settled(live: InFlight, key: Key, stored: Assembly): (InFlight, Append) {
    if stored.received < |stored.pieces|
    then (live[key := stored], Pending(stored.received, |stored.pieces|))
    else (live - {key}, Complete(Joined(stored.pieces)))
  }

  function Appended(inFlight: InFlight, h: FragmentHeader, now: nat): (InFlight, Append)
    requires h.Valid()
  {
    Taken(Live(inFlight, now), h, now)
  }

  function Joined(pieces: seq<Option<seq<byte>>>): seq<byte> {
    if pieces == [] then []
    else Joined(pieces[..|pieces| - 1]) + (if pieces[|pieces| - 1].Some? then pieces[|pieces| - 1].value else [])
  }

  function Filled(pieces: seq<Option<seq<byte>>>): (n: nat)
    ensures n <= |pieces|
  {
    if pieces == [] then 0
    else Filled(pieces[..|pieces| - 1]) + (if pieces[|pieces| - 1].Some? then 1 else 0)
  }

  class Assembler {
    var inFlight: InFlight

    constructor ()
      ensures inFlight == map[]
    {
      inFlight := map[];
    }

    method Expire(now: nat)
      modifies this
      ensures inFlight == Live(old(inFlight), now)
    {
      inFlight := map k | k in inFlight && now < inFlight[k].started + ASSEMBLY_LIFETIME :: inFlight[k];
    }

    method Append(h: FragmentHeader, now: nat) returns (r: Append)
      requires h.Valid()
      modifies this
      ensures (inFlight, r) == Appended(old(inFlight), h, now)
    {
      Expire(now);
      if h.key !in inFlight && |inFlight| >= MAX_IN_FLIGHT {
        return Rejected("too many assemblies in flight");
      }
      var assembly := if h.key in inFlight then inFlight[h.key] else Assembly(Empty(h.total), 0, 0, now);
      if |assembly.pieces| != h.total {
        inFlight := inFlight - {h.key};
        return Rejected("fragment count changed mid-assembly");
      }
      if assembly.pieces[h.index].Some? {
        return Rejected("duplicate fragment");
      }
      if assembly.bytes + |h.data| > MAX_ASSEMBLED_BYTES {
        inFlight := inFlight - {h.key};
        return Rejected("assembly exceeds the size limit");
      }
      assembly := Assembly(assembly.pieces[h.index := Some(h.data)], assembly.received + 1,
                           assembly.bytes + |h.data|, assembly.started);
      if assembly.received < |assembly.pieces| {
        inFlight := inFlight[h.key := assembly];
        return Pending(assembly.received, |assembly.pieces|);
      }
      inFlight := inFlight - {h.key};
      var body := Join(assembly.pieces);
      return Complete(body);
    }

    static method Join(pieces: seq<Option<seq<byte>>>) returns (body: seq<byte>)
      ensures body == Joined(pieces)
    {
      body := [];
      for i := 0 to |pieces|
        invariant body == Joined(pieces[..i])
      {
        assert pieces[..i + 1][..i] == pieces[..i];
        body := body + (if pieces[i].Some? then pieces[i].value else []);
      }
      assert pieces[..|pieces|] == pieces;
    }
  }

  // ---------- The invariant of every reachable state ----------

  /** The counters say what the slots hold, at least one slot is filled and at least one is missing. */
  ghost predicate Sound(a: Assembly) {
    && 1 <= |a.pieces| <= MAX_FRAGMENTS
    && a.received == Filled(a.pieces) && 1 <= a.received < |a.pieces|
    && a.bytes == |Joined(a.pieces)| <= MAX_ASSEMBLED_BYTES
  }

  ghost predicate Kept(inFlight: InFlight) {
    |inFlight| <= MAX_IN_FLIGHT && forall k :: k in inFlight ==> Sound(inFlight[k])
  }

  lemma {:induction false} StoreCounts(pieces: seq<Option<seq<byte>>>, i: nat, data: seq<byte>)
    requires i < |pieces| && pieces[i].None?
    ensures Filled(pieces[i := Some(data)]) == Filled(pieces) + 1
    ensures |Joined(pieces[i := Some(data)])| == |Joined(pieces)| + |data|
  {
    var last := |pieces| - 1;
    if i == last {
      assert pieces[i := Some(data)][..last] == pieces[..last];
    } else {
      StoreCounts(pieces[..last], i, data);
      assert pieces[i := Some(data)][..last] == pieces[..last][i := Some(data)];
    }
  }

  lemma {:induction false} EmptyCounts(total: nat)
    ensures Filled(Empty(total)) == 0 && Joined(Empty(total)) == []
  {
    if total > 0 {
      assert Empty(total)[..total - 1] == Empty(total - 1);
      EmptyCounts(total - 1);
    }
  }

  lemma {:induction false} Smaller<T>(a: set<T>, b: set<T>)
    requires a <= b
    ensures |a| <= |b|
  {
    if a != {} {
      var x :| x in a;
      Smaller(a - {x}, b - {x});
    }
  }

  lemma SubmapKept(inFlight: InFlight, part: InFlight)
    requires Kept(inFlight) && part.Keys <= inFlight.Keys && forall k :: k in part ==> part[k] == inFlight[k]
    ensures Kept(part)
  {
    Smaller(part.Keys, inFlight.Keys);
    assert |part| == |part.Keys| && |inFlight| == |inFlight.Keys|;
  }

  lemma PutKept(live: InFlight, key: Key, a: Assembly)
    requires Kept(live) && Sound(a) && (key in live || |live| < MAX_IN_FLIGHT)
    ensures Kept(live[key := a])
  {
    assert live[key := a].Keys == live.Keys + {key};
    assert |live[key := a]| == |live[key := a].Keys| && |live| == |live.Keys|;
    if key in live {
      assert live.Keys + {key} == live.Keys;
    }
  }

  lemma FoundCounts(live: InFlight, h: FragmentHeader, now: nat)
    requires h.Valid() && Kept(live)
    ensures var a := Found(live, h, now);
            a.received == Filled(a.pieces) && a.bytes == |Joined(a.pieces)| && 1 <= |a.pieces| <= MAX_FRAGMENTS
  {
    EmptyCounts(h.total);
  }

  lemma TakenKeeps(live: InFlight, h: FragmentHeader, now: nat)
    requires h.Valid() && Kept(live)
    ensures Kept(Taken(live, h, now).0)
  {
    FoundCounts(live, h, now);
    var a := Found(live, h, now);
    SubmapKept(live, live - {h.key});
    if |a.pieces| == h.total && a.pieces[h.index].None? && a.bytes + |h.data| <= MAX_ASSEMBLED_BYTES {
      StoreCounts(a.pieces, h.index, h.data);
      var stored := Stored(a, h);
      if stored.received < |stored.pieces| && (h.key in live || |live| < MAX_IN_FLIGHT) {
        PutKept(live, h.key, stored);
      }
    }
  }

  /** Appending keeps the counters, the size limit and the cap on assemblies. */
  lemma AppendKeeps(inFlight: InFlight, h: FragmentHeader, now: nat)
    requires h.Valid() && Kept(inFlight)
    ensures Kept(Appended(inFlight, h, now).0)
  {
    SubmapKept(inFlight, Live(inFlight, now));
    TakenKeeps(Live(inFlight, now), h, now);
  }

  // ---------- Reassembly, stream by stream ----------

  /** The assembler holds exactly the pieces `got` of the stream, since its last completion. */
  ghost predicate Holds(inFlight: InFlight, key: Key, chunks: seq<seq<byte>>, got: set<nat>, since: nat) {
    && (forall i :: i in got ==> i < |chunks|)
    && (key in inFlight <==> got != {})
    && (key in inFlight ==>
          && inFlight[key].started >= since
          && HoldsOnly(inFlight[key].pieces, chunks, got))
  }

  /** A stream the assembler can take: not too many pieces, not too many bytes. */
  ghost predicate Fits(chunks: seq<seq<byte>>) {
    1 <= |chunks| <= MAX_FRAGMENTS && |Flatten(chunks)| <= MAX_ASSEMBLED_BYTES
  }

  ghost predicate Covers(got: set<nat>, n: nat) {
    forall i :: 0 <= i < n ==> i in got
  }

  function Piece(key: Key, chunks: seq<seq<byte>>, i: nat, originalType: byte): FragmentHeader
    requires i < |chunks|
  {
    FragmentHeader(key, i, |chunks|, originalType, chunks[i])
  }

  /** The pieces held after one more arrives: none once they are all there. */
  ghost function GotAfter(got: set<nat>, i: nat, n: nat): set<nat> {
    if Covers(got + {i}, n) then {} else got + {i}
  }

  lemma {:induction false} JoinedBounded(pieces: seq<Option<seq<byte>>>, chunks: seq<seq<byte>>)
    requires |pieces| == |chunks|
    requires forall i :: 0 <= i < |chunks| ==> pieces[i].None? || pieces[i] == Some(chunks[i])
    ensures |Joined(pieces)| <= |Flatten(chunks)|
    ensures (forall i :: 0 <= i < |chunks| ==> pieces[i].Some?) ==> Joined(pieces) == Flatten(chunks)
  {
    if pieces != [] {
      var last := |pieces| - 1;
      JoinedBounded(pieces[..last], chunks[..last]);
      FlattenLast(chunks);
    }
  }

  lemma {:induction false} FlattenLast(chunks: seq<seq<byte>>)
    requires chunks != []
    ensures Flatten(chunks) == Flatten(chunks[..|chunks| - 1]) + chunks[|chunks| - 1]
  {
    if |chunks| == 1 {
      assert Flatten(chunks) == chunks[0] + Flatten([]) && Flatten(chunks[..0]) == [];
    } else {
      FlattenLast(chunks[1..]);
      assert chunks[1..][..|chunks| - 2] == chunks[..|chunks| - 1][1..];
    }
  }

  lemma {:induction false} FilledAll(pieces: seq<Option<seq<byte>>>)
    ensures Filled(pieces) == |pieces| <==> forall i :: 0 <= i < |pieces| ==> pieces[i].Some?
  {
    if pieces != [] {
      FilledAll(pieces[..|pieces| - 1]);
    }
  }

  /** Slots that hold exactly the pieces `got`. */
  ghost predicate HoldsOnly(pieces: seq<Option<seq<byte>>>, chunks: seq<seq<byte>>, got: set<nat>) {
    |pieces| == |chunks| && forall j :: 0 <= j < |chunks| ==> pieces[j] == if j in got then Some(chunks[j]) else None
  }

  lemma FullExactlyWhenCovered(pieces: seq<Option<seq<byte>>>, chunks: seq<seq<byte>>, got: set<nat>)
    requires HoldsOnly(pieces, chunks, got)
    ensures Filled(pieces) == |pieces| <==> Covers(got, |chunks|)
    ensures |Joined(pieces)| <= |Flatten(chunks)|
    ensures Covers(got, |chunks|) ==> Joined(pieces) == Flatten(chunks)
  {
    JoinedBounded(pieces, chunks);
    FilledAll(pieces);
    if Covers(got, |chunks|) {
      assert forall j :: 0 <= j < |chunks| ==> pieces[j].Some?;
    } else {
      var j :| 0 <= j < |chunks| && j !in got;
      assert pieces[j].None?;
    }
  }

  /** What storing piece `i` of a stream on top of the pieces `got` leaves in its slots. */
  lemma StoredPiece(a: Assembly, key: Key, chunks: seq<seq<byte>>, got: set<nat>, i: nat, t: byte)
    requires Fits(chunks) && i < |chunks| && i !in got && HoldsOnly(a.pieces, chunks, got)
    requires a.received == Filled(a.pieces) && a.bytes == |Joined(a.pieces)|
    ensures a.bytes + |chunks[i]| <= MAX_ASSEMBLED_BYTES
    ensures var s := Stored(a, Piece(key, chunks, i, t));
            && (s.received < |s.pieces| <==> !Covers(got + {i}, |chunks|))
            && (Covers(got + {i}, |chunks|) ==> Joined(s.pieces) == Flatten(chunks))
            && HoldsOnly(s.pieces, chunks, got + {i})
  {
    StoreCounts(a.pieces, i, chunks[i]);
    FullExactlyWhenCovered(a.pieces[i := Some(chunks[i])], chunks, got + {i});
  }

  lemma LiveHolds(inFlight: InFlight, key: Key, chunks: seq<seq<byte>>, got: set<nat>, since: nat, now: nat)
    requires Holds(inFlight, key, chunks, got, since) && now < since + ASSEMBLY_LIFETIME
    ensures Holds(Live(inFlight, now), key, chunks, got, since)
  {
  }

  /** What the stream's own next piece must be answered with. */
  ghost predicate Answers(answer: Append, chunks: seq<seq<byte>>, got: set<nat>, i: nat) {
    if i in got then answer == Rejected("duplicate fragment")
    else if Covers(got + {i}, |chunks|) then answer == Complete(Flatten(chunks))
    else answer.Pending? && answer.total == |chunks|
  }

  lemma TakenStep(live: InFlight, key: Key, chunks: seq<seq<byte>>, got: set<nat>, i: nat, t: byte, since: nat,
                  now: nat)
    requires Kept(live) && Fits(chunks) && Holds(live, key, chunks, got, since) && i < |chunks| && since <= now
    requires key in live || |live| < MAX_IN_FLIGHT
    ensures Holds(Taken(live, Piece(key, chunks, i, t), now).0, key, chunks,
                  if i in got then got else GotAfter(got, i, |chunks|), since)
    ensures Answers(Taken(live, Piece(key, chunks, i, t), now).1, chunks, got, i)
  {
    var h := Piece(key, chunks, i, t);
    FoundCounts(live, h, now);
    var a := Found(live, h, now);
    if i !in got {
      StoredPiece(a, key, chunks, got, i, t);
    }
  }

  /** A piece of the stream: a duplicate changes nothing, the last missing one yields the body, any other one waits. */
  lemma StreamStep(inFlight: InFlight, key: Key, chunks: seq<seq<byte>>, got: set<nat>, i: nat, t: byte, since: nat,
                   now: nat)
    requires Kept(inFlight) && Fits(chunks) && Holds(inFlight, key, chunks, got, since) && i < |chunks|
    requires since <= now < since + ASSEMBLY_LIFETIME
    requires key in inFlight || |inFlight| < MAX_IN_FLIGHT
    ensures Holds(Appended(inFlight, Piece(key, chunks, i, t), now).0, key, chunks,
                  if i in got then got else GotAfter(got, i, |chunks|), since)
    ensures Answers(Appended(inFlight, Piece(key, chunks, i, t), now).1, chunks, got, i)
  {
    var live := Live(inFlight, now);
    SubmapKept(inFlight, live);
    Smaller(live.Keys, inFlight.Keys);
    assert |live| == |live.Keys| && |inFlight| == |inFlight.Keys|;
    LiveHolds(inFlight, key, chunks, got, since, now);
    TakenStep(live, key, chunks, got, i, t, since, now);
  }

  /** Traffic of other streams leaves this one alone. */
  lemma OtherStep(inFlight: InFlight, key: Key, chunks: seq<seq<byte>>, got: set<nat>, h: FragmentHeader, since: nat,
                  now: nat)
    requires Holds(inFlight, key, chunks, got, since) && h.Valid() && h.key != key
    requires since <= now < since + ASSEMBLY_LIFETIME
    ensures Holds(Appended(inFlight, h, now).0, key, chunks, got, since)
  {
  }

  // ---------- Interleaved streams ----------

  datatype Arrival = Arrival(key: Key, index: nat, originalType: byte, now: nat)

  /** The assembler knows these streams and no others, and holds `got[k]` of each. */
  ghost predicate Interleaved(inFlight: InFlight, streams: map<Key, seq<seq<byte>>>, got: map<Key, set<nat>>,
                              since: nat)
  {
    && Kept(inFlight) && got.Keys == streams.Keys && |streams| <= MAX_IN_FLIGHT
    && (forall k :: k in inFlight ==> k in streams)
    && (forall k :: k in streams ==> Fits(streams[k]) && Holds(inFlight, k, streams[k], got[k], since))
  }

  ghost function GotByAll(streams: map<Key, seq<seq<byte>>>, got: map<Key, set<nat>>, a: Arrival): map<Key, set<nat>>
    requires a.key in streams && a.key in got
  {
    if a.index in got[a.key] then got else got[a.key := GotAfter(got[a.key], a.index, |streams[a.key]|)]
  }

  /** One arrival of a known stream's piece, and what the assembler answered. */
  ghost predicate Assembles(streams: map<Key, seq<seq<byte>>>, inFlight: InFlight, a: Arrival, next: InFlight,
                            answer: Append)
  {
    && a.key in streams && a.index < |streams[a.key]| <= MAX_FRAGMENTS
    && (next, answer) == Appended(inFlight, Piece(a.key, streams[a.key], a.index, a.originalType), a.now)
  }

  lemma RoomForStream(inFlight: InFlight, streams: map<Key, seq<seq<byte>>>, key: Key)
    requires inFlight.Keys <= streams.Keys && |streams| <= MAX_IN_FLIGHT && key in streams && key !in inFlight
    ensures |inFlight| < MAX_IN_FLIGHT
  {
    Smaller(inFlight.Keys, streams.Keys - {key});
    assert |inFlight.Keys| == |inFlight| && |streams.Keys| == |streams|;
  }

  lemma AppendAddsOnly(inFlight: InFlight, h: FragmentHeader, now: nat)
    requires h.Valid()
    ensures Appended(inFlight, h, now).0.Keys <= inFlight.Keys + {h.key}
  {
    TakenAddsOnly(Live(inFlight, now), h, now);
  }

  lemma TakenAddsOnly(live: InFlight, h: FragmentHeader, now: nat)
    requires h.Valid()
    ensures Taken(live, h, now).0.Keys <= live.Keys + {h.key}
  {
  }

  /**
   * Up to 128 streams interleaved in any order with duplicates: each arrival does what it would do to its own stream
   * alone, so a stream completes, with exactly its body, at the arrival of its last missing piece.
   */
  lemma ArrivalStep(streams: map<Key, seq<seq<byte>>>, inFlight: InFlight, got: map<Key, set<nat>>, a: Arrival,
                    next: InFlight, answer: Append, since: nat)
    requires Interleaved(inFlight, streams, got, since) && Assembles(streams, inFlight, a, next, answer)
    requires since <= a.now < since + ASSEMBLY_LIFETIME
    ensures Interleaved(next, streams, GotByAll(streams, got, a), since)
    ensures Answers(answer, streams[a.key], got[a.key], a.index)
  {
    KnowsOnlyStreams(streams, inFlight, got, a, next, answer, since);
    OwnArrival(streams, inFlight, got, a, next, answer, since);
    var after := GotByAll(streams, got, a);
    forall k | k in streams ensures Fits(streams[k]) && Holds(next, k, streams[k], after[k], since) {
      StreamAfter(streams, inFlight, got, a, next, answer, since, k);
    }
  }

  lemma KnowsOnlyStreams(streams: map<Key, seq<seq<byte>>>, inFlight: InFlight, got: map<Key, set<nat>>, a: Arrival,
                         next: InFlight, answer: Append, since: nat)
    requires Interleaved(inFlight, streams, got, since) && Assembles(streams, inFlight, a, next, answer)
    ensures Kept(next) && forall k :: k in next ==> k in streams
    ensures GotByAll(streams, got, a).Keys == streams.Keys
  {
    AppendKeeps(inFlight, Piece(a.key, streams[a.key], a.index, a.originalType), a.now);
    AppendAddsOnly(inFlight, Piece(a.key, streams[a.key], a.index, a.originalType), a.now);
  }

  lemma StreamAfter(streams: map<Key, seq<seq<byte>>>, inFlight: InFlight, got: map<Key, set<nat>>, a: Arrival,
                    next: InFlight, answer: Append, since: nat, k: Key)
    requires Interleaved(inFlight, streams, got, since) && Assembles(streams, inFlight, a, next, answer)
    requires since <= a.now < since + ASSEMBLY_LIFETIME && k in streams
    ensures Holds(next, k, streams[k], GotByAll(streams, got, a)[k], since)
  {
    if k == a.key {
      OwnArrival(streams, inFlight, got, a, next, answer, since);
    } else {
      OtherStep(inFlight, k, streams[k], got[k], Piece(a.key, streams[a.key], a.index, a.originalType), since, a.now);
    }
  }

  lemma OwnArrival(streams: map<Key, seq<seq<byte>>>, inFlight: InFlight, got: map<Key, set<nat>>, a: Arrival,
                   next: InFlight, answer: Append, since: nat)
    requires Interleaved(inFlight, streams, got, since) && Assembles(streams, inFlight, a, next, answer)
    requires since <= a.now < since + ASSEMBLY_LIFETIME
    ensures Holds(next, a.key, streams[a.key], GotByAll(streams, got, a)[a.key], since)
    ensures Answers(answer, streams[a.key], got[a.key], a.index)
  {
    if a.key !in inFlight {
      RoomForStream(inFlight, streams, a.key);
    }
    StreamStep(inFlight, a.key, streams[a.key], got[a.key], a.index, a.originalType, since, a.now);
  }

  /** A whole run of arrivals, with the assembler's states, its answers and the pieces it should hold in between. */
  ghost predicate IsRun(streams: map<Key, seq<seq<byte>>>, states: seq<InFlight>, gots: seq<map<Key, set<nat>>>,
                        arrivals: seq<Arrival>, answers: seq<Append>, since: nat)
  {
    && |states| == |gots| == |arrivals| + 1 && |answers| == |arrivals|
    && forall i :: 0 <= i < |arrivals|
         ==> && Assembles(streams, states[i], arrivals[i], states[i + 1], answers[i])
             && since <= arrivals[i].now < since + ASSEMBLY_LIFETIME
             && arrivals[i].key in gots[i] && gots[i + 1] == GotByAll(streams, gots[i], arrivals[i])
  }

  /** In every reachable state the assembler holds exactly the pieces since each stream's last completion. */
  lemma {:induction false} Reassembly(streams: map<Key, seq<seq<byte>>>, states: seq<InFlight>,
                                      gots: seq<map<Key, set<nat>>>, arrivals: seq<Arrival>, answers: seq<Append>,
                                      since: nat, k: nat)
    requires IsRun(streams, states, gots, arrivals, answers, since) && k <= |arrivals|
    requires Interleaved(states[0], streams, gots[0], since)
    ensures Interleaved(states[k], streams, gots[k], since)
    ensures k < |arrivals|
        ==> Answers(answers[k], streams[arrivals[k].key], gots[k][arrivals[k].key], arrivals[k].index)
  {
    if k > 0 {
      Reassembly(streams, states, gots, arrivals, answers, since, k - 1);
      ArrivalStep(streams, states[k - 1], gots[k - 1], arrivals[k - 1], states[k], answers[k - 1], since);
    }
    if k < |arrivals| {
      ArrivalStep(streams, states[k], gots[k], arrivals[k], states[k + 1], answers[k], since);
    }
  }

  lemma {:induction false} PieceSize(chunks: seq<seq<byte>>, i: nat)
    requires i < |chunks|
    ensures |chunks[i]| <= |Flatten(chunks)|
  {
    FlattenLast(chunks);
    if i < |chunks| - 1 {
      PieceSize(chunks[..|chunks| - 1], i);
    }
  }

  /**
   * Nothing remembers a stream that has completed: a piece of it that comes again opens it again, exactly if there is
   * room for another assembly and the stream has more pieces than this one.
   */
  lemma LateDuplicateReopensExactlyWhen(inFlight: InFlight, key: Key, chunks: seq<seq<byte>>, i: nat, t: byte, now: nat)
    requires Kept(inFlight) && Fits(chunks) && i < |chunks| && key !in inFlight
    ensures var (next, answer) := Appended(inFlight, Piece(key, chunks, i, t), now);
            && (key in next <==> |chunks| >= 2 && |Live(inFlight, now)| < MAX_IN_FLIGHT)
            && (key in next ==> answer == Pending(1, |chunks|))
  {
    var live := Live(inFlight, now);
    SubmapKept(inFlight, live);
    if |live| < MAX_IN_FLIGHT {
      FoundCounts(live, Piece(key, chunks, i, t), now);
      EmptyCounts(|chunks|);
      PieceSize(chunks, i);
    }
  }
}
