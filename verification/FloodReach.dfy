/** How far a flood carries: exactly as far as its TTL when rounds run in lockstep, and less when delays are free. */
module FloodReach {
  import opened Prelude
  import opened Bytes
  import opened Wire
  import opened FifoMemory
  import opened Relay
  import opened Flood

  /** Whether `v` is at most `k` links from `o`. */
  ghost predicate Within(net: Net, o: Node, v: Node, k: nat)
    decreases k
  {
    if k == 0 then v == o
    else Within(net, o, v, k - 1) || exists u :: u in net.links && net.Linked(u, v) && Within(net, o, u, k - 1)
  }

  ghost predicate AtDistance(net: Net, o: Node, v: Node, k: nat) {
    Within(net, o, v, k) && (k > 0 ==> !Within(net, o, v, k - 1))
  }

  /** A packet every node but its sender passes on: a broadcast of a type the policy carries, TTL within the ceiling. */
  predicate Floodable(p: Packet) {
    && p.IsBroadcast() && 1 <= p.ttl <= MAX_TTL
    && KnownType(p.msgType) && p.msgType !in {ANNOUNCE, LEAVE, REQUEST_SYNC}
  }

  /** A round delivers a batch of copies one after another, gathering what they cause to be sent. */
  function Round(net: Net, history: map<Node, seq<Digest>>, batch: seq<Copy>)
    : (map<Node, seq<Digest>>, seq<Copy>)
    decreases |batch|
  {
    if batch == [] then (history, [])
    else
      var (h, sent) := Round(net, Remembered(net, history, batch[0]), batch[1..]);
      (h, Outgoing(net, history, batch[0]) + sent)
  }

  /**
   * Lossless lockstep: every copy sent in one round is delivered in the next, in any order.
   * `batches[k - 1]` is round `k`; round 1 is what the sender itself put on its links.
   */
  ghost predicate Lockstep(net: Net, p: Packet, histories: seq<map<Node, seq<Digest>>>, batches: seq<seq<Copy>>) {
    && |histories| == |batches| > 0
    && p.sender in net.links
    && multiset(batches[0]) == multiset(Fan(p.sender, net.links[p.sender], p, None))
    && forall k :: 0 <= k < |batches| - 1 ==> NextRound(net, histories[k], batches[k], histories[k + 1], batches[k + 1])
  }

  ghost predicate NextRound(net: Net, h: map<Node, seq<Digest>>, b: seq<Copy>, h': map<Node, seq<Digest>>,
                            b': seq<Copy>)
  {
    h' == Round(net, h, b).0 && multiset(b') == multiset(Round(net, h, b).1)
  }

  // ---------- One node, one round ----------

  lemma {:induction false} FanContains(v: Node, targets: seq<Node>, p: Packet, except: Option<Node>, u: Node)
    requires u in targets && except != Some(u)
    ensures Copy(v, u, p) in Fan(v, targets, p, except)
  {
    if targets[0] != u {
      FanContains(v, targets[1..], p, except, u);
    }
  }

  /** A node that does not know a floodable packet yet passes it on to any neighbour but the one it came from. */
  lemma ForwardsNew(net: Net, history: map<Node, seq<Digest>>, c: Copy, w: Node)
    requires c.to in net.links && w in net.links[c.to] && w != c.from
    requires Floodable(c.packet) && c.packet.ttl > 1 && c.packet.sender != c.to
    requires DigestOf(c.packet) !in HistoryOf(history, c.to)
    ensures Forwards(net, history, c) && Copy(c.to, w, OneHopOn(c.packet)) in Outgoing(net, history, c)
  {
    if Hex(c.packet.sender) == Hex(c.to) {
      HexInjective(c.packet.sender, c.to);
    }
    var links := set u | u in net.links[c.to];
    assert w in links - {c.from};
    var h := HistoryOf(history, c.to);
    assert forall x :: x in Last(h, FORWARDED_LIMIT) ==> x in h;
    FanContains(c.to, net.links[c.to], OneHopOn(c.packet), Some(c.from), w);
  }

  /** In a round that brings a new packet to `u`, `u` passes it on to `w`: the first copy does, whichever it is. */
  lemma {:induction false} RoundForwards(net: Net, history: map<Node, seq<Digest>>, batch: seq<Copy>, p: Packet,
                                         u: Node, w: Node)
    requires Floodable(p) && p.ttl > 1 && p.sender != u && u in net.links && w in net.links[u]
    requires DigestOf(p) !in HistoryOf(history, u)
    requires exists c :: c in batch && c.to == u
    requires forall c :: c in batch && c.to == u ==> c.packet == p && c.from != w
    ensures Copy(u, w, OneHopOn(p)) in Round(net, history, batch).1
    decreases |batch|
  {
    if batch[0].to == u {
      ForwardsNew(net, history, batch[0], w);
    } else {
      assert HistoryOf(Remembered(net, history, batch[0]), u) == HistoryOf(history, u);
      assert batch == [batch[0]] + batch[1..];
      RoundForwards(net, Remembered(net, history, batch[0]), batch[1..], p, u, w);
    }
  }

  /** Everything a round sends is one hop on from something it delivered, over a real link. */
  lemma {:induction false} RoundSends(net: Net, history: map<Node, seq<Digest>>, batch: seq<Copy>, p: Packet)
    requires p.ttl > 0 && forall c :: c in batch ==> c.packet == p
    ensures forall out :: out in Round(net, history, batch).1
              ==> && out.packet == OneHopOn(p) && net.Linked(out.from, out.to)
                  && exists c :: c in batch && c.to == out.from
    ensures forall v :: DigestOf(p) in HistoryOf(Round(net, history, batch).0, v)
              ==> DigestOf(p) in HistoryOf(history, v) || exists c :: c in batch && c.to == v
    decreases |batch|
  {
    if batch != [] {
      var c := batch[0];
      assert batch == [c] + batch[1..] && c in batch;
      RoundSends(net, Remembered(net, history, c), batch[1..], p);
      if Forwards(net, history, c) {
        FanPackets(c.to, net.links[c.to], OneHopOn(c.packet), Some(c.from));
      }
    }
  }

  lemma {:induction false} FanPackets(v: Node, targets: seq<Node>, p: Packet, except: Option<Node>)
    ensures forall c :: c in Fan(v, targets, p, except) ==> c.from == v && c.packet == p && c.to in targets
  {
    if targets != [] {
      FanPackets(v, targets[1..], p, except);
    }
  }

  // ---------- The invariant of a round ----------

  /** What holds as round `k` starts. */
  ghost predicate RoundInv(net: Net, p: Packet, k: nat, history: map<Node, seq<Digest>>, batch: seq<Copy>) {
    && 1 <= k <= p.ttl
    && (forall c :: c in batch
          ==> c.packet == p.(ttl := p.ttl - k + 1) && net.Linked(c.from, c.to) && Within(net, p.sender, c.from, k - 1))
    && (forall v :: DigestOf(p) in HistoryOf(history, v) ==> Within(net, p.sender, v, k - 1))
    && (forall v :: AtDistance(net, p.sender, v, k) ==> exists c :: c in batch && c.to == v)
  }

  lemma FirstRound(net: Net, p: Packet, history: map<Node, seq<Digest>>, batch: seq<Copy>)
    requires Floodable(p) && p.sender in net.links
    requires forall v :: DigestOf(p) !in HistoryOf(history, v)
    requires multiset(batch) == multiset(Fan(p.sender, net.links[p.sender], p, None))
    ensures RoundInv(net, p, 1, history, batch)
  {
    var fan := Fan(p.sender, net.links[p.sender], p, None);
    SameElements(batch, fan);
    FanPackets(p.sender, net.links[p.sender], p, None);
    forall v | AtDistance(net, p.sender, v, 1) ensures exists c :: c in batch && c.to == v {
      var u :| u in net.links && net.Linked(u, v) && Within(net, p.sender, u, 0);
      FanContains(p.sender, net.links[p.sender], p, None, v);
      assert Copy(p.sender, v, p) in batch;
    }
  }

  lemma SameElements(a: seq<Copy>, b: seq<Copy>)
    requires multiset(a) == multiset(b)
    ensures forall c :: c in a <==> c in b
  {
    assert forall c :: c in a <==> c in multiset(a);
  }

  /** A node one link further gets a copy in the next round. */
  lemma FrontMovesOn(net: Net, p: Packet, k: nat, history: map<Node, seq<Digest>>, batch: seq<Copy>, w: Node)
    requires Floodable(p) && RoundInv(net, p, k, history, batch) && k < p.ttl
    requires AtDistance(net, p.sender, w, k + 1)
    ensures exists out :: out in Round(net, history, batch).1 && out.to == w
  {
    var u :| u in net.links && net.Linked(u, w) && Within(net, p.sender, u, k);
    var q := p.(ttl := p.ttl - k + 1);
    assert AtDistance(net, p.sender, u, k) by {
      assert Within(net, p.sender, u, k - 1) ==> Within(net, p.sender, w, k);
    }
    assert u != p.sender by {
      assert Within(net, p.sender, p.sender, 0);
      WithinGrows(net, p.sender, p.sender, 0, k - 1);
    }
    WithinGrows(net, p.sender, w, k - 1, k);
    assert !Within(net, p.sender, w, k - 1) by {
      assert Within(net, p.sender, w, k - 1) ==> Within(net, p.sender, w, k);
    }
    RoundForwards(net, history, batch, q, u, w);
  }

  lemma {:induction false} WithinGrows(net: Net, o: Node, v: Node, j: nat, k: nat)
    requires j <= k
    ensures Within(net, o, v, j) ==> Within(net, o, v, k)
    decreases k
  {
    if j < k {
      WithinGrows(net, o, v, j, k - 1);
    }
  }

  lemma NextRoundInv(net: Net, p: Packet, k: nat, h: map<Node, seq<Digest>>, b: seq<Copy>,
                     h': map<Node, seq<Digest>>, b': seq<Copy>, next: nat)
    requires Floodable(p) && RoundInv(net, p, k, h, b) && k < p.ttl && NextRound(net, h, b, h', b') && next == k + 1
    ensures RoundInv(net, p, next, h', b')
  {
    SentWithin(net, p, k, h, b);
    FrontReached(net, p, k, h, b, next);
    SameElements(b', Round(net, h, b).1);
    assert p.(ttl := p.ttl - k) == p.(ttl := p.ttl - next + 1);
  }

  lemma FrontReached(net: Net, p: Packet, k: nat, h: map<Node, seq<Digest>>, b: seq<Copy>, next: nat)
    requires Floodable(p) && RoundInv(net, p, k, h, b) && k < p.ttl && next == k + 1
    ensures forall w :: AtDistance(net, p.sender, w, next) ==> exists c :: c in Round(net, h, b).1 && c.to == w
  {
    forall w | AtDistance(net, p.sender, w, next) ensures exists c :: c in Round(net, h, b).1 && c.to == w {
      FrontMovesOn(net, p, k, h, b, w);
    }
  }

  /** What a round sends and remembers is one link further than what it started with. */
  lemma SentWithin(net: Net, p: Packet, k: nat, h: map<Node, seq<Digest>>, b: seq<Copy>)
    requires Floodable(p) && RoundInv(net, p, k, h, b) && k < p.ttl
    ensures forall c :: c in Round(net, h, b).1
              ==> c.packet == p.(ttl := p.ttl - k) && net.Linked(c.from, c.to) && Within(net, p.sender, c.from, k)
    ensures forall v :: DigestOf(p) in HistoryOf(Round(net, h, b).0, v) ==> Within(net, p.sender, v, k)
  {
    var q := p.(ttl := p.ttl - k + 1);
    RoundSends(net, h, b, q);
    DeliveredWithin(net, p, k, h, b);
    assert DigestOf(q) == DigestOf(p) && OneHopOn(q) == p.(ttl := p.ttl - k);
    forall v | DigestOf(p) in HistoryOf(Round(net, h, b).0, v) ensures Within(net, p.sender, v, k) {
      if DigestOf(p) in HistoryOf(h, v) {
        WithinGrows(net, p.sender, v, k - 1, k);
      }
    }
  }

  lemma DeliveredWithin(net: Net, p: Packet, k: nat, h: map<Node, seq<Digest>>, b: seq<Copy>)
    requires RoundInv(net, p, k, h, b)
    ensures forall c :: c in b ==> Within(net, p.sender, c.to, k)
  {
    forall c | c in b ensures Within(net, p.sender, c.to, k) {
      assert net.Linked(c.from, c.to) && Within(net, p.sender, c.from, k - 1);
    }
  }

  /**
   * In round k every copy in flight carries TTL T-k+1, has gone at most k links, and every node exactly k links
   * from the sender is handed one: a flood of TTL T <= 7 reaches every node within T links, each in the round of its
   * distance.
   */
  lemma {:induction false} LockstepReach(net: Net, p: Packet, histories: seq<map<Node, seq<Digest>>>,
                                         batches: seq<seq<Copy>>, k: nat)
    requires Floodable(p) && Lockstep(net, p, histories, batches)
    requires forall v :: DigestOf(p) !in HistoryOf(histories[0], v)
    requires 1 <= k <= p.ttl && k <= |batches|
    ensures RoundInv(net, p, k, histories[k - 1], batches[k - 1])
    ensures forall c :: c in batches[k - 1] ==> Within(net, p.sender, c.to, k) && c.packet == p.(ttl := p.ttl - k + 1)
    ensures forall v :: AtDistance(net, p.sender, v, k) ==> exists c :: c in batches[k - 1] && c.to == v
  {
    if k == 1 {
      FirstRound(net, p, histories[0], batches[0]);
    } else {
      LockstepReach(net, p, histories, batches, k - 1);
      assert NextRound(net, histories[k - 2], batches[k - 2], histories[k - 1], batches[k - 1]);
      NextRoundInv(net, p, k - 1, histories[k - 2], batches[k - 2], histories[k - 1], batches[k - 1],
                   k);
    }
    forall c | c in batches[k - 1] ensures Within(net, p.sender, c.to, k) {
      assert net.Linked(c.from, c.to) && Within(net, p.sender, c.from, k - 1);
    }
  }

  /** Round T is the last: nothing it delivers is passed on. */
  lemma FloodEnds(net: Net, p: Packet, histories: seq<map<Node, seq<Digest>>>, batches: seq<seq<Copy>>)
    requires Floodable(p) && Lockstep(net, p, histories, batches) && |batches| > p.ttl
    requires forall v :: DigestOf(p) !in HistoryOf(histories[0], v)
    ensures batches[p.ttl] == []
  {
    var k := p.ttl;
    LockstepReach(net, p, histories, batches, k);
    assert NextRound(net, histories[k - 1], batches[k - 1], histories[k], batches[k]);
    LastHopStops(net, histories[k - 1], batches[k - 1]);
    assert |multiset(batches[k])| == |batches[k]|;
  }

  lemma {:induction false} LastHopStops(net: Net, history: map<Node, seq<Digest>>, batch: seq<Copy>)
    requires forall c :: c in batch ==> c.packet.ttl <= 1
    ensures Round(net, history, batch).1 == []
    decreases |batch|
  {
    if batch != [] {
      assert batch[0] in batch;
      LastHopStops(net, Remembered(net, history, batch[0]), batch[1..]);
    }
  }

  // ---------- What free delays cost ----------

  function N(i: byte): Node {
    [i, 0, 0, 0, 0, 0, 0, 0]
  }

  /** A detour 0-2-1 beside the direct link 0-1, and a tail 1-3-4 behind it. */
  const DETOUR := Net([N(0), N(1), N(2), N(3), N(4)],
                      map[N(0) := [N(1), N(2)], N(1) := [N(0), N(2), N(3)], N(2) := [N(0), N(1)],
                          N(3) := [N(1), N(4)], N(4) := [N(3)]])

  function Hello(ttl: byte): Packet {
    Packet(1, 0x02, ttl, 0, N(0), None, [], None, None, false)
  }

  const DIRECT := Copy(N(0), N(1), Hello(3))
  const TO_X := Copy(N(0), N(2), Hello(3))
  const LATE := Copy(N(2), N(1), Hello(2))
  const ECHO := Copy(N(1), N(0), Hello(1))
  const TAIL := Copy(N(1), N(3), Hello(1))

  const HELLO_ID := DigestOf(Hello(3))
  const X_KNOWS: map<Node, seq<Digest>> := map[N(2) := [HELLO_ID]]
  const BOTH_KNOW: map<Node, seq<Digest>> := map[N(2) := [HELLO_ID], N(1) := [HELLO_ID]]

  const START := State(map[], [], [])
  const SENT := State(map[], [DIRECT, TO_X], [DIRECT, TO_X])
  const DETOURED := State(X_KNOWS, [DIRECT, LATE], [DIRECT, TO_X, LATE])
  const ALL_SENT := [DIRECT, TO_X, LATE, ECHO, TAIL]
  const OVERTAKEN := State(BOTH_KNOW, [DIRECT, ECHO, TAIL], ALL_SENT)
  const DIRECT_DROPPED := State(BOTH_KNOW, [ECHO, TAIL], ALL_SENT)
  const ECHO_DROPPED := State(BOTH_KNOW, [TAIL], ALL_SENT)
  const QUIET := State(BOTH_KNOW, [], ALL_SENT)

  const DETOUR_RUN: seq<State> := [START, SENT, DETOURED, OVERTAKEN, DIRECT_DROPPED, ECHO_DROPPED, QUIET]
  const DETOUR_ACTIONS: seq<Action> :=
    [Originate(N(0), Hello(3)), Deliver(1), Deliver(1), Deliver(0), Deliver(0), Deliver(0)]

  /**
   * With free delays reach fails: the copy by the detour arrives first, with TTL 2, and takes the only slot node 1 has.
   * Nothing is lost, everything is delivered, and node 4, three links away from a TTL of 3, is never reached.
   */
  lemma DelayLosesReach()
    ensures Floodable(Hello(3)) && IsRun(DETOUR, DETOUR_RUN, DETOUR_ACTIONS)
    ensures DETOUR_RUN[0] == START && DETOUR_RUN[6] == QUIET && QUIET.flight == []
    ensures Within(DETOUR, N(0), N(4), 3)
    ensures forall c :: c in QUIET.log ==> c.to != N(4)
  {
    DetourIsRun();
    TailWithinThree();
  }

  lemma DetourIsRun()
    ensures IsRun(DETOUR, DETOUR_RUN, DETOUR_ACTIONS)
  {
    DetourStarts();
    DetourOvertakes();
    DirectIsKnown();
    EchoReturns();
    TailEnds();
    SixSteps(DETOUR, START, SENT, DETOURED, OVERTAKEN, DIRECT_DROPPED, ECHO_DROPPED, QUIET,
             Originate(N(0), Hello(3)), Deliver(1), Deliver(1), Deliver(0), Deliver(0), Deliver(0));
  }

  lemma SixSteps(net: Net, s0: State, s1: State, s2: State, s3: State, s4: State, s5: State, s6: State,
                 a0: Action, a1: Action, a2: Action, a3: Action, a4: Action, a5: Action)
    requires Next(net, s0, a0, s1) && Next(net, s1, a1, s2) && Next(net, s2, a2, s3)
    requires Next(net, s3, a3, s4) && Next(net, s4, a4, s5) && Next(net, s5, a5, s6)
    ensures IsRun(net, [s0, s1, s2, s3, s4, s5, s6], [a0, a1, a2, a3, a4, a5])
  {
    var s, a := [s0, s1, s2, s3, s4, s5, s6], [a0, a1, a2, a3, a4, a5];
    forall i | 0 <= i < 6 ensures NextAt(net, s, a, i) {
      assert i == 0 || i == 1 || i == 2 || i == 3 || i == 4 || i == 5;
    }
  }

  lemma DetourIsValid()
    ensures DETOUR.Valid()
  {
    assert DETOUR.links.Keys == {N(0), N(1), N(2), N(3), N(4)};
    assert forall v :: v in DETOUR.nodes <==> v in DETOUR.links;
    forall v | v in DETOUR.links ensures Distinct(DETOUR.links[v]) {
    }
    forall u, v | DETOUR.Linked(u, v) ensures DETOUR.Linked(v, u) {
      DetourIsSymmetric(u, v);
    }
  }

  lemma DetourIsSymmetric(u: Node, v: Node)
    requires DETOUR.Linked(u, v)
    ensures DETOUR.Linked(v, u)
  {
    if u == N(0) {
      assert v in [N(1), N(2)];
    } else if u == N(1) {
      assert v in [N(0), N(2), N(3)];
    } else if u == N(2) {
      assert v in [N(0), N(1)];
    } else if u == N(3) {
      assert v in [N(1), N(4)];
    } else {
      assert u == N(4) && v in [N(3)];
    }
  }

  lemma TailWithinThree()
    ensures Within(DETOUR, N(0), N(4), 3)
  {
    assert DETOUR.Linked(N(0), N(1)) && DETOUR.Linked(N(1), N(3)) && DETOUR.Linked(N(3), N(4));
    assert Within(DETOUR, N(0), N(1), 1) by { assert Within(DETOUR, N(0), N(0), 0); }
    assert Within(DETOUR, N(0), N(3), 2);
  }

  lemma DetourStarts()
    ensures Next(DETOUR, START, Originate(N(0), Hello(3)), SENT)
    ensures Next(DETOUR, SENT, Deliver(1), DETOURED)
  {
    FanSteps(N(0), [N(1), N(2)], Hello(3), None);
    FanSteps(N(0), [N(2)], Hello(3), None);
    DetourTurns();
  }

  /** A new packet at a node with two links goes out on the other one. */
  lemma PassesOnOne(net: Net, h: map<Node, seq<Digest>>, c: Copy, b: Node)
    requires c.to in net.links && net.links[c.to] == [c.from, b] && b != c.from && HistoryOf(h, c.to) == []
    requires Floodable(c.packet) && c.packet.ttl > 1 && c.packet.sender != c.to
    ensures Outgoing(net, h, c) == [Copy(c.to, b, OneHopOn(c.packet))]
    ensures Remembered(net, h, c) == h[c.to := [DigestOf(c.packet)]]
  {
    ForwardsNew(net, h, c, b);
    FanSteps(c.to, [c.from, b], OneHopOn(c.packet), Some(c.from));
    FanSteps(c.to, [b], OneHopOn(c.packet), Some(c.from));
    assert [] + [DigestOf(c.packet)] == [DigestOf(c.packet)];
  }

  /** A new packet at a node with three links goes out on the other two. */
  lemma PassesOnTwo(net: Net, h: map<Node, seq<Digest>>, c: Copy, a: Node, b: Node)
    requires c.to in net.links && net.links[c.to] == [a, c.from, b] && a != c.from && b != c.from
    requires HistoryOf(h, c.to) == [] && Floodable(c.packet) && c.packet.ttl > 1 && c.packet.sender != c.to
    ensures Outgoing(net, h, c) == [Copy(c.to, a, OneHopOn(c.packet)), Copy(c.to, b, OneHopOn(c.packet))]
    ensures Remembered(net, h, c) == h[c.to := [DigestOf(c.packet)]]
  {
    ForwardsNew(net, h, c, b);
    FanSteps(c.to, [a, c.from, b], OneHopOn(c.packet), Some(c.from));
    FanSteps(c.to, [c.from, b], OneHopOn(c.packet), Some(c.from));
    FanSteps(c.to, [b], OneHopOn(c.packet), Some(c.from));
    assert [] + [DigestOf(c.packet)] == [DigestOf(c.packet)];
  }

  lemma DetourTurns()
    ensures Outgoing(DETOUR, map[], TO_X) == [LATE] && Remembered(DETOUR, map[], TO_X) == X_KNOWS
  {
    assert N(0)[0] != N(1)[0];
    PassesOnOne(DETOUR, map[], TO_X, N(1));
  }

  lemma DetourOvertakes()
    ensures Next(DETOUR, DETOURED, Deliver(1), OVERTAKEN)
  {
    LateWins();
  }

  lemma LateWins()
    ensures Outgoing(DETOUR, X_KNOWS, LATE) == [ECHO, TAIL] && Remembered(DETOUR, X_KNOWS, LATE) == BOTH_KNOW
  {
    assert N(0)[0] != N(2)[0] && N(2)[0] != N(3)[0] && N(1)[0] != N(2)[0];
    PassesOnTwo(DETOUR, X_KNOWS, LATE, N(0), N(3));
  }

  /** A copy a node already knows is dropped. */
  lemma DirectIsKnown()
    ensures Next(DETOUR, OVERTAKEN, Deliver(0), DIRECT_DROPPED)
  {
    DroppedFirst(DETOUR, OVERTAKEN, DIRECT, [ECHO, TAIL]);
  }

  /** Our own packet coming back is dropped. */
  lemma EchoReturns()
    ensures Next(DETOUR, DIRECT_DROPPED, Deliver(0), ECHO_DROPPED)
  {
    DroppedFirst(DETOUR, DIRECT_DROPPED, ECHO, [TAIL]);
  }

  /** And so is a copy on its last hop. */
  lemma TailEnds()
    ensures Next(DETOUR, ECHO_DROPPED, Deliver(0), QUIET)
  {
    DroppedFirst(DETOUR, ECHO_DROPPED, TAIL, []);
  }

  lemma DroppedFirst(net: Net, s: State, c: Copy, rest: seq<Copy>)
    requires s.flight == [c] + rest && !Forwards(net, s.history, c)
    ensures Next(net, s, Deliver(0), State(s.history, rest, s.log))
  {
    assert s.flight[..0] + s.flight[1..] + [] == rest;
    assert s.log + [] == s.log;
  }

  lemma FanSteps(v: Node, targets: seq<Node>, p: Packet, except: Option<Node>)
    requires targets != []
    ensures Fan(v, targets, p, except)
         == (if except == Some(targets[0]) then [] else [Copy(v, targets[0], p)]) + Fan(v, targets[1..], p, except)
    ensures |targets| == 1 ==> Fan(v, targets[1..], p, except) == []
  {
  }
}
