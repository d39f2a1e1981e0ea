/**
 * How far a flood carries when copies are delayed freely but none is lost: as far as its TTL exactly if no node takes
 * up a copy that a later one, with more hops left, had set out to overtake.
 */
module FloodOrder {
  import opened Prelude
  import opened Wire
  import opened Relay
  import opened Flood
  import opened FloodReach

  // ---------- Runs that lose nothing ----------

  /** A run of the network, with one packet to follow and the step that originates it. */
  datatype Trace = Trace(net: Net, states: seq<State>, actions: seq<Action>, packet: Packet, start: nat) {
    function Id(): Digest {
      DigestOf(packet)
    }
  }

  ghost predicate Absent(copies: seq<Copy>, d: Digest) {
    forall c :: c in copies ==> DigestOf(c.packet) != d
  }

  /** The step neither puts a copy of the packet into the world nor takes one out of it undelivered. */
  predicate Spares(s: State, a: Action, d: Digest) {
    match a
    case Originate(v, p) => DigestOf(p) != d
    case Deliver(i) => true
    case Lose(i) => i < |s.flight| ==> DigestOf(s.flight[i].packet) != d
  }

  /** The packet is new, its sender originates it once, none of its copies is lost and in the end none is in flight. */
  ghost predicate Lossless(t: Trace) {
    && IsRun(t.net, t.states, t.actions) && Floodable(t.packet)
    && t.start < |t.actions| && t.actions[t.start] == Originate(t.packet.sender, t.packet)
    && (forall i :: 0 <= i < |t.actions| && i != t.start ==> Spares(t.states[i], t.actions[i], t.Id()))
    && Absent(t.states[0].flight, t.Id()) && (forall v :: t.Id() !in HistoryOf(t.states[0].history, v))
    && Absent(t.states[|t.actions|].flight, t.Id())
  }

  /** The `i`-th step hands a copy of the packet to `v`. */
  predicate Hands(t: Trace, i: int, v: Node) {
    && 0 <= i < |t.actions| && i < |t.states| && t.actions[i].Deliver? && t.actions[i].index < |t.states[i].flight|
    && t.states[i].flight[t.actions[i].index].to == v
    && DigestOf(t.states[i].flight[t.actions[i].index].packet) == t.Id()
  }

  /** The copy a step delivers. */
  function Handed(t: Trace, i: int, v: Node): Copy
    requires Hands(t, i, v)
  {
    t.states[i].flight[t.actions[i].index]
  }

  /** Its TTL. */
  function Left(t: Trace, i: int, v: Node): nat
    requires Hands(t, i, v)
  {
    Handed(t, i, v).packet.ttl
  }

  /** The first copy handed to `v` that has a hop left to go. */
  ghost predicate TakesUp(t: Trace, i: int, v: Node) {
    Hands(t, i, v) && Left(t, i, v) > 1 && forall j :: 0 <= j < i && Hands(t, j, v) ==> Left(t, j, v) <= 1
  }

  /** No node takes up a copy and is handed one with more hops left afterwards. */
  ghost predicate NoneOvertaken(t: Trace) {
    forall v, i, j :: v != t.packet.sender && i < j && TakesUp(t, i, v) && Hands(t, j, v)
      ==> Left(t, j, v) <= Left(t, i, v)
  }

  // ---------- What is in flight ----------

  /** A copy has come no further than its TTL says, over real links. */
  ghost predicate Travelled(net: Net, p: Packet, c: Copy) {
    && 1 <= c.packet.ttl <= p.ttl && c.packet == p.(ttl := c.packet.ttl) && net.Linked(c.from, c.to)
    && Within(net, p.sender, c.from, p.ttl - c.packet.ttl)
  }

  ghost predicate AllTravelled(net: Net, p: Packet, flight: seq<Copy>) {
    forall c :: c in flight && DigestOf(c.packet) == DigestOf(p) ==> Travelled(net, p, c)
  }

  lemma OnwardTravelled(net: Net, p: Packet, history: map<Node, seq<Digest>>, c: Copy, out: Copy)
    requires out in Outgoing(net, history, c) && DigestOf(out.packet) == DigestOf(p)
    requires DigestOf(c.packet) == DigestOf(p) ==> Travelled(net, p, c)
    ensures Travelled(net, p, out)
  {
    FanPackets(c.to, net.links[c.to], OneHopOn(c.packet), Some(c.from));
    assert Within(net, p.sender, c.to, p.ttl - c.packet.ttl + 1);
  }

  lemma StepTravelled(net: Net, p: Packet, s: State, a: Action, s': State)
    requires Next(net, s, a, s') && AllTravelled(net, p, s.flight)
    requires Floodable(p) && (Spares(s, a, DigestOf(p)) || a == Originate(p.sender, p))
    ensures AllTravelled(net, p, s'.flight)
  {
    match a
    case Originate(v, q) => FanPackets(v, net.links[v], q, None);
    case Lose(i) =>
    case Deliver(i) =>
      var c := s.flight[i];
      forall out | out in Outgoing(net, s.history, c) && DigestOf(out.packet) == DigestOf(p)
        ensures Travelled(net, p, out)
      {
        OnwardTravelled(net, p, s.history, c, out);
      }
  }

  lemma {:induction false} FlightTravelled(t: Trace, k: nat)
    requires Lossless(t) && k <= |t.actions|
    ensures AllTravelled(t.net, t.packet, t.states[k].flight)
  {
    if k > 0 {
      FlightTravelled(t, k - 1);
      assert NextAt(t.net, t.states, t.actions, k - 1);
      StepTravelled(t.net, t.packet, t.states[k - 1], t.actions[k - 1], t.states[k]);
    }
  }

  lemma LeftTravelled(t: Trace, i: int, v: Node)
    requires Lossless(t) && Hands(t, i, v)
    ensures Travelled(t.net, t.packet, Handed(t, i, v))
    ensures Within(t.net, t.packet.sender, v, t.packet.ttl - Left(t, i, v) + 1)
  {
    FlightTravelled(t, i);
    assert Handed(t, i, v) in t.states[i].flight;
  }

  /** A copy has at most the TTL that the shortest way leaves it. */
  lemma LeftBounded(t: Trace, i: int, v: Node, k: nat)
    requires Lossless(t) && Hands(t, i, v) && AtDistance(t.net, t.packet.sender, v, k)
    ensures 1 <= Left(t, i, v) <= t.packet.ttl - k + 1
  {
    LeftTravelled(t, i, v);
    NoNearer(t.net, t.packet.sender, v, k, t.packet.ttl - Left(t, i, v) + 1);
  }

  lemma NoNearer(net: Net, o: Node, v: Node, k: nat, m: nat)
    requires AtDistance(net, o, v, k) && Within(net, o, v, m)
    ensures k <= m
  {
    if m < k {
      WithinGrows(net, o, v, m, k - 1);
    }
  }

  lemma {:induction false} HasDistance(net: Net, o: Node, v: Node, m: nat) returns (k: nat)
    requires Within(net, o, v, m) && v != o
    ensures 1 <= k <= m && AtDistance(net, o, v, k)
    decreases m
  {
    assert Within(net, o, v, 0) <==> v == o;
    if Within(net, o, v, m - 1) {
      k := HasDistance(net, o, v, m - 1);
    } else {
      k := m;
    }
  }

  // ---------- What a node remembers, and passes on ----------

  /** Only a node that was handed a copy with a hop left knows the packet. */
  lemma {:induction false} KnowsWhatItTook(t: Trace, k: nat, v: Node)
    requires Lossless(t) && k <= |t.actions| && t.Id() in HistoryOf(t.states[k].history, v)
    ensures exists j :: 0 <= j < k && Hands(t, j, v) && Left(t, j, v) > 1
  {
    assert k > 0;
    assert NextAt(t.net, t.states, t.actions, k - 1);
    if t.Id() in HistoryOf(t.states[k - 1].history, v) {
      KnowsWhatItTook(t, k - 1, v);
    } else {
      assert Hands(t, k - 1, v);
    }
  }

  /** The copy a node takes up goes on to each of its neighbours but the one it came from. */
  lemma PassesOn(t: Trace, i: nat, v: Node, w: Node)
    requires Lossless(t) && TakesUp(t, i, v) && v != t.packet.sender && t.net.Linked(v, w) && w != Handed(t, i, v).from
    ensures Copy(v, w, t.packet.(ttl := Left(t, i, v) - 1)) in t.states[i + 1].flight
  {
    LeftTravelled(t, i, v);
    var c := Handed(t, i, v);
    assert NextAt(t.net, t.states, t.actions, i);
    assert t.Id() !in HistoryOf(t.states[i].history, v) by {
      if t.Id() in HistoryOf(t.states[i].history, v) {
        KnowsWhatItTook(t, i, v);
      }
    }
    ForwardsNew(t.net, t.states[i].history, c, w);
  }

  /** What is in flight is delivered in the end. */
  lemma {:induction false} Arrives(t: Trace, k: nat, c: Copy) returns (j: nat)
    requires Lossless(t) && k <= |t.actions| && c in t.states[k].flight && DigestOf(c.packet) == t.Id()
    ensures Hands(t, j, c.to) && Handed(t, j, c.to) == c
    decreases |t.actions| - k
  {
    assert k < |t.actions|;
    assert NextAt(t.net, t.states, t.actions, k);
    if t.actions[k].Deliver? && t.states[k].flight[t.actions[k].index] == c {
      j := k;
    } else {
      StaysInFlight(t.net, t.states[k], t.actions[k], t.states[k + 1], c);
      j := Arrives(t, k + 1, c);
    }
  }

  lemma StaysInFlight(net: Net, s: State, a: Action, s': State, c: Copy)
    requires Next(net, s, a, s') && c in s.flight && (a.Originate? || s.flight[a.index] != c)
    ensures c in s'.flight
  {
    if !a.Originate? {
      assert s.flight == s.flight[..a.index] + ([s.flight[a.index]] + s.flight[a.index + 1..]);
    }
  }

  lemma {:induction false} FirstTaken(t: Trace, j: nat, v: Node) returns (i: nat)
    requires Hands(t, j, v) && Left(t, j, v) > 1
    ensures i <= j && TakesUp(t, i, v)
  {
    if k :| 0 <= k < j && Hands(t, k, v) && Left(t, k, v) > 1 {
      i := FirstTaken(t, k, v);
    } else {
      i := j;
    }
  }

  // ---------- How far the flood carries ----------

  /** Unless copies are overtaken, a node is handed a copy that came by a shortest way. */
  lemma {:induction false} ShortestArrives(t: Trace, v: Node, k: nat) returns (j: nat)
    requires Lossless(t) && NoneOvertaken(t) && AtDistance(t.net, t.packet.sender, v, k) && 1 <= k <= t.packet.ttl
    ensures Hands(t, j, v) && Left(t, j, v) == t.packet.ttl - k + 1
    decreases k, 0
  {
    if k == 1 {
      j := NeighbourIsReached(t, v);
    } else {
      var u := TheOneBefore(t.net, t.packet.sender, v, k);
      var i := StrongestTaken(t, u, k - 1);
      CameFromElsewhere(t, i, u, v, k);
      j := NextIsReached(t, i, u, v);
    }
  }

  lemma NeighbourIsReached(t: Trace, v: Node) returns (j: nat)
    requires Lossless(t) && AtDistance(t.net, t.packet.sender, v, 1)
    ensures Hands(t, j, v) && Left(t, j, v) == t.packet.ttl
  {
    var o := t.packet.sender;
    var u :| u in t.net.links && t.net.Linked(u, v) && Within(t.net, o, u, 0);
    assert NextAt(t.net, t.states, t.actions, t.start);
    FanContains(o, t.net.links[o], t.packet, None, v);
    j := Arrives(t, t.start + 1, Copy(o, v, t.packet));
  }

  lemma TheOneBefore(net: Net, o: Node, v: Node, k: nat) returns (u: Node)
    requires k > 1 && AtDistance(net, o, v, k)
    ensures u in net.links && net.Linked(u, v) && AtDistance(net, o, u, k - 1)
  {
    u :| u in net.links && net.Linked(u, v) && Within(net, o, u, k - 1);
    OneNearer(net, o, u, v, k);
  }

  lemma CameFromElsewhere(t: Trace, i: nat, u: Node, v: Node, k: nat)
    requires Lossless(t) && AtDistance(t.net, t.packet.sender, v, k) && 1 < k <= t.packet.ttl
    requires TakesUp(t, i, u) && Left(t, i, u) == t.packet.ttl - k + 2
    ensures Handed(t, i, u).from != v
  {
    LeftTravelled(t, i, u);
    NotBack(t.net, t.packet.sender, Handed(t, i, u).from, v, k);
  }

  lemma NextIsReached(t: Trace, i: nat, u: Node, v: Node) returns (j: nat)
    requires Lossless(t) && TakesUp(t, i, u) && u != t.packet.sender && t.net.Linked(u, v) && Handed(t, i, u).from != v
    ensures Hands(t, j, v) && Left(t, j, v) == Left(t, i, u) - 1
  {
    PassesOn(t, i, u, v);
    j := Arrives(t, i + 1, Copy(u, v, t.packet.(ttl := Left(t, i, u) - 1)));
  }

  /** And it takes such a copy up. */
  lemma {:induction false} StrongestTaken(t: Trace, v: Node, k: nat) returns (i: nat)
    requires Lossless(t) && NoneOvertaken(t) && AtDistance(t.net, t.packet.sender, v, k) && 1 <= k < t.packet.ttl
    ensures TakesUp(t, i, v) && Left(t, i, v) == t.packet.ttl - k + 1 && v != t.packet.sender
    decreases k, 1
  {
    var j := ShortestArrives(t, v, k);
    i := FirstTaken(t, j, v);
    LeftBounded(t, i, v, k);
    assert v != t.packet.sender by {
      WithinGrows(t.net, t.packet.sender, v, 0, k - 1);
    }
  }

  lemma OneNearer(net: Net, o: Node, u: Node, v: Node, k: nat)
    requires k > 1 && AtDistance(net, o, v, k) && u in net.links && net.Linked(u, v) && Within(net, o, u, k - 1)
    ensures AtDistance(net, o, u, k - 1)
  {
    OneFurther(net, o, u, v, k - 2, k - 1);
  }

  lemma OneFurther(net: Net, o: Node, u: Node, v: Node, m: nat, next: nat)
    requires u in net.links && net.Linked(u, v) && next == m + 1
    ensures Within(net, o, u, m) ==> Within(net, o, v, next)
  {
  }

  lemma NotBack(net: Net, o: Node, from: Node, v: Node, k: nat)
    requires k > 1 && AtDistance(net, o, v, k) && Within(net, o, from, k - 2)
    ensures from != v
  {
    WithinGrows(net, o, v, k - 2, k - 1);
  }

  /** Every node nearer than the TTL takes up a copy that came by a shortest way. */
  ghost predicate StrongestFirst(t: Trace) {
    forall v, k :: 1 <= k < t.packet.ttl && AtDistance(t.net, t.packet.sender, v, k)
      ==> exists i :: TakesUp(t, i, v) && Left(t, i, v) == t.packet.ttl - k + 1
  }

  /**
   * In any run that loses nothing, whatever the delays and the other traffic: every node nearer than the TTL takes up
   * a copy with all the hops its distance leaves, exactly if no node takes up a copy before one with more hops left.
   */
  lemma StrongestFirstExactlyWhen(t: Trace)
    requires Lossless(t)
    ensures StrongestFirst(t) <==> NoneOvertaken(t)
  {
    if NoneOvertaken(t) {
      forall v, k | 1 <= k < t.packet.ttl && AtDistance(t.net, t.packet.sender, v, k)
        ensures exists i :: TakesUp(t, i, v) && Left(t, i, v) == t.packet.ttl - k + 1
      {
        var i := StrongestTaken(t, v, k);
      }
    }
    if StrongestFirst(t) {
      forall v, i, j | v != t.packet.sender && i < j && TakesUp(t, i, v) && Hands(t, j, v)
        ensures Left(t, j, v) <= Left(t, i, v)
      {
        LeftTravelled(t, i, v);
        var k := HasDistance(t.net, t.packet.sender, v, t.packet.ttl - Left(t, i, v) + 1);
        LeftBounded(t, j, v, k);
        var first :| TakesUp(t, first, v) && Left(t, first, v) == t.packet.ttl - k + 1;
        assert first == i;
      }
    }
  }

  /** And then exactly the nodes within the TTL are reached. */
  lemma ReachesExactlyWithin(t: Trace, v: Node)
    requires Lossless(t) && NoneOvertaken(t) && v != t.packet.sender
    ensures (exists j :: Hands(t, j, v)) <==> Within(t.net, t.packet.sender, v, t.packet.ttl)
  {
    if j :| Hands(t, j, v) {
      LeftTravelled(t, j, v);
      WithinGrows(t.net, t.packet.sender, v, t.packet.ttl - Left(t, j, v) + 1, t.packet.ttl);
    }
    if Within(t.net, t.packet.sender, v, t.packet.ttl) {
      var k := HasDistance(t.net, t.packet.sender, v, t.packet.ttl);
      var j := ShortestArrives(t, v, k);
    }
  }

  // ---------- Orders of delivery that keep the reach ----------

  /** Whenever a copy of the packet is delivered, none in flight has more hops left: what rounds in lockstep do. */
  ghost predicate HighestFirst(t: Trace) {
    forall i, v :: Hands(t, i, v) ==> NoneAbove(t.states[i].flight, t.Id(), Left(t, i, v))
  }

  ghost predicate NoneAbove(copies: seq<Copy>, d: Digest, ttl: nat) {
    forall c :: c in copies && DigestOf(c.packet) == d ==> c.packet.ttl <= ttl
  }

  /** Whenever a copy of the packet is delivered, it is the one longest in flight: one queue for the whole network. */
  ghost predicate OldestFirst(t: Trace) {
    forall i, v :: Hands(t, i, v) ==> Absent(t.states[i].flight[..t.actions[i].index], t.Id())
  }

  lemma {:induction false} AbsentBefore(t: Trace, k: nat)
    requires Lossless(t) && k <= t.start
    ensures Absent(t.states[k].flight, t.Id())
  {
    if k > 0 {
      AbsentBefore(t, k - 1);
      assert NextAt(t.net, t.states, t.actions, k - 1);
      StepAbsent(t.net, t.states[k - 1], t.actions[k - 1], t.states[k], t.Id());
    }
  }

  lemma StepAbsent(net: Net, s: State, a: Action, s': State, d: Digest)
    requires Next(net, s, a, s') && Spares(s, a, d) && Absent(s.flight, d)
    ensures Absent(s'.flight, d)
  {
    match a
    case Originate(v, q) => FanPackets(v, net.links[v], q, None);
    case Lose(i) =>
    case Deliver(i) =>
      var c := s.flight[i];
      if Forwards(net, s.history, c) {
        FanPackets(c.to, net.links[c.to], OneHopOn(c.packet), Some(c.from));
      }
  }

  lemma HandedAfterStart(t: Trace, i: nat, v: Node)
    requires Lossless(t) && Hands(t, i, v)
    ensures t.start < i
  {
    assert Handed(t, i, v) in t.states[i].flight;
    if i <= t.start {
      AbsentBefore(t, i);
    }
  }

  /** From the moment none in flight has more than `ttl` hops left, none ever will. */
  lemma {:induction false} StaysBelow(t: Trace, i: nat, k: nat, ttl: nat)
    requires Lossless(t) && t.start < i <= k <= |t.actions| && NoneAbove(t.states[i].flight, t.Id(), ttl)
    ensures NoneAbove(t.states[k].flight, t.Id(), ttl)
    decreases k
  {
    if i < k {
      StaysBelow(t, i, k - 1, ttl);
      assert NextAt(t.net, t.states, t.actions, k - 1);
      StepBelow(t.net, t.states[k - 1], t.actions[k - 1], t.states[k], t.Id(), ttl);
    }
  }

  lemma StepBelow(net: Net, s: State, a: Action, s': State, d: Digest, ttl: nat)
    requires Next(net, s, a, s') && Spares(s, a, d) && NoneAbove(s.flight, d, ttl)
    ensures NoneAbove(s'.flight, d, ttl)
  {
    match a
    case Originate(v, q) => FanPackets(v, net.links[v], q, None);
    case Lose(i) =>
    case Deliver(i) =>
      var c := s.flight[i];
      if Forwards(net, s.history, c) {
        FanPackets(c.to, net.links[c.to], OneHopOn(c.packet), Some(c.from));
      }
  }

  /** Delivered by hops left, most first, no copy overtakes: in rounds, the flood reaches all it can. */
  lemma HighestFirstOvertakesNone(t: Trace)
    requires Lossless(t) && HighestFirst(t)
    ensures NoneOvertaken(t)
  {
    forall v, i, j | v != t.packet.sender && i < j && TakesUp(t, i, v) && Hands(t, j, v)
      ensures Left(t, j, v) <= Left(t, i, v)
    {
      HandedAfterStart(t, i, v);
      StaysBelow(t, i, j, Left(t, i, v));
      assert Handed(t, j, v) in t.states[j].flight;
    }
  }

  /** The TTLs of a packet's copies, in order of sending. */
  function Ttls(copies: seq<Copy>, d: Digest): seq<nat> {
    if copies == [] then []
    else (if DigestOf(copies[0].packet) == d then [copies[0].packet.ttl as nat] else []) + Ttls(copies[1..], d)
  }

  lemma {:induction false} TtlsAppend(a: seq<Copy>, b: seq<Copy>, d: Digest)
    ensures Ttls(a + b, d) == Ttls(a, d) + Ttls(b, d)
  {
    if a == [] {
      assert a + b == b;
    } else {
      assert (a + b)[1..] == a[1..] + b;
      TtlsAppend(a[1..], b, d);
    }
  }

  lemma {:induction false} TtlsOfNone(copies: seq<Copy>, d: Digest)
    requires Absent(copies, d)
    ensures Ttls(copies, d) == []
  {
    if copies != [] {
      assert copies[0] in copies;
      TtlsOfNone(copies[1..], d);
    }
  }

  lemma {:induction false} TtlsOfSome(copies: seq<Copy>, d: Digest, c: Copy)
    requires c in copies && DigestOf(c.packet) == d
    ensures c.packet.ttl as nat in Ttls(copies, d)
  {
    if copies[0] != c {
      TtlsOfSome(copies[1..], d, c);
    }
  }

  lemma {:induction false} TtlsOfFan(copies: seq<Copy>, d: Digest, p: Packet)
    requires forall c :: c in copies ==> c.packet == p
    ensures forall x :: x in Ttls(copies, d) ==> x == p.ttl as nat
    ensures DigestOf(p) != d ==> Ttls(copies, d) == []
  {
    if copies != [] {
      assert copies[0] in copies;
      TtlsOfFan(copies[1..], d, p);
    }
  }

  /** Never rising, and by no more than one from first to last. */
  ghost predicate Level(ttls: seq<nat>) {
    forall a, b :: 0 <= a <= b < |ttls| ==> ttls[b] <= ttls[a] <= ttls[b] + 1
  }

  lemma StepLevel(net: Net, s: State, a: Action, s': State, d: Digest)
    requires Next(net, s, a, s') && Level(Ttls(s.flight, d))
    requires Spares(s, a, d) || (a.Originate? && Absent(s.flight, d))
    requires a.Deliver? && DigestOf(s.flight[a.index].packet) == d ==> Absent(s.flight[..a.index], d)
    ensures Level(Ttls(s'.flight, d))
  {
    match a
    case Originate(v, q) =>
      var fan := Fan(v, net.links[v], q, None);
      TtlsAppend(s.flight, fan, d);
      FanPackets(v, net.links[v], q, None);
      TtlsOfFan(fan, d, q);
      if Absent(s.flight, d) {
        TtlsOfNone(s.flight, d);
      }
      assert Ttls(s.flight, d) + [] == Ttls(s.flight, d) && [] + Ttls(fan, d) == Ttls(fan, d);
      assert forall k :: 0 <= k < |Ttls(fan, d)| ==> Ttls(fan, d)[k] in Ttls(fan, d);
    case Lose(i) =>
      Without(s.flight, i, d);
    case Deliver(i) =>
      Without(s.flight, i, d);
      DeliveredLevel(net, s.history, s.flight, i, d);
  }

  lemma Without(copies: seq<Copy>, i: nat, d: Digest)
    requires i < |copies|
    ensures Ttls(copies[..i] + copies[i + 1..], d) == Ttls(copies[..i], d) + Ttls(copies[i + 1..], d)
    ensures if DigestOf(copies[i].packet) == d
            then Ttls(copies, d) == Ttls(copies[..i], d) + ([copies[i].packet.ttl as nat] + Ttls(copies[i + 1..], d))
            else Ttls(copies, d) == Ttls(copies[..i] + copies[i + 1..], d)
  {
    assert copies == copies[..i] + copies[i..];
    TtlsAppend(copies[..i], copies[i..], d);
    TtlsAppend(copies[..i], copies[i + 1..], d);
  }

  lemma DeliveredLevel(net: Net, history: map<Node, seq<Digest>>, flight: seq<Copy>, i: nat, d: Digest)
    requires i < |flight| && Level(Ttls(flight, d))
    requires DigestOf(flight[i].packet) == d ==> Absent(flight[..i], d)
    ensures Level(Ttls(flight[..i] + flight[i + 1..] + Outgoing(net, history, flight[i]), d))
  {
    var c, rest := flight[i], flight[..i] + flight[i + 1..];
    var out := Outgoing(net, history, c);
    Without(flight, i, d);
    TtlsAppend(rest, out, d);
    OutgoingTtls(net, history, c, d);
    if DigestOf(c.packet) == d {
      TtlsOfNone(flight[..i], d);
      assert Ttls(flight, d) == [c.packet.ttl as nat] + Ttls(rest, d);
      PoppedLevel(c.packet.ttl as nat, Ttls(rest, d), Ttls(out, d));
    } else {
      assert Ttls(rest, d) + [] == Ttls(flight, d);
    }
  }

  lemma OutgoingTtls(net: Net, history: map<Node, seq<Digest>>, c: Copy, d: Digest)
    ensures var onward := Ttls(Outgoing(net, history, c), d);
            if DigestOf(c.packet) == d then forall k :: 0 <= k < |onward| ==> onward[k] + 1 == c.packet.ttl as nat
            else onward == []
  {
    var out := Outgoing(net, history, c);
    if Forwards(net, history, c) {
      FanPackets(c.to, net.links[c.to], OneHopOn(c.packet), Some(c.from));
      TtlsOfFan(out, d, OneHopOn(c.packet));
    }
    var onward := Ttls(out, d);
    assert forall k :: 0 <= k < |onward| ==> onward[k] in onward;
  }

  lemma PoppedLevel(first: nat, rest: seq<nat>, onward: seq<nat>)
    requires Level([first] + rest) && forall k :: 0 <= k < |onward| ==> onward[k] + 1 == first
    ensures Level(rest + onward)
  {
    var q := [first] + rest;
    forall a, b | 0 <= a <= b < |rest + onward|
      ensures (rest + onward)[b] <= (rest + onward)[a] <= (rest + onward)[b] + 1
    {
      if a < |rest| {
        assert rest[a] == q[a + 1] && q[0] == first;
        if b < |rest| {
          assert rest[b] == q[b + 1];
        }
      }
    }
  }

  lemma {:induction false} QueueLevel(t: Trace, k: nat)
    requires Lossless(t) && OldestFirst(t) && k <= |t.actions|
    ensures Level(Ttls(t.states[k].flight, t.Id()))
  {
    if k == 0 {
      TtlsOfNone(t.states[0].flight, t.Id());
    } else {
      QueueLevel(t, k - 1);
      assert NextAt(t.net, t.states, t.actions, k - 1);
      var s, a := t.states[k - 1], t.actions[k - 1];
      if k - 1 == t.start {
        AbsentBefore(t, k - 1);
      }
      if a.Deliver? && DigestOf(s.flight[a.index].packet) == t.Id() {
        assert Hands(t, k - 1, s.flight[a.index].to);
      }
      StepLevel(t.net, s, a, t.states[k], t.Id());
    }
  }

  /** Delivered in the order in which they were sent, copies leave by hops left, most first. */
  lemma OldestIsHighest(t: Trace)
    requires Lossless(t) && OldestFirst(t)
    ensures HighestFirst(t) && NoneOvertaken(t)
  {
    forall i, v | Hands(t, i, v) ensures NoneAbove(t.states[i].flight, t.Id(), Left(t, i, v)) {
      QueueLevel(t, i);
      FrontIsHighest(t.states[i].flight, t.actions[i].index, t.Id());
    }
    HighestFirstOvertakesNone(t);
  }

  lemma FrontIsHighest(flight: seq<Copy>, i: nat, d: Digest)
    requires i < |flight| && Absent(flight[..i], d) && DigestOf(flight[i].packet) == d && Level(Ttls(flight, d))
    ensures NoneAbove(flight, d, flight[i].packet.ttl as nat)
  {
    Without(flight, i, d);
    TtlsOfNone(flight[..i], d);
    assert Ttls(flight, d)[0] == flight[i].packet.ttl as nat;
    forall c | c in flight && DigestOf(c.packet) == d ensures c.packet.ttl <= flight[i].packet.ttl {
      TtlsOfSome(flight, d, c);
    }
  }

  // ---------- An order that does not ----------

  /**
   * The detour of `DelayLosesReach` loses nothing, keeps every link in order and overtakes: the node behind the detour
   * takes up a copy with two hops left and is handed one with three afterwards.
   */
  lemma DetourOvertaken()
    ensures var t := Trace(DETOUR, DETOUR_RUN, DETOUR_ACTIONS, Hello(3), 0);
            Lossless(t) && !NoneOvertaken(t) && N(1) != Hello(3).sender
            && TakesUp(t, 2, N(1)) && Left(t, 2, N(1)) == 2 && Hands(t, 3, N(1)) && Left(t, 3, N(1)) == 3
  {
    DetourLosesNothing();
    var t := Trace(DETOUR, DETOUR_RUN, DETOUR_ACTIONS, Hello(3), 0);
    assert Handed(t, 2, N(1)) == LATE && Handed(t, 3, N(1)) == DIRECT;
    assert TakesUp(t, 2, N(1)) && N(1)[0] != N(0)[0];
    Overtaken(t, 2, 3, N(1));
  }

  lemma Overtaken(t: Trace, i: nat, j: nat, v: Node)
    requires v != t.packet.sender && i < j && TakesUp(t, i, v) && Hands(t, j, v) && Left(t, j, v) > Left(t, i, v)
    ensures !NoneOvertaken(t)
  {
  }

  lemma DetourLosesNothing()
    ensures Lossless(Trace(DETOUR, DETOUR_RUN, DETOUR_ACTIONS, Hello(3), 0))
  {
    DelayLosesReach();
    var t := Trace(DETOUR, DETOUR_RUN, DETOUR_ACTIONS, Hello(3), 0);
    forall i | 0 <= i < 6 && i != 0 ensures Spares(DETOUR_RUN[i], DETOUR_ACTIONS[i], t.Id()) {
      assert i == 1 || i == 2 || i == 3 || i == 4 || i == 5;
    }
  }
}
