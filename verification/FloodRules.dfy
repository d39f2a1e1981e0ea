/** What a node may put on the air that it did not originate, and what it must: the relay's policy over whole runs. */
module FloodRules {
  import opened Prelude
  import opened Bytes
  import opened Wire
  import opened FifoMemory
  import opened Relay
  import opened Flood

  /** Types that leave the links of their originator: not announcements, leaves and sync requests, nor unknown ones. */
  const RELAYED_TYPES: set<byte> := {0x02, 0x04, 0x10, 0x11, 0x20, 0x22, 0x23, 0x24, 0x25, 0x26, 0x27, 0x28, 0x29}

  /** Everybody is addressed by no recipient, or by eight bytes of 0xFF. */
  predicate ForAll(p: Packet) {
    p.recipient == None || p.recipient == Some([0xFF, 0xFF, 0xFF, 0xFF, 0xFF, 0xFF, 0xFF, 0xFF])
  }

  /** A packet that is neither from `v` nor for `v` alone, with a hop left and no more than the ceiling. */
  predicate MayPass(p: Packet, v: Node) {
    && p.sender != v && 2 <= p.ttl <= 7 && p.msgType in RELAYED_TYPES
    && (ForAll(p) || p.recipient != Some(v))
  }

  lemma SameHex(a: Node, b: Node)
    ensures Hex(a) == Hex(b) <==> a == b
  {
    if Hex(a) == Hex(b) {
      HexInjective(a, b);
    }
  }

  /** A node passes a copy on exactly if the packet may pass, it is fresh, and there is another link to pass it to. */
  lemma ForwardsExactlyWhen(net: Net, history: map<Node, seq<Digest>>, c: Copy)
    ensures Forwards(net, history, c)
       <==> && c.to in net.links && MayPass(c.packet, c.to) && (exists w :: w in net.links[c.to] && w != c.from)
            && DigestOf(c.packet) !in Last(HistoryOf(history, c.to), 1024)
  {
    SameHex(c.packet.sender, c.to);
    if c.packet.recipient.Some? {
      SameHex(c.packet.recipient.value, c.to);
    }
    if c.to in net.links {
      var links := set u | u in net.links[c.to];
      assert links - {c.from} == {} <==> !exists w :: w in net.links[c.to] && w != c.from by {
        if w :| w in net.links[c.to] && w != c.from {
          assert w in links - {c.from};
        }
      }
    }
  }

  lemma {:induction false} FanExactly(v: Node, targets: seq<Node>, p: Packet, except: Option<Node>, c: Copy)
    ensures c in Fan(v, targets, p, except)
       <==> c.from == v && c.packet == p && c.to in targets && except != Some(c.to)
  {
    if targets != [] {
      FanExactly(v, targets[1..], p, except, c);
    }
  }

  /** And then it goes to all other links, with one hop less, and nowhere else. */
  lemma OutgoingExactly(net: Net, history: map<Node, seq<Digest>>, c: Copy, out: Copy)
    ensures out in Outgoing(net, history, c)
       <==> && c.to in net.links && MayPass(c.packet, c.to)
            && DigestOf(c.packet) !in Last(HistoryOf(history, c.to), 1024)
            && out.from == c.to && out.to in net.links[c.to] && out.to != c.from
            && out.packet == c.packet.(ttl := c.packet.ttl - 1)
  {
    ForwardsExactlyWhen(net, history, c);
    if Forwards(net, history, c) {
      FanExactly(c.to, net.links[c.to], OneHopOn(c.packet), Some(c.from), out);
    }
  }

  // ---------- Over whole runs ----------

  /** A copy that may be on the air although its `from` did not originate it. */
  predicate MayBePassed(c: Copy) {
    && c.packet.sender != c.from && 1 <= c.packet.ttl <= 6 && c.packet.msgType in RELAYED_TYPES
    && (ForAll(c.packet) || c.packet.recipient != Some(c.from))
  }

  ghost predicate Originated(actions: seq<Action>, k: nat, c: Copy) {
    exists i :: 0 <= i < k && i < |actions| && actions[i] == Originate(c.from, c.packet)
  }

  lemma StepLogsRightly(net: Net, s: State, a: Action, s': State, c: Copy)
    requires Next(net, s, a, s') && c in s'.log && c !in s.log
    ensures a == Originate(c.from, c.packet) || MayBePassed(c)
  {
    match a
    case Originate(v, p) =>
      FanExactly(v, net.links[v], p, None, c);
    case Deliver(i) =>
      OutgoingExactly(net, s.history, s.flight[i], c);
    case Lose(i) =>
  }

  /**
   * Over any run, whatever a node puts on the air it originated itself, or it may pass on: it is not for that node
   * alone, not from it, of a type that is relayed, and has a TTL below the ceiling.
   */
  lemma {:induction false} HeldBack(net: Net, states: seq<State>, actions: seq<Action>, k: nat, c: Copy)
    requires IsRun(net, states, actions) && k <= |actions| && c in states[k].log && c !in states[0].log
    ensures Originated(actions, k, c) || MayBePassed(c)
  {
    assert NextAt(net, states, actions, k - 1);
    if c in states[k - 1].log {
      HeldBack(net, states, actions, k - 1, c);
    } else {
      StepLogsRightly(net, states[k - 1], actions[k - 1], states[k], c);
    }
  }

  /** A packet for one node alone never leaves that node again, unless it sent it to itself. */
  lemma ArrivedIsHeldBack(net: Net, states: seq<State>, actions: seq<Action>, c: Copy)
    requires IsRun(net, states, actions) && c in states[|actions|].log && c !in states[0].log
    requires !ForAll(c.packet) && c.packet.recipient == Some(c.from)
    ensures Originated(actions, |actions|, c)
  {
    HeldBack(net, states, actions, |actions|, c);
  }

  /** Announcements, leaves, sync requests and unknown types stay on the links of whoever originated them. */
  lemma PresenceStaysOnItsLink(net: Net, states: seq<State>, actions: seq<Action>, c: Copy)
    requires IsRun(net, states, actions) && c in states[|actions|].log && c !in states[0].log
    requires c.packet.msgType !in RELAYED_TYPES
    ensures Originated(actions, |actions|, c)
  {
    HeldBack(net, states, actions, |actions|, c);
  }

  /** What may pass and is fresh is passed on, to everybody or to one node, over every other link. */
  lemma FreshIsPassedOn(net: Net, states: seq<State>, actions: seq<Action>, i: nat, w: Node)
    requires IsRun(net, states, actions) && i < |actions| && actions[i].Deliver?
    requires actions[i].index < |states[i].flight|
    requires var c := states[i].flight[actions[i].index];
             && c.to in net.links && w in net.links[c.to] && w != c.from && MayPass(c.packet, c.to)
             && DigestOf(c.packet) !in Last(HistoryOf(states[i].history, c.to), 1024)
    ensures var c := states[i].flight[actions[i].index];
            var out := Copy(c.to, w, c.packet.(ttl := c.packet.ttl - 1));
            out in states[i + 1].flight && out in states[i + 1].log
  {
    assert NextAt(net, states, actions, i);
    var c := states[i].flight[actions[i].index];
    OutgoingExactly(net, states[i].history, c, Copy(c.to, w, c.packet.(ttl := c.packet.ttl - 1)));
  }
}
