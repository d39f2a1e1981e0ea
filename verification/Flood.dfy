/**
 * The flood as a distributed protocol: nodes, links, copies in flight and each node's memory of what it forwarded.
 * One step originates, delivers or loses a packet; steps come in any order.
 */
module Flood {
  import opened Prelude
  import opened Bytes
  import opened Wire
  import opened FifoMemory
  import opened Relay

  type Node = Id

  datatype Copy = Copy(from: Node, to: Node, packet: Packet)

  datatype Net = Net(nodes: seq<Node>, links: map<Node, seq<Node>>) {
    /** Links join known nodes, go both ways and are listed once. */
    ghost predicate Valid() {
      && Distinct(nodes) && (forall v :: v in links <==> v in nodes)
      && (forall v :: v in links ==> Distinct(links[v]))
      && (forall u, v :: Linked(u, v) ==> v in links && Linked(v, u))
    }

    predicate Linked(u: Node, v: Node) {
      u in links && v in links[u]
    }

    function Degree(v: Node): nat {
      if v in links then |links[v]| else 0
    }
  }

  ghost predicate Distinct(s: seq<Node>) {
    forall i, j :: 0 <= i < j < |s| ==> s[i] != s[j]
  }

  /** `history` lists what each node ever forwarded; `log` lists every copy ever put on a link. */
  datatype State = State(history: map<Node, seq<Digest>>, flight: seq<Copy>, log: seq<Copy>)

  datatype Action =
    | Originate(node: Node, packet: Packet)
    | Deliver(index: nat)
    | Lose(index: nat)

  // ---------- One step ----------

  /** One copy per link except the named one: `senders_except` in `transport.rs`. */
  function Fan(v: Node, targets: seq<Node>, packet: Packet, except: Option<Node>): seq<Copy> {
    if targets == [] then []
    else
      var rest := Fan(v, targets[1..], packet, except);
      if except == Some(targets[0]) then rest else [Copy(v, targets[0], packet)] + rest
  }

  function HistoryOf(history: map<Node, seq<Digest>>, v: Node): seq<Digest> {
    if v in history then history[v] else []
  }

  predicate Forwards(net: Net, history: map<Node, seq<Digest>>, c: Copy) {
    && c.to in net.links
    && Plan(c.packet, (set u | u in net.links[c.to]), c.from, Hex(c.to)).Forward?
    && DigestOf(c.packet) !in Last(HistoryOf(history, c.to), FORWARDED_LIMIT)
  }

  /** What a node puts on the air when a copy reaches it. */
  function Outgoing(net: Net, history: map<Node, seq<Digest>>, c: Copy): seq<Copy> {
    if Forwards(net, history, c)
    then Fan(c.to, net.links[c.to], OneHopOn(c.packet), Some(c.from))
    else []
  }

  function Remembered(net: Net, history: map<Node, seq<Digest>>, c: Copy): map<Node, seq<Digest>> {
    if Forwards(net, history, c)
    then history[c.to := HistoryOf(history, c.to) + [DigestOf(c.packet)]]
    else history
  }

  predicate Enabled(net: Net, s: State, a: Action) {
    match a
    case Originate(v, p) => v in net.links
    case Deliver(i) => i < |s.flight|
    case Lose(i) => i < |s.flight|
  }

  function Step(net: Net, s: State, a: Action): State
    requires Enabled(net, s, a)
  {
    match a
    case Originate(v, p) =>
      var out := Fan(v, net.links[v], p, None);
      State(s.history, s.flight + out, s.log + out)
    case Deliver(i) =>
      var c := s.flight[i];
      var out := Outgoing(net, s.history, c);
      State(Remembered(net, s.history, c), s.flight[..i] + s.flight[i + 1..] + out, s.log + out)
    case Lose(i) =>
      State(s.history, s.flight[..i] + s.flight[i + 1..], s.log)
  }

  ghost predicate Next(net: Net, s: State, a: Action, s': State) {
    Enabled(net, s, a) && s' == Step(net, s, a)
  }

  /** A run: one action between each state and the next, chosen freely. */
  ghost predicate IsRun(net: Net, states: seq<State>, actions: seq<Action>) {
    && |states| == |actions| + 1
    && forall i :: 0 <= i < |actions| ==> NextAt(net, states, actions, i)
  }

  ghost predicate NextAt(net: Net, states: seq<State>, actions: seq<Action>, i: int)
    requires 0 <= i < |actions| && |states| == |actions| + 1
  {
    Next(net, states[i], actions[i], states[i + 1])
  }

  // ---------- Counting ----------

  function Sent(log: seq<Copy>, v: Node, d: Digest): nat {
    if log == [] then 0
    else
      var c := log[|log| - 1];
      Sent(log[..|log| - 1], v, d) + (if c.from == v && DigestOf(c.packet) == d then 1 else 0)
  }

  function Carrying(copies: seq<Copy>, d: Digest): nat {
    if copies == [] then 0
    else Carrying(copies[..|copies| - 1], d) + (if DigestOf(copies[|copies| - 1].packet) == d then 1 else 0)
  }

  function Times(history: seq<Digest>, d: Digest): nat {
    if history == [] then 0
    else Times(history[..|history| - 1], d) + (if history[|history| - 1] == d then 1 else 0)
  }

  function Originates(a: Action, v: Node, d: Digest): nat {
    if a.Originate? && a.node == v && DigestOf(a.packet) == d then 1 else 0
  }

  /** How often a node originated the packet in the first `n` steps. */
  function Origins(actions: seq<Action>, n: nat, v: Node, d: Digest): nat
    requires n <= |actions|
  {
    if n == 0 then 0 else Origins(actions, n - 1, v, d) + Originates(actions[n - 1], v, d)
  }

  lemma {:induction false} SentAppend(a: seq<Copy>, b: seq<Copy>, v: Node, d: Digest)
    ensures Sent(a + b, v, d) == Sent(a, v, d) + Sent(b, v, d)
  {
    if b == [] {
      assert a + b == a;
    } else {
      SentAppend(a, b[..|b| - 1], v, d);
      assert (a + b)[..|a + b| - 1] == a + b[..|b| - 1];
    }
  }

  lemma {:induction false} CarryingAppend(a: seq<Copy>, b: seq<Copy>, d: Digest)
    ensures Carrying(a + b, d) == Carrying(a, d) + Carrying(b, d)
  {
    if b == [] {
      assert a + b == a;
    } else {
      CarryingAppend(a, b[..|b| - 1], d);
      assert (a + b)[..|a + b| - 1] == a + b[..|b| - 1];
    }
  }

  lemma CarryingRemove(s: seq<Copy>, i: nat, d: Digest)
    requires i < |s|
    ensures Carrying(s, d) == Carrying(s[..i] + s[i + 1..], d) + (if DigestOf(s[i].packet) == d then 1 else 0)
  {
    assert s == s[..i] + ([s[i]] + s[i + 1..]);
    CarryingAppend(s[..i], [s[i]] + s[i + 1..], d);
    CarryingAppend([s[i]], s[i + 1..], d);
    CarryingAppend(s[..i], s[i + 1..], d);
    assert Carrying([s[i]], d) == Carrying([], d) + (if DigestOf(s[i].packet) == d then 1 else 0);
  }

  /** A fan reaches every link but the excepted one, once each, with the packet unchanged. */
  lemma {:induction false} FanShape(v: Node, targets: seq<Node>, p: Packet, except: Option<Node>)
    requires Distinct(targets)
    ensures forall c :: c in Fan(v, targets, p, except)
              ==> c.from == v && c.packet == p && c.to in targets && except != Some(c.to)
    ensures |Fan(v, targets, p, except)|
         == |targets| - (if except.Some? && except.value in targets then 1 else 0)
  {
    if targets != [] {
      assert targets == [targets[0]] + targets[1..] && targets[0] !in targets[1..];
      FanShape(v, targets[1..], p, except);
    }
  }

  lemma {:induction false} UniformCounts(copies: seq<Copy>, v: Node, p: Packet, u: Node, d: Digest)
    requires forall c :: c in copies ==> c.from == v && c.packet == p
    ensures Sent(copies, u, d) == (if u == v && DigestOf(p) == d then |copies| else 0)
    ensures Carrying(copies, d) == (if DigestOf(p) == d then |copies| else 0)
  {
    if copies != [] {
      var c := copies[|copies| - 1];
      assert c in copies;
      UniformCounts(copies[..|copies| - 1], v, p, u, d);
    }
  }

  lemma FanCounts(v: Node, targets: seq<Node>, p: Packet, except: Option<Node>, u: Node, d: Digest)
    requires Distinct(targets)
    ensures |Fan(v, targets, p, except)| == |targets| - (if except.Some? && except.value in targets then 1 else 0)
    ensures Sent(Fan(v, targets, p, except), u, d)
         == (if u == v && DigestOf(p) == d then |Fan(v, targets, p, except)| else 0)
  {
    FanShape(v, targets, p, except);
    UniformCounts(Fan(v, targets, p, except), v, p, u, d);
  }

  // ---------- Safety of single steps ----------

  /** Copies in flight came over a real link. */
  ghost predicate OnLinks(net: Net, s: State) {
    forall c :: c in s.flight ==> net.Linked(c.from, c.to)
  }

  lemma {:induction false} FanOnLinks(net: Net, v: Node, targets: seq<Node>, p: Packet, except: Option<Node>)
    requires v in net.links && forall u :: u in targets ==> u in net.links[v]
    ensures forall c :: c in Fan(v, targets, p, except) ==> c.from == v && net.Linked(c.from, c.to)
  {
    if targets != [] {
      FanOnLinks(net, v, targets[1..], p, except);
    }
  }

  lemma StepKeepsLinks(net: Net, s: State, a: Action)
    requires OnLinks(net, s) && Enabled(net, s, a)
    ensures OnLinks(net, Step(net, s, a))
  {
    match a
    case Originate(v, p) => FanOnLinks(net, v, net.links[v], p, None);
    case Deliver(i) =>
      var c := s.flight[i];
      if Forwards(net, s.history, c) {
        FanOnLinks(net, c.to, net.links[c.to], OneHopOn(c.packet), Some(c.from));
      }
    case Lose(i) =>
  }

  /** Forwarding never goes back out the ingress link, never amplifies our own packet, and takes one hop off. */
  lemma ForwardingRules(net: Net, history: map<Node, seq<Digest>>, c: Copy, out: Copy)
    requires net.Valid() && out in Outgoing(net, history, c)
    ensures out.from == c.to && out.to != c.from && net.Linked(c.to, out.to)
    ensures c.packet.sender != c.to
    ensures 1 < c.packet.ttl <= MAX_TTL && out.packet == OneHopOn(c.packet)
  {
    FanShape(c.to, net.links[c.to], OneHopOn(c.packet), Some(c.from));
  }

  // ---------- Accounting over whole runs ----------

  /** What a node of the given degree sends: a full fan per origination and one link less per forward. */
  function Cost(degree: int, origins: nat, forwards: nat): int {
    if origins > 0 then degree + Cost(degree, origins - 1, forwards)
    else if forwards > 0 then degree - 1 + Cost(degree, 0, forwards - 1)
    else 0
  }

  lemma {:induction false} CostAdds(degree: int, o1: nat, f1: nat, o2: nat, f2: nat)
    ensures Cost(degree, o1 + o2, f1 + f2) == Cost(degree, o1, f1) + Cost(degree, o2, f2)
    decreases o1, f1, o2, f2
  {
    if o1 > 0 {
      CostAdds(degree, o1 - 1, f1, o2, f2);
    } else if o2 > 0 {
      CostAdds(degree, o1, f1, o2 - 1, f2);
    } else if f1 > 0 {
      CostAdds(degree, o1, f1 - 1, o2, f2);
    }
  }

  /** Every copy a node sent is part of one of its own fans or of a forwarded one. */
  ghost predicate Accounted(net: Net, s0: State, s: State, origins: nat, v: Node, d: Digest) {
    && Times(HistoryOf(s.history, v), d) >= Times(HistoryOf(s0.history, v), d)
    && Sent(s.log, v, d) == Sent(s0.log, v, d)
         + Cost(net.Degree(v), origins, Times(HistoryOf(s.history, v), d) - Times(HistoryOf(s0.history, v), d))
  }

  /** A forwarded fan leaves out exactly the ingress link. */
  lemma OutgoingCounts(net: Net, history: map<Node, seq<Digest>>, c: Copy, v: Node, d: Digest)
    requires Forwards(net, history, c) && Distinct(net.links[c.to]) && c.from in net.links[c.to]
    ensures DigestOf(c.packet).sender != c.to
    ensures Sent(Outgoing(net, history, c), v, d)
         == (if v == c.to && d == DigestOf(c.packet) then net.Degree(v) - 1 else 0)
  {
    FanCounts(c.to, net.links[c.to], OneHopOn(c.packet), Some(c.from), v, d);
  }

  lemma RememberedCounts(net: Net, history: map<Node, seq<Digest>>, c: Copy, v: Node, d: Digest)
    ensures Times(HistoryOf(Remembered(net, history, c), v), d)
         == Times(HistoryOf(history, v), d)
          + (if Forwards(net, history, c) && v == c.to && d == DigestOf(c.packet) then 1 else 0)
  {
    var h := HistoryOf(history, c.to);
    assert (h + [DigestOf(c.packet)])[..|h|] == h;
  }

  /** What a delivered copy adds to a node's sending, and to what it remembers. */
  lemma CopyCounts(net: Net, history: map<Node, seq<Digest>>, log: seq<Copy>, c: Copy, v: Node, d: Digest)
    returns (forwarded: bool)
    requires c.to in net.links ==> Distinct(net.links[c.to]) && c.from in net.links[c.to]
    ensures Sent(log + Outgoing(net, history, c), v, d)
         == Sent(log, v, d) + (if forwarded then net.Degree(v) - 1 else 0)
    ensures Times(HistoryOf(Remembered(net, history, c), v), d)
         == Times(HistoryOf(history, v), d) + (if forwarded then 1 else 0)
    ensures forwarded ==> v != d.sender
  {
    forwarded := Forwards(net, history, c) && v == c.to && d == DigestOf(c.packet);
    SentAppend(log, Outgoing(net, history, c), v, d);
    RememberedCounts(net, history, c, v, d);
    if Forwards(net, history, c) {
      OutgoingCounts(net, history, c, v, d);
    }
  }

  /** A copy in flight came over a link that is listed both ways. */
  lemma CopyIsLinked(net: Net, s: State, i: nat)
    requires net.Valid() && OnLinks(net, s) && i < |s.flight|
    ensures var c := s.flight[i];
            c.to in net.links && Distinct(net.links[c.to]) && c.from in net.links[c.to]
  {
    var c := s.flight[i];
    assert c in s.flight && net.Linked(c.from, c.to) && net.Linked(c.to, c.from);
  }

  lemma DeliverCounts(net: Net, s: State, i: nat, v: Node, d: Digest) returns (forwarded: bool)
    requires net.Valid() && OnLinks(net, s) && i < |s.flight|
    ensures var s' := Step(net, s, Deliver(i));
            && Sent(s'.log, v, d) == Sent(s.log, v, d) + (if forwarded then net.Degree(v) - 1 else 0)
            && Times(HistoryOf(s'.history, v), d) == Times(HistoryOf(s.history, v), d) + (if forwarded then 1 else 0)
    ensures forwarded ==> v != d.sender
  {
    CopyIsLinked(net, s, i);
    forwarded := CopyCounts(net, s.history, s.log, s.flight[i], v, d);
  }

  lemma DeliverAccounts(net: Net, s: State, i: nat, v: Node, d: Digest)
    requires net.Valid() && OnLinks(net, s) && i < |s.flight|
    ensures Accounted(net, s, Step(net, s, Deliver(i)), 0, v, d)
    ensures v == d.sender
        ==> Times(HistoryOf(Step(net, s, Deliver(i)).history, v), d) == Times(HistoryOf(s.history, v), d)
  {
    var forwarded := DeliverCounts(net, s, i, v, d);
    CostOfOne(net.Degree(v));
  }

  lemma CostOfOne(degree: int)
    ensures Cost(degree, 0, 0) == 0 && Cost(degree, 0, 1) == degree - 1 && Cost(degree, 1, 0) == degree
  {
  }

  lemma StepAccounts(net: Net, s: State, a: Action, s': State, v: Node, d: Digest)
    requires net.Valid() && OnLinks(net, s) && Next(net, s, a, s')
    ensures Accounted(net, s, s', Originates(a, v, d), v, d)
    ensures v == d.sender ==> Times(HistoryOf(s'.history, v), d) == Times(HistoryOf(s.history, v), d)
  {
    match a
    case Originate(w, p) =>
      FanCounts(w, net.links[w], p, None, v, d);
      SentAppend(s.log, Fan(w, net.links[w], p, None), v, d);
    case Deliver(i) =>
      DeliverAccounts(net, s, i, v, d);
    case Lose(i) =>
  }

  /** One more step on top of accounts already kept. */
  lemma AccountsGrow(net: Net, s0: State, s: State, a: Action, s': State, o: nat, o': nat, v: Node, d: Digest)
    requires net.Valid() && OnLinks(net, s) && Next(net, s, a, s')
    requires Accounted(net, s0, s, o, v, d) && o' == o + Originates(a, v, d)
    ensures Accounted(net, s0, s', o', v, d)
    ensures v == d.sender ==> Times(HistoryOf(s'.history, v), d) == Times(HistoryOf(s.history, v), d)
  {
    StepAccounts(net, s, a, s', v, d);
    AccountsChain(net, s0, s, s', o, Originates(a, v, d), v, d);
  }

  lemma AccountsChain(net: Net, a: State, b: State, c: State, m: nat, n: nat, v: Node, d: Digest)
    requires Accounted(net, a, b, m, v, d) && Accounted(net, b, c, n, v, d)
    ensures Accounted(net, a, c, m + n, v, d)
  {
    CostAdds(net.Degree(v), m, Times(HistoryOf(b.history, v), d) - Times(HistoryOf(a.history, v), d),
             n, Times(HistoryOf(c.history, v), d) - Times(HistoryOf(b.history, v), d));
  }

  lemma {:induction false} RunKeepsLinks(net: Net, states: seq<State>, actions: seq<Action>, k: nat)
    requires IsRun(net, states, actions) && OnLinks(net, states[0]) && k <= |actions|
    ensures OnLinks(net, states[k])
  {
    if k > 0 {
      RunKeepsLinks(net, states, actions, k - 1);
      assert NextAt(net, states, actions, k - 1);
      StepKeepsLinks(net, states[k - 1], actions[k - 1]);
    }
  }

  /** Over any run, in any order and with any loss, a node's transmissions of a packet are exactly accounted for. */
  lemma {:induction false} RunAccounts(net: Net, states: seq<State>, actions: seq<Action>, k: nat, v: Node, d: Digest)
    requires net.Valid() && IsRun(net, states, actions) && OnLinks(net, states[0]) && k <= |actions|
    ensures Accounted(net, states[0], states[k], Origins(actions, k, v, d), v, d)
    ensures v == d.sender ==> Times(HistoryOf(states[k].history, v), d) == Times(HistoryOf(states[0].history, v), d)
  {
    if k > 0 {
      RunAccounts(net, states, actions, k - 1, v, d);
      RunKeepsLinks(net, states, actions, k - 1);
      assert NextAt(net, states, actions, k - 1);
      assert NextAt(net, states, actions, k - 1);
      AccountsGrow(net, states[0], states[k - 1], actions[k - 1], states[k], Origins(actions, k - 1, v, d),
                   Origins(actions, k, v, d), v, d);
    }
  }

  // ---------- At most one forward while the memory holds ----------

  lemma StepKeepsSpacing(net: Net, s: State, a: Action, s': State, v: Node)
    requires Next(net, s, a, s') && Spaced(HistoryOf(s.history, v), FORWARDED_LIMIT)
    ensures Spaced(HistoryOf(s'.history, v), FORWARDED_LIMIT)
    ensures HistoryOf(s.history, v) <= HistoryOf(s'.history, v)
  {
    if a.Deliver? && Forwards(net, s.history, s.flight[a.index]) {
      RecordKeepsSpacing(HistoryOf(s.history, v), DigestOf(s.flight[a.index].packet), FORWARDED_LIMIT);
    }
  }

  /** A node forwards one packet again only after 1024 others: its history stays spaced in every reachable state. */
  lemma {:induction false} RunKeepsSpacing(net: Net, states: seq<State>, actions: seq<Action>, k: nat, v: Node)
    requires IsRun(net, states, actions) && k <= |actions|
    requires Spaced(HistoryOf(states[0].history, v), FORWARDED_LIMIT)
    ensures Spaced(HistoryOf(states[k].history, v), FORWARDED_LIMIT)
    ensures HistoryOf(states[0].history, v) <= HistoryOf(states[k].history, v)
  {
    if k > 0 {
      RunKeepsSpacing(net, states, actions, k - 1, v);
      assert NextAt(net, states, actions, k - 1);
      StepKeepsSpacing(net, states[k - 1], actions[k - 1], states[k], v);
    }
  }

  lemma {:induction false} TimesOccurs(h: seq<Digest>, d: Digest) returns (i: nat)
    requires Times(h, d) >= 1
    ensures i < |h| && h[i] == d && Times(h[..i], d) == Times(h, d) - 1
    ensures forall k :: i < k < |h| ==> h[k] != d
  {
    if h[|h| - 1] == d {
      i := |h| - 1;
    } else {
      i := TimesOccurs(h[..|h| - 1], d);
      assert h[..|h| - 1][..i] == h[..i];
    }
  }

  /** A spaced history as long as the memory plus one holds each id at most once. */
  lemma SpacedOnce(h0: seq<Digest>, h: seq<Digest>, d: Digest)
    requires Spaced(h, FORWARDED_LIMIT) && h0 <= h && Times(h0, d) == 0
    requires |h| - |h0| <= FORWARDED_LIMIT + 1
    ensures Times(h, d) <= 1
  {
    if Times(h, d) >= 2 {
      var j := TimesOccurs(h, d);
      var i := TimesOccurs(h[..j], d);
      if i < |h0| {
        TimesSome(h0, i, d);
      }
      assert false;
    }
  }

  lemma {:induction false} TimesSome(h: seq<Digest>, i: nat, d: Digest)
    requires i < |h| && h[i] == d
    ensures Times(h, d) >= 1
  {
    if i < |h| - 1 {
      TimesSome(h[..|h| - 1], i, d);
    }
  }

  // ---------- The transmission bound ----------

  function Excess(net: Net, v: Node): nat {
    if net.Degree(v) == 0 then 0 else net.Degree(v) - 1
  }

  function Total(net: Net, nodes: seq<Node>, origin: Node): nat {
    if nodes == [] then 0
    else (if nodes[0] == origin then net.Degree(origin) else Excess(net, nodes[0])) + Total(net, nodes[1..], origin)
  }

  function SentByAll(log: seq<Copy>, nodes: seq<Node>, d: Digest): nat {
    if nodes == [] then 0 else Sent(log, nodes[0], d) + SentByAll(log, nodes[1..], d)
  }

  lemma {:induction false} SentByAllGrows(log: seq<Copy>, c: Copy, nodes: seq<Node>, d: Digest)
    requires Distinct(nodes)
    ensures SentByAll(log + [c], nodes, d)
         == SentByAll(log, nodes, d) + (if c.from in nodes && DigestOf(c.packet) == d then 1 else 0)
  {
    if nodes != [] {
      assert (log + [c])[..|log|] == log;
      SentByAllGrows(log, c, nodes[1..], d);
      assert nodes == [nodes[0]] + nodes[1..];
    }
  }

  lemma {:induction false} NoneSent(nodes: seq<Node>, d: Digest)
    ensures SentByAll([], nodes, d) == 0
  {
    if nodes != [] {
      NoneSent(nodes[1..], d);
    }
  }

  /** The copies of one packet on the air are the sum of what each node sent. */
  lemma {:induction false} LogByNode(log: seq<Copy>, nodes: seq<Node>, d: Digest)
    requires Distinct(nodes) && forall c :: c in log ==> c.from in nodes
    ensures Carrying(log, d) == SentByAll(log, nodes, d)
  {
    if log == [] {
      NoneSent(nodes, d);
    } else {
      var init, c := log[..|log| - 1], log[|log| - 1];
      LogByNode(init, nodes, d);
      assert log == init + [c];
      SentByAllGrows(init, c, nodes, d);
    }
  }

  lemma {:induction false} TotalBounds(net: Net, log: seq<Copy>, nodes: seq<Node>, origin: Node, d: Digest)
    requires forall v :: v in nodes ==> Sent(log, v, d) <= (if v == origin then net.Degree(origin) else Excess(net, v))
    ensures SentByAll(log, nodes, d) <= Total(net, nodes, origin)
  {
    if nodes != [] {
      assert nodes[0] in nodes;
      TotalBounds(net, log, nodes[1..], origin, d);
    }
  }

  lemma {:induction false} LogFromNodes(net: Net, states: seq<State>, actions: seq<Action>, k: nat)
    requires net.Valid() && IsRun(net, states, actions) && k <= |actions|
    requires forall c :: c in states[0].log ==> c.from in net.nodes
    ensures forall c :: c in states[k].log ==> c.from in net.nodes
  {
    if k > 0 {
      LogFromNodes(net, states, actions, k - 1);
      assert NextAt(net, states, actions, k - 1);
      StepLogs(net, states[k - 1], actions[k - 1], states[k]);
    }
  }

  lemma StepLogs(net: Net, s: State, a: Action, s': State)
    requires Next(net, s, a, s')
    ensures forall c :: c in s'.log && c !in s.log ==> c.from in net.links
  {
    match a
    case Originate(v, p) => FanOnLinks(net, v, net.links[v], p, None);
    case Deliver(i) =>
      var c := s.flight[i];
      if Forwards(net, s.history, c) {
        FanOnLinks(net, c.to, net.links[c.to], OneHopOn(c.packet), Some(c.from));
      }
    case Lose(i) =>
  }

  /** Nobody has sent, holds or remembers the packet yet. */
  ghost predicate NewPacket(net: Net, s: State, d: Digest) {
    && Carrying(s.log, d) == 0 && Carrying(s.flight, d) == 0
    && forall v :: v in net.links ==> Times(HistoryOf(s.history, v), d) == 0
  }

  /** No node has forwarded more than 1025 packets since the run began: the packet itself and 1024 others. */
  ghost predicate MemoryHolds(net: Net, s: State, s': State) {
    forall v :: v in net.links
      ==> |HistoryOf(s'.history, v)| - |HistoryOf(s.history, v)| <= FORWARDED_LIMIT + 1
  }

  ghost predicate Memories(net: Net, s: State) {
    forall v :: v in net.links ==> Spaced(HistoryOf(s.history, v), FORWARDED_LIMIT)
  }

  /** What the accounts come to for one node while the memories hold. */
  lemma NodeBound(net: Net, s: State, s': State, origins: nat, v: Node, d: Digest)
    requires Accounted(net, s, s', origins, v, d) && origins <= (if v == d.sender then 1 else 0)
    requires v == d.sender ==> Times(HistoryOf(s'.history, v), d) == Times(HistoryOf(s.history, v), d)
    requires Sent(s.log, v, d) == 0 && Times(HistoryOf(s.history, v), d) == 0
    requires Times(HistoryOf(s'.history, v), d) <= 1
    requires net.Degree(v) == 0 ==> Times(HistoryOf(s'.history, v), d) == 0
    ensures Sent(s'.log, v, d) <= (if v == d.sender then net.Degree(v) else Excess(net, v))
  {
    var t := Times(HistoryOf(s'.history, v), d);
    assert Cost(net.Degree(v), 0, 0) == 0 && Cost(net.Degree(v), 1, 0) == net.Degree(v);
    assert Cost(net.Degree(v), 0, 1) == net.Degree(v) - 1;
    assert (origins == 0 && t <= 1) || (origins == 1 && t == 0);
  }

  /** A run in which `d` is new, its sender originates it at most once and nobody else does. */
  ghost predicate FreshRun(net: Net, states: seq<State>, actions: seq<Action>, d: Digest) {
    && net.Valid() && IsRun(net, states, actions) && OnLinks(net, states[0]) && Memories(net, states[0])
    && (forall c :: c in states[0].log ==> c.from in net.nodes) && NewPacket(net, states[0], d)
    && (forall v :: v in net.links ==> Origins(actions, |actions|, v, d) <= (if v == d.sender then 1 else 0))
  }

  lemma NodeInRun(net: Net, states: seq<State>, actions: seq<Action>, v: Node, d: Digest)
    requires FreshRun(net, states, actions, d) && v in net.links
    requires MemoryHolds(net, states[0], states[|actions|])
    ensures Times(HistoryOf(states[|actions|].history, v), d) <= (if v == d.sender then 0 else 1)
    ensures Sent(states[|actions|].log, v, d) <= (if v == d.sender then net.Degree(v) else Excess(net, v))
  {
    var n := |actions|;
    RunAccounts(net, states, actions, n, v, d);
    RunKeepsSpacing(net, states, actions, n, v);
    SpacedOnce(HistoryOf(states[0].history, v), HistoryOf(states[n].history, v), d);
    if net.Degree(v) == 0 {
      NoLinksNoForward(net, states, actions, n, v);
    }
    LogByNode(states[0].log, net.nodes, d);
    SentPart(states[0].log, net.nodes, v, d);
    NodeBound(net, states[0], states[n], Origins(actions, |actions|, v, d), v, d);
  }

  /**
   * A packet its sender originates once is forwarded by every other node at most once and by the sender never,
   * and costs at most deg(origin) + sum of (deg(v) - 1) transmissions, whatever the order, the loss and the other
   * traffic.
   */
  lemma FloodIsBounded(net: Net, states: seq<State>, actions: seq<Action>, d: Digest)
    requires FreshRun(net, states, actions, d) && MemoryHolds(net, states[0], states[|actions|])
    ensures forall v :: v in net.links
              ==> Times(HistoryOf(states[|actions|].history, v), d) <= (if v == d.sender then 0 else 1)
    ensures Carrying(states[|actions|].log, d) <= Total(net, net.nodes, d.sender)
  {
    var n := |actions|;
    forall v | v in net.links
      ensures Times(HistoryOf(states[n].history, v), d) <= (if v == d.sender then 0 else 1)
      ensures Sent(states[n].log, v, d) <= (if v == d.sender then net.Degree(v) else Excess(net, v))
    {
      NodeInRun(net, states, actions, v, d);
    }
    LogFromNodes(net, states, actions, n);
    LogByNode(states[n].log, net.nodes, d);
    TotalBounds(net, states[n].log, net.nodes, d.sender, d);
  }

  lemma {:induction false} SentPart(log: seq<Copy>, nodes: seq<Node>, v: Node, d: Digest)
    requires v in nodes
    ensures Sent(log, v, d) <= SentByAll(log, nodes, d)
  {
    if nodes[0] != v {
      SentPart(log, nodes[1..], v, d);
    }
  }

  lemma {:induction false} NoLinksNoForward(net: Net, states: seq<State>, actions: seq<Action>, k: nat, v: Node)
    requires IsRun(net, states, actions) && k <= |actions| && v in net.links && net.Degree(v) == 0
    ensures HistoryOf(states[k].history, v) == HistoryOf(states[0].history, v)
  {
    if k > 0 {
      NoLinksNoForward(net, states, actions, k - 1, v);
      assert NextAt(net, states, actions, k - 1);
    }
  }

  // ---------- Termination ----------

  /** Whether a step delivers or loses a copy of the packet. */
  function Consumes(s: State, a: Action, d: Digest): nat {
    if a.Originate? || a.index >= |s.flight| || DigestOf(s.flight[a.index].packet) != d then 0 else 1
  }

  function Consumed(states: seq<State>, actions: seq<Action>, k: nat, d: Digest): nat
    requires k <= |actions| < |states|
  {
    if k == 0 then 0 else Consumed(states, actions, k - 1, d) + Consumes(states[k - 1], actions[k - 1], d)
  }

  lemma StepConserves(net: Net, s: State, a: Action, s': State, d: Digest)
    requires Next(net, s, a, s')
    ensures Carrying(s'.log, d) + Carrying(s.flight, d)
         == Carrying(s.log, d) + Carrying(s'.flight, d) + Consumes(s, a, d)
  {
    match a
    case Originate(v, p) =>
      CarryingAppend(s.flight, Fan(v, net.links[v], p, None), d);
      CarryingAppend(s.log, Fan(v, net.links[v], p, None), d);
    case Deliver(i) =>
      var out := Outgoing(net, s.history, s.flight[i]);
      CarryingRemove(s.flight, i, d);
      CarryingAppend(s.flight[..i] + s.flight[i + 1..], out, d);
      CarryingAppend(s.log, out, d);
    case Lose(i) =>
      CarryingRemove(s.flight, i, d);
  }

  /** What has been sent since the start is what has been consumed and what is still in flight. */
  ghost predicate Conserved(s0: State, s: State, consumed: nat, d: Digest) {
    Carrying(s.log, d) + Carrying(s0.flight, d) == Carrying(s0.log, d) + Carrying(s.flight, d) + consumed
  }

  lemma ConservedGrows(net: Net, s0: State, s: State, a: Action, s': State, n: nat, n': nat, d: Digest)
    requires Next(net, s, a, s') && Conserved(s0, s, n, d) && n' == n + Consumes(s, a, d)
    ensures Conserved(s0, s', n', d)
  {
    StepConserves(net, s, a, s', d);
  }

  /** Conservation: every copy put on a link is delivered, lost, or still in flight. */
  lemma {:induction false} CopiesAreConserved(net: Net, states: seq<State>, actions: seq<Action>, k: nat, d: Digest)
    requires IsRun(net, states, actions) && k <= |actions|
    ensures Conserved(states[0], states[k], Consumed(states, actions, k, d), d)
  {
    if k > 0 {
      CopiesAreConserved(net, states, actions, k - 1, d);
      assert NextAt(net, states, actions, k - 1);
      ConservedGrows(net, states[0], states[k - 1], actions[k - 1], states[k], Consumed(states, actions, k - 1, d),
                     Consumed(states, actions, k, d), d);
    }
  }

  /** So no run can go on delivering or losing one packet's copies beyond the bound: the flood terminates. */
  lemma FloodTerminates(net: Net, states: seq<State>, actions: seq<Action>, d: Digest)
    requires FreshRun(net, states, actions, d) && MemoryHolds(net, states[0], states[|actions|])
    ensures Consumed(states, actions, |actions|, d) + Carrying(states[|actions|].flight, d)
         <= Total(net, net.nodes, d.sender)
  {
    FloodIsBounded(net, states, actions, d);
    CopiesAreConserved(net, states, actions, |actions|, d);
  }
}
