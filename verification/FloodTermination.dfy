/** The flood dies out by itself: every delivery and every loss lowers a weight, whatever the nodes remember. */
module FloodTermination {
  import opened Prelude
  import opened Wire
  import opened Relay
  import opened Flood

  function Repeated(n: nat, x: nat): nat {
    if n == 0 then 0 else x + Repeated(n - 1, x)
  }

  /** More than all the copies a copy can lead to, when no node has more than `k` links. */
  function Weight(k: nat, ttl: nat): nat {
    if ttl == 0 then 1 else 1 + Repeated(k, Weight(k, ttl - 1))
  }

  function TotalWeight(k: nat, copies: seq<Copy>): nat {
    if copies == [] then 0 else Weight(k, copies[0].packet.ttl) + TotalWeight(k, copies[1..])
  }

  ghost predicate LinksAtMost(net: Net, k: nat) {
    forall v :: v in net.links ==> |net.links[v]| <= k
  }

  lemma {:induction false} WeightOfBoth(k: nat, a: seq<Copy>, b: seq<Copy>)
    ensures TotalWeight(k, a + b) == TotalWeight(k, a) + TotalWeight(k, b)
  {
    if a == [] {
      assert a + b == b;
    } else {
      assert (a + b)[1..] == a[1..] + b;
      WeightOfBoth(k, a[1..], b);
    }
  }

  lemma WeightWithout(k: nat, s: seq<Copy>, i: nat)
    requires i < |s|
    ensures TotalWeight(k, s) == TotalWeight(k, s[..i] + s[i + 1..]) + Weight(k, s[i].packet.ttl)
  {
    assert s == s[..i] + s[i..] && s[i..][1..] == s[i + 1..];
    WeightOfBoth(k, s[..i], s[i..]);
    WeightOfBoth(k, s[..i], s[i + 1..]);
  }

  lemma {:induction false} FanWeight(k: nat, v: Node, targets: seq<Node>, p: Packet, except: Option<Node>)
    ensures TotalWeight(k, Fan(v, targets, p, except)) <= Repeated(|targets|, Weight(k, p.ttl))
  {
    if targets != [] {
      FanWeight(k, v, targets[1..], p, except);
    }
  }

  lemma {:induction false} RepeatedMore(m: nat, n: nat, x: nat)
    requires m <= n
    ensures Repeated(m, x) <= Repeated(n, x)
  {
    if m < n {
      RepeatedMore(m, n - 1, x);
    }
  }

  /** What a delivered copy leads to at once weighs less than the copy. */
  lemma OutgoingWeighsLess(net: Net, history: map<Node, seq<Digest>>, c: Copy, k: nat)
    requires LinksAtMost(net, k)
    ensures TotalWeight(k, Outgoing(net, history, c)) < Weight(k, c.packet.ttl)
  {
    if Forwards(net, history, c) {
      var onward := OneHopOn(c.packet);
      FanWeight(k, c.to, net.links[c.to], onward, Some(c.from));
      RepeatedMore(|net.links[c.to]|, k, Weight(k, onward.ttl));
    }
  }

  lemma StepLightens(net: Net, s: State, a: Action, k: nat)
    requires LinksAtMost(net, k) && Enabled(net, s, a) && !a.Originate?
    ensures TotalWeight(k, Step(net, s, a).flight) < TotalWeight(k, s.flight)
  {
    var rest := s.flight[..a.index] + s.flight[a.index + 1..];
    WeightWithout(k, s.flight, a.index);
    if a.Deliver? {
      OutgoingWeighsLess(net, s.history, s.flight[a.index], k);
      WeightOfBoth(k, rest, Outgoing(net, s.history, s.flight[a.index]));
    }
  }

  /**
   * In any run of any net, with any loss and whatever has been remembered or forgotten: without new packets there are
   * at most as many more steps as the copies in flight weigh.
   */
  lemma {:induction false} EveryFloodEnds(net: Net, states: seq<State>, actions: seq<Action>, k: nat, i: nat, j: nat)
    requires IsRun(net, states, actions) && LinksAtMost(net, k) && i <= j <= |actions|
    requires forall n :: i <= n < j ==> !actions[n].Originate?
    ensures j - i + TotalWeight(k, states[j].flight) <= TotalWeight(k, states[i].flight)
    decreases j
  {
    if i < j {
      EveryFloodEnds(net, states, actions, k, i, j - 1);
      assert NextAt(net, states, actions, j - 1);
      StepLightens(net, states[j - 1], actions[j - 1], k);
    }
  }
}
