/** Lockstep rounds are runs of the network that lose nothing and deliver what has most hops left first. */
module FloodRounds {
  import opened Prelude
  import opened Wire
  import opened Relay
  import opened Flood
  import opened FloodReach
  import opened FloodOrder

  /** The `i`-th step delivers this copy. */
  predicate Delivers(states: seq<State>, actions: seq<Action>, i: int, c: Copy) {
    && 0 <= i < |actions| && i < |states| && actions[i].Deliver? && actions[i].index < |states[i].flight|
    && states[i].flight[actions[i].index] == c
  }

  /** The `i`-th step delivers a copy than which none in flight has more hops left. */
  ghost predicate DeliversHighest(states: seq<State>, actions: seq<Action>, i: int) {
    && 0 <= i < |actions| && i < |states| && actions[i].Deliver? && actions[i].index < |states[i].flight|
    && forall c :: c in states[i].flight ==> c.packet.ttl <= states[i].flight[actions[i].index].packet.ttl
  }

  lemma OneStep(net: Net, s: State, a: Action, s': State, states: seq<State>, actions: seq<Action>)
    requires Next(net, s, a, s') && IsRun(net, states, actions) && states[0] == s'
    ensures IsRun(net, [s] + states, [a] + actions)
  {
    var longer, all := [s] + states, [a] + actions;
    forall i | 0 <= i < |all| ensures NextAt(net, longer, all, i) {
      if i > 0 {
        assert NextAt(net, states, actions, i - 1);
        assert longer[i] == states[i - 1] && longer[i + 1] == states[i] && all[i] == actions[i - 1];
      }
    }
  }

  /** One run after another. */
  lemma Joined(net: Net, s1: seq<State>, a1: seq<Action>, s2: seq<State>, a2: seq<Action>)
    requires IsRun(net, s1, a1) && IsRun(net, s2, a2) && s1[|a1|] == s2[0]
    ensures IsRun(net, s1 + s2[1..], a1 + a2)
    ensures forall i :: 0 <= i < |a1| ==> (s1 + s2[1..])[i] == s1[i] && (a1 + a2)[i] == a1[i]
    ensures forall i :: 0 <= i <= |a2| ==> (s1 + s2[1..])[|a1| + i] == s2[i]
    ensures forall i :: 0 <= i < |a2| ==> (a1 + a2)[|a1| + i] == a2[i]
  {
    var s, a := s1 + s2[1..], a1 + a2;
    forall i | 0 <= i < |a| ensures NextAt(net, s, a, i) {
      if i < |a1| {
        assert NextAt(net, s1, a1, i);
      } else {
        assert NextAt(net, s2, a2, i - |a1|);
      }
    }
  }

  lemma MoreSteps(s: State, a: Action, states: seq<State>, actions: seq<Action>, i: int, c: Copy)
    requires Delivers(states, actions, i, c)
    ensures Delivers([s] + states, [a] + actions, i + 1, c)
    ensures DeliversHighest(states, actions, i) ==> DeliversHighest([s] + states, [a] + actions, i + 1)
  {
    assert ([s] + states)[i + 1] == states[i] && ([a] + actions)[i + 1] == actions[i];
  }

  ghost predicate NoHigher(copies: multiset<Copy>, ttl: nat) {
    forall c :: c in copies ==> c.packet.ttl <= ttl
  }

  /** Any copy can be delivered next, wherever in the flight it is. */
  lemma PickOne(net: Net, s: State, c: Copy, rest: multiset<Copy>) returns (i: nat, s': State)
    requires multiset(s.flight) == multiset{c} + rest
    ensures i < |s.flight| && s.flight[i] == c && Next(net, s, Deliver(i), s')
    ensures s'.history == Remembered(net, s.history, c)
    ensures multiset(s'.flight) == rest + multiset(Outgoing(net, s.history, c))
  {
    assert c in multiset(s.flight);
    i :| 0 <= i < |s.flight| && s.flight[i] == c;
    s' := Step(net, s, Deliver(i));
    Remove(s.flight, i, rest);
  }

  lemma Remove(flight: seq<Copy>, i: nat, rest: multiset<Copy>)
    requires i < |flight| && multiset(flight) == multiset{flight[i]} + rest
    ensures multiset(flight[..i] + flight[i + 1..]) == rest
  {
    assert flight == flight[..i] + [flight[i]] + flight[i + 1..];
    var left := multiset(flight[..i] + flight[i + 1..]);
    assert left == multiset(flight) - multiset{flight[i]} == rest;
  }

  lemma RoundUnfolds(net: Net, history: map<Node, seq<Digest>>, batch: seq<Copy>, others: multiset<Copy>)
    requires batch != []
    ensures Round(net, history, batch).0 == Round(net, Remembered(net, history, batch[0]), batch[1..]).0
    ensures others + multiset(Outgoing(net, history, batch[0]))
              + multiset(Round(net, Remembered(net, history, batch[0]), batch[1..]).1)
         == others + multiset(Round(net, history, batch).1)
  {
  }

  lemma OnwardNotHigher(net: Net, history: map<Node, seq<Digest>>, c: Copy, ttl: nat)
    requires c.packet.ttl as nat <= ttl
    ensures NoHigher(multiset(Outgoing(net, history, c)), ttl)
  {
    if Forwards(net, history, c) {
      FanPackets(c.to, net.links[c.to], OneHopOn(c.packet), Some(c.from));
    }
  }

  /**
   * The steps deliver this batch, in its order and each copy while none has more hops left, and do what a round does.
   */
  ghost predicate PlaysRound(net: Net, s: State, batch: seq<Copy>, others: multiset<Copy>, states: seq<State>,
                             actions: seq<Action>)
  {
    && IsRun(net, states, actions) && states[0] == s && |actions| == |batch|
    && states[|actions|].history == Round(net, s.history, batch).0
    && multiset(states[|actions|].flight) == others + multiset(Round(net, s.history, batch).1)
    && forall i :: 0 <= i < |batch| ==> Delivers(states, actions, i, batch[i]) && DeliversHighest(states, actions, i)
  }

  /** A batch delivered copy by copy out of what is in flight does what a round does. */
  lemma {:induction false} DeliverBatch(net: Net, s: State, batch: seq<Copy>, others: multiset<Copy>, ttl: nat)
    returns (states: seq<State>, actions: seq<Action>)
    requires multiset(s.flight) == multiset(batch) + others && NoHigher(others, ttl)
    requires forall c :: c in batch ==> c.packet.ttl as nat == ttl
    ensures PlaysRound(net, s, batch, others, states, actions)
    decreases |batch|
  {
    if batch == [] {
      states, actions := [s], [];
    } else {
      var c := batch[0];
      assert batch == [c] + batch[1..];
      var i, s1 := PickOne(net, s, c, multiset(batch[1..]) + others);
      OnwardNotHigher(net, s.history, c, ttl);
      var more := others + multiset(Outgoing(net, s.history, c));
      var rest, acts := DeliverBatch(net, s1, batch[1..], more, ttl);
      states, actions := [s] + rest, [Deliver(i)] + acts;
      FirstIsHighest(s, batch, others, ttl, i, states, actions);
      PlaysOneMore(net, s, batch, others, i, s1, rest, acts);
    }
  }

  lemma PlaysOneMore(net: Net, s: State, batch: seq<Copy>, others: multiset<Copy>, i: nat, s1: State, rest: seq<State>,
                     acts: seq<Action>)
    requires batch != [] && Next(net, s, Deliver(i), s1) && s1.history == Remembered(net, s.history, batch[0])
    requires PlaysRound(net, s1, batch[1..], others + multiset(Outgoing(net, s.history, batch[0])), rest, acts)
    requires Delivers([s] + rest, [Deliver(i)] + acts, 0, batch[0])
    requires DeliversHighest([s] + rest, [Deliver(i)] + acts, 0)
    ensures PlaysRound(net, s, batch, others, [s] + rest, [Deliver(i)] + acts)
  {
    var states, actions := [s] + rest, [Deliver(i)] + acts;
    OneStep(net, s, Deliver(i), s1, rest, acts);
    RoundUnfolds(net, s.history, batch, others);
    assert states[|actions|] == rest[|acts|];
    forall k | 0 <= k < |batch|
      ensures Delivers(states, actions, k, batch[k]) && DeliversHighest(states, actions, k)
    {
      if k > 0 {
        MoreSteps(s, Deliver(i), rest, acts, k - 1, batch[k]);
      }
    }
  }

  lemma FirstIsHighest(s: State, batch: seq<Copy>, others: multiset<Copy>, ttl: nat, i: nat, states: seq<State>,
                       actions: seq<Action>)
    requires multiset(s.flight) == multiset(batch) + others && NoHigher(others, ttl)
    requires forall c :: c in batch ==> c.packet.ttl as nat == ttl
    requires i < |s.flight| && s.flight[i] in batch && |states| > 0 && |actions| > 0 && states[0] == s
    requires actions[0] == Deliver(i)
    ensures DeliversHighest(states, actions, 0) && Delivers(states, actions, 0, s.flight[i])
  {
    forall c | c in s.flight ensures c.packet.ttl as nat <= ttl {
      assert c in multiset(s.flight);
      assert c in multiset(batch) || c in others;
    }
  }

  // ---------- Round after round ----------

  ghost predicate AllDelivered(states: seq<State>, actions: seq<Action>, batch: seq<Copy>) {
    forall c :: c in batch ==> exists i :: Delivers(states, actions, i, c)
  }

  /** A run from the originating step through the first `k` rounds. */
  ghost predicate PlaysRounds(net: Net, p: Packet, histories: seq<map<Node, seq<Digest>>>, batches: seq<seq<Copy>>,
                              k: nat, states: seq<State>, actions: seq<Action>)
  {
    && k < |histories| == |batches| && IsRun(net, states, actions)
    && states[0] == State(histories[0], [], []) && |actions| > 0 && actions[0] == Originate(p.sender, p)
    && (forall i :: 1 <= i < |actions| ==> DeliversHighest(states, actions, i))
    && (forall j :: 0 <= j < k ==> AllDelivered(states, actions, batches[j]))
    && states[|actions|].history == histories[k] && multiset(states[|actions|].flight) == multiset(batches[k])
  }

  lemma FirstStep(net: Net, p: Packet, histories: seq<map<Node, seq<Digest>>>, batches: seq<seq<Copy>>)
    returns (states: seq<State>, actions: seq<Action>)
    requires Lockstep(net, p, histories, batches)
    ensures PlaysRounds(net, p, histories, batches, 0, states, actions)
  {
    var s := State(histories[0], [], []);
    var a := Originate(p.sender, p);
    states, actions := [s, Step(net, s, a)], [a];
    var fan := Fan(p.sender, net.links[p.sender], p, None);
    assert [] + fan == fan;
    assert NextAt(net, states, actions, 0);
  }

  lemma JoinedSteps(s1: seq<State>, a1: seq<Action>, s2: seq<State>, a2: seq<Action>, i: int, c: Copy)
    requires |s1| == |a1| + 1 && |s2| == |a2| + 1 && s1[|a1|] == s2[0]
    ensures Delivers(s1, a1, i, c) ==> Delivers(s1 + s2[1..], a1 + a2, i, c)
    ensures Delivers(s2, a2, i, c) ==> Delivers(s1 + s2[1..], a1 + a2, |a1| + i, c)
  {
    assert 0 <= i < |a2| ==> (s1 + s2[1..])[|a1| + i] == s2[i];
  }

  lemma JoinedDeliveries(s1: seq<State>, a1: seq<Action>, s2: seq<State>, a2: seq<Action>, batch: seq<Copy>)
    requires |s1| == |a1| + 1 && |s2| == |a2| + 1 && s1[|a1|] == s2[0]
    requires AllDelivered(s1, a1, batch) || AllDelivered(s2, a2, batch)
    ensures AllDelivered(s1 + s2[1..], a1 + a2, batch)
  {
    forall c | c in batch ensures exists i :: Delivers(s1 + s2[1..], a1 + a2, i, c) {
      if i :| Delivers(s1, a1, i, c) {
        JoinedSteps(s1, a1, s2, a2, i, c);
      } else {
        var j :| Delivers(s2, a2, j, c);
        JoinedSteps(s1, a1, s2, a2, j, c);
      }
    }
  }

  lemma JoinedHighest(s1: seq<State>, a1: seq<Action>, s2: seq<State>, a2: seq<Action>)
    requires |s1| == |a1| + 1 && |s2| == |a2| + 1 && s1[|a1|] == s2[0] && |a1| > 0
    requires forall i :: 1 <= i < |a1| ==> DeliversHighest(s1, a1, i)
    requires forall i :: 0 <= i < |a2| ==> DeliversHighest(s2, a2, i)
    ensures forall i :: 1 <= i < |a1 + a2| ==> DeliversHighest(s1 + s2[1..], a1 + a2, i)
  {
    forall i | 1 <= i < |a1 + a2| ensures DeliversHighest(s1 + s2[1..], a1 + a2, i) {
      if i < |a1| {
        assert DeliversHighest(s1, a1, i);
      } else {
        assert DeliversHighest(s2, a2, i - |a1|);
        assert (s1 + s2[1..])[i] == s2[i - |a1|];
      }
    }
  }

  lemma {:induction false} PlayRounds(net: Net, p: Packet, histories: seq<map<Node, seq<Digest>>>,
                                      batches: seq<seq<Copy>>, k: nat)
    returns (states: seq<State>, actions: seq<Action>)
    requires Floodable(p) && Lockstep(net, p, histories, batches) && k <= p.ttl && k < |batches|
    requires forall v :: DigestOf(p) !in HistoryOf(histories[0], v)
    ensures PlaysRounds(net, p, histories, batches, k, states, actions)
  {
    if k == 0 {
      states, actions := FirstStep(net, p, histories, batches);
    } else {
      var s1, a1 := PlayRounds(net, p, histories, batches, k - 1);
      LockstepReach(net, p, histories, batches, k);
      var s2, a2 := DeliverBatch(net, s1[|a1|], batches[k - 1], multiset{}, p.ttl - k + 1);
      assert NextRound(net, histories[k - 1], batches[k - 1], histories[k], batches[k]);
      states, actions := s1 + s2[1..], a1 + a2;
      OneRoundMore(net, p, histories, batches, k, s1, a1, s2, a2);
    }
  }

  lemma OneRoundMore(net: Net, p: Packet, histories: seq<map<Node, seq<Digest>>>, batches: seq<seq<Copy>>, k: nat,
                     s1: seq<State>, a1: seq<Action>, s2: seq<State>, a2: seq<Action>)
    requires 0 < k < |batches| == |histories| && PlaysRounds(net, p, histories, batches, k - 1, s1, a1)
    requires NextRound(net, histories[k - 1], batches[k - 1], histories[k], batches[k])
    requires PlaysRound(net, s1[|a1|], batches[k - 1], multiset{}, s2, a2)
    ensures PlaysRounds(net, p, histories, batches, k, s1 + s2[1..], a1 + a2)
  {
    Joined(net, s1, a1, s2, a2);
    JoinedHighest(s1, a1, s2, a2);
    assert AllDelivered(s2, a2, batches[k - 1]);
    forall j | 0 <= j < k ensures AllDelivered(s1 + s2[1..], a1 + a2, batches[j]) {
      JoinedDeliveries(s1, a1, s2, a2, batches[j]);
    }
    assert (s1 + s2[1..])[|a1 + a2|] == s2[|a2|];
  }

  /**
   * Lossless lockstep is one of the runs of the network: nothing is lost, what has most hops left is always delivered
   * first, so no copy overtakes another, and every copy of every round is delivered.
   */
  lemma LockstepIsARun(net: Net, p: Packet, histories: seq<map<Node, seq<Digest>>>, batches: seq<seq<Copy>>)
    returns (t: Trace)
    requires Floodable(p) && Lockstep(net, p, histories, batches) && |batches| > p.ttl
    requires forall v :: DigestOf(p) !in HistoryOf(histories[0], v)
    ensures t.net == net && t.packet == p && Lossless(t) && HighestFirst(t) && NoneOvertaken(t)
    ensures forall k, c :: 0 <= k < p.ttl && c in batches[k]
              ==> exists i :: Hands(t, i, c.to) && Handed(t, i, c.to) == c
  {
    var states, actions := PlayRounds(net, p, histories, batches, p.ttl as nat);
    FloodEnds(net, p, histories, batches);
    t := Trace(net, states, actions, p, 0);
    RoundsAreLossless(t, histories, batches);
    forall k, c | 0 <= k < p.ttl as nat && c in batches[k]
      ensures exists i :: Hands(t, i, c.to) && Handed(t, i, c.to) == c
    {
      LockstepReach(net, p, histories, batches, k + 1);
      assert AllDelivered(states, actions, batches[k]);
      var i :| Delivers(states, actions, i, c);
      assert Hands(t, i, c.to);
    }
    HighestFirstOvertakesNone(t);
  }

  lemma RoundsAreLossless(t: Trace, histories: seq<map<Node, seq<Digest>>>, batches: seq<seq<Copy>>)
    requires Floodable(t.packet) && t.start == 0 && |batches| > t.packet.ttl && batches[t.packet.ttl] == []
    requires PlaysRounds(t.net, t.packet, histories, batches, t.packet.ttl as nat, t.states, t.actions)
    requires forall v :: t.Id() !in HistoryOf(histories[0], v)
    ensures Lossless(t) && HighestFirst(t)
  {
    assert |multiset(t.states[|t.actions|].flight)| == 0;
    forall i | 0 <= i < |t.actions| && i != t.start ensures Spares(t.states[i], t.actions[i], t.Id()) {
      assert DeliversHighest(t.states, t.actions, i);
    }
    forall i, v | Hands(t, i, v) ensures NoneAbove(t.states[i].flight, t.Id(), Left(t, i, v)) {
      assert i != 0;
      assert DeliversHighest(t.states, t.actions, i);
    }
  }
}
