/** The mesh as it would be without us: who claims to see whom, and the islands those claims leave. */
module Topologies {
  import opened Texts

  // ---------- The picture ----------

  datatype Peer = Peer(id: string, nickname: string, claimed: seq<string>)

  datatype Topology = Topology(us: string, direct: set<string>, claims: map<string, set<string>>,
                               names: map<string, string>)

  /** A peer's claims without us and without itself. */
  function Theirs(us: string, p: Peer): set<string> {
    set c | c in p.claimed && Lower(c) != us && Lower(c) != Lower(p.id) :: Lower(c)
  }

  function Added(t: Topology, p: Peer): Topology {
    t.(direct := t.direct + {p.id}, claims := t.claims[p.id := Theirs(t.us, p)],
       names := if p.nickname == "" then t.names else t.names[p.id := p.nickname])
  }

  function Built(us: string, peers: seq<Peer>): Topology {
    if peers == [] then Topology(us, {}, map[], map[]) else Added(Built(us, peers[..|peers| - 1]), peers[|peers| - 1])
  }

  method Build(us: string, peers: seq<Peer>) returns (t: Topology)
    ensures t == Built(us, peers)
  {
    t := Topology(us, {}, map[], map[]);
    assert peers[..|peers|] == peers;
    for i := 0 to |peers|
      invariant t == Built(us, peers[..i])
    {
      assert peers[..i + 1][..i] == peers[..i];
      t := t.(direct := t.direct + {peers[i].id});
      if peers[i].nickname != "" {
        t := t.(names := t.names[peers[i].id := peers[i].nickname]);
      }
      t := t.(claims := t.claims[peers[i].id := Theirs(t.us, peers[i])]);
    }
  }

  /** Only direct peers make claims, and no claim names us or the peer that makes it. */
  ghost predicate WellMade(t: Topology) {
    && t.claims.Keys == t.direct
    && forall p :: p in t.claims ==> t.us !in t.claims[p] && Lower(p) !in t.claims[p] && p !in t.claims[p]
  }

  lemma AddedIsWellMade(t: Topology, p: Peer)
    requires WellMade(t)
    ensures WellMade(Added(t, p))
  {
    forall c | c in Theirs(t.us, p) ensures c != t.us && c != Lower(p.id) && c != p.id {
      var raw :| raw in p.claimed && Lower(raw) != t.us && Lower(raw) != Lower(p.id) && c == Lower(raw);
    }
  }

  /** Whatever peers announce, a peer announced twice counting with what it said last. */
  lemma {:induction false} BuiltIsWellMade(us: string, peers: seq<Peer>)
    ensures WellMade(Built(us, peers)) && Built(us, peers).us == us
    ensures forall i :: 0 <= i < |peers| ==> peers[i].id in Built(us, peers).direct
    ensures forall d :: d in Built(us, peers).direct ==> exists i :: 0 <= i < |peers| && peers[i].id == d
    ensures peers != [] ==> var p := peers[|peers| - 1]; Built(us, peers).claims[p.id] == Theirs(us, p)
  {
    if peers != [] {
      var last := |peers| - 1;
      BuiltIsWellMade(us, peers[..last]);
      var t, p := Built(us, peers[..last]), peers[last];
      AddedIsWellMade(t, p);
      forall d | d in Added(t, p).direct ensures exists i :: 0 <= i < |peers| && peers[i].id == d {
        if d != p.id {
          var i :| 0 <= i < last && peers[..last][i].id == d;
          assert peers[i].id == d;
        }
      }
      forall i | 0 <= i < |peers| ensures peers[i].id in Added(t, p).direct {
        if i < last {
          assert peers[..last][i] == peers[i];
        }
      }
    }
  }

  /** Peers named by a neighbour that we do not hear ourselves. */
  function Gossiped(t: Topology): set<string> {
    set p, id | p in t.claims && id in t.claims[p] && id !in t.direct :: id
  }

  function Everyone(t: Topology): set<string> {
    t.direct + Gossiped(t)
  }

  // ---------- Edges ----------

  /** Rust's order on strings. */
  predicate Less(a: string, b: string) {
    b != "" && (a == "" || a[0] < b[0] || (a[0] == b[0] && Less(a[1..], b[1..])))
  }

  lemma {:induction false} LessIsTotal(a: string, b: string)
    ensures !(Less(a, b) && Less(b, a))
    ensures a != b ==> Less(a, b) || Less(b, a)
  {
    if a != "" && b != "" && a[0] == b[0] {
      LessIsTotal(a[1..], b[1..]);
      assert a == [a[0]] + a[1..] && b == [b[0]] + b[1..];
    }
  }

  function Sorted(a: string, b: string): (string, string) {
    if Less(a, b) then (a, b) else (b, a)
  }

  predicate Claims(t: Topology, a: string, b: string) {
    a in t.claims && b in t.claims[a]
  }

  /** Either of two peers says it sees the other. */
  predicate Linked(t: Topology, a: string, b: string) {
    Claims(t, a, b) || Claims(t, b, a)
  }

  /** The claimed edges: one sorted pair for each two linked peers, however often and from whichever side it is said. */
  method ClaimedEdges(t: Topology) returns (pairs: set<(string, string)>)
    requires WellMade(t)
    ensures forall a, b :: (a, b) in pairs <==> Less(a, b) && Linked(t, a, b)
  {
    pairs := {};
    var peers, done := t.claims.Keys, {};
    while peers != {}
      invariant peers + done == t.claims.Keys && peers !! done
      invariant forall a, b :: (a, b) in pairs <==> Less(a, b) && Said(t, done, a, b)
      decreases |peers|
    {
      var peer :| peer in peers;
      pairs := PairAll(pairs, peer, t.claims[peer]);
      peers, done := peers - {peer}, done + {peer};
    }
  }

  method PairAll(pairs: set<(string, string)>, peer: string, others: set<string>) returns (more: set<(string, string)>)
    requires peer !in others
    ensures forall a, b :: (a, b) in more <==> (a, b) in pairs || (Less(a, b) && Names(peer, others, a, b))
  {
    more := pairs;
    var left, told := others, {};
    while left != {}
      invariant left + told == others && left !! told
      invariant forall a, b :: (a, b) in more <==> (a, b) in pairs || (Less(a, b) && Names(peer, told, a, b))
      decreases |left|
    {
      var other :| other in left;
      LessIsTotal(peer, other);
      more := more + {Sorted(peer, other)};
      left, told := left - {other}, told + {other};
    }
  }

  /** One pair for two linked peers, not two. */
  lemma OnePairEach(t: Topology, pairs: set<(string, string)>, a: string, b: string)
    requires WellMade(t) && Linked(t, a, b)
    requires forall x, y :: (x, y) in pairs <==> Less(x, y) && Linked(t, x, y)
    ensures (a, b) in pairs <==> (b, a) !in pairs
  {
    LessIsTotal(a, b);
  }

  /** `peer` names one of `others`, read in either direction. */
  predicate Names(peer: string, others: set<string>, a: string, b: string) {
    (a == peer && b in others) || (b == peer && a in others)
  }

  /** Said by a peer among `done`, in either direction. */
  predicate Said(t: Topology, done: set<string>, a: string, b: string) {
    (a in done && Claims(t, a, b)) || (b in done && Claims(t, b, a))
  }

  // ---------- Paths ----------

  ghost predicate IsPath(t: Topology, path: seq<string>) {
    path != [] && forall i :: 0 <= i < |path| - 1 ==> Linked(t, path[i], path[i + 1])
  }

  ghost predicate Joins(t: Topology, path: seq<string>, a: string, b: string) {
    IsPath(t, path) && path[0] == a && path[|path| - 1] == b
  }

  /** A path of claims leads from one to the other, by whatever peers but us. */
  ghost predicate Joined(t: Topology, a: string, b: string) {
    exists path :: Joins(t, path, a, b)
  }

  lemma JoinedSelf(t: Topology, a: string)
    ensures Joined(t, a, a)
  {
    assert Joins(t, [a], a, a);
  }

  lemma JoinedFurther(t: Topology, a: string, b: string, c: string)
    requires Joined(t, a, b) && Linked(t, b, c)
    ensures Joined(t, a, c)
  {
    var path :| Joins(t, path, a, b);
    assert Joins(t, path + [c], a, c);
  }

  lemma {:induction false} JoinedOn(t: Topology, a: string, path: seq<string>)
    requires IsPath(t, path) && Joined(t, a, path[0])
    ensures Joined(t, a, path[|path| - 1])
    decreases |path|
  {
    if |path| > 1 {
      var init := path[..|path| - 1];
      assert forall i :: 0 <= i < |init| - 1 ==> Linked(t, init[i], init[i + 1]);
      JoinedOn(t, a, init);
      JoinedFurther(t, a, path[|path| - 2], path[|path| - 1]);
    }
  }

  lemma TailIsPath(t: Topology, path: seq<string>)
    requires IsPath(t, path) && |path| > 1
    ensures IsPath(t, path[1..])
  {
    var tail := path[1..];
    forall i | 0 <= i < |tail| - 1 ensures Linked(t, tail[i], tail[i + 1]) {
      assert Linked(t, path[i + 1], path[i + 1 + 1]);
    }
  }

  lemma {:induction false} JoinedBack(t: Topology, path: seq<string>)
    requires IsPath(t, path)
    ensures Joined(t, path[|path| - 1], path[0])
    decreases |path|
  {
    if |path| == 1 {
      JoinedSelf(t, path[0]);
    } else {
      var tail := path[1..];
      TailIsPath(t, path);
      JoinedBack(t, tail);
      assert Linked(t, path[0], path[1]);
      JoinedFurther(t, path[|path| - 1], path[1], path[0]);
    }
  }

  lemma JoinedBoth(t: Topology, a: string, b: string, c: string)
    requires Joined(t, a, b) && Joined(t, a, c)
    ensures Joined(t, b, c)
  {
    var path :| Joins(t, path, a, b);
    JoinedBack(t, path);
    var onward :| Joins(t, onward, a, c);
    JoinedOn(t, b, onward);
  }

  /** No link leads out of these peers. */
  ghost predicate Closed(t: Topology, peers: set<string>) {
    forall a, b :: a in peers && Linked(t, a, b) ==> b in peers
  }

  lemma {:induction false} ClosedUnderPaths(t: Topology, peers: set<string>, path: seq<string>)
    requires Closed(t, peers) && IsPath(t, path) && path[0] in peers
    ensures path[|path| - 1] in peers
    decreases |path|
  {
    if |path| > 1 {
      assert Linked(t, path[0], path[1]);
      var tail := path[1..];
      TailIsPath(t, path);
      ClosedUnderPaths(t, peers, tail);
    }
  }

  // ---------- Islands ----------

  function Near(adjacency: map<string, set<string>>, a: string): set<string> {
    if a in adjacency then adjacency[a] else {}
  }

  ghost predicate IsAdjacency(t: Topology, adjacency: map<string, set<string>>) {
    forall a, b :: b in Near(adjacency, a) <==> Linked(t, a, b)
  }

  method Adjacency(t: Topology) returns (adjacency: map<string, set<string>>)
    ensures IsAdjacency(t, adjacency)
  {
    adjacency := map[];
    var peers, done := t.claims.Keys, {};
    while peers != {}
      invariant peers + done == t.claims.Keys && peers !! done
      invariant forall a, b :: b in Near(adjacency, a) <==> Said(t, done, a, b)
      decreases |peers|
    {
      var peer :| peer in peers;
      adjacency := LinkAll(adjacency, peer, t.claims[peer]);
      peers, done := peers - {peer}, done + {peer};
    }
  }

  method LinkAll(adjacency: map<string, set<string>>, peer: string, others: set<string>)
    returns (more: map<string, set<string>>)
    ensures Grown(adjacency, more, peer, others)
  {
    more := adjacency;
    var left, told := others, {};
    while left != {}
      invariant told == others - left && left <= others
      invariant Grown(adjacency, more, peer, told)
      decreases |left|
    {
      var other :| other in left;
      more := LinkBoth(adjacency, more, peer, told, other);
      left, told := left - {other}, told + {other};
    }
  }

  method LinkBoth(ghost before: map<string, set<string>>, after: map<string, set<string>>, peer: string,
                  ghost told: set<string>, other: string)
    returns (more: map<string, set<string>>)
    requires Grown(before, after, peer, told)
    ensures Grown(before, more, peer, told + {other})
  {
    GrowsOnce(before, after, peer, told, other);
    more := after[peer := Near(after, peer) + {other}];
    more := more[other := Near(more, other) + {peer}];
  }

  function LinkedBoth(adjacency: map<string, set<string>>, a: string, b: string): map<string, set<string>> {
    var half := adjacency[a := Near(adjacency, a) + {b}];
    half[b := Near(half, b) + {a}]
  }

  lemma LinkedBothIs(adjacency: map<string, set<string>>, x: string, y: string, a: string, b: string)
    ensures b in Near(LinkedBoth(adjacency, x, y), a)
       <==> b in Near(adjacency, a) || (a == x && b == y) || (a == y && b == x)
  {
  }

  ghost predicate Grown(before: map<string, set<string>>, after: map<string, set<string>>, peer: string,
                        others: set<string>) {
    forall a, b :: b in Near(after, a) <==> b in Near(before, a) || Names(peer, others, a, b)
  }

  lemma GrowsOnce(before: map<string, set<string>>, after: map<string, set<string>>, peer: string, told: set<string>,
                  other: string)
    requires Grown(before, after, peer, told)
    ensures Grown(before, LinkedBoth(after, peer, other), peer, told + {other})
  {
    forall a, b
      ensures b in Near(LinkedBoth(after, peer, other), a)
          <==> b in Near(before, a) || Names(peer, told + {other}, a, b)
    {
      LinkedBothIs(after, peer, other, a, b);
    }
  }

  /** An island: some peer and everyone joined to it. */
  ghost predicate IsIsland(t: Topology, island: set<string>) {
    && island != {} && Closed(t, island)
    && forall a, b :: a in island && b in island ==> Joined(t, a, b)
  }

  /** Everyone joined to `start`. */
  lemma Component(t: Topology, start: string) returns (joined: set<string>)
    requires WellMade(t) && start in Everyone(t)
    ensures start in joined && joined <= Everyone(t) && Closed(t, joined)
    ensures forall q :: q in joined ==> Joined(t, start, q)
  {
    joined := set q | q in Everyone(t) && Joined(t, start, q);
    JoinedSelf(t, start);
    forall a, b | a in joined && Linked(t, a, b) ensures b in joined {
      JoinedFurther(t, start, a, b);
    }
  }

  /** No neighbour leads out of these. */
  ghost predicate Enclosed(adjacency: map<string, set<string>>, peers: set<string>) {
    forall a, b :: a in peers && b in Near(adjacency, a) ==> b in peers
  }

  /** On the way from `start` within `joined`: what was reached, and the queue through which any way leads on. */
  ghost predicate Exploring(adjacency: map<string, set<string>>, joined: set<string>, start: string,
                            before: set<string>, island: set<string>, queue: seq<string>)
  {
    && island !! before && island <= joined && (start in island || start in queue)
    && (forall q :: q in queue ==> q in joined)
    && (forall a, b :: a in island && b in Near(adjacency, a) ==> b in before || b in island || b in queue)
  }

  lemma Visited(adjacency: map<string, set<string>>, joined: set<string>, start: string, before: set<string>,
                island: set<string>, queue: seq<string>, longer: seq<string>)
    requires Enclosed(adjacency, joined) && queue != [] && Exploring(adjacency, joined, start, before, island, queue)
    requires queue[0] !in before && queue[0] !in island
    requires Lengthened(queue[1..], Near(adjacency, queue[0]), before + island + {queue[0]}, longer)
    ensures Exploring(adjacency, joined, start, before, island + {queue[0]}, longer)
  {
    assert forall q :: q in queue <==> q == queue[0] || q in queue[1..];
  }

  lemma Skipped(adjacency: map<string, set<string>>, joined: set<string>, start: string, before: set<string>,
                island: set<string>, queue: seq<string>)
    requires queue != [] && Exploring(adjacency, joined, start, before, island, queue) && start !in before
    requires queue[0] in before || queue[0] in island
    ensures Exploring(adjacency, joined, start, before, island, queue[1..])
  {
    assert forall q :: q in queue <==> q == queue[0] || q in queue[1..];
  }

  /** Breadth first from `start`, which is in no earlier island. */
  method Explore(adjacency: map<string, set<string>>, ghost joined: set<string>, start: string, before: set<string>)
    returns (island: set<string>)
    requires Enclosed(adjacency, joined) && start in joined && start !in before
    ensures Exploring(adjacency, joined, start, before, island, [])
  {
    var seen, queue := before, [start];
    island := {};
    while queue != []
      invariant seen == before + island && Exploring(adjacency, joined, start, before, island, queue)
      decreases |joined - seen|, |queue|
    {
      var current, rest := queue[0], queue[1..];
      if current in seen {
        Skipped(adjacency, joined, start, before, island, queue);
        queue := rest;
        continue;
      }
      seen := seen + {current};
      var longer := Enqueue(rest, Near(adjacency, current), seen);
      Visited(adjacency, joined, start, before, island, queue, longer);
      Shrinks(joined, before + island, current);
      island := island + {current};
      queue := longer;
    }
  }

  lemma Explored(t: Topology, adjacency: map<string, set<string>>, joined: set<string>, start: string,
                 before: set<string>, island: set<string>)
    requires WellMade(t) && IsAdjacency(t, adjacency) && Closed(t, before)
    requires joined <= Everyone(t) && forall q :: q in joined ==> Joined(t, start, q)
    requires Exploring(adjacency, joined, start, before, island, [])
    ensures IsIsland(t, island) && start in island && island <= Everyone(t) && island !! before
    ensures Closed(t, before + island)
  {
    forall a, b | a in island && Linked(t, a, b) ensures b in island {
      assert b in Near(adjacency, a);
      assert Linked(t, b, a);
    }
    forall a, b | a in island && b in island ensures Joined(t, a, b) {
      JoinedBoth(t, start, a, b);
    }
  }

  lemma Shrinks(all: set<string>, seen: set<string>, x: string)
    requires x in all && x !in seen
    ensures |all - (seen + {x})| < |all - seen|
  {
    assert all - seen == (all - (seen + {x})) + {x};
  }

  ghost predicate Lengthened(queue: seq<string>, near: set<string>, seen: set<string>, longer: seq<string>) {
    forall q :: q in longer <==> q in queue || (q in near && q !in seen)
  }

  /** Those not seen yet join the queue. */
  method Enqueue(queue: seq<string>, near: set<string>, seen: set<string>) returns (longer: seq<string>)
    ensures Lengthened(queue, near, seen, longer)
  {
    longer := queue;
    var todo := near;
    while todo != {}
      invariant todo <= near && Lengthened(queue, near - todo, seen, longer)
      decreases |todo|
    {
      var next :| next in todo;
      if next !in seen {
        longer := longer + [next];
      }
      todo := todo - {next};
    }
  }

  /**
   * The islands are exactly the connected components of everyone under the claims: none is empty, no two meet, together
   * they are everyone, and two peers share one if and only if a path joins them.
   */
  method IslandsWithoutUs(t: Topology) returns (islands: seq<set<string>>)
    requires WellMade(t)
    ensures AreComponents(t, islands)
  {
    var adjacency := Adjacency(t);
    var seen, left := {}, Everyone(t);
    islands := [];
    while left != {}
      invariant left <= Everyone(t) && Charted(t, islands, seen, left)
      decreases |left|
    {
      var start :| start in left;
      islands, seen := Chart(t, adjacency, start, islands, seen, left);
      left := left - {start};
    }
    ChartIsComplete(t, islands, seen);
  }

  /** The next island, unless `start` is in one already. */
  method Chart(t: Topology, adjacency: map<string, set<string>>, start: string, islands: seq<set<string>>,
               seen: set<string>, ghost left: set<string>)
    returns (more: seq<set<string>>, wider: set<string>)
    requires WellMade(t) && IsAdjacency(t, adjacency) && Charted(t, islands, seen, left)
    requires left <= Everyone(t) && start in left
    ensures Charted(t, more, wider, left - {start})
  {
    if start in seen {
      return islands, seen;
    }
    ghost var joined := Component(t, start);
    JoinedEnclosed(t, adjacency, joined);
    var island := Explore(adjacency, joined, start, seen);
    Explored(t, adjacency, joined, start, seen, island);
    ExtendsApart(islands, seen, island);
    return islands + [island], seen + island;
  }

  lemma JoinedEnclosed(t: Topology, adjacency: map<string, set<string>>, joined: set<string>)
    requires IsAdjacency(t, adjacency) && Closed(t, joined)
    ensures Enclosed(adjacency, joined)
  {
    forall a, b | a in joined && b in Near(adjacency, a) ensures b in joined {
      assert Linked(t, a, b);
    }
  }

  /** The islands found so far make up what was seen, which is all but some of those left. */
  ghost predicate Charted(t: Topology, islands: seq<set<string>>, seen: set<string>, left: set<string>) {
    && Covers(islands, seen) && Apart(islands) && Closed(t, seen)
    && Everyone(t) - left <= seen <= Everyone(t)
    && forall i :: 0 <= i < |islands| ==> IsIsland(t, islands[i])
  }

  lemma ChartIsComplete(t: Topology, islands: seq<set<string>>, seen: set<string>)
    requires Charted(t, islands, seen, {})
    ensures AreComponents(t, islands)
  {
    assert seen == Everyone(t);
    SharedExactlyWhenJoined(t, islands);
  }

  lemma SharedExactlyWhenJoined(t: Topology, islands: seq<set<string>>)
    requires forall i :: 0 <= i < |islands| ==> IsIsland(t, islands[i])
    ensures forall i, a, b :: 0 <= i < |islands| && a in islands[i] ==> (b in islands[i] <==> Joined(t, a, b))
  {
    forall i, a, b | 0 <= i < |islands| && a in islands[i] ensures b in islands[i] <==> Joined(t, a, b) {
      if Joined(t, a, b) {
        var path :| Joins(t, path, a, b);
        ClosedUnderPaths(t, islands[i], path);
      }
    }
  }

  ghost predicate Covers(islands: seq<set<string>>, peers: set<string>) {
    forall p :: p in peers <==> exists i :: 0 <= i < |islands| && p in islands[i]
  }

  ghost predicate Apart(islands: seq<set<string>>) {
    forall i, j :: 0 <= i < j < |islands| ==> islands[i] !! islands[j]
  }

  lemma ExtendsApart(islands: seq<set<string>>, seen: set<string>, island: set<string>)
    requires Covers(islands, seen) && Apart(islands) && island !! seen
    ensures Covers(islands + [island], seen + island) && Apart(islands + [island])
  {
    var more := islands + [island];
    forall p ensures p in seen + island <==> exists i :: 0 <= i < |more| && p in more[i] {
      if p in seen {
        var i :| 0 <= i < |islands| && p in islands[i];
        assert p in more[i];
      } else if p in island {
        assert p in more[|islands|];
      }
    }
    forall i, j | 0 <= i < j < |more| ensures more[i] !! more[j] {
      if j == |islands| {
        forall p | p in more[i] ensures p !in island {
          assert p in islands[i];
        }
      }
    }
  }

  ghost predicate AreComponents(t: Topology, islands: seq<set<string>>) {
    && (forall i :: 0 <= i < |islands| ==> islands[i] != {})
    && Apart(islands) && Covers(islands, Everyone(t))
    && forall i, a, b :: 0 <= i < |islands| && a in islands[i] ==> (b in islands[i] <==> Joined(t, a, b))
  }

  /** We are a bridge exactly when two known peers have no path between them but through us. */
  method WeAreABridge(t: Topology) returns (bridge: bool)
    requires WellMade(t)
    ensures bridge <==> exists a, b :: a in Everyone(t) && b in Everyone(t) && !Joined(t, a, b)
  {
    var islands := IslandsWithoutUs(t);
    BridgeExactlyWhen(t, islands);
    bridge := |islands| > 1;
  }

  lemma BridgeExactlyWhen(t: Topology, islands: seq<set<string>>)
    requires AreComponents(t, islands)
    ensures |islands| > 1 <==> exists a, b :: a in Everyone(t) && b in Everyone(t) && !Joined(t, a, b)
  {
    if |islands| > 1 {
      var a :| a in islands[0];
      var b :| b in islands[1];
      assert islands[0] !! islands[1];
      assert a in Everyone(t) && b in Everyone(t) && !Joined(t, a, b);
    } else {
      forall a, b | a in Everyone(t) && b in Everyone(t) ensures Joined(t, a, b) {
        var i :| 0 <= i < |islands| && a in islands[i];
        var j :| 0 <= j < |islands| && b in islands[j];
        assert i == j;
      }
    }
  }
}
