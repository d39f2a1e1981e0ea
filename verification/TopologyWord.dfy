/** The islands in terms of what peers announced, and of nothing else. */
module TopologyWord {
  import opened Texts
  import opened Topologies

  // ---------- What was announced ----------

  /** Nobody has announced under this id since. */
  ghost predicate Stands(peers: seq<Peer>, i: int) {
    0 <= i < |peers| && forall j :: i < j < |peers| ==> peers[j].id != peers[i].id
  }

  /** The announcement lists this peer, in whatever case, and it is neither us nor the one who announces. */
  ghost predicate Lists(us: string, p: Peer, b: string) {
    b != us && b != Lower(p.id) && exists c :: c in p.claimed && Lower(c) == b
  }

  /** The last announcement of `a` lists `b`. */
  ghost predicate Announces(us: string, peers: seq<Peer>, a: string, b: string) {
    exists i :: Stands(peers, i) && peers[i].id == a && Lists(us, peers[i], b)
  }

  lemma TheirsIsListed(us: string, p: Peer, b: string)
    ensures b in Theirs(us, p) <==> Lists(us, p, b)
  {
    if Lists(us, p, b) {
      var c :| c in p.claimed && Lower(c) == b;
    }
  }

  lemma StandsBefore(peers: seq<Peer>, i: int)
    requires peers != [] && 0 <= i < |peers| - 1 && peers[i].id != peers[|peers| - 1].id
    ensures Stands(peers, i) <==> Stands(peers[..|peers| - 1], i)
  {
    var init := peers[..|peers| - 1];
    assert forall j :: 0 <= j < |init| ==> init[j] == peers[j];
    if Stands(init, i) {
      forall j | i < j < |peers| ensures peers[j].id != peers[i].id {
        assert j < |init| ==> init[j].id != init[i].id;
      }
    }
    if Stands(peers, i) {
      forall j | i < j < |init| ensures init[j].id != init[i].id {
        assert peers[j].id != peers[i].id;
      }
    }
  }

  /** One announcement more speaks for its peer alone, and takes the place of what that peer said before. */
  lemma AnnouncesMore(us: string, peers: seq<Peer>, a: string, b: string)
    requires peers != []
    ensures var last, init := peers[|peers| - 1], peers[..|peers| - 1];
            Announces(us, peers, a, b) <==> if a == last.id then Lists(us, last, b) else Announces(us, init, a, b)
  {
    var n := |peers| - 1;
    var init := peers[..n];
    assert Stands(peers, n);
    if a == peers[n].id {
      if i :| Stands(peers, i) && peers[i].id == a && Lists(us, peers[i], b) {
        assert i == n;
      }
    } else {
      if i :| Stands(peers, i) && peers[i].id == a && Lists(us, peers[i], b) {
        StandsBefore(peers, i);
        assert init[i] == peers[i];
      }
      if i :| Stands(init, i) && init[i].id == a && Lists(us, init[i], b) {
        StandsBefore(peers, i);
        assert init[i] == peers[i];
      }
    }
  }

  /** The claims are what the last announcements list. */
  lemma {:induction false} ClaimsExactlyWhen(us: string, peers: seq<Peer>, a: string, b: string)
    ensures Claims(Built(us, peers), a, b) <==> Announces(us, peers, a, b)
  {
    if peers != [] {
      var n := |peers| - 1;
      ClaimsExactlyWhen(us, peers[..n], a, b);
      BuiltIsWellMade(us, peers[..n]);
      AnnouncesMore(us, peers, a, b);
      TheirsIsListed(us, peers[n], b);
    }
  }

  // ---------- Islands ----------

  /** Either has announced the other. */
  ghost predicate InTouch(us: string, peers: seq<Peer>, a: string, b: string) {
    Announces(us, peers, a, b) || Announces(us, peers, b, a)
  }

  ghost predicate IsChain(us: string, peers: seq<Peer>, chain: seq<string>) {
    chain != [] && forall i :: 0 <= i < |chain| - 1 ==> InTouch(us, peers, chain[i], chain[i + 1])
  }

  /** A chain of announcements leads from one to the other, without us. */
  ghost predicate Reaches(us: string, peers: seq<Peer>, a: string, b: string) {
    exists chain :: IsChain(us, peers, chain) && chain[0] == a && chain[|chain| - 1] == b
  }

  /** Announced, or listed by somebody who is. */
  ghost predicate Heard(us: string, peers: seq<Peer>, a: string) {
    (exists i :: 0 <= i < |peers| && peers[i].id == a) || exists p :: Announces(us, peers, p, a)
  }

  lemma LinkedIsInTouch(us: string, peers: seq<Peer>, a: string, b: string)
    ensures Linked(Built(us, peers), a, b) <==> InTouch(us, peers, a, b)
  {
    ClaimsExactlyWhen(us, peers, a, b);
    ClaimsExactlyWhen(us, peers, b, a);
  }

  lemma PathIsChain(us: string, peers: seq<Peer>, path: seq<string>)
    ensures IsPath(Built(us, peers), path) <==> IsChain(us, peers, path)
  {
    forall i | 0 <= i < |path| - 1
      ensures Linked(Built(us, peers), path[i], path[i + 1]) <==> InTouch(us, peers, path[i], path[i + 1])
    {
      LinkedIsInTouch(us, peers, path[i], path[i + 1]);
    }
  }

  lemma JoinedIsReached(us: string, peers: seq<Peer>, a: string, b: string)
    ensures Joined(Built(us, peers), a, b) <==> Reaches(us, peers, a, b)
  {
    if path :| Joins(Built(us, peers), path, a, b) {
      PathIsChain(us, peers, path);
    }
    if chain :| IsChain(us, peers, chain) && chain[0] == a && chain[|chain| - 1] == b {
      PathIsChain(us, peers, chain);
      assert Joins(Built(us, peers), chain, a, b);
    }
  }

  lemma EveryoneIsHeard(us: string, peers: seq<Peer>, a: string)
    ensures a in Everyone(Built(us, peers)) <==> Heard(us, peers, a)
  {
    var t := Built(us, peers);
    BuiltIsWellMade(us, peers);
    if a in Everyone(t) && a !in t.direct {
      var p :| p in t.claims && a in t.claims[p];
      ClaimsExactlyWhen(us, peers, p, a);
    }
    if p :| Announces(us, peers, p, a) {
      ClaimsExactlyWhen(us, peers, p, a);
    }
  }

  /**
   * From announcements to islands: everyone heard of is on exactly one island, and two of them share it exactly if a
   * chain of announcements joins them.
   */
  lemma IslandsExactlyWhen(us: string, peers: seq<Peer>, islands: seq<set<string>>, a: string, b: string)
    requires AreComponents(Built(us, peers), islands)
    ensures Heard(us, peers, a) <==> exists i :: 0 <= i < |islands| && a in islands[i]
    ensures Heard(us, peers, a)
        ==> ((exists i :: 0 <= i < |islands| && a in islands[i] && b in islands[i]) <==> Reaches(us, peers, a, b))
  {
    EveryoneIsHeard(us, peers, a);
    JoinedIsReached(us, peers, a, b);
  }

  /** Two peers heard of with no chain of announcements between them. */
  ghost predicate Severed(us: string, peers: seq<Peer>, a: string, b: string) {
    Heard(us, peers, a) && Heard(us, peers, b) && !Reaches(us, peers, a, b)
  }

  /** There is more than one island, and we are a bridge, exactly if without us somebody is severed from somebody. */
  lemma BridgesExactlyWhen(us: string, peers: seq<Peer>, islands: seq<set<string>>)
    requires AreComponents(Built(us, peers), islands)
    ensures |islands| > 1 <==> exists a, b :: Severed(us, peers, a, b)
  {
    var t := Built(us, peers);
    BridgeExactlyWhen(t, islands);
    if a, b :| a in Everyone(t) && b in Everyone(t) && !Joined(t, a, b) {
      SeveredExactlyWhen(us, peers, a, b);
    }
    if a, b :| Severed(us, peers, a, b) {
      SeveredExactlyWhen(us, peers, a, b);
    }
  }

  lemma SeveredExactlyWhen(us: string, peers: seq<Peer>, a: string, b: string)
    ensures var t := Built(us, peers);
            Severed(us, peers, a, b) <==> a in Everyone(t) && b in Everyone(t) && !Joined(t, a, b)
  {
    EveryoneIsHeard(us, peers, a);
    EveryoneIsHeard(us, peers, b);
    JoinedIsReached(us, peers, a, b);
  }

  // ---------- Names ----------

  // ---------- Edges ----------

  /** One string before another: by the first character in which they differ, or as its beginning. */
  ghost predicate Before(a: string, b: string) {
    exists i: nat :: IsPrefix(a, b, i) && (if i == |a| then i < |b| else i < |b| && a[i] < b[i])
  }

  ghost predicate IsPrefix(a: string, b: string, i: nat) {
    i <= |a| && i <= |b| && forall k :: 0 <= k < i ==> a[k] == b[k]
  }

  lemma {:induction false} LessIsBefore(a: string, b: string)
    ensures Less(a, b) <==> Before(a, b)
  {
    if a == "" || b == "" || a[0] != b[0] {
      assert IsPrefix(a, b, 0);
    } else {
      LessIsBefore(a[1..], b[1..]);
      forall i: nat ensures IsPrefix(a, b, i + 1) <==> IsPrefix(a[1..], b[1..], i) {
        assert forall k :: 0 <= k < i && k < |a[1..]| && k < |b[1..]|
                 ==> a[1..][k] == a[k + 1] && b[1..][k] == b[k + 1];
        if IsPrefix(a[1..], b[1..], i) {
          assert forall k :: 0 < k < i + 1 ==> a[k] == a[1..][k - 1] && b[k] == b[1..][k - 1];
        }
      }
      if i: nat :| IsPrefix(a[1..], b[1..], i)
                   && (if i == |a[1..]| then i < |b[1..]| else i < |b[1..]| && a[1..][i] < b[1..][i]) {
        assert IsPrefix(a, b, i + 1);
      }
      if i: nat :| IsPrefix(a, b, i) && (if i == |a| then i < |b| else i < |b| && a[i] < b[i]) {
        assert i > 0;
        assert IsPrefix(a[1..], b[1..], i - 1);
      }
    }
  }

  /** From announcements to edges: the sorted pairs of which either has announced the other. */
  lemma EdgesExactlyWhen(us: string, peers: seq<Peer>, pairs: set<(string, string)>, a: string, b: string)
    requires forall x, y :: (x, y) in pairs <==> Less(x, y) && Linked(Built(us, peers), x, y)
    ensures (a, b) in pairs <==> Before(a, b) && InTouch(us, peers, a, b)
  {
    LessIsBefore(a, b);
    LinkedIsInTouch(us, peers, a, b);
  }

  /** The last name a peer gave itself, if it ever gave one. */
  ghost predicate NamedAt(peers: seq<Peer>, i: int) {
    0 <= i < |peers| && peers[i].nickname != ""
    && forall j :: i < j < |peers| && peers[j].id == peers[i].id ==> peers[j].nickname == ""
  }

  ghost predicate Calls(peers: seq<Peer>, id: string, name: string) {
    exists i :: NamedAt(peers, i) && peers[i].id == id && peers[i].nickname == name
  }

  lemma NamedBefore(peers: seq<Peer>, i: int)
    requires peers != [] && 0 <= i < |peers| - 1
    ensures var last, init := peers[|peers| - 1], peers[..|peers| - 1];
            NamedAt(peers, i) <==> NamedAt(init, i) && !(last.id == peers[i].id && last.nickname != "")
  {
    var init := peers[..|peers| - 1];
    assert forall j :: 0 <= j < |init| ==> init[j] == peers[j];
    if NamedAt(init, i) && !(peers[|init|].id == peers[i].id && peers[|init|].nickname != "") {
      forall j | i < j < |peers| && peers[j].id == peers[i].id ensures peers[j].nickname == "" {
        if j < |init| {
          assert init[j].id == init[i].id;
        }
      }
    }
    if NamedAt(peers, i) {
      forall j | i < j < |init| && init[j].id == init[i].id ensures init[j].nickname == "" {
        assert peers[j].id == peers[i].id;
      }
    }
  }

  lemma CallsMore(peers: seq<Peer>, id: string, name: string)
    requires peers != []
    ensures var last, init := peers[|peers| - 1], peers[..|peers| - 1];
            Calls(peers, id, name)
            <==> if last.id == id && last.nickname != "" then name == last.nickname else Calls(init, id, name)
  {
    var n := |peers| - 1;
    var init := peers[..n];
    if i :| NamedAt(peers, i) && peers[i].id == id && peers[i].nickname == name && i < n {
      NamedBefore(peers, i);
      assert init[i] == peers[i];
    }
    if i :| NamedAt(init, i) && init[i].id == id && init[i].nickname == name {
      NamedBefore(peers, i);
      assert init[i] == peers[i];
    }
    if peers[n].id == id && peers[n].nickname != "" {
      assert NamedAt(peers, n);
      forall i | NamedAt(peers, i) && peers[i].id == id ensures i == n {
        if i < n {
          assert false;
        }
      }
    }
  }

  /** An announcement without a name leaves the last one standing. */
  lemma {:induction false} NamesExactlyWhen(us: string, peers: seq<Peer>, id: string, name: string)
    ensures var names := Built(us, peers).names;
            id in names && names[id] == name <==> Calls(peers, id, name)
  {
    if peers != [] {
      NamesExactlyWhen(us, peers[..|peers| - 1], id, name);
      CallsMore(peers, id, name);
    }
  }
}
