/** The gateway's policy: what it carries between mesh and relays, how much of it, and what it never carries twice. */
module Gateways {
  import opened FifoMemory

  const MAX_QUEUED_UPLINKS := 20
  const MAX_QUEUED_PER_DEPOSITOR := 5
  const UPLINKS_PER_MINUTE_PER_DEPOSITOR := 10
  const DOWNLINKS_PER_MINUTE := 30
  const MAX_EVENT_AGE_SECONDS := 15 * 60
  const MAX_TRACKED_IDS := 512
  const RATE_WINDOW_SECONDS := 60

  datatype Uplink = Publish | Queued | Refused(why: string)
  datatype Downlink = Broadcast | Declined(why: string)
  datatype Held = Held(depositor: string, geohash: string, eventId: string, json: string)
  datatype Deposit = Deposit(held: Held, createdAt: int, relaysUp: bool)

  // ---------- The policy on values ----------

  /** The three id memories are kept as their whole histories, of which the last 512 count. */
  datatype State = State(
    enabled: bool, fromMesh: seq<string>, published: seq<string>, rebroadcast: seq<string>,
    deposits: map<string, seq<int>>, broadcasts: seq<int>, held: seq<Held>)

  const NEW := State(false, [], [], [], map[], [], [])

  function Known(history: seq<string>, id: string): bool {
    id in Last(history, MAX_TRACKED_IDS)
  }

  function Learned(history: seq<string>, id: string): seq<string> {
    Record(history, id, MAX_TRACKED_IDS)
  }

  /** The stamps left once those a minute old or more are gone from the front. */
  function Pruned(stamps: seq<int>, now: int): seq<int> {
    if stamps != [] && now - stamps[0] >= RATE_WINDOW_SECONDS then Pruned(stamps[1..], now) else stamps
  }

  function Stamps(deposits: map<string, seq<int>>, depositor: string): seq<int> {
    if depositor in deposits then deposits[depositor] else []
  }

  function CountFor(held: seq<Held>, depositor: string): nat {
    if held == [] then 0 else CountFor(held[1..], depositor) + (if held[0].depositor == depositor then 1 else 0)
  }

  function Pushed(held: seq<Held>, x: Held): seq<Held> {
    (if |held| >= MAX_QUEUED_UPLINKS then held[1..] else held) + [x]
  }

  function Uplinked(g: State, d: Deposit, now: int): (State, Uplink) {
    if !g.enabled then (g, Refused("not acting as a gateway"))
    else if Known(g.fromMesh, d.held.eventId) then (g, Refused("already carried over the mesh"))
    else if Known(g.published, d.held.eventId) then (g, Refused("already published"))
    else if now - d.createdAt > MAX_EVENT_AGE_SECONDS then (g, Refused("too old to be worth carrying"))
    else if d.createdAt - now > MAX_EVENT_AGE_SECONDS then (g, Refused("dated in the future"))
    else
      var recent := Pruned(Stamps(g.deposits, d.held.depositor), now);
      var refusing := g.(deposits := g.deposits[d.held.depositor := recent]);
      var taking := g.(deposits := g.deposits[d.held.depositor := recent + [now]]);
      if |recent| >= UPLINKS_PER_MINUTE_PER_DEPOSITOR then (refusing, Refused("depositing too fast"))
      else if d.relaysUp then (taking.(published := Learned(g.published, d.held.eventId)), Publish)
      else if CountFor(g.held, d.held.depositor) >= MAX_QUEUED_PER_DEPOSITOR
      then (refusing, Refused("already holding all we will for this peer"))
      else (taking.(held := Pushed(g.held, d.held)), Queued)
  }

  function Downlinked(g: State, id: string, now: int): (State, Downlink) {
    if !g.enabled then (g, Declined("not acting as a gateway"))
    else if Known(g.published, id) then (g, Declined("we published this ourselves"))
    else if Known(g.fromMesh, id) then (g, Declined("already carried over the mesh"))
    else if Known(g.rebroadcast, id) then (g, Declined("already broadcast"))
    else
      var recent := Pruned(g.broadcasts, now);
      if |recent| >= DOWNLINKS_PER_MINUTE then (g.(broadcasts := recent), Declined("out of airtime for this minute"))
      else (g.(broadcasts := recent + [now], rebroadcast := Learned(g.rebroadcast, id)), Broadcast)
  }

  function Ids(held: seq<Held>): (ids: seq<string>)
    ensures |ids| == |held| && forall i :: 0 <= i < |held| ==> ids[i] == held[i].eventId
  {
    seq(|held|, i requires 0 <= i < |held| => held[i].eventId)
  }

  function Taken(g: State): State {
    g.(held := [], published := RecordAll(g.published, Ids(g.held), MAX_TRACKED_IDS))
  }

  function Switched(g: State, on: bool): State {
    g.(enabled := on, held := if on then g.held else [])
  }

  // ---------- The gateway object ----------

  class Gateway {
    var enabled: bool
    const fromMesh: Memory<string>
    const published: Memory<string>
    const rebroadcast: Memory<string>
    var deposits: map<string, seq<int>>
    var broadcasts: seq<int>
    var held: seq<Held>

    ghost predicate Valid()
      reads this, fromMesh, published, rebroadcast
    {
      && fromMesh != published && fromMesh != rebroadcast && published != rebroadcast
      && fromMesh.Valid() && published.Valid() && rebroadcast.Valid()
      && fromMesh.limit == published.limit == rebroadcast.limit == MAX_TRACKED_IDS
    }

    ghost function Value(): State
      reads this, fromMesh, published, rebroadcast
    {
      State(enabled, fromMesh.history, published.history, rebroadcast.history, deposits, broadcasts, held)
    }

    constructor ()
      ensures Valid() && fresh(fromMesh) && fresh(published) && fresh(rebroadcast) && Value() == NEW
    {
      enabled, deposits, broadcasts, held := false, map[], [], [];
      fromMesh := new Memory(MAX_TRACKED_IDS);
      published := new Memory(MAX_TRACKED_IDS);
      rebroadcast := new Memory(MAX_TRACKED_IDS);
    }

    method SetEnabled(on: bool) returns (dropped: nat)
      requires Valid()
      modifies this
      ensures Valid() && Value() == Switched(old(Value()), on)
      ensures dropped == |old(held)| - |held|
    {
      enabled := on;
      if on {
        return 0;
      }
      dropped := |held|;
      held := [];
    }

    method NoteCarriedOnMesh(id: string)
      requires Valid()
      modifies fromMesh
      ensures Valid() && Value() == old(Value()).(fromMesh := Learned(old(Value()).fromMesh, id))
    {
      var _ := fromMesh.Insert(id);
    }

    method WithinDepositBudget(depositor: string, now: int) returns (ok: bool)
      modifies this`deposits
      ensures deposits == old(deposits)[depositor := Pruned(Stamps(old(deposits), depositor), now)]
      ensures ok <==> |deposits[depositor]| < UPLINKS_PER_MINUTE_PER_DEPOSITOR
    {
      if depositor !in deposits {
        deposits := deposits[depositor := []];
      }
      var recent := Prune(deposits[depositor], now);
      deposits := deposits[depositor := recent];
      ok := |recent| < UPLINKS_PER_MINUTE_PER_DEPOSITOR;
    }

    method NoteDeposit(depositor: string, now: int)
      modifies this`deposits
      ensures deposits == old(deposits)[depositor := Stamps(old(deposits), depositor) + [now]]
    {
      if depositor !in deposits {
        deposits := deposits[depositor := []];
      }
      deposits := deposits[depositor := deposits[depositor] + [now]];
    }

    method AcceptUplink(d: Deposit, now: int) returns (r: Uplink)
      requires Valid()
      modifies this, published
      ensures Valid() && (Value(), r) == Uplinked(old(Value()), d, now)
    {
      var id, depositor := d.held.eventId, d.held.depositor;
      if !enabled {
        return Refused("not acting as a gateway");
      }
      var carried := fromMesh.Contains(id);
      if carried {
        return Refused("already carried over the mesh");
      }
      var done := published.Contains(id);
      if done {
        return Refused("already published");
      }
      if now - d.createdAt > MAX_EVENT_AGE_SECONDS {
        return Refused("too old to be worth carrying");
      }
      if d.createdAt - now > MAX_EVENT_AGE_SECONDS {
        return Refused("dated in the future");
      }
      var ok := WithinDepositBudget(depositor, now);
      if !ok {
        return Refused("depositing too fast");
      }
      if d.relaysUp {
        var _ := published.Insert(id);
        NoteDeposit(depositor, now);
        assert deposits == old(deposits)[depositor := Pruned(Stamps(old(deposits), depositor), now) + [now]];
        return Publish;
      }
      if CountFor(held, depositor) >= MAX_QUEUED_PER_DEPOSITOR {
        return Refused("already holding all we will for this peer");
      }
      NoteDeposit(depositor, now);
      assert deposits == old(deposits)[depositor := Pruned(Stamps(old(deposits), depositor), now) + [now]];
      if |held| >= MAX_QUEUED_UPLINKS {
        held := held[1..];
      }
      held := held + [d.held];
      return Queued;
    }

    method TakeHeld() returns (ready: seq<Held>)
      requires Valid()
      modifies this, published
      ensures Valid() && ready == old(held) && Value() == Taken(old(Value()))
    {
      ready := held;
      held := [];
      ghost var before, ids := published.history, Ids(ready);
      assert ids[0..] == ids;
      for i := 0 to |ready|
        invariant Valid() && held == [] && Value() == old(Value()).(held := [], published := published.history)
        invariant RecordAll(before, ids, MAX_TRACKED_IDS) == RecordAll(published.history, ids[i..], MAX_TRACKED_IDS)
      {
        RecordNext(published.history, ids, i, MAX_TRACKED_IDS);
        var _ := published.Insert(ready[i].eventId);
      }
    }

    method WithinBroadcastBudget(now: int) returns (ok: bool)
      modifies this`broadcasts
      ensures broadcasts == Pruned(old(broadcasts), now) && (ok <==> |broadcasts| < DOWNLINKS_PER_MINUTE)
    {
      broadcasts := Prune(broadcasts, now);
      ok := |broadcasts| < DOWNLINKS_PER_MINUTE;
    }

    method AcceptDownlink(id: string, now: int) returns (r: Downlink)
      requires Valid()
      modifies this, rebroadcast
      ensures Valid() && (Value(), r) == Downlinked(old(Value()), id, now)
    {
      if !enabled {
        return Declined("not acting as a gateway");
      }
      var ours := published.Contains(id);
      if ours {
        return Declined("we published this ourselves");
      }
      var carried := fromMesh.Contains(id);
      if carried {
        return Declined("already carried over the mesh");
      }
      var done := rebroadcast.Contains(id);
      if done {
        return Declined("already broadcast");
      }
      var ok := WithinBroadcastBudget(now);
      if !ok {
        return Declined("out of airtime for this minute");
      }
      var _ := rebroadcast.Insert(id);
      broadcasts := broadcasts + [now];
      return Broadcast;
    }
  }

  method Prune(stamps: seq<int>, now: int) returns (left: seq<int>)
    ensures left == Pruned(stamps, now)
  {
    left := stamps;
    while left != [] && now - left[0] >= RATE_WINDOW_SECONDS
      invariant Pruned(left, now) == Pruned(stamps, now)
    {
      left := left[1..];
    }
  }
}
