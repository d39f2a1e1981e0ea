/** What the gateway answers and holds, from the history of its calls alone. */
module GatewayAnswers {
  import opened FifoMemory
  import opened Gateways
  import opened GatewayRuns
  import opened GatewayLoops

  // ---------- What the history says ----------

  /** The gateway was last switched on. */
  ghost predicate On(run: Run, k: nat)
    requires k <= |run.actions|
  {
    exists i :: 0 <= i < k && run.actions[i] == Switch(true) && NotSwitched(run, i + 1, k)
  }

  ghost predicate NotSwitched(run: Run, from: nat, k: nat)
    requires k <= |run.actions|
  {
    forall m :: from <= m < k ==> !run.actions[m].Switch?
  }

  /** The ids noted from the mesh, put on the relays, and put on the mesh, in order. */
  function NoteLog(run: Run, k: nat): seq<string>
    requires k <= |run.actions|
  {
    if k == 0 then []
    else NoteLog(run, k - 1) + (if run.actions[k - 1].Note? then [run.actions[k - 1].id] else [])
  }

  function PublishLog(run: Run, k: nat): seq<string>
    requires k <= |run.actions| == |run.replies| < |run.states|
  {
    if k == 0 then []
    else PublishLog(run, k - 1)
         + (if run.actions[k - 1].Offer? && run.replies[k - 1] == Up(Publish)
            then [run.actions[k - 1].deposit.held.eventId]
            else if run.actions[k - 1] == Take then Ids(run.states[k - 1].held) else [])
  }

  function EchoLog(run: Run, k: nat): seq<string>
    requires k <= |run.actions| == |run.replies|
  {
    if k == 0 then []
    else EchoLog(run, k - 1)
         + (if run.actions[k - 1].Echo? && run.replies[k - 1] == Down(Broadcast) then [run.actions[k - 1].id] else [])
  }

  /** An id is remembered while fewer than 512 new ones came after it was new itself. */
  predicate Remembered(log: seq<string>, id: string) {
    id in Last(RecordAll([], log, 512), 512)
  }

  /** The last `n` entries of a log are all less than a minute old. */
  predicate Spent(log: seq<int>, n: nat, now: int) {
    |log| >= n > 0 && now - log[|log| - n] < 60
  }

  ghost function HeldOf(held: seq<Held>, depositor: string): set<nat> {
    set x | 0 <= x < |held| && held[x].depositor == depositor
  }

  /** The answer to a deposit. */
  predicate UplinkIs(answer: Uplink, d: Deposit, now: int, on: bool, noted: bool, published: bool, spent: bool,
                     held: nat)
  {
    if !on then answer == Refused("not acting as a gateway")
    else if noted then answer == Refused("already carried over the mesh")
    else if published then answer == Refused("already published")
    else if now - d.createdAt > 900 then answer == Refused("too old to be worth carrying")
    else if d.createdAt - now > 900 then answer == Refused("dated in the future")
    else if spent then answer == Refused("depositing too fast")
    else if d.relaysUp then answer == Publish
    else if held >= 5 then answer == Refused("already holding all we will for this peer")
    else answer == Queued
  }

  /** The answer to an event from the relays. */
  predicate DownlinkIs(answer: Downlink, on: bool, published: bool, noted: bool, echoed: bool, spent: bool) {
    if !on then answer == Declined("not acting as a gateway")
    else if published then answer == Declined("we published this ourselves")
    else if noted then answer == Declined("already carried over the mesh")
    else if echoed then answer == Declined("already broadcast")
    else if spent then answer == Declined("out of airtime for this minute")
    else answer == Broadcast
  }

  // ---------- The state is what the history says ----------

  lemma OnNext(run: Run, k: nat, next: nat)
    requires next == k + 1 <= |run.actions|
    ensures On(run, next) <==> if run.actions[k].Switch? then run.actions[k].on else On(run, k)
  {
    if run.actions[k].Switch? {
      if run.actions[k].on {
        assert NotSwitched(run, next, next);
      }
    } else {
      if i :| 0 <= i < next && run.actions[i] == Switch(true) && NotSwitched(run, i + 1, next) {
        assert NotSwitched(run, i + 1, k);
      }
      if i :| 0 <= i < k && run.actions[i] == Switch(true) && NotSwitched(run, i + 1, k) {
        assert NotSwitched(run, i + 1, next);
      }
    }
  }

  lemma EnabledStep(g: State, a: Action, now: int)
    ensures Next(g, a, now).0.enabled == if a.Switch? then a.on else g.enabled
  {
  }

  lemma {:induction false} EnabledIsOn(run: Run, k: nat)
    requires IsRun(run) && k <= |run.actions|
    ensures run.states[k].enabled <==> On(run, k)
  {
    if k > 0 {
      EnabledIsOn(run, k - 1);
      OnNext(run, k - 1, k);
      assert NextAt(run, k - 1);
      EnabledStep(run.states[k - 1], run.actions[k - 1], run.times[k - 1]);
    }
  }

  lemma {:induction false} RecordFurther(history: seq<string>, xs: seq<string>, ys: seq<string>)
    ensures RecordAll(history, xs + ys, 512) == RecordAll(RecordAll(history, xs, 512), ys, 512)
    decreases |xs|
  {
    if xs == [] {
      assert xs + ys == ys;
    } else {
      assert (xs + ys)[1..] == xs[1..] + ys;
      RecordFurther(Record(history, xs[0], 512), xs[1..], ys);
    }
  }

  lemma RecordOne(history: seq<string>, id: string)
    ensures RecordAll(history, [id], 512) == Learned(history, id)
  {
    assert [id][1..] == [];
  }

  lemma MemoriesStep(g: State, a: Action, now: int)
    ensures var (g', r) := Next(g, a, now);
            && g'.fromMesh == (if a.Note? then Learned(g.fromMesh, a.id) else g.fromMesh)
            && g'.published == (if a.Offer? && r == Up(Publish) then Learned(g.published, a.deposit.held.eventId)
                                else if a == Take then RecordAll(g.published, Ids(g.held), 512) else g.published)
            && g'.rebroadcast == (if a.Echo? && r == Down(Broadcast) then Learned(g.rebroadcast, a.id)
                                  else g.rebroadcast)
  {
  }

  lemma {:induction false} NotesFollow(run: Run, k: nat)
    requires IsRun(run) && k <= |run.actions|
    ensures run.states[k].fromMesh == RecordAll([], NoteLog(run, k), 512)
  {
    if k > 0 {
      NotesFollow(run, k - 1);
      assert NextAt(run, k - 1);
      var g, a := run.states[k - 1], run.actions[k - 1];
      MemoriesStep(g, a, run.times[k - 1]);
      RecordFurther([], NoteLog(run, k - 1), if a.Note? then [a.id] else []);
      if a.Note? {
        RecordOne(g.fromMesh, a.id);
      }
    }
  }

  lemma {:induction false} PublishedFollow(run: Run, k: nat)
    requires IsRun(run) && k <= |run.actions|
    ensures run.states[k].published == RecordAll([], PublishLog(run, k), 512)
  {
    if k > 0 {
      PublishedFollow(run, k - 1);
      assert NextAt(run, k - 1);
      var g, a := run.states[k - 1], run.actions[k - 1];
      MemoriesStep(g, a, run.times[k - 1]);
      var entries := if a.Offer? && run.replies[k - 1] == Up(Publish) then [a.deposit.held.eventId]
                     else if a == Take then Ids(g.held) else [];
      RecordFurther([], PublishLog(run, k - 1), entries);
      if a.Offer? {
        RecordOne(g.published, a.deposit.held.eventId);
      }
    }
  }

  lemma {:induction false} EchoesFollow(run: Run, k: nat)
    requires IsRun(run) && k <= |run.actions|
    ensures run.states[k].rebroadcast == RecordAll([], EchoLog(run, k), 512)
  {
    if k > 0 {
      EchoesFollow(run, k - 1);
      assert NextAt(run, k - 1);
      var g, a := run.states[k - 1], run.actions[k - 1];
      MemoriesStep(g, a, run.times[k - 1]);
      RecordFurther([], EchoLog(run, k - 1),
                    if a.Echo? && run.replies[k - 1] == Down(Broadcast) then [a.id] else []);
      if a.Echo? {
        RecordOne(g.rebroadcast, a.id);
      }
    }
  }

  lemma MemoriesFollow(run: Run, k: nat)
    requires IsRun(run) && k <= |run.actions|
    ensures run.states[k].fromMesh == RecordAll([], NoteLog(run, k), 512)
    ensures run.states[k].published == RecordAll([], PublishLog(run, k), 512)
    ensures run.states[k].rebroadcast == RecordAll([], EchoLog(run, k), 512)
  {
    NotesFollow(run, k);
    PublishedFollow(run, k);
    EchoesFollow(run, k);
  }

  lemma OneMoreOf(held: seq<Held>, x: Held, depositor: string)
    ensures |HeldOf(held + [x], depositor)|
         == |HeldOf(held, depositor)| + (if x.depositor == depositor then 1 else 0)
  {
    var before := HeldOf(held, depositor);
    assert |held| !in before;
    assert HeldOf(held + [x], depositor) == before + (if x.depositor == depositor then {|held|} else {});
  }

  lemma {:induction false} CountIsSize(held: seq<Held>, depositor: string)
    ensures CountFor(held, depositor) == |HeldOf(held, depositor)|
  {
    if held != [] {
      var last := |held| - 1;
      CountIsSize(held[..last], depositor);
      assert held == held[..last] + [held[last]];
      CountOfPushed(held[..last], held[last], depositor);
      OneMoreOf(held[..last], held[last], depositor);
    }
  }

  /** Stamps kept after pruning use up the budget exactly if as many of the last accepted are recent. */
  lemma SpentExactlyWhen(stamps: seq<int>, log: seq<int>, limit: nat, now: int)
    requires limit > 0 && Tracks(stamps, log, limit, now)
    ensures |Pruned(stamps, now)| >= limit <==> Spent(log, limit, now)
  {
    PruneTracks(stamps, log, limit, now, now);
  }

  // ---------- The answers ----------

  lemma UplinkStep(g: State, d: Deposit, now: int)
    ensures UplinkIs(Uplinked(g, d, now).1, d, now, g.enabled, Known(g.fromMesh, d.held.eventId),
                     Known(g.published, d.held.eventId), |Pruned(Stamps(g.deposits, d.held.depositor), now)| >= 10,
                     CountFor(g.held, d.held.depositor))
  {
  }

  lemma DownlinkStep(g: State, id: string, now: int)
    ensures DownlinkIs(Downlinked(g, id, now).1, g.enabled, Known(g.published, id), Known(g.fromMesh, id),
                       Known(g.rebroadcast, id), |Pruned(g.broadcasts, now)| >= 30)
  {
  }

  /** Every answer to a deposit follows from the calls before it. */
  lemma UplinkFollows(run: Run, k: nat)
    requires IsRun(run) && k < |run.actions| && run.actions[k].Offer?
    ensures var (d, now) := (run.actions[k].deposit, run.times[k]);
            && run.replies[k].Up?
            && UplinkIs(run.replies[k].uplink, d, now, On(run, k), Remembered(NoteLog(run, k), d.held.eventId),
                        Remembered(PublishLog(run, k), d.held.eventId),
                        Spent(DepositLog(run, d.held.depositor, k), 10, now),
                        |HeldOf(run.states[k].held, d.held.depositor)|)
  {
    var (g, d, now) := (run.states[k], run.actions[k].deposit, run.times[k]);
    assert NextAt(run, k);
    UplinkStep(g, d, now);
    EnabledIsOn(run, k);
    MemoriesFollow(run, k);
    DepositsTracked(run, d.held.depositor, k, now);
    SpentExactlyWhen(Stamps(g.deposits, d.held.depositor), DepositLog(run, d.held.depositor, k), 10, now);
    CountIsSize(g.held, d.held.depositor);
  }

  lemma EchoAnswered(run: Run, k: nat)
    requires IsRun(run) && k < |run.actions| && run.actions[k].Echo?
    ensures run.replies[k] == Down(Downlinked(run.states[k], run.actions[k].id, run.times[k]).1)
  {
    assert NextAt(run, k);
  }

  /** And every answer to an event from the relays. */
  lemma DownlinkFollows(run: Run, k: nat)
    requires IsRun(run) && k < |run.actions| && run.actions[k].Echo?
    ensures var (id, now) := (run.actions[k].id, run.times[k]);
            && run.replies[k].Down?
            && DownlinkIs(run.replies[k].downlink, On(run, k), Remembered(PublishLog(run, k), id),
                          Remembered(NoteLog(run, k), id), Remembered(EchoLog(run, k), id),
                          Spent(BroadcastLog(run, k), 30, now))
  {
    var (g, id, now) := (run.states[k], run.actions[k].id, run.times[k]);
    EchoAnswered(run, k);
    DownlinkStep(g, id, now);
    EnabledIsOn(run, k);
    MemoriesFollow(run, k);
    BroadcastsTracked(run, k, now);
    SpentExactlyWhen(g.broadcasts, BroadcastLog(run, k), 30, now);
  }

  // ---------- The mailbag ----------

  /** How many deposits were queued after step `q`. */
  function QueuedSince(run: Run, q: nat, k: nat): nat
    requires k <= |run.actions| == |run.replies|
  {
    if k <= q + 1 then 0 else QueuedSince(run, q, k - 1) + (if run.replies[k - 1] == Up(Queued) then 1 else 0)
  }

  /** Nothing since step `q` emptied the mailbag. */
  ghost predicate NotEmptied(run: Run, q: nat, k: nat)
    requires k <= |run.actions|
  {
    forall m :: q < m < k ==> run.actions[m] != Take && run.actions[m] != Switch(false)
  }

  lemma {:induction false} PlaceHeld(run: Run, k: nat, x: nat)
    requires IsRun(run) && k <= |run.actions| && x < |QueuedAt(run, k)|
    ensures |QueuedAt(run, k)| <= 20
    ensures QueuedAt(run, k)[x] < k && QueuedSince(run, QueuedAt(run, k)[x], k) == |QueuedAt(run, k)| - 1 - x
  {
    var before := QueuedAt(run, k - 1);
    if run.replies[k - 1] == Up(Queued) {
      var at := if |before| >= 20 then x + 1 else x;
      if at < |before| {
        PlaceHeld(run, k - 1, at);
      } else if before != [] {
        PlaceHeld(run, k - 1, 0);
      }
    } else {
      PlaceHeld(run, k - 1, x);
    }
  }

  lemma {:induction false} StillHeld(run: Run, k: nat, q: nat) returns (x: nat)
    requires IsRun(run) && q < k <= |run.actions| && run.replies[q] == Up(Queued)
    requires NotEmptied(run, q, k) && QueuedSince(run, q, k) < 20
    ensures x < |QueuedAt(run, k)| && QueuedAt(run, k)[x] == q
    ensures |QueuedAt(run, k)| - 1 - x == QueuedSince(run, q, k)
  {
    if k == q + 1 {
      x := |QueuedAt(run, k)| - 1;
    } else {
      var before := QueuedAt(run, k - 1);
      var y := StillHeld(run, k - 1, q);
      x := if run.replies[k - 1] == Up(Queued) && |before| >= 20 then y - 1 else y;
    }
  }

  /**
   * A deposit is in the mailbag exactly if it was queued, the mailbag has not been emptied since, and fewer than twenty
   * were queued after it; what is held are those deposits in the order they came.
   */
  lemma HeldExactlyWhen(run: Run, k: nat, q: nat)
    requires IsRun(run) && k <= |run.actions|
    ensures q in QueuedAt(run, k)
       <==> q < k && run.replies[q] == Up(Queued) && NotEmptied(run, q, k) && QueuedSince(run, q, k) < 20
    ensures Traced(run, QueuedAt(run, k), run.states[k].held, k)
  {
    HeldIsTraced(run, k);
    if q in QueuedAt(run, k) {
      var x :| 0 <= x < |QueuedAt(run, k)| && QueuedAt(run, k)[x] == q;
      PlaceHeld(run, k, x);
      forall m | q < m < k ensures run.actions[m] != Take && run.actions[m] != Switch(false) {
        HeldSince(run, k, q, m);
      }
    } else if q < k && run.replies[q] == Up(Queued) && NotEmptied(run, q, k) && QueuedSince(run, q, k) < 20 {
      var x := StillHeld(run, k, q);
      assert false;
    }
  }
}
