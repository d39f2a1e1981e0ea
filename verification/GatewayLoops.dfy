/**
 * What the gateway's three id memories rule out over whole runs, and what they do not: the mailbag is handed to the
 * relays without another look at them.
 */
module GatewayLoops {
  import opened FifoMemory
  import opened Gateways
  import opened GatewayRuns

  // ---------- What a step remembers ----------

  /** No memory has taken an id as new twice within 512 others. */
  ghost predicate AllSpaced(g: State) {
    && Spaced(g.fromMesh, MAX_TRACKED_IDS) && Spaced(g.published, MAX_TRACKED_IDS)
    && Spaced(g.rebroadcast, MAX_TRACKED_IDS)
  }

  ghost predicate Extends(g: State, g': State) {
    g.fromMesh <= g'.fromMesh && g.published <= g'.published && g.rebroadcast <= g'.rebroadcast
  }

  lemma StepRemembers(g: State, a: Action, now: int)
    requires AllSpaced(g)
    ensures AllSpaced(Next(g, a, now).0) && Extends(g, Next(g, a, now).0)
  {
    match a
    case Switch(on) =>
    case Note(id) => RecordKeepsSpacing(g.fromMesh, id, MAX_TRACKED_IDS);
    case Offer(d) => OfferRemembers(g, d, now);
    case Take => RunsAreSpaced(g.published, Ids(g.held), MAX_TRACKED_IDS);
    case Echo(id) => RecordKeepsSpacing(g.rebroadcast, id, MAX_TRACKED_IDS);
  }

  lemma OfferRemembers(g: State, d: Deposit, now: int)
    requires AllSpaced(g)
    ensures AllSpaced(Uplinked(g, d, now).0) && Extends(g, Uplinked(g, d, now).0)
  {
    RecordKeepsSpacing(g.published, d.held.eventId, MAX_TRACKED_IDS);
  }

  lemma {:induction false} MemoriesSpaced(run: Run, k: nat)
    requires IsRun(run) && k <= |run.actions|
    ensures AllSpaced(run.states[k])
  {
    if k > 0 {
      MemoriesSpaced(run, k - 1);
      assert NextAt(run, k - 1);
      StepRemembers(run.states[k - 1], run.actions[k - 1], run.times[k - 1]);
    }
  }

  /** The histories only grow. */
  lemma {:induction false} MemoriesGrow(run: Run, i: nat, j: nat)
    requires IsRun(run) && i <= j <= |run.actions|
    ensures Extends(run.states[i], run.states[j])
    decreases j
  {
    if i < j {
      MemoriesGrow(run, i, j - 1);
      MemoriesSpaced(run, j - 1);
      assert NextAt(run, j - 1);
      StepRemembers(run.states[j - 1], run.actions[j - 1], run.times[j - 1]);
    }
  }

  /** An entry of a memory is known exactly if fewer than 512 came after it. */
  lemma KnownExactlyWhen(history: seq<string>, id: string)
    ensures Known(history, id)
       <==> exists p :: 0 <= p < |history| && |history| - p <= MAX_TRACKED_IDS && history[p] == id
  {
    var r := Last(history, MAX_TRACKED_IDS);
    var base := |history| - |r|;
    assert forall k :: 0 <= k < |r| ==> r[k] == history[base + k];
    if Known(history, id) {
      var k :| 0 <= k < |r| && r[k] == id;
      assert history[base + k] == id;
    }
    if p :| 0 <= p < |history| && |history| - p <= MAX_TRACKED_IDS && history[p] == id {
      assert r[p - base] == id;
    }
  }

  // ---------- Where what is held came from ----------

  function StepPushed(steps: seq<nat>, k: nat): seq<nat> {
    (if |steps| >= MAX_QUEUED_UPLINKS then steps[1..] else steps) + [k]
  }

  /** For each deposit held after `k` steps, the step that queued it. */
  function QueuedAt(run: Run, k: nat): seq<nat>
    requires k <= |run.actions| == |run.replies|
  {
    if k == 0 then []
    else
      var before := QueuedAt(run, k - 1);
      if run.replies[k - 1] == Up(Queued)
      then StepPushed(before, k - 1)
      else if run.actions[k - 1] == Take || run.actions[k - 1] == Switch(false) then []
      else before
  }

  predicate Queues(run: Run, m: int, held: Held)
    requires |run.actions| == |run.replies|
  {
    && 0 <= m < |run.actions| && run.actions[m].Offer? && run.actions[m].deposit.held == held
    && run.replies[m] == Up(Queued)
  }

  ghost predicate Rising(steps: seq<nat>) {
    forall x, y :: 0 <= x < y < |steps| ==> steps[x] < steps[y]
  }

  ghost predicate Traced(run: Run, steps: seq<nat>, held: seq<Held>, k: nat)
    requires |run.actions| == |run.replies|
  {
    && |steps| == |held| && Rising(steps)
    && forall x :: 0 <= x < |held| ==> steps[x] < k && Queues(run, steps[x], held[x])
  }

  lemma {:induction false} HeldIsTraced(run: Run, k: nat)
    requires IsRun(run) && k <= |run.actions|
    ensures Traced(run, QueuedAt(run, k), run.states[k].held, k)
  {
    if k > 0 {
      HeldIsTraced(run, k - 1);
      HeldAfter(run, k - 1);
      if run.replies[k - 1] == Up(Queued) {
        PushedIsTraced(run, QueuedAt(run, k - 1), run.states[k - 1].held, run.actions[k - 1].deposit.held, k - 1);
        assert QueuedAt(run, k) == StepPushed(QueuedAt(run, k - 1), k - 1);
      } else if run.actions[k - 1] == Take || run.actions[k - 1] == Switch(false) {
        assert QueuedAt(run, k) == [];
      } else {
        assert QueuedAt(run, k) == QueuedAt(run, k - 1);
      }
    }
  }

  lemma PushedIsTraced(run: Run, steps: seq<nat>, held: seq<Held>, x: Held, k: nat)
    requires |run.actions| == |run.replies| && Traced(run, steps, held, k) && Queues(run, k, x)
    ensures Traced(run, StepPushed(steps, k), Pushed(held, x), k + 1)
  {
  }

  lemma HeldAfter(run: Run, k: nat)
    requires IsRun(run) && k < |run.actions|
    ensures run.replies[k] == Up(Queued) ==> run.actions[k].Offer?
    ensures run.states[k + 1].held
         == (if run.replies[k] == Up(Queued) then Pushed(run.states[k].held, run.actions[k].deposit.held)
             else if run.actions[k] == Take || run.actions[k] == Switch(false) then []
             else run.states[k].held)
  {
    assert NextAt(run, k);
    HeldStep(run.states[k], run.actions[k], run.times[k]);
  }

  /** What one action does to the mailbag. */
  lemma HeldStep(g: State, a: Action, now: int)
    ensures var (g', r) := Next(g, a, now);
            && (r == Up(Queued) ==> a.Offer?)
            && g'.held == (if r == Up(Queued) then Pushed(g.held, a.deposit.held)
                           else if a == Take || a == Switch(false) then [] else g.held)
  {
  }

  /** What is held after `k` steps has been held ever since it was queued. */
  lemma {:induction false} HeldSince(run: Run, k: nat, q: nat, m: nat)
    requires IsRun(run) && k <= |run.actions| && q in QueuedAt(run, k) && q < m <= k
    ensures q in QueuedAt(run, m)
    ensures m < k ==> run.actions[m] != Take && run.actions[m] != Switch(false)
    decreases k
  {
    if m < k {
      assert NextAt(run, k - 1);
      assert q in QueuedAt(run, k - 1);
      HeldSince(run, k - 1, q, m);
    }
  }

  /** Nothing queued later has left before it. */
  lemma {:induction false} LaterIsHeld(run: Run, k: nat, q: nat, m: nat)
    requires IsRun(run) && k <= |run.actions| && q in QueuedAt(run, k) && q < m < k && run.replies[m] == Up(Queued)
    ensures m in QueuedAt(run, k)
    decreases k
  {
    if m < k - 1 {
      HeldSince(run, k, q, k - 1);
      LaterIsHeld(run, k - 1, q, m);
      HeldIsTraced(run, k - 1);
      assert NextAt(run, k - 1);
    }
  }

  // ---------- What is handed over again ----------

  /** The `m`-th step noted this id from the mesh, and it was new. */
  predicate Notes(run: Run, m: int, id: string)
    requires |run.states| == |run.actions| + 1
  {
    0 <= m < |run.actions| && run.actions[m] == Note(id) && !Known(run.states[m].fromMesh, id)
  }

  predicate Publishes(run: Run, m: int, id: string)
    requires |run.actions| == |run.replies|
  {
    && 0 <= m < |run.actions| && run.actions[m].Offer? && run.actions[m].deposit.held.eventId == id
    && run.replies[m] == Up(Publish)
  }

  predicate QueuesId(run: Run, m: int, id: string)
    requires |run.actions| == |run.replies|
  {
    0 <= m < |run.actions| && run.actions[m].Offer? && Queues(run, m, run.actions[m].deposit.held)
    && run.actions[m].deposit.held.eventId == id
  }

  /** An offer that is taken finds its id in neither memory. */
  lemma OfferedIsUnknown(run: Run, m: nat, id: string)
    requires IsRun(run) && (QueuesId(run, m, id) || Publishes(run, m, id))
    ensures !Known(run.states[m].fromMesh, id) && !Known(run.states[m].published, id)
  {
    assert NextAt(run, m);
  }

  /** The `m`-th step of a growing history took in this id. */
  predicate Enters(histories: seq<seq<string>>, m: nat, id: string)
    requires m + 1 < |histories|
  {
    histories[m + 1] == histories[m] + [id]
  }

  ghost predicate GrowsByOne(histories: seq<seq<string>>, m: nat)
    requires m + 1 < |histories|
  {
    histories[m + 1] == histories[m] || exists id :: Enters(histories, m, id)
  }

  /** Up to here the id came in at a step since `q`, fewer than 512 newer ones ago. */
  ghost predicate Recent(histories: seq<seq<string>>, q: nat, j: nat, id: string)
    requires j < |histories|
  {
    exists m :: q <= m < j && Enters(histories, m, id) && FewSince(histories, m, j)
  }

  /** From step `m` to step `j` at most 512 ids came in, so the first of them is still remembered. */
  predicate FewSince(histories: seq<seq<string>>, m: int, j: int)
    requires 0 <= m < |histories| && 0 <= j < |histories|
  {
    |histories[j]| - |histories[m]| <= MAX_TRACKED_IDS
  }

  lemma {:induction false} Growing(histories: seq<seq<string>>, q: nat, j: nat)
    requires q <= j < |histories| && forall m :: q <= m < j ==> GrowsByOne(histories, m)
    ensures histories[q] <= histories[j]
    decreases j
  {
    if q < j {
      Growing(histories, q, j - 1);
      assert GrowsByOne(histories, j - 1);
    }
  }

  lemma {:induction false} Passing(histories: seq<seq<string>>, q: nat, j: nat, p: nat) returns (m: nat)
    requires q <= j < |histories| && forall m :: q <= m < j ==> GrowsByOne(histories, m)
    requires |histories[q]| <= p < |histories[j]|
    ensures q <= m < j && |histories[m]| == p && Enters(histories, m, histories[j][p])
    decreases j
  {
    assert GrowsByOne(histories, j - 1);
    if p < |histories[j - 1]| {
      m := Passing(histories, q, j - 1, p);
    } else {
      m := j - 1;
    }
  }

  /** An id new to a history is known later exactly if it has come in since, fewer than 512 newer ones ago. */
  lemma KnownSince(histories: seq<seq<string>>, q: nat, j: nat, id: string)
    requires q <= j < |histories| && !Known(histories[q], id)
    requires forall m :: q <= m < j ==> GrowsByOne(histories, m)
    ensures Known(histories[j], id) <==> Recent(histories, q, j, id)
  {
    var before, after := histories[q], histories[j];
    Growing(histories, q, j);
    KnownExactlyWhen(before, id);
    KnownExactlyWhen(after, id);
    if p :| 0 <= p < |after| && |after| - p <= MAX_TRACKED_IDS && after[p] == id {
      if p < |before| {
        assert false;
      }
      var m := Passing(histories, q, j, p);
      assert FewSince(histories, m, j);
    }
    if m :| q <= m < j && Enters(histories, m, id) && FewSince(histories, m, j) {
      Growing(histories, m + 1, j);
      assert after[|histories[m]|] == id;
    }
  }

  function MeshHistories(run: Run): (r: seq<seq<string>>)
    ensures |r| == |run.states| && forall i :: 0 <= i < |r| ==> r[i] == run.states[i].fromMesh
  {
    seq(|run.states|, i requires 0 <= i < |run.states| => run.states[i].fromMesh)
  }

  function PublishedHistories(run: Run): (r: seq<seq<string>>)
    ensures |r| == |run.states| && forall i :: 0 <= i < |r| ==> r[i] == run.states[i].published
  {
    seq(|run.states|, i requires 0 <= i < |run.states| => run.states[i].published)
  }

  /** An id enters the memory of mesh events by being noted while new. */
  lemma MeshEntry(run: Run, m: nat, id: string)
    requires IsRun(run) && m < |run.actions|
    ensures GrowsByOne(MeshHistories(run), m) && (Enters(MeshHistories(run), m, id) <==> Notes(run, m, id))
  {
    assert NextAt(run, m);
    MeshStep(run.states[m], run.actions[m], run.times[m]);
    OneEntry(MeshHistories(run), m, id, if run.actions[m].Note? then run.actions[m].id else id);
  }

  lemma MeshStep(g: State, a: Action, now: int)
    ensures var after := Next(g, a, now).0.fromMesh;
            after == (if a.Note? && !Known(g.fromMesh, a.id) then g.fromMesh + [a.id] else g.fromMesh)
  {
  }

  lemma PublishedStep(g: State, a: Action, now: int)
    requires a != Take
    ensures var (g', r) := Next(g, a, now);
            && (r == Up(Publish) ==> a.Offer?)
            && g'.published == (if r == Up(Publish) then g.published + [a.deposit.held.eventId] else g.published)
  {
  }

  /** A step that took in `x` took in no other id. */
  lemma OneEntry(histories: seq<seq<string>>, m: nat, id: string, x: string)
    requires m + 1 < |histories|
    requires histories[m + 1] == histories[m] || Enters(histories, m, x)
    ensures GrowsByOne(histories, m) && (Enters(histories, m, id) <==> id == x && histories[m + 1] != histories[m])
  {
    if Enters(histories, m, x) {
      assert histories[m + 1][|histories[m]|] == x;
    }
  }

  /** Short of handing over the mailbag, an id enters the memory of published events by being published live. */
  lemma PublishedEntry(run: Run, m: nat, id: string)
    requires IsRun(run) && m < |run.actions| && run.actions[m] != Take
    ensures GrowsByOne(PublishedHistories(run), m)
    ensures Enters(PublishedHistories(run), m, id) <==> Publishes(run, m, id)
  {
    assert NextAt(run, m);
    PublishedStep(run.states[m], run.actions[m], run.times[m]);
    OneEntry(PublishedHistories(run), m, id, if run.actions[m].Offer? then run.actions[m].deposit.held.eventId else id);
  }

  /** A deposit that is held is known from the mesh exactly if it was noted while held and few newer ids were since. */
  lemma NotedWhileHeld(run: Run, j: nat, q: nat, id: string)
    requires IsRun(run) && j <= |run.actions| && q < j && q in QueuedAt(run, j) && QueuesId(run, q, id)
    ensures Known(run.states[j].fromMesh, id)
       <==> exists m :: q < m < j && Notes(run, m, id) && FewSince(MeshHistories(run), m, j)
  {
    var h := MeshHistories(run);
    OfferedIsUnknown(run, q, id);
    forall m | q <= m < j ensures GrowsByOne(h, m) && (Enters(h, m, id) <==> Notes(run, m, id)) {
      MeshEntry(run, m, id);
    }
    KnownSince(h, q, j, id);
    RecentNotes(run, q, j, id);
  }

  lemma RecentNotes(run: Run, q: nat, j: nat, id: string)
    requires |run.states| == |run.actions| + 1 && q < j < |run.states| && !Notes(run, q, id)
    requires forall m :: q <= m < j ==> (Enters(MeshHistories(run), m, id) <==> Notes(run, m, id))
    ensures Recent(MeshHistories(run), q, j, id)
       <==> exists m :: q < m < j && Notes(run, m, id) && FewSince(MeshHistories(run), m, j)
  {
    var h := MeshHistories(run);
    if m :| q < m < j && Notes(run, m, id) && FewSince(h, m, j) {
      assert Enters(h, m, id);
    }
  }

  /** And it is known as published exactly if it was published live while held. */
  lemma PublishedWhileHeld(run: Run, j: nat, q: nat, id: string)
    requires IsRun(run) && j <= |run.actions| && q < j && q in QueuedAt(run, j) && QueuesId(run, q, id)
    ensures Known(run.states[j].published, id)
       <==> exists m :: q < m < j && Publishes(run, m, id) && FewSince(PublishedHistories(run), m, j)
  {
    var h := PublishedHistories(run);
    OfferedIsUnknown(run, q, id);
    forall m | q <= m < j ensures GrowsByOne(h, m) && (Enters(h, m, id) <==> Publishes(run, m, id)) {
      if m > q {
        HeldSince(run, j, q, m);
      }
      PublishedEntry(run, m, id);
    }
    KnownSince(h, q, j, id);
    RecentPublications(run, q, j, id);
  }

  lemma RecentPublications(run: Run, q: nat, j: nat, id: string)
    requires |run.states| == |run.actions| + 1 == |run.replies| + 1 && q < j < |run.states| && !Publishes(run, q, id)
    requires forall m :: q <= m < j ==> (Enters(PublishedHistories(run), m, id) <==> Publishes(run, m, id))
    ensures Recent(PublishedHistories(run), q, j, id)
       <==> exists m :: q < m < j && Publishes(run, m, id) && FewSince(PublishedHistories(run), m, j)
  {
    var h := PublishedHistories(run);
    if m :| q < m < j && Publishes(run, m, id) && FewSince(h, m, j) {
      assert Enters(h, m, id);
    }
  }

  /** And it is held a second time, further back, exactly if it was queued again while held. */
  lemma QueuedWhileHeld(run: Run, j: nat, x: nat, id: string)
    requires IsRun(run) && j <= |run.actions| && x < |run.states[j].held| == |QueuedAt(run, j)|
    ensures (exists y :: x < y < |run.states[j].held| && run.states[j].held[y].eventId == id)
       <==> exists m :: QueuedAt(run, j)[x] < m < j && QueuesId(run, m, id)
  {
    HeldIsTraced(run, j);
    var held, steps := run.states[j].held, QueuedAt(run, j);
    if y :| x < y < |held| && held[y].eventId == id {
      assert QueuesId(run, steps[y], id);
    }
    if m :| steps[x] < m < j && QueuesId(run, m, id) {
      LaterIsHeld(run, j, steps[x], m);
      var y :| 0 <= y < |steps| && steps[y] == m;
      assert Queues(run, steps[y], held[y]);
    }
  }

  /** What handing over this deposit now would repeat: a mesh event, a publication, or itself. */
  predicate Repeats(g: State, x: nat)
    requires x < |g.held|
  {
    var id := g.held[x].eventId;
    Known(g.fromMesh, id) || Known(g.published, id) || exists y :: x < y < |g.held| && g.held[y].eventId == id
  }

  /** The `m`-th step noted or published this id, fewer than 512 newer ones ago at step `j`, or queued it. */
  predicate Crosses(run: Run, m: int, j: int, id: string)
    requires |run.states| == |run.actions| + 1 == |run.replies| + 1 && 0 <= j <= |run.actions|
  {
    || (Notes(run, m, id) && FewSince(MeshHistories(run), m, j))
    || (Publishes(run, m, id) && FewSince(PublishedHistories(run), m, j))
    || QueuesId(run, m, id)
  }

  /**
   * Over any run: handing over a deposit repeats what the memories know, or a later item, exactly if its id was noted
   * from the mesh or published live while it was in the mailbag, fewer than 512 newer ids ago, or queued once more. A
   * queued deposit is never checked again. `HeldIsTraced` says that every deposit held has its step in `QueuedAt`.
   */
  lemma HandedOverAgainExactlyWhen(run: Run, j: nat, x: nat)
    requires IsRun(run) && j <= |run.actions| && x < |run.states[j].held| == |QueuedAt(run, j)|
    ensures Repeats(run.states[j], x)
       <==> exists m :: QueuedAt(run, j)[x] < m < j && Crosses(run, m, j, run.states[j].held[x].eventId)
  {
    HeldIsTraced(run, j);
    var q, id := QueuedAt(run, j)[x], run.states[j].held[x].eventId;
    assert QueuesId(run, q, id);
    NotedWhileHeld(run, j, q, id);
    PublishedWhileHeld(run, j, q, id);
    QueuedWhileHeld(run, j, x, id);
    if m :| q < m < j && Notes(run, m, id) && FewSince(MeshHistories(run), m, j) {
      assert Crosses(run, m, j, id);
    }
    if m :| q < m < j && Publishes(run, m, id) && FewSince(PublishedHistories(run), m, j) {
      assert Crosses(run, m, j, id);
    }
    if m :| q < m < j && QueuesId(run, m, id) {
      assert Crosses(run, m, j, id);
    }
  }

  // ---------- A caller's guard ----------

  /** Handing over the mailbag now would repeat nothing. */
  ghost predicate Clean(g: State) {
    forall x :: 0 <= x < |g.held| ==> !Repeats(g, x)
  }

  /** What of the mailbag is still there once the queue has made room for one more. */
  function Kept(held: seq<Held>): seq<Held> {
    if |held| >= MAX_QUEUED_UPLINKS then held[1..] else held
  }

  lemma LearningAdds(history: seq<string>, id: string, other: string)
    ensures Known(Learned(history, id), other) ==> other == id || Known(history, other)
    ensures Known(Learned(history, id), id)
  {
    if !Known(history, id) {
      KnownExactlyWhen(history, other);
      KnownExactlyWhen(history + [id], other);
      KnownExactlyWhen(history + [id], id);
      assert (history + [id])[|history|] == id;
    }
  }

  lemma LearningIsClean(g: State, g': State, id: string)
    requires Clean(g) && g'.held == g.held
    requires || (g'.fromMesh == Learned(g.fromMesh, id) && g'.published == g.published)
             || (g'.published == Learned(g.published, id) && g'.fromMesh == g.fromMesh)
    ensures Clean(g') <==> id !in Ids(g.held)
  {
    forall x | 0 <= x < |g.held| ensures Repeats(g', x) <==> g.held[x].eventId == id {
      assert !Repeats(g, x);
      LearningAdds(g.fromMesh, id, g.held[x].eventId);
      LearningAdds(g.published, id, g.held[x].eventId);
    }
    assert forall x :: 0 <= x < |g.held| ==> Ids(g.held)[x] == g.held[x].eventId;
  }

  lemma PushingIsClean(g: State, x: Held)
    requires Clean(g) && !Known(g.fromMesh, x.eventId) && !Known(g.published, x.eventId)
    ensures Clean(g.(held := Pushed(g.held, x))) <==> x.eventId !in Ids(Kept(g.held))
  {
    var kept, g' := Kept(g.held), g.(held := Pushed(g.held, x));
    var dropped := |g.held| - |kept|;
    forall y | 0 <= y < |kept| ensures Repeats(g', y) <==> kept[y].eventId == x.eventId {
      assert !Repeats(g, y + dropped) && g.held[y + dropped] == kept[y];
      assert g'.held[|kept|] == x;
      forall z | y < z < |kept| ensures g'.held[z].eventId != kept[y].eventId {
        assert g.held[z + dropped] == kept[z];
      }
    }
    assert forall y :: 0 <= y < |kept| ==> Ids(kept)[y] == kept[y].eventId;
  }

  /**
   * The guard a caller can check: one step makes the mailbag repeat something exactly if it notes, publishes or queues
   * an id that is in it.
   */
  lemma StaysCleanExactlyWhen(g: State, a: Action, now: int)
    requires Clean(g)
    ensures Clean(Next(g, a, now).0)
       <==> match a
            case Note(id) => id !in Ids(g.held)
            case Offer(d) =>
              && (Next(g, a, now).1 == Up(Publish) ==> d.held.eventId !in Ids(g.held))
              && (Next(g, a, now).1 == Up(Queued) ==> d.held.eventId !in Ids(Kept(g.held)))
            case _ => true
  {
    var g' := Next(g, a, now).0;
    match a
    case Note(id) => LearningIsClean(g, g', id);
    case Offer(d) => OfferStaysClean(g, d, now);
    case Switch(on) => SameIsClean(g, g');
    case Take =>
    case Echo(id) => SameIsClean(g, g');
  }

  lemma SameIsClean(g: State, g': State)
    requires Clean(g) && g'.fromMesh == g.fromMesh && g'.published == g.published
    requires g'.held == g.held || g'.held == []
    ensures Clean(g')
  {
    forall x | 0 <= x < |g'.held| ensures !Repeats(g', x) {
      assert !Repeats(g, x);
    }
  }

  lemma OfferStaysClean(g: State, d: Deposit, now: int)
    requires Clean(g)
    ensures var (g', r) := Uplinked(g, d, now);
            Clean(g') <==> (r == Publish ==> d.held.eventId !in Ids(g.held))
                           && (r == Queued ==> d.held.eventId !in Ids(Kept(g.held)))
  {
    var (g', r) := Uplinked(g, d, now);
    if r == Publish {
      LearningIsClean(g, g', d.held.eventId);
    } else if r == Queued {
      PushingIsClean(g, d.held);
      var pushed := g.(held := Pushed(g.held, d.held));
      assert forall x :: 0 <= x < |g'.held| ==> (Repeats(g', x) <==> Repeats(pushed, x));
    } else {
      SameIsClean(g, g');
    }
  }

  /** The `m`-th step neither notes nor offers an id that is in the mailbag. */
  predicate Guarded(run: Run, m: nat)
    requires m < |run.actions| < |run.states|
  {
    var a, ids := run.actions[m], Ids(run.states[m].held);
    (a.Note? ==> a.id !in ids) && (a.Offer? ==> a.deposit.held.eventId !in ids)
  }

  /**
   * A caller who looks into the mailbag first is never handed a deposit twice, nor one noted or published meanwhile.
   */
  lemma {:induction false} GuardedRunsAreClean(run: Run, k: nat)
    requires IsRun(run) && k <= |run.actions| && forall m :: 0 <= m < k ==> Guarded(run, m)
    ensures Clean(run.states[k])
  {
    if k > 0 {
      GuardedRunsAreClean(run, k - 1);
      assert NextAt(run, k - 1) && Guarded(run, k - 1);
      KeptIsHeld(run.states[k - 1].held);
      StaysCleanExactlyWhen(run.states[k - 1], run.actions[k - 1], run.times[k - 1]);
    }
  }

  lemma KeptIsHeld(held: seq<Held>)
    ensures forall id :: id in Ids(Kept(held)) ==> id in Ids(held)
  {
    var kept := Kept(held);
    forall x | 0 <= x < |kept| ensures Ids(kept)[x] in Ids(held) {
      assert Ids(held)[x + |held| - |kept|] == kept[x].eventId;
    }
  }

  // ---------- Runs that carry one event twice ----------

  /** An event queued while the relays are down, then seen on the mesh, is published all the same. */
  lemma NotedThenPublished(d: Deposit, now: int) returns (run: Run)
    requires !d.relaysUp && d.createdAt == now
    ensures IsRun(run) && run.actions == [Switch(true), Offer(d), Note(d.held.eventId), Take]
    ensures Known(run.states[3].fromMesh, d.held.eventId) && run.states[3].held == [d.held]
  {
    run := FourSteps(Switch(true), Offer(d), Note(d.held.eventId), Take, now);
    FirstQueued(d, now);
    LearningAdds([], d.held.eventId, d.held.eventId);
  }

  /**
   * An event queued, then offered again with the relays back and published, is published once more with the mailbag.
   */
  lemma PublishedThenHandedOver(d: Deposit, now: int) returns (run: Run)
    requires !d.relaysUp && d.createdAt == now
    ensures IsRun(run) && run.actions == [Switch(true), Offer(d), Offer(d.(relaysUp := true)), Take]
    ensures run.replies[1] == Up(Queued) && run.replies[2] == Up(Publish) && run.states[3].held == [d.held]
  {
    run := FourSteps(Switch(true), Offer(d), Offer(d.(relaysUp := true)), Take, now);
    FirstQueued(d, now);
  }

  /** An event deposited twice while the relays are down is held twice, and handed to them twice. */
  lemma HeldTwice(d: Deposit, now: int) returns (run: Run)
    requires !d.relaysUp && d.createdAt == now
    ensures IsRun(run) && run.actions == [Switch(true), Offer(d), Offer(d), Take]
    ensures run.replies[1] == run.replies[2] == Up(Queued)
    ensures run.states[3].held == [d.held, d.held]
  {
    run := FourSteps(Switch(true), Offer(d), Offer(d), Take, now);
    FirstQueued(d, now);
    assert CountFor([d.held], d.held.depositor) == 1 by {
      assert [d.held][1..] == [];
    }
  }

  lemma FirstQueued(d: Deposit, now: int)
    requires !d.relaysUp && d.createdAt == now
    ensures var (g, r) := Uplinked(Switched(NEW, true), d, now);
            && r == Queued && g.enabled && g.fromMesh == g.published == [] && g.held == [d.held]
            && Stamps(g.deposits, d.held.depositor) == [now]
    ensures Pruned([now], now) == [now]
  {
    assert Pruned([], now) == [];
  }

  lemma FourSteps(a0: Action, a1: Action, a2: Action, a3: Action, now: int) returns (run: Run)
    ensures IsRun(run) && run.actions == [a0, a1, a2, a3] && run.times == [now, now, now, now]
    ensures run.states[1] == Next(NEW, a0, now).0
    ensures (run.states[2], run.replies[1]) == Next(run.states[1], a1, now)
    ensures (run.states[3], run.replies[2]) == Next(run.states[2], a2, now)
  {
    var (g1, r0) := Next(NEW, a0, now);
    var (g2, r1) := Next(g1, a1, now);
    var (g3, r2) := Next(g2, a2, now);
    var (g4, r3) := Next(g3, a3, now);
    run := Run([NEW, g1, g2, g3, g4], [a0, a1, a2, a3], [now, now, now, now], [r0, r1, r2, r3]);
    forall i | 0 <= i < 4 ensures NextAt(run, i) {
      assert i == 0 || i == 1 || i == 2 || i == 3;
    }
  }

  // ---------- Loop memory ----------

  /** The `i`-th action put this event on the relays, on the mesh or in the mailbag, or handed it over from there. */
  predicate Carries(run: Run, i: nat, id: string)
    requires i < |run.actions| == |run.replies| < |run.states|
  {
    || Publishes(run, i, id) || QueuesId(run, i, id) || HandsOver(run, i, id)
    || (run.actions[i] == Echo(id) && run.replies[i] == Down(Broadcast))
  }

  predicate HandsOver(run: Run, i: nat, id: string)
    requires i < |run.actions| < |run.states|
  {
    run.actions[i] == Take && id in Ids(run.states[i].held)
  }

  /** The `j`-th action hands over a deposit of this event that was in the mailbag already when the `i`-th was made. */
  ghost predicate HandsOverOld(run: Run, i: nat, j: nat, id: string)
    requires i <= j < |run.actions| == |run.replies| < |run.states|
  {
    && run.actions[j] == Take
    && exists x :: && 0 <= x < |run.states[j].held| == |QueuedAt(run, j)|
                   && run.states[j].held[x].eventId == id && QueuedAt(run, j)[x] < i
  }

  /** What is carried is in no memory that rules it out, unless it comes from the mailbag. */
  lemma CarriedIsUnknown(run: Run, j: nat, id: string)
    requires IsRun(run) && j < |run.actions| && Carries(run, j, id) && run.actions[j] != Take
    ensures !Known(run.states[j].fromMesh, id) && !Known(run.states[j].published, id)
    ensures run.actions[j].Echo? ==> !Known(run.states[j].rebroadcast, id)
  {
    assert NextAt(run, j);
  }

  /** After an id entered a memory as its `p`-th, it is out again only when more than 512 follow. */
  lemma OutAfter(before: seq<string>, after: seq<string>, p: nat, id: string)
    requires p < |before| && before <= after && before[p] == id && !Known(after, id)
    ensures |after| - p > MAX_TRACKED_IDS
  {
    RefusedUntilCrowdedOut(after, p, MAX_TRACKED_IDS);
  }

  /**
   * A step at or before `j` that shows the id out of the memories: the `j`-th itself, or for a Take the one that queued
   * the deposit.
   */
  lemma LastChecked(run: Run, i: nat, j: nat, id: string) returns (m: nat)
    requires IsRun(run) && i < j < |run.actions| && Carries(run, j, id) && !HandsOverOld(run, i, j, id)
    requires !QueuesId(run, i, id)
    ensures i < m <= j && !Known(run.states[m].fromMesh, id) && !Known(run.states[m].published, id)
  {
    if run.actions[j] == Take {
      HeldIsTraced(run, j);
      var x :| 0 <= x < |run.states[j].held| && Ids(run.states[j].held)[x] == id;
      m := QueuedAt(run, j)[x];
      assert Queues(run, m, run.states[j].held[x]) && QueuesId(run, m, id);
      OfferedIsUnknown(run, m, id);
    } else {
      m := j;
      CarriedIsUnknown(run, j, id);
    }
  }

  /**
   * An event published live, or newly noted from the mesh, is carried again before 512 newer ids exactly if the mailbag
   * that is handed over had it all along.
   */
  lemma LoopMemory(run: Run, i: nat, j: nat, id: string)
    requires IsRun(run) && i < j < |run.actions|
    ensures Publishes(run, i, id) && |run.states[j].published| - |run.states[i + 1].published| < MAX_TRACKED_IDS
        ==> (Carries(run, j, id) <==> HandsOverOld(run, i, j, id))
    ensures Notes(run, i, id) && |run.states[j].fromMesh| - |run.states[i + 1].fromMesh| < MAX_TRACKED_IDS
        ==> (Carries(run, j, id) <==> HandsOverOld(run, i, j, id))
  {
    if HandsOverOld(run, i, j, id) {
      var x :| 0 <= x < |run.states[j].held| == |QueuedAt(run, j)| && run.states[j].held[x].eventId == id;
      assert Ids(run.states[j].held)[x] == id;
    } else if Carries(run, j, id) && (Publishes(run, i, id) || Notes(run, i, id)) {
      var m := LastChecked(run, i, j, id);
      MemoriesGrow(run, i + 1, m);
      MemoriesGrow(run, m, j);
      if Publishes(run, i, id) {
        PublishedIsNew(run, i, id);
        OutAfter(run.states[i + 1].published, run.states[m].published, |run.states[i].published|, id);
      } else {
        NotedIsNew(run, i, id);
        OutAfter(run.states[i + 1].fromMesh, run.states[m].fromMesh, |run.states[i].fromMesh|, id);
      }
    }
  }

  lemma PublishedIsNew(run: Run, i: nat, id: string)
    requires IsRun(run) && Publishes(run, i, id)
    ensures run.states[i + 1].published == run.states[i].published + [id]
  {
    assert NextAt(run, i);
  }

  lemma NotedIsNew(run: Run, i: nat, id: string)
    requires IsRun(run) && Notes(run, i, id)
    ensures run.states[i + 1].fromMesh == run.states[i].fromMesh + [id]
  {
    assert NextAt(run, i);
  }

  /** What the mailbag handed over as new is not carried again before 512 newer ids; nor is what was broadcast. */
  lemma CarriedOnce(run: Run, i: nat, j: nat, id: string)
    requires IsRun(run) && i < j < |run.actions| && Carries(run, i, id) && Carries(run, j, id)
    ensures run.actions[i] == Take && !Known(run.states[i].published, id)
        ==> |run.states[j].published| - |run.states[i].published| > MAX_TRACKED_IDS
    ensures run.replies[i] == Down(Broadcast) && run.actions[j].Echo?
        ==> |run.states[j].rebroadcast| - |run.states[i + 1].rebroadcast| >= MAX_TRACKED_IDS
  {
    if run.actions[i] == Take && !Known(run.states[i].published, id) {
      var p := TakenIsPublished(run, i, id);
      TakenIsNotOld(run, i, j, id);
      var m := LastChecked(run, i, j, id);
      MemoriesGrow(run, i + 1, m);
      MemoriesGrow(run, m, j);
      OutAfter(run.states[i + 1].published, run.states[m].published, p, id);
    }
    if run.replies[i] == Down(Broadcast) && run.actions[j].Echo? {
      assert NextAt(run, i);
      MemoriesGrow(run, i + 1, j);
      CarriedIsUnknown(run, j, id);
      OutAfter(run.states[i + 1].rebroadcast, run.states[j].rebroadcast, |run.states[i].rebroadcast|, id);
    }
  }

  /** Handing over the mailbag leaves nothing old in it. */
  lemma TakenIsNotOld(run: Run, i: nat, j: nat, id: string)
    requires IsRun(run) && i < j < |run.actions| && run.actions[i] == Take
    ensures !HandsOverOld(run, i, j, id)
  {
    forall x | 0 <= x < |QueuedAt(run, j)| ensures QueuedAt(run, j)[x] >= i {
      if QueuedAt(run, j)[x] < i {
        HeldSince(run, j, QueuedAt(run, j)[x], i);
      }
    }
  }

  lemma TakenIsPublished(run: Run, i: nat, id: string) returns (p: nat)
    requires IsRun(run) && i < |run.actions| && HandsOver(run, i, id) && !Known(run.states[i].published, id)
    ensures |run.states[i].published| <= p < |run.states[i + 1].published| && run.states[i + 1].published[p] == id
  {
    assert NextAt(run, i);
    p := AllRecorded(run.states[i].published, Ids(run.states[i].held), id);
  }

  lemma {:induction false} AllRecorded(history: seq<string>, ids: seq<string>, id: string) returns (p: nat)
    requires id in ids && !Known(history, id)
    ensures |history| <= p < |RecordAll(history, ids, MAX_TRACKED_IDS)|
    ensures RecordAll(history, ids, MAX_TRACKED_IDS)[p] == id
    decreases |ids|
  {
    var next := Learned(history, ids[0]);
    if ids[0] == id {
      p := |history|;
      RecordingGrows(next, ids[1..]);
    } else {
      LearningAdds(history, ids[0], id);
      p := AllRecorded(next, ids[1..], id);
    }
  }

  lemma {:induction false} RecordingGrows(history: seq<string>, ids: seq<string>)
    ensures history <= RecordAll(history, ids, MAX_TRACKED_IDS)
    decreases |ids|
  {
    if ids != [] {
      RecordingGrows(Learned(history, ids[0]), ids[1..]);
    }
  }

  /**
   * Noting an id again does not make it any newer: the count runs from when it was taken as new. An id that is the
   * oldest remembered is forgotten with the next new one, however recently it was noted again.
   */
  lemma NotingAgainDoesNotRefresh(history: seq<string>, id: string, other: string)
    requires Spaced(history, MAX_TRACKED_IDS) && |history| >= MAX_TRACKED_IDS
    requires history[|history| - MAX_TRACKED_IDS] == id && !Known(history, other)
    ensures Learned(history, id) == history
    ensures !Known(Learned(Learned(history, id), other), id)
  {
    var n := |history| - MAX_TRACKED_IDS;
    RefusedUntilCrowdedOut(history, n, MAX_TRACKED_IDS);
    var later := history + [other];
    RecordKeepsSpacing(history, other, MAX_TRACKED_IDS);
    var last := Last(later, MAX_TRACKED_IDS);
    forall k | 0 <= k < |last| ensures last[k] != id {
      assert last[k] == later[n + 1 + k] && later[n] == id;
    }
  }
}
