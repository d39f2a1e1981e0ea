/** The gateway over whole runs: its budgets and the bounds of its mailbag. */
module GatewayRuns {
  import opened Prelude
  import opened Gateways

  datatype Action = Switch(on: bool) | Note(id: string) | Offer(deposit: Deposit) | Take | Echo(id: string)
  datatype Reply = Up(uplink: Uplink) | Down(downlink: Downlink) | Done

  function Next(g: State, a: Action, now: int): (State, Reply) {
    match a
    case Switch(on) => (Switched(g, on), Done)
    case Note(id) => (g.(fromMesh := Learned(g.fromMesh, id)), Done)
    case Offer(deposit) =>
      var (g', r) := Uplinked(g, deposit, now);
      (g', Up(r))
    case Take => (Taken(g), Done)
    case Echo(id) =>
      var (g', r) := Downlinked(g, id, now);
      (g', Down(r))
  }

  /** A run from a new gateway, with the time of each action; the clock never goes back. */
  datatype Run = Run(states: seq<State>, actions: seq<Action>, times: seq<int>, replies: seq<Reply>)

  ghost predicate IsRun(run: Run) {
    && |run.states| == |run.actions| + 1 && |run.times| == |run.replies| == |run.actions|
    && run.states[0] == NEW
    && (forall i :: 0 <= i < |run.actions| ==> NextAt(run, i))
    && (forall i, j :: 0 <= i <= j < |run.times| ==> run.times[i] <= run.times[j])
  }

  ghost predicate NextAt(run: Run, i: int)
    requires 0 <= i < |run.actions| && |run.states| == |run.actions| + 1
    requires |run.times| == |run.replies| == |run.actions|
  {
    (run.states[i + 1], run.replies[i]) == Next(run.states[i], run.actions[i], run.times[i])
  }

  // ---------- Sliding-window budgets ----------

  /** Times at which a deposit of this peer was accepted, published or queued, among the first `k` actions. */
  function DepositLog(run: Run, depositor: string, k: nat): seq<int>
    requires k <= |run.actions| == |run.replies| == |run.times|
  {
    if k == 0 then []
    else if TakesDeposit(run, depositor, k - 1) then DepositLog(run, depositor, k - 1) + [run.times[k - 1]]
    else DepositLog(run, depositor, k - 1)
  }

  predicate TakesDeposit(run: Run, depositor: string, i: nat)
    requires i < |run.actions| == |run.replies|
  {
    && run.actions[i].Offer? && run.actions[i].deposit.held.depositor == depositor
    && (run.replies[i] == Up(Publish) || run.replies[i] == Up(Queued))
  }

  function BroadcastLog(run: Run, k: nat): seq<int>
    requires k <= |run.actions| == |run.replies| == |run.times|
  {
    if k == 0 then []
    else if run.replies[k - 1] == Down(Broadcast) then BroadcastLog(run, k - 1) + [run.times[k - 1]]
    else BroadcastLog(run, k - 1)
  }

  /** What a queue of stamps is to the full log: its end, with all that is missing at least a window old. */
  ghost predicate Tracks(stamps: seq<int>, log: seq<int>, limit: nat, now: int) {
    && |stamps| <= |log| && stamps == log[|log| - |stamps|..]
    && (forall i :: 0 <= i < |log| - |stamps| ==> now - log[i] >= RATE_WINDOW_SECONDS)
    && Clocked(log, now) && Paced(log, limit)
  }

  ghost predicate Clocked(log: seq<int>, now: int) {
    && (forall i, j :: 0 <= i <= j < |log| ==> log[i] <= log[j])
    && (forall i :: 0 <= i < |log| ==> log[i] <= now)
  }

  /** Any `limit + 1` entries in a row take at least a window. */
  ghost predicate Paced(log: seq<int>, limit: nat) {
    forall i, j :: 0 <= i && i + limit <= j < |log| ==> log[j] - log[i] >= RATE_WINDOW_SECONDS
  }

  lemma {:induction false} PruneTracks(stamps: seq<int>, log: seq<int>, limit: nat, before: int, now: int)
    requires Tracks(stamps, log, limit, before) && before <= now
    ensures Tracks(Pruned(stamps, now), log, limit, now)
    ensures forall i :: |log| - |Pruned(stamps, now)| <= i < |log| ==> now - log[i] < RATE_WINDOW_SECONDS
    decreases |stamps|
  {
    assert Tracks(stamps, log, limit, now);
    if stamps != [] && now - stamps[0] >= RATE_WINDOW_SECONDS {
      assert stamps[1..] == log[|log| - |stamps[1..]|..];
      PruneTracks(stamps[1..], log, limit, now, now);
    } else if stamps != [] {
      assert stamps[0] == log[|log| - |stamps|];
    }
  }

  lemma PushTracks(stamps: seq<int>, log: seq<int>, limit: nat, now: int)
    requires Tracks(stamps, log, limit, now) && |stamps| < limit
    ensures Tracks(stamps + [now], log + [now], limit, now)
  {
    var grown := log + [now];
    assert stamps + [now] == grown[|grown| - |stamps + [now]|..];
    forall i, j | 0 <= i && i + limit <= j < |grown| ensures grown[j] - grown[i] >= RATE_WINDOW_SECONDS {
      if j == |log| {
        assert i < |log| - |stamps|;
      }
    }
  }

  /** One action at time `at`, taking an entry into the log or not. */
  lemma TrackStep(stamps: seq<int>, log: seq<int>, limit: nat, at: int, now: int, takes: bool, after: seq<int>)
    requires Tracks(stamps, log, limit, at) && at <= now
    requires if takes then after == Pruned(stamps, at) + [at] && |Pruned(stamps, at)| < limit
             else after == stamps || after == Pruned(stamps, at)
    ensures Tracks(after, if takes then log + [at] else log, limit, now)
  {
    PruneTracks(stamps, log, limit, at, at);
    if takes {
      PushTracks(Pruned(stamps, at), log, limit, at);
    } else {
    }
  }

  lemma {:induction false} DepositsTracked(run: Run, depositor: string, k: nat, now: int)
    requires IsRun(run) && k <= |run.actions| && (k > 0 ==> run.times[k - 1] <= now)
    ensures Tracks(Stamps(run.states[k].deposits, depositor), DepositLog(run, depositor, k),
                   UPLINKS_PER_MINUTE_PER_DEPOSITOR, now)
  {
    if k > 0 {
      var at := run.times[k - 1];
      DepositsTracked(run, depositor, k - 1, at);
      assert NextAt(run, k - 1);
      DepositStep(run.states[k - 1], run.actions[k - 1], at, depositor);
      TrackStep(Stamps(run.states[k - 1].deposits, depositor), DepositLog(run, depositor, k - 1),
                UPLINKS_PER_MINUTE_PER_DEPOSITOR, at, now, TakesDeposit(run, depositor, k - 1),
                Stamps(run.states[k].deposits, depositor));
    }
  }

  /** What one action does to the stamps kept for a peer. */
  lemma DepositStep(g: State, a: Action, now: int, depositor: string)
    ensures var (g', r) := Next(g, a, now);
            var before, after := Stamps(g.deposits, depositor), Stamps(g'.deposits, depositor);
            if a.Offer? && a.deposit.held.depositor == depositor && (r == Up(Publish) || r == Up(Queued))
            then after == Pruned(before, now) + [now] && |Pruned(before, now)| < UPLINKS_PER_MINUTE_PER_DEPOSITOR
            else after == before || after == Pruned(before, now)
  {
  }

  lemma {:induction false} BroadcastsTracked(run: Run, k: nat, now: int)
    requires IsRun(run) && k <= |run.actions| && (k > 0 ==> run.times[k - 1] <= now)
    ensures Tracks(run.states[k].broadcasts, BroadcastLog(run, k), DOWNLINKS_PER_MINUTE, now)
  {
    if k > 0 {
      var at := run.times[k - 1];
      BroadcastsTracked(run, k - 1, at);
      assert NextAt(run, k - 1);
      BroadcastStep(run.states[k - 1], run.actions[k - 1], at);
      TrackStep(run.states[k - 1].broadcasts, BroadcastLog(run, k - 1), DOWNLINKS_PER_MINUTE, at, now,
                run.replies[k - 1] == Down(Broadcast), run.states[k].broadcasts);
    }
  }

  lemma BroadcastStep(g: State, a: Action, now: int)
    ensures var (g', r) := Next(g, a, now);
            if r == Down(Broadcast)
            then && g'.broadcasts == Pruned(g.broadcasts, now) + [now]
                 && |Pruned(g.broadcasts, now)| < DOWNLINKS_PER_MINUTE
            else g'.broadcasts == g.broadcasts || g'.broadcasts == Pruned(g.broadcasts, now)
  {
  }

  /** The entries of a log within the half-open window of a minute that starts at `t`. */
  ghost function InWindow(log: seq<int>, t: int): set<int> {
    set i | 0 <= i < |log| && t <= log[i] < t + RATE_WINDOW_SECONDS
  }

  function FirstFrom(log: seq<int>, t: int): (f: nat)
    ensures f <= |log| && forall i :: 0 <= i < f ==> log[i] < t
    ensures f < |log| ==> log[f] >= t
    decreases |log|
  {
    if log == [] || log[0] >= t then 0 else 1 + FirstFrom(log[1..], t)
  }

  lemma WindowHolds(log: seq<int>, limit: nat, now: int, t: int)
    requires Clocked(log, now) && Paced(log, limit)
    ensures |InWindow(log, t)| <= limit
  {
    var f := FirstFrom(log, t);
    RangeSize(InWindow(log, t), f, f + limit);
  }

  /**
   * Over any run with a clock that does not go back: in no minute, wherever it starts, are more than ten deposits of
   * one peer accepted, and in none are more than thirty events broadcast.
   */
  lemma BudgetsHold(run: Run, depositor: string, t: int)
    requires IsRun(run)
    ensures |InWindow(DepositLog(run, depositor, |run.actions|), t)| <= UPLINKS_PER_MINUTE_PER_DEPOSITOR
    ensures |InWindow(BroadcastLog(run, |run.actions|), t)| <= DOWNLINKS_PER_MINUTE
  {
    var k := |run.actions|;
    var now := if k == 0 then 0 else run.times[k - 1];
    DepositsTracked(run, depositor, k, now);
    BroadcastsTracked(run, k, now);
    WindowHolds(DepositLog(run, depositor, k), UPLINKS_PER_MINUTE_PER_DEPOSITOR, now, t);
    WindowHolds(BroadcastLog(run, k), DOWNLINKS_PER_MINUTE, now, t);
  }

  /** And the budget refuses no more than that: a deposit is too fast exactly if the tenth last accepted is recent. */
  lemma TooFastExactlyWhen(run: Run, i: nat)
    requires IsRun(run) && i < |run.actions| && run.actions[i].Offer?
    ensures var log := DepositLog(run, run.actions[i].deposit.held.depositor, i);
            var (g, d, now) := (run.states[i], run.actions[i].deposit, run.times[i]);
            run.replies[i] == Up(Refused("depositing too fast"))
            <==> && g.enabled && !Known(g.fromMesh, d.held.eventId) && !Known(g.published, d.held.eventId)
                 && -MAX_EVENT_AGE_SECONDS <= now - d.createdAt <= MAX_EVENT_AGE_SECONDS
                 && |log| >= UPLINKS_PER_MINUTE_PER_DEPOSITOR
                 && now - log[|log| - UPLINKS_PER_MINUTE_PER_DEPOSITOR] < RATE_WINDOW_SECONDS
  {
    assert NextAt(run, i);
    var depositor, now := run.actions[i].deposit.held.depositor, run.times[i];
    DepositsTracked(run, depositor, i, now);
    PruneTracks(Stamps(run.states[i].deposits, depositor), DepositLog(run, depositor, i),
                UPLINKS_PER_MINUTE_PER_DEPOSITOR, now, now);
  }

  // ---------- The mailbag ----------

  ghost predicate Bounded(held: seq<Held>) {
    |held| <= MAX_QUEUED_UPLINKS && forall d :: CountFor(held, d) <= MAX_QUEUED_PER_DEPOSITOR
  }

  lemma {:induction false} CountOfPushed(held: seq<Held>, x: Held, d: string)
    ensures CountFor(held + [x], d) == CountFor(held, d) + (if x.depositor == d then 1 else 0)
  {
    if held == [] {
      assert (held + [x])[1..] == [];
    } else {
      assert (held + [x])[1..] == held[1..] + [x];
      CountOfPushed(held[1..], x, d);
    }
  }

  /** In every reachable state the mailbag holds at most 20 deposits, at most 5 of them from one peer. */
  lemma {:induction false} MailbagBounded(run: Run, k: nat)
    requires IsRun(run) && k <= |run.actions|
    ensures Bounded(run.states[k].held)
  {
    if k > 0 {
      MailbagBounded(run, k - 1);
      assert NextAt(run, k - 1);
      MailbagStep(run.states[k - 1], run.actions[k - 1], run.times[k - 1]);
    }
  }

  lemma MailbagStep(g: State, a: Action, now: int)
    requires Bounded(g.held)
    ensures Bounded(Next(g, a, now).0.held)
  {
    if a.Offer? && Uplinked(g, a.deposit, now).1 == Queued {
      var kept := if |g.held| >= MAX_QUEUED_UPLINKS then g.held[1..] else g.held;
      forall d ensures CountFor(kept + [a.deposit.held], d) <= MAX_QUEUED_PER_DEPOSITOR {
        assert CountFor(kept, d) <= CountFor(g.held, d);
        CountOfPushed(kept, a.deposit.held, d);
      }
    }
  }
}
