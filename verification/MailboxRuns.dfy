/**
 * The mailbox over whole runs, restarts included: its limits, what became of every item, what a restart brings back.
 */
module MailboxRuns {
  import opened Prelude
  import opened Bytes
  import opened Courier
  import opened Mailboxes
  import opened ShelfLimits
  import opened ShelfFile

  datatype Action =
    | Switch(on: bool)
    | Offer(envelope: Envelope, depositor: string, tier: Tier)
    | Sweep
    | Collect(tags: seq<Tag>)
    | Wipe
    | Restart

  function Next(m: Shelf, a: Action, nowMs: u64): Shelf {
    match a
    case Switch(on) => Switched(m, on)
    case Offer(e, depositor, tier) => Deposited(m, e, depositor, tier, nowMs).0
    case Sweep => Pruned(m, nowMs)
    case Collect(tags) => Collected(m, tags).0
    case Wipe => Wiped(m)
    case Restart => Opened(m.persistent, m.file, nowMs)
  }

  /** What the caller is told: how a deposit went, or the mail handed over. */
  datatype Reply = Told(deposit: Deposit) | Handed(mail: seq<Envelope>) | Done

  function Replied(m: Shelf, a: Action, nowMs: u64): Reply {
    match a
    case Offer(e, depositor, tier) => Told(Deposited(m, e, depositor, tier, nowMs).1)
    case Collect(tags) => Handed(Collected(m, tags).1)
    case _ => Done
  }

  // ---------- Every item accounted for ----------

  /** Everything ever accepted, and where what left the shelf went. */
  datatype Ledger = Ledger(accepted: seq<Held>, collected: seq<Held>, evicted: seq<Held>, expired: seq<Held>,
                           discarded: seq<Held>)

  const NO_ENTRIES := Ledger([], [], [], [], [])

  /** How often an item is among these, whatever its copy budget. */
  function Occurs(held: seq<Held>, x: Held): nat {
    if held == [] then 0 else (if Key(held[0]) == Key(x) then 1 else 0) + Occurs(held[1..], x)
  }

  function Dead(held: seq<Held>, nowMs: u64): seq<Held> {
    if held == [] then []
    else if IsExpired(held[0].envelope, nowMs) then [held[0]] + Dead(held[1..], nowMs)
    else Dead(held[1..], nowMs)
  }

  /** What a full shelf gives up: the oldest item from a stranger, or the oldest of all if there is none. */
  function Victim(held: seq<Held>): nat
    requires held != []
    ensures Victim(held) < |held|
  {
    if FirstVerified(held) < |held| then FirstVerified(held) else 0
  }

  predicate Considered(m: Shelf, e: Envelope, nowMs: u64) {
    m.enabled && nowMs < e.expiryMs <= nowMs + LONGEST_MS
  }

  /** The ledger's entries for one action, from what it finds on the shelf. */
  function Entered(b: Ledger, m: Shelf, a: Action, nowMs: u64): Ledger {
    match a
    case Switch(on) => if on then b else b.(discarded := b.discarded + m.held)
    case Wipe => b.(discarded := b.discarded + m.held)
    case Sweep => b.(expired := b.expired + Dead(m.held, nowMs))
    case Collect(tags) => b.(collected := b.collected + Addressed(m.held, tags))
    case Restart =>
      if m.persistent then b.(expired := b.expired + Dead(m.held, nowMs)) else b.(discarded := b.discarded + m.held)
    case Offer(e, depositor, tier) =>
      if !Considered(m, e, nowMs) then b
      else EnteredOffer(b.(expired := b.expired + Dead(m.held, nowMs)), Pruned(m, nowMs), e, depositor, tier, nowMs)
  }

  function EnteredOffer(b: Ledger, m: Shelf, e: Envelope, depositor: string, tier: Tier, nowMs: u64): Ledger {
    if Shelved(m, e, depositor, tier, nowMs).1 != Accepted then b
    else
      b.(accepted := b.accepted + [Held(e, depositor, tier, nowMs)],
         evicted := b.evicted + (if |m.held| >= MAX_HELD then [m.held[Victim(m.held)]] else []))
  }

  /** Each accepted item is in exactly one place, as often as it was accepted. */
  predicate Balanced(b: Ledger, held: seq<Held>, x: Held) {
    Occurs(b.accepted, x)
    == Occurs(held, x) + Occurs(b.collected, x) + Occurs(b.evicted, x) + Occurs(b.expired, x) + Occurs(b.discarded, x)
  }

  lemma {:induction false} LiveOrDead(held: seq<Held>, nowMs: u64, x: Held)
    ensures Occurs(held, x) == Occurs(Live(held, nowMs), x) + Occurs(Dead(held, nowMs), x)
  {
    if held != [] {
      LiveOrDead(held[1..], nowMs, x);
    }
  }

  lemma {:induction false} AddressedOrNot(held: seq<Held>, tags: seq<Tag>, x: Held)
    ensures Occurs(held, x) == Occurs(Unaddressed(held, tags), x) + Occurs(Addressed(held, tags), x)
  {
    if held != [] {
      AddressedOrNot(held[1..], tags, x);
    }
  }

  lemma {:induction false} OccursIn(a: seq<Held>, b: seq<Held>, x: Held)
    ensures Occurs(a + b, x) == Occurs(a, x) + Occurs(b, x)
  {
    if a == [] {
      assert a + b == b;
    } else {
      assert (a + b)[1..] == a[1..] + b;
      OccursIn(a[1..], b, x);
    }
  }

  lemma {:induction false} OccursWithout(held: seq<Held>, i: nat, copies: byte, x: Held)
    requires i < |held|
    ensures Occurs(held, x) == Occurs(Without(held, i), x) + Occurs([held[i]], x)
    ensures Occurs(MoreCopies(held, i, copies), x) == Occurs(held, x)
  {
    var more := MoreCopies(held, i, copies);
    if i == 0 {
      assert Without(held, 0) == held[1..] && more[1..] == held[1..];
    } else {
      OccursWithout(held[1..], i - 1, copies, x);
      assert Without(held, i)[0] == held[0] && Without(held, i)[1..] == Without(held[1..], i - 1);
      assert more[0] == held[0] && more[1..] == MoreCopies(held[1..], i - 1, copies);
    }
  }

  lemma RoomIsVictims(held: seq<Held>, tier: Tier)
    requires held != [] && Room(held, tier).Some?
    ensures Room(held, tier).value == Without(held, Victim(held))
  {
    if FirstVerified(held) == |held| {
      assert Without(held, 0) == held[1..];
    }
  }

  lemma OfferBalances(b: Ledger, m: Shelf, e: Envelope, depositor: string, tier: Tier, nowMs: u64, x: Held)
    requires Balanced(b, m.held, x)
    ensures Balanced(EnteredOffer(b, m, e, depositor, tier, nowMs), Shelved(m, e, depositor, tier, nowMs).0.held, x)
  {
    var same := FirstSame(m.held, e);
    if same < |m.held| {
      OccursWithout(m.held, same, e.copies, x);
    } else if Shelved(m, e, depositor, tier, nowMs).1 == Accepted {
      if |m.held| >= MAX_HELD {
        RoomIsVictims(m.held, tier);
      }
      AcceptedBalances(b, m.held, Held(e, depositor, tier, nowMs), x);
    }
  }

  lemma AcceptedBalances(b: Ledger, held: seq<Held>, y: Held, x: Held)
    requires Balanced(b, held, x)
    ensures var full := |held| >= MAX_HELD;
            Balanced(b.(accepted := b.accepted + [y],
                        evicted := b.evicted + (if full then [held[Victim(held)]] else [])),
                     (if full then Without(held, Victim(held)) else held) + [y], x)
  {
    OccursIn(b.accepted, [y], x);
    if |held| >= MAX_HELD {
      var i := Victim(held);
      OccursWithout(held, i, 1, x);
      OccursIn(b.evicted, [held[i]], x);
      OccursIn(Without(held, i), [y], x);
    } else {
      OccursIn(b.evicted, [], x);
      OccursIn(held, [y], x);
    }
  }

  lemma StepBalances(b: Ledger, m: Shelf, a: Action, nowMs: u64, x: Held)
    requires Balanced(b, m.held, x)
    requires a.Restart? && m.persistent ==> Live(ReadBack(m.file), nowMs) == Live(m.held, nowMs)
    ensures Balanced(Entered(b, m, a, nowMs), Next(m, a, nowMs).held, x)
  {
    match a
    case Switch(on) => OccursIn(b.discarded, m.held, x);
    case Wipe => OccursIn(b.discarded, m.held, x);
    case Sweep => SweepBalances(b, m, nowMs, x);
    case Collect(tags) => CollectBalances(b, m, tags, x);
    case Restart =>
      SweptBalances(b, m.held, nowMs, x);
      OccursIn(b.discarded, m.held, x);
    case Offer(e, depositor, tier) =>
      if Considered(m, e, nowMs) {
        SweepBalances(b, m, nowMs, x);
        OfferBalances(b.(expired := b.expired + Dead(m.held, nowMs)), Pruned(m, nowMs), e, depositor, tier, nowMs, x);
      }
  }

  /** What is out of date moves from the shelf to the expired. */
  lemma SweptBalances(b: Ledger, held: seq<Held>, nowMs: u64, x: Held)
    requires Balanced(b, held, x)
    ensures Balanced(b.(expired := b.expired + Dead(held, nowMs)), Live(held, nowMs), x)
  {
    LiveOrDead(held, nowMs, x);
    OccursIn(b.expired, Dead(held, nowMs), x);
  }

  lemma SweepBalances(b: Ledger, m: Shelf, nowMs: u64, x: Held)
    requires Balanced(b, m.held, x)
    ensures Balanced(b.(expired := b.expired + Dead(m.held, nowMs)), Pruned(m, nowMs).held, x)
  {
    SweptBalances(b, m.held, nowMs, x);
    PrunedIsLive(m, nowMs);
  }

  lemma CollectBalances(b: Ledger, m: Shelf, tags: seq<Tag>, x: Held)
    requires Balanced(b, m.held, x)
    ensures Balanced(b.(collected := b.collected + Addressed(m.held, tags)), Collected(m, tags).0.held, x)
  {
    AllUnaddressed(m.held, tags);
    AddressedOrNot(m.held, tags, x);
    OccursIn(b.collected, Addressed(m.held, tags), x);
  }

  // ---------- Runs ----------

  datatype Run = Run(shelves: seq<Shelf>, ledgers: seq<Ledger>, actions: seq<Action>, times: seq<u64>,
                     replies: seq<Reply>)

  /** A run of one mailbox from its first opening, by a clock that never goes back. */
  ghost predicate IsRun(run: Run) {
    && |run.shelves| == |run.ledgers| == |run.actions| + 1
    && |run.times| == |run.replies| == |run.actions|
    && run.shelves[0] == Opened(run.shelves[0].persistent, None, 0) && run.ledgers[0] == NO_ENTRIES
    && (forall i :: 0 <= i < |run.actions| ==> NextAt(run, i))
    && (forall i, j :: 0 <= i <= j < |run.times| ==> run.times[i] <= run.times[j])
  }

  /** Offered envelopes are well formed, as all that are built or decoded are, and depositors have plain names. */
  ghost predicate NextAt(run: Run, i: int)
    requires 0 <= i < |run.actions| == |run.times| == |run.replies|
    requires |run.shelves| == |run.ledgers| == |run.actions| + 1
  {
    && run.shelves[i + 1] == Next(run.shelves[i], run.actions[i], run.times[i])
    && run.replies[i] == Replied(run.shelves[i], run.actions[i], run.times[i])
    && run.ledgers[i + 1] == Entered(run.ledgers[i], run.shelves[i], run.actions[i], run.times[i])
    && (run.actions[i].Offer? ==> WellFormed(run.actions[i].envelope) && Plain(run.actions[i].depositor))
  }

  ghost predicate Sound(m: Shelf, nowMs: u64) {
    ShelfOk(m.held) && AllPlain(m.held) && Mirrors(m, nowMs)
  }

  lemma SubPlain(a: seq<Held>, b: seq<Held>)
    requires Sub(a, b) && AllPlain(b)
    ensures AllPlain(a)
  {
    forall x | x in a ensures Plain(x.depositor) {
      SubElements(a, b, x);
    }
  }

  /** Leaving items out, and saving if it says so, keeps everything. */
  lemma LessIsSound(m: Shelf, less: seq<Held>, nowMs: u64)
    requires Sound(m, nowMs) && Sub(less, m.held)
    ensures Sound(Saved(m.(held := less)), nowMs)
  {
    SubOk(less, m.held);
    SubPlain(less, m.held);
    SavedMirrors(m.(held := less), nowMs);
  }

  lemma PrunedSound(m: Shelf, nowMs: u64)
    requires Sound(m, nowMs)
    ensures Sound(Pruned(m, nowMs), nowMs)
  {
    LiveIsSub(m.held, nowMs);
    LessIsSound(m, Live(m.held, nowMs), nowMs);
  }

  lemma ShelvedPlain(m: Shelf, e: Envelope, depositor: string, tier: Tier, nowMs: u64)
    requires AllPlain(m.held) && Plain(depositor)
    ensures AllPlain(Shelved(m, e, depositor, tier, nowMs).0.held)
  {
    var same := FirstSame(m.held, e);
    if same < |m.held| {
      var more := MoreCopies(m.held, same, e.copies);
      forall x | x in more ensures Plain(x.depositor) {
        var i :| 0 <= i < |more| && more[i] == x;
        assert m.held[i] in m.held && m.held[i].depositor == x.depositor;
      }
    } else if |m.held| >= MAX_HELD && Room(m.held, tier).Some? {
      RoomIsSub(m.held, tier);
      SubPlain(Room(m.held, tier).value, m.held);
    }
  }

  lemma ShelvedSound(m: Shelf, e: Envelope, depositor: string, tier: Tier, nowMs: u64)
    requires Sound(m, nowMs) && WellFormed(e) && e.expiryMs <= nowMs + LONGEST_MS && Plain(depositor)
    ensures Sound(Shelved(m, e, depositor, tier, nowMs).0, nowMs)
  {
    var m' := Shelved(m, e, depositor, tier, nowMs).0;
    ShelvedOk(m, e, depositor, tier, nowMs);
    ShelvedPlain(m, e, depositor, tier, nowMs);
    assert m' == m || m' == Saved(m.(held := m'.held));
    SavedMirrors(m.(held := m'.held), nowMs);
  }

  lemma StepSound(m: Shelf, a: Action, nowMs: u64)
    requires Sound(m, nowMs)
    requires a.Offer? ==> WellFormed(a.envelope) && Plain(a.depositor)
    ensures Sound(Next(m, a, nowMs), nowMs)
  {
    match a
    case Switch(on) =>
      LessIsSound(m.(enabled := on), [], nowMs);
    case Offer(e, depositor, tier) =>
      PrunedSound(m, nowMs);
      if Considered(m, e, nowMs) {
        ShelvedSound(Pruned(m, nowMs), e, depositor, tier, nowMs);
      }
    case Sweep =>
      PrunedSound(m, nowMs);
    case Collect(tags) =>
      UnaddressedIsSub(m.held, tags);
      var taken := m.(delivered := m.delivered + |Addressed(m.held, tags)|);
      LessIsSound(taken, Unaddressed(m.held, tags), nowMs);
    case Wipe =>
      LessIsSound(m.(delivered := 0), [], nowMs);
    case Restart =>
      RestartSound(m, nowMs);
  }

  lemma RestartSound(m: Shelf, nowMs: u64)
    requires Sound(m, nowMs)
    ensures Sound(Opened(m.persistent, m.file, nowMs), nowMs)
    ensures m.persistent ==> Opened(m.persistent, m.file, nowMs).held == Live(m.held, nowMs)
  {
    var o := Opened(m.persistent, m.file, nowMs);
    if m.persistent {
      assert o.held == Live(m.held, nowMs);
      LiveIsSub(m.held, nowMs);
      SubOk(o.held, m.held);
      SubPlain(o.held, m.held);
      forall t: u64 | nowMs <= t ensures Live(ReadBack(o.file), t) == Live(o.held, t) {
        LiveLater(m.held, nowMs, t);
      }
    }
  }

  /**
   * In every state a run can reach, and at any later time, the shelf is within its limits and its file stands for it.
   */
  lemma {:induction false} RunIsSound(run: Run, k: nat, nowMs: u64)
    requires IsRun(run) && k <= |run.actions| && (k > 0 ==> run.times[k - 1] <= nowMs)
    ensures Sound(run.shelves[k], nowMs)
    decreases k
  {
    if k > 0 {
      var at := run.times[k - 1];
      RunIsSound(run, k - 1, at);
      assert NextAt(run, k - 1);
      StepSound(run.shelves[k - 1], run.actions[k - 1], at);
    }
  }

  /** Every item ever accepted is in exactly one of held, collected, evicted, expired and discarded. */
  lemma {:induction false} NothingIsLost(run: Run, k: nat, x: Held)
    requires IsRun(run) && k <= |run.actions|
    ensures Balanced(run.ledgers[k], run.shelves[k].held, x)
  {
    if k > 0 {
      NothingIsLost(run, k - 1, x);
      RunIsSound(run, k - 1, run.times[k - 1]);
      assert NextAt(run, k - 1);
      StepBalances(run.ledgers[k - 1], run.shelves[k - 1], run.actions[k - 1], run.times[k - 1], x);
    }
  }

  /**
   * The limits of the shelf and of each peer, no envelope twice, and none kept longer than a day and the allowed skew.
   */
  lemma ShelfLimitsHold(run: Run, k: nat, depositor: string)
    requires IsRun(run) && k <= |run.actions|
    ensures var held := run.shelves[k].held;
            && |held| <= 40 && VerifiedHeld(held) <= 20
            && CountFor(held, depositor) <= 5 && VerifiedFor(held, depositor) <= 2
            && (forall i, j :: 0 <= i < j < |held| ==> Fingerprint(held[i].envelope) != Fingerprint(held[j].envelope))
            && forall x :: x in held ==> x.envelope.expiryMs <= x.storedAtMs + 25 * 60 * 60 * 1000
  {
    RunIsSound(run, k, if k > 0 then run.times[k - 1] else 0);
    var held := run.shelves[k].held;
    forall i, j | 0 <= i < j < |held| ensures Fingerprint(held[i].envelope) != Fingerprint(held[j].envelope) {
      DistinctByIndex(held, i, j);
    }
  }

  /** A mailbox with a file, stopped at any point of any run and opened again at any later time, has what is in date. */
  lemma RestartRestores(run: Run, k: nat, nowMs: u64)
    requires IsRun(run) && k <= |run.actions| && (k > 0 ==> run.times[k - 1] <= nowMs) && run.shelves[k].persistent
    ensures Opened(true, run.shelves[k].file, nowMs).held == Live(run.shelves[k].held, nowMs)
  {
    RunIsSound(run, k, nowMs);
  }
}
