/** What becomes of a deposit, the shelf it leaves, what the file says and how much mail has been handed over. */
module MailboxAnswers {
  import opened Bytes
  import opened Texts
  import opened Courier
  import opened Mailboxes
  import opened ShelfLimits
  import opened MailboxRuns

  // ---------- Counting ----------

  ghost function From(held: seq<Held>, depositor: string): set<nat> {
    set i | 0 <= i < |held| && held[i].depositor == depositor
  }

  ghost function Strangers(held: seq<Held>): set<nat> {
    set i | 0 <= i < |held| && held[i].tier == Verified
  }

  lemma {:induction false} CountIsSize(held: seq<Held>, more: seq<Held>, depositor: string)
    ensures CountFor(held + more, depositor) == CountFor(held, depositor) + CountFor(more, depositor)
    ensures VerifiedHeld(held + more) == VerifiedHeld(held) + VerifiedHeld(more)
  {
    if held == [] {
      assert held + more == more;
    } else {
      assert (held + more)[1..] == held[1..] + more;
      CountIsSize(held[1..], more, depositor);
    }
  }

  lemma OneMoreFrom(held: seq<Held>, x: Held, depositor: string)
    ensures |From(held + [x], depositor)| == |From(held, depositor)| + (if x.depositor == depositor then 1 else 0)
  {
    var before := From(held, depositor);
    assert |held| !in before;
    assert From(held + [x], depositor) == before + (if x.depositor == depositor then {|held|} else {});
  }

  lemma OneMoreStranger(held: seq<Held>, x: Held)
    ensures |Strangers(held + [x])| == |Strangers(held)| + (if x.tier == Verified then 1 else 0)
  {
    var before := Strangers(held);
    assert |held| !in before;
    assert Strangers(held + [x]) == before + (if x.tier == Verified then {|held|} else {});
  }

  lemma CountOfOne(x: Held, depositor: string)
    ensures CountFor([x], depositor) == (if x.depositor == depositor then 1 else 0)
    ensures VerifiedHeld([x]) == (if x.tier == Verified then 1 else 0)
  {
    assert [x][1..] == [];
  }

  lemma {:induction false} Counted(held: seq<Held>, depositor: string)
    ensures CountFor(held, depositor) == |From(held, depositor)| && VerifiedHeld(held) == |Strangers(held)|
  {
    if held != [] {
      var front, x := held[..|held| - 1], held[|held| - 1];
      assert held == front + [x];
      Counted(front, depositor);
      CountIsSize(front, [x], depositor);
      CountOfOne(x, depositor);
      OneMoreFrom(front, x, depositor);
      OneMoreStranger(front, x);
    }
  }

  // ---------- The answer ----------

  ghost predicate HoldsSame(held: seq<Held>, e: Envelope) {
    exists i :: 0 <= i < |held| && Same(held[i].envelope, e)
  }

  /** The same mail, whatever its copy budget and prekey. */
  predicate Same(a: Envelope, b: Envelope) {
    a.tag == b.tag && a.expiryMs == b.expiryMs && a.ciphertext == b.ciphertext
  }

  /** The answer to a deposit, of which `live` is the mail not out of date. */
  ghost predicate DepositIs(r: Deposit, enabled: bool, live: seq<Held>, e: Envelope, depositor: string, tier: Tier,
                            nowMs: u64)
  {
    if !enabled then r == Refused("not holding mail")
    else if nowMs >= e.expiryMs then r == Refused("already expired")
    else if e.expiryMs - nowMs > 90_000_000 then r == Refused("wants holding for longer than we hold anything")
    else if HoldsSame(live, e) then r == AlreadyHeld
    else if |From(live, depositor)| >= (if tier == Favourite then 5 else 2)
    then r == Refused("this peer's share of the shelf is full")
    else if tier == Verified && |Strangers(live)| >= 20
    then r == Refused("no room left for mail from peers we do not know")
    else if |live| >= 40 && Strangers(live) == {} && tier == Verified
    then r == Refused("the shelf is full of favourites' mail")
    else r == Accepted
  }

  /** One item gone, the rest in their order. */
  predicate OneGone(held: seq<Held>, i: nat, left: seq<Held>) {
    i < |held| && left == held[..i] + held[i + 1..]
  }

  /** What a full shelf gives up: the oldest stranger's item, or the oldest of all if there is none. */
  ghost predicate GivesUp(held: seq<Held>, i: nat) {
    && i < |held| && (held[i].tier == Verified || (i == 0 && Strangers(held) == {}))
    && forall j :: 0 <= j < i ==> held[j].tier != Verified
  }

  /** The same item with the larger of the two copy budgets, and the others as they were. */
  ghost predicate MergedAt(held: seq<Held>, e: Envelope, i: nat, after: seq<Held>) {
    && i < |held| == |after| && Same(held[i].envelope, e)
    && (forall j :: 0 <= j < i ==> !Same(held[j].envelope, e))
    && (forall j :: 0 <= j < |held| && j != i ==> after[j] == held[j])
    && after[i] == held[i].(envelope := held[i].envelope.(copies := after[i].envelope.copies))
    && after[i].envelope.copies == (if held[i].envelope.copies < e.copies then e.copies else held[i].envelope.copies)
  }

  /** The shelf after a deposit that was looked at. */
  ghost predicate Leaves(r: Deposit, live: seq<Held>, x: Held, after: seq<Held>) {
    match r
    case Refused(_) => after == live
    case AlreadyHeld => exists i :: MergedAt(live, x.envelope, i, after)
    case Accepted =>
      if |live| < 40 then after == live + [x]
      else exists i, left :: GivesUp(live, i) && OneGone(live, i, left) && after == left + [x]
  }

  lemma SameIsFound(held: seq<Held>, e: Envelope)
    ensures FirstSame(held, e) < |held| <==> HoldsSame(held, e)
  {
    if HoldsSame(held, e) {
      var i :| 0 <= i < |held| && Same(held[i].envelope, e);
      assert Fingerprint(held[i].envelope) == Fingerprint(e);
    } else if FirstSame(held, e) < |held| {
      assert Same(held[FirstSame(held, e)].envelope, e);
    }
  }

  lemma StrangerIsFound(held: seq<Held>)
    ensures FirstVerified(held) < |held| <==> Strangers(held) != {}
  {
    if FirstVerified(held) < |held| {
      assert FirstVerified(held) in Strangers(held);
    }
  }

  lemma ShelvedAnswer(m: Shelf, e: Envelope, depositor: string, tier: Tier, nowMs: u64)
    requires m.enabled && nowMs < e.expiryMs <= nowMs + 90_000_000
    ensures DepositIs(Shelved(m, e, depositor, tier, nowMs).1, true, m.held, e, depositor, tier, nowMs)
  {
    SameIsFound(m.held, e);
    StrangerIsFound(m.held);
    Counted(m.held, depositor);
  }

  lemma Merged(held: seq<Held>, e: Envelope)
    requires FirstSame(held, e) < |held|
    ensures MergedAt(held, e, FirstSame(held, e), MoreCopies(held, FirstSame(held, e), e.copies))
  {
    forall j | 0 <= j < FirstSame(held, e) ensures !Same(held[j].envelope, e) {
      assert Fingerprint(held[j].envelope) != Fingerprint(e);
    }
  }

  lemma RoomGivesUp(held: seq<Held>, tier: Tier)
    requires held != [] && Room(held, tier).Some?
    ensures GivesUp(held, Victim(held)) && OneGone(held, Victim(held), Room(held, tier).value)
  {
    StrangerIsFound(held);
    RoomIsVictims(held, tier);
  }

  lemma ShelvedLeaves(m: Shelf, e: Envelope, depositor: string, tier: Tier, nowMs: u64)
    ensures var (m', r) := Shelved(m, e, depositor, tier, nowMs);
            Leaves(r, m.held, Held(e, depositor, tier, nowMs), m'.held)
  {
    if FirstSame(m.held, e) < |m.held| {
      Merged(m.held, e);
    } else if |m.held| >= 40 && Room(m.held, tier).Some? {
      RoomGivesUp(m.held, tier);
    }
  }

  /** What a deposit is answered, and the shelf it leaves; one that is not looked at leaves it as it was. */
  lemma DepositFollows(m: Shelf, e: Envelope, depositor: string, tier: Tier, nowMs: u64)
    ensures var (m', r) := Deposited(m, e, depositor, tier, nowMs);
            && DepositIs(r, m.enabled, Live(m.held, nowMs), e, depositor, tier, nowMs)
            && (if m.enabled && nowMs < e.expiryMs <= nowMs + 90_000_000
                then Leaves(r, Live(m.held, nowMs), Held(e, depositor, tier, nowMs), m'.held)
                else m' == m)
  {
    PrunedIsLive(m, nowMs);
    if m.enabled && nowMs < e.expiryMs <= nowMs + 90_000_000 {
      ShelvedAnswer(Pruned(m, nowMs), e, depositor, tier, nowMs);
      ShelvedLeaves(Pruned(m, nowMs), e, depositor, tier, nowMs);
    }
  }

  // ---------- The file ----------

  lemma JoinOne(part: string, rest: seq<string>, joined: string)
    requires rest != [] && joined == Join(rest, '\t')
    ensures Join([part] + rest, '\t') == part + "\t" + joined
  {
    assert ([part] + rest)[1..] == rest;
  }

  /** A line of the file: the envelope in hex, who left it, as what, and when. */
  lemma RowIs(x: Held)
    ensures Row(x) == Hex(Encoded(x.envelope)) + "\t"
                   + (x.depositor + "\t"
                      + ((if x.tier == Favourite then "favourite" else "verified") + "\t" + Decimal(x.storedAtMs)))
  {
    var a, b, c, d := Hex(Encoded(x.envelope)), x.depositor, Label(x.tier), Decimal(x.storedAtMs);
    assert Join([d], '\t') == d;
    JoinOne(c, [d], d);
    JoinOne(b, [c] + [d], c + "\t" + d);
    JoinOne(a, [b] + ([c] + [d]), b + "\t" + (c + "\t" + d));
    assert [a, b, c, d] == [a] + ([b] + ([c] + [d]));
  }

  // ---------- Mail handed over ----------

  /** How much mail has been handed over since the mailbox was last opened or wiped. */
  function HandedOver(run: Run, k: nat): nat
    requires k <= |run.actions| == |run.replies|
  {
    if k == 0 || run.actions[k - 1] == Wipe || run.actions[k - 1] == Restart then 0
    else HandedOver(run, k - 1) + (if run.replies[k - 1].Handed? then |run.replies[k - 1].mail| else 0)
  }

  lemma DeliveredStep(m: Shelf, a: Action, nowMs: u64)
    ensures Next(m, a, nowMs).delivered
         == if a == Wipe || a == Restart then 0
            else m.delivered + (if a.Collect? then |Collected(m, a.tags).1| else 0)
  {
    if a.Collect? {
      EnvelopesLength(Addressed(m.held, a.tags));
    }
  }

  lemma {:induction false} DeliveredIsHandedOver(run: Run, k: nat)
    requires IsRun(run) && k <= |run.actions|
    ensures run.shelves[k].delivered == HandedOver(run, k)
  {
    if k > 0 {
      DeliveredIsHandedOver(run, k - 1);
      assert NextAt(run, k - 1);
      DeliveredStep(run.shelves[k - 1], run.actions[k - 1], run.times[k - 1]);
    }
  }
}
