/** The mail that leaves the shelf: which envelopes are handed over, which stay, and what callers are told in runs. */
module MailboxMail {
  import opened Bytes
  import opened Courier
  import opened Mailboxes
  import opened MailboxRuns

  // ---------- What is picked from a shelf ----------

  ghost predicate Rising(places: seq<nat>) {
    forall i, j :: 0 <= i < j < |places| ==> places[i] < places[j]
  }

  /** `picked` are the items of the shelf at these places, in the order of the shelf. */
  ghost predicate PickedAt(picked: seq<Held>, held: seq<Held>, places: seq<nat>) {
    && Rising(places) && |picked| == |places|
    && forall i :: 0 <= i < |places| ==> places[i] < |held| && picked[i] == held[places[i]]
  }

  function Later(places: seq<nat>): (later: seq<nat>)
    ensures |later| == |places| && forall i :: 0 <= i < |places| ==> later[i] == places[i] + 1
  {
    seq(|places|, i requires 0 <= i < |places| => places[i] + 1)
  }

  /** A first item in front moves all places on by one, and is a place itself if it is picked. */
  lemma PickedOneMore(picked: seq<Held>, held: seq<Held>, places: seq<nat>, x: Held)
    requires PickedAt(picked, held, places)
    ensures PickedAt(picked, [x] + held, Later(places)) && PickedAt([x] + picked, [x] + held, [0] + Later(places))
    ensures forall p :: p in Later(places) <==> p > 0 && p - 1 in places
  {
    var later := Later(places);
    forall p ensures p in later <==> p > 0 && p - 1 in places {
      if p > 0 && p - 1 in places {
        var i :| 0 <= i < |places| && places[i] == p - 1;
        assert later[i] == p;
      }
    }
  }

  /** The addressed items are those whose tag is asked for, in the order of the shelf. */
  lemma {:induction false} AddressedInOrder(held: seq<Held>, tags: seq<Tag>) returns (places: seq<nat>)
    ensures PickedAt(Addressed(held, tags), held, places)
    ensures forall p: nat :: p in places <==> p < |held| && held[p].envelope.tag in tags
  {
    if held == [] {
      places := [];
    } else {
      var rest := AddressedInOrder(held[1..], tags);
      PickedOneMore(Addressed(held[1..], tags), held[1..], rest, held[0]);
      assert [held[0]] + held[1..] == held;
      places := if held[0].envelope.tag in tags then [0] + Later(rest) else Later(rest);
    }
  }

  /** And what stays are the others. */
  lemma {:induction false} UnaddressedInOrder(held: seq<Held>, tags: seq<Tag>) returns (places: seq<nat>)
    ensures PickedAt(Unaddressed(held, tags), held, places)
    ensures forall p: nat :: p in places <==> p < |held| && held[p].envelope.tag !in tags
  {
    if held == [] {
      places := [];
    } else {
      var rest := UnaddressedInOrder(held[1..], tags);
      PickedOneMore(Unaddressed(held[1..], tags), held[1..], rest, held[0]);
      assert [held[0]] + held[1..] == held;
      places := if held[0].envelope.tag !in tags then [0] + Later(rest) else Later(rest);
    }
  }

  /** What survives a sweep is what is in date: its expiry is still to come. */
  lemma {:induction false} LiveInOrder(held: seq<Held>, nowMs: u64) returns (places: seq<nat>)
    ensures PickedAt(Live(held, nowMs), held, places)
    ensures forall p: nat :: p in places <==> p < |held| && nowMs < held[p].envelope.expiryMs
  {
    if held == [] {
      places := [];
    } else {
      var rest := LiveInOrder(held[1..], nowMs);
      PickedOneMore(Live(held[1..], nowMs), held[1..], rest, held[0]);
      assert [held[0]] + held[1..] == held;
      places := if nowMs < held[0].envelope.expiryMs then [0] + Later(rest) else Later(rest);
    }
  }

  lemma {:induction false} EnvelopesAre(held: seq<Held>)
    ensures |Envelopes(held)| == |held| && forall i :: 0 <= i < |held| ==> Envelopes(held)[i] == held[i].envelope
  {
    if held != [] {
      EnvelopesAre(held[1..]);
    }
  }

  /**
   * Collecting hands over exactly the envelopes on the shelf with one of these tags, each once for each time it is
   * there and in the order of the shelf; exactly the others stay, in their order.
   */
  lemma CollectedExactly(m: Shelf, tags: seq<Tag>) returns (theirs: seq<nat>, kept: seq<nat>)
    ensures var (m', mail) := Collected(m, tags);
            && Rising(theirs) && |mail| == |theirs|
            && (forall i :: 0 <= i < |mail| ==> theirs[i] < |m.held| && mail[i] == m.held[theirs[i]].envelope)
            && (forall p: nat :: p in theirs <==> p < |m.held| && m.held[p].envelope.tag in tags)
            && PickedAt(m'.held, m.held, kept)
            && forall p: nat :: p in kept <==> p < |m.held| && m.held[p].envelope.tag !in tags
  {
    theirs := AddressedInOrder(m.held, tags);
    kept := UnaddressedInOrder(m.held, tags);
    EnvelopesAre(Addressed(m.held, tags));
    AllUnaddressed(m.held, tags);
  }

  // ---------- What callers are told over whole runs ----------

  /** All mail handed over by the first `k` actions, in order. */
  function AllHanded(run: Run, k: nat): seq<Envelope>
    requires k <= |run.replies|
  {
    if k == 0 then []
    else AllHanded(run, k - 1) + (if run.replies[k - 1].Handed? then run.replies[k - 1].mail else [])
  }

  lemma {:induction false} EnvelopesJoin(a: seq<Held>, b: seq<Held>)
    ensures Envelopes(a + b) == Envelopes(a) + Envelopes(b)
  {
    if a == [] {
      assert a + b == b;
    } else {
      assert (a + b)[1..] == a[1..] + b;
      EnvelopesJoin(a[1..], b);
    }
  }

  /** The mail handed over is what the ledger has as collected, envelope by envelope: none withheld, none made up. */
  lemma {:induction false} HandedIsCollected(run: Run, k: nat)
    requires IsRun(run) && k <= |run.actions|
    ensures AllHanded(run, k) == Envelopes(run.ledgers[k].collected)
  {
    if k > 0 {
      HandedIsCollected(run, k - 1);
      assert NextAt(run, k - 1);
      StepHands(run.ledgers[k - 1], run.shelves[k - 1], run.actions[k - 1], run.times[k - 1]);
    }
  }

  lemma StepHands(b: Ledger, m: Shelf, a: Action, nowMs: u64)
    ensures var r := Replied(m, a, nowMs);
            Envelopes(Entered(b, m, a, nowMs).collected)
            == Envelopes(b.collected) + (if r.Handed? then r.mail else [])
  {
    if a.Collect? {
      EnvelopesJoin(b.collected, Addressed(m.held, a.tags));
    }
  }

  /** What the first `k` actions offered and were told is accepted, in order. */
  function AllTaken(run: Run, k: nat): seq<Held>
    requires k <= |run.replies| == |run.actions| == |run.times|
  {
    if k == 0 then []
    else
      var a := run.actions[k - 1];
      AllTaken(run, k - 1)
      + (if a.Offer? && run.replies[k - 1] == Told(Accepted)
         then [Held(a.envelope, a.depositor, a.tier, run.times[k - 1])] else [])
  }

  /** A deposit is in the ledger exactly if its depositor was told so. */
  lemma {:induction false} ToldIsAccepted(run: Run, k: nat)
    requires IsRun(run) && k <= |run.actions|
    ensures AllTaken(run, k) == run.ledgers[k].accepted
  {
    if k > 0 {
      ToldIsAccepted(run, k - 1);
      assert NextAt(run, k - 1);
      StepTells(run.ledgers[k - 1], run.shelves[k - 1], run.actions[k - 1], run.times[k - 1]);
    }
  }

  lemma StepTells(b: Ledger, m: Shelf, a: Action, nowMs: u64)
    ensures Entered(b, m, a, nowMs).accepted
         == b.accepted + (if a.Offer? && Replied(m, a, nowMs) == Told(Accepted)
                          then [Held(a.envelope, a.depositor, a.tier, nowMs)] else [])
  {
  }
}
