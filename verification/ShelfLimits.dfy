/** What the shelf may hold, when it takes a deposit and what a deposit may cost. */
module ShelfLimits {
  import opened Bytes
  import opened Courier
  import opened Mailboxes

  // ---------- What a shelf may hold ----------

  ghost predicate DistinctMail(held: seq<Held>) {
    held == []
    || (DistinctMail(held[1..])
        && forall x :: x in held[1..] ==> Fingerprint(x.envelope) != Fingerprint(held[0].envelope))
  }

  predicate ItemOk(x: Held) {
    WellFormed(x.envelope) && x.envelope.expiryMs <= x.storedAtMs + LONGEST_MS
  }

  ghost predicate SharesOk(held: seq<Held>) {
    forall d :: CountFor(held, d) <= MAX_PER_FAVOURITE && VerifiedFor(held, d) <= MAX_PER_VERIFIED
  }

  ghost predicate ShelfOk(held: seq<Held>) {
    && |held| <= MAX_HELD && VerifiedHeld(held) <= MAX_VERIFIED_HELD && SharesOk(held) && DistinctMail(held)
    && forall x :: x in held ==> ItemOk(x)
  }

  lemma {:induction false} DistinctByIndex(held: seq<Held>, i: nat, j: nat)
    requires DistinctMail(held) && i < j < |held|
    ensures Fingerprint(held[i].envelope) != Fingerprint(held[j].envelope)
  {
    if i == 0 {
      assert held[j] == held[1..][j - 1];
    } else {
      DistinctByIndex(held[1..], i - 1, j - 1);
    }
  }

  /** `a` is `b` with some items left out. */
  ghost predicate Sub(a: seq<Held>, b: seq<Held>) {
    a == [] || (b != [] && ((a[0] == b[0] && Sub(a[1..], b[1..])) || Sub(a, b[1..])))
  }

  lemma {:induction false} SubCounts(a: seq<Held>, b: seq<Held>, d: string)
    requires Sub(a, b)
    ensures |a| <= |b| && VerifiedHeld(a) <= VerifiedHeld(b)
    ensures CountFor(a, d) <= CountFor(b, d) && VerifiedFor(a, d) <= VerifiedFor(b, d)
    decreases |b|
  {
    if a != [] {
      if a[0] == b[0] && Sub(a[1..], b[1..]) {
        SubCounts(a[1..], b[1..], d);
      } else {
        SubCounts(a, b[1..], d);
      }
    }
  }

  lemma {:induction false} SubElements(a: seq<Held>, b: seq<Held>, x: Held)
    requires Sub(a, b) && x in a
    ensures x in b
    decreases |b|
  {
    if a[0] == b[0] && Sub(a[1..], b[1..]) {
      if x != a[0] {
        SubElements(a[1..], b[1..], x);
      }
    } else {
      SubElements(a, b[1..], x);
    }
  }

  lemma {:induction false} SubDistinct(a: seq<Held>, b: seq<Held>)
    requires Sub(a, b) && DistinctMail(b)
    ensures DistinctMail(a)
    decreases |b|
  {
    if a != [] {
      if a[0] == b[0] && Sub(a[1..], b[1..]) {
        SubDistinct(a[1..], b[1..]);
        forall x | x in a[1..] ensures Fingerprint(x.envelope) != Fingerprint(a[0].envelope) {
          SubElements(a[1..], b[1..], x);
        }
      } else {
        SubDistinct(a, b[1..]);
      }
    }
  }

  /** Taking items off a shelf breaks none of its limits. */
  lemma SubOk(a: seq<Held>, b: seq<Held>)
    requires Sub(a, b) && ShelfOk(b)
    ensures ShelfOk(a)
  {
    SubCounts(a, b, "");
    SubDistinct(a, b);
    forall d ensures CountFor(a, d) <= MAX_PER_FAVOURITE && VerifiedFor(a, d) <= MAX_PER_VERIFIED {
      SubCounts(a, b, d);
    }
    forall x | x in a ensures ItemOk(x) {
      SubElements(a, b, x);
    }
  }

  lemma {:induction false} SubSelf(a: seq<Held>)
    ensures Sub(a, a)
  {
    if a != [] {
      SubSelf(a[1..]);
    }
  }

  lemma {:induction false} LiveIsSub(held: seq<Held>, nowMs: u64)
    ensures Sub(Live(held, nowMs), held)
  {
    if held != [] {
      LiveIsSub(held[1..], nowMs);
      assert !IsExpired(held[0].envelope, nowMs) ==> Live(held, nowMs)[1..] == Live(held[1..], nowMs);
    }
  }

  lemma {:induction false} UnaddressedIsSub(held: seq<Held>, tags: seq<Tag>)
    ensures Sub(Unaddressed(held, tags), held)
  {
    if held != [] {
      UnaddressedIsSub(held[1..], tags);
      assert held[0].envelope.tag !in tags ==> Unaddressed(held, tags)[1..] == Unaddressed(held[1..], tags);
    }
  }

  lemma {:induction false} WithoutIsSub(held: seq<Held>, i: nat)
    requires i < |held|
    ensures Sub(Without(held, i), held)
  {
    if i == 0 {
      assert Without(held, 0) == held[1..];
      SubSelf(held[1..]);
    } else {
      WithoutIsSub(held[1..], i - 1);
      assert Without(held, i)[1..] == Without(held[1..], i - 1);
    }
  }

  // ---------- Taking a deposit ----------

  lemma {:induction false} PushCounts(held: seq<Held>, x: Held, d: string)
    ensures CountFor(held + [x], d) == CountFor(held, d) + (if x.depositor == d then 1 else 0)
    ensures VerifiedFor(held + [x], d)
         == VerifiedFor(held, d) + (if x.depositor == d && x.tier == Verified then 1 else 0)
    ensures VerifiedHeld(held + [x]) == VerifiedHeld(held) + (if x.tier == Verified then 1 else 0)
  {
    if held == [] {
      assert (held + [x])[1..] == [];
    } else {
      assert (held + [x])[1..] == held[1..] + [x];
      PushCounts(held[1..], x, d);
    }
  }

  lemma {:induction false} PushDistinct(held: seq<Held>, x: Held)
    requires DistinctMail(held) && forall y :: y in held ==> Fingerprint(y.envelope) != Fingerprint(x.envelope)
    ensures DistinctMail(held + [x])
  {
    if held != [] {
      assert (held + [x])[1..] == held[1..] + [x];
      PushDistinct(held[1..], x);
    }
  }

  lemma {:induction false} VerifiedWithinCount(held: seq<Held>, d: string)
    ensures VerifiedFor(held, d) <= CountFor(held, d)
  {
    if held != [] {
      VerifiedWithinCount(held[1..], d);
    }
  }

  lemma PushOk(held: seq<Held>, x: Held)
    requires ShelfOk(held) && |held| < MAX_HELD && ItemOk(x) && CountFor(held, x.depositor) < Quota(x.tier)
    requires x.tier == Verified ==> VerifiedHeld(held) < MAX_VERIFIED_HELD
    requires forall y :: y in held ==> Fingerprint(y.envelope) != Fingerprint(x.envelope)
    ensures ShelfOk(held + [x])
  {
    PushCounts(held, x, "");
    PushDistinct(held, x);
    forall d ensures CountFor(held + [x], d) <= MAX_PER_FAVOURITE && VerifiedFor(held + [x], d) <= MAX_PER_VERIFIED {
      PushCounts(held, x, d);
      VerifiedWithinCount(held, d);
    }
  }

  lemma {:induction false} MoreCopiesOk(held: seq<Held>, i: nat, copies: byte)
    requires i < |held| && DistinctMail(held) && copies <= MAX_COPIES && (forall x :: x in held ==> ItemOk(x))
    ensures var more := MoreCopies(held, i, copies);
            DistinctMail(more) && VerifiedHeld(more) == VerifiedHeld(held) && (forall x :: x in more ==> ItemOk(x))
    ensures forall x :: x in MoreCopies(held, i, copies)
              ==> exists y :: y in held && Fingerprint(x.envelope) == Fingerprint(y.envelope)
  {
    var more := MoreCopies(held, i, copies);
    assert held[i] in held && ItemOk(more[i]);
    if i == 0 {
      assert more[1..] == held[1..];
    } else {
      MoreCopiesOk(held[1..], i - 1, copies);
      assert more[1..] == MoreCopies(held[1..], i - 1, copies);
    }
  }

  lemma {:induction false} MoreCopiesCounts(held: seq<Held>, i: nat, copies: byte, d: string)
    requires i < |held|
    ensures CountFor(MoreCopies(held, i, copies), d) == CountFor(held, d)
    ensures VerifiedFor(MoreCopies(held, i, copies), d) == VerifiedFor(held, d)
  {
    var more := MoreCopies(held, i, copies);
    if i == 0 {
      assert more[1..] == held[1..];
    } else {
      MoreCopiesCounts(held[1..], i - 1, copies, d);
      assert more[1..] == MoreCopies(held[1..], i - 1, copies);
    }
  }

  lemma RoomIsSub(held: seq<Held>, tier: Tier)
    requires Room(held, tier).Some?
    ensures Sub(Room(held, tier).value, held) && |Room(held, tier).value| == |held| - 1
  {
    if FirstVerified(held) < |held| {
      WithoutIsSub(held, FirstVerified(held));
    } else {
      SubSelf(held[1..]);
    }
  }

  /** A deposit, whatever comes of it, leaves a shelf within all its limits. */
  lemma ShelvedOk(m: Shelf, e: Envelope, depositor: string, tier: Tier, nowMs: u64)
    requires ShelfOk(m.held) && WellFormed(e) && e.expiryMs <= nowMs + LONGEST_MS
    ensures ShelfOk(Shelved(m, e, depositor, tier, nowMs).0.held)
  {
    var same := FirstSame(m.held, e);
    if same < |m.held| {
      MoreCopiesOk(m.held, same, e.copies);
      forall d ensures CountFor(MoreCopies(m.held, same, e.copies), d) <= MAX_PER_FAVOURITE
                    && VerifiedFor(MoreCopies(m.held, same, e.copies), d) <= MAX_PER_VERIFIED
      {
        MoreCopiesCounts(m.held, same, e.copies, d);
      }
    } else if Shelved(m, e, depositor, tier, nowMs).1 == Accepted {
      var room := if |m.held| >= MAX_HELD then Room(m.held, tier).value else m.held;
      if |m.held| >= MAX_HELD {
        RoomIsSub(m.held, tier);
      } else {
        SubSelf(m.held);
      }
      SubOk(room, m.held);
      SubCounts(room, m.held, depositor);
      forall y | y in room ensures Fingerprint(y.envelope) != Fingerprint(e) {
        SubElements(room, m.held, y);
      }
      PushOk(room, Held(e, depositor, tier, nowMs));
    }
  }

  /** A deposit is taken exactly if nothing the shelf promises stands against it. */
  lemma AcceptedExactlyWhen(m: Shelf, e: Envelope, depositor: string, tier: Tier, nowMs: u64)
    ensures var live := Live(m.held, nowMs);
            Deposited(m, e, depositor, tier, nowMs).1 == Accepted
            <==> && m.enabled && nowMs < e.expiryMs <= nowMs + LONGEST_MS
                 && (forall x :: x in live ==> Fingerprint(x.envelope) != Fingerprint(e))
                 && CountFor(live, depositor) < Quota(tier)
                 && (tier == Verified ==> VerifiedHeld(live) < MAX_VERIFIED_HELD)
                 && (|live| < MAX_HELD || tier == Favourite || VerifiedHeld(live) > 0)
  {
    var live := Live(m.held, nowMs);
    PrunedIsLive(m, nowMs);
    VerifiedIsFound(live);
    var same := FirstSame(live, e);
    if same < |live| {
      assert live[same] in live;
    }
  }

  lemma PrunedIsLive(m: Shelf, nowMs: u64)
    ensures Pruned(m, nowMs).held == Live(m.held, nowMs) && Pruned(m, nowMs).enabled == m.enabled
  {
    if |Live(m.held, nowMs)| == |m.held| {
      SameLength(m.held, nowMs);
    }
  }

  lemma {:induction false} VerifiedIsFound(held: seq<Held>)
    ensures FirstVerified(held) < |held| <==> VerifiedHeld(held) > 0
  {
    if held != [] {
      VerifiedIsFound(held[1..]);
    }
  }

  // ---------- Favourites' mail is safe from strangers ----------

  /** An item whatever its copy budget, which handing the same mail over again may raise. */
  function Key(x: Held): Held {
    x.(envelope := x.envelope.(copies := 1))
  }

  function FavouriteKeys(held: seq<Held>): seq<Held> {
    if held == [] then []
    else if held[0].tier == Favourite then [Key(held[0])] + FavouriteKeys(held[1..])
    else FavouriteKeys(held[1..])
  }

  lemma {:induction false} FavouritesKept(held: seq<Held>, i: nat, copies: byte)
    requires i < |held|
    ensures FavouriteKeys(MoreCopies(held, i, copies)) == FavouriteKeys(held)
    ensures held[i].tier == Verified ==> FavouriteKeys(Without(held, i)) == FavouriteKeys(held)
  {
    var more := MoreCopies(held, i, copies);
    if i == 0 {
      assert more[1..] == held[1..] && Without(held, 0) == held[1..];
    } else {
      FavouritesKept(held[1..], i - 1, copies);
      assert more[1..] == MoreCopies(held[1..], i - 1, copies);
      assert Without(held, i)[0] == held[0] && Without(held, i)[1..] == Without(held[1..], i - 1);
    }
  }

  lemma {:induction false} FavouritesOfPushed(held: seq<Held>, x: Held)
    requires x.tier == Verified
    ensures FavouriteKeys(held + [x]) == FavouriteKeys(held)
  {
    if held == [] {
      assert (held + [x])[1..] == [];
    } else {
      assert (held + [x])[1..] == held[1..] + [x];
      FavouritesOfPushed(held[1..], x);
    }
  }

  /** A deposit from a peer that is no favourite never costs a favourite anything that had not expired. */
  lemma StrangersEvictNoFavourite(m: Shelf, e: Envelope, depositor: string, nowMs: u64)
    ensures var (m', r) := Deposited(m, e, depositor, Verified, nowMs);
            m' == m || FavouriteKeys(m'.held) == FavouriteKeys(Live(m.held, nowMs))
  {
    PrunedIsLive(m, nowMs);
    ShelvingKeepsFavourites(Pruned(m, nowMs), e, depositor, nowMs);
  }

  lemma ShelvingKeepsFavourites(m: Shelf, e: Envelope, depositor: string, nowMs: u64)
    ensures FavouriteKeys(Shelved(m, e, depositor, Verified, nowMs).0.held) == FavouriteKeys(m.held)
  {
    var same := FirstSame(m.held, e);
    if same < |m.held| {
      FavouritesKept(m.held, same, e.copies);
    } else {
      if FirstVerified(m.held) < |m.held| {
        FavouritesKept(m.held, FirstVerified(m.held), 1);
        FavouritesOfPushed(Without(m.held, FirstVerified(m.held)), Held(e, depositor, Verified, nowMs));
      }
      FavouritesOfPushed(m.held, Held(e, depositor, Verified, nowMs));
    }
  }
}
