/** The shelf mail waits on: quotas, eviction, expiry, and the file that lets it survive a restart. */
module Mailboxes {
  import opened Prelude
  import opened Bytes
  import opened Texts
  import opened Courier

  const MAX_HELD := 40
  const MAX_VERIFIED_HELD := 20
  const MAX_PER_FAVOURITE := 5
  const MAX_PER_VERIFIED := 2
  const EXPIRY_SLACK_SECONDS := 60 * 60
  const LONGEST_MS := (MAX_LIFETIME_SECONDS + EXPIRY_SLACK_SECONDS) * 1000

  datatype Tier = Favourite | Verified

  function Quota(tier: Tier): nat {
    if tier == Favourite then MAX_PER_FAVOURITE else MAX_PER_VERIFIED
  }

  datatype Deposit = Accepted | AlreadyHeld | Refused(why: string)
  datatype Held = Held(envelope: Envelope, depositor: string, tier: Tier, storedAtMs: u64)

  /** A mailbox and the file behind it, if it has a path at all and there is one. */
  datatype Shelf = Shelf(enabled: bool, held: seq<Held>, delivered: nat, persistent: bool, file: Option<string>)

  // ---------- Looking along the shelf ----------

  function Live(held: seq<Held>, nowMs: u64): (live: seq<Held>)
    ensures |live| <= |held|
  {
    if held == [] then []
    else if IsExpired(held[0].envelope, nowMs) then Live(held[1..], nowMs)
    else [held[0]] + Live(held[1..], nowMs)
  }

  function CountFor(held: seq<Held>, depositor: string): nat {
    if held == [] then 0 else (if held[0].depositor == depositor then 1 else 0) + CountFor(held[1..], depositor)
  }

  function VerifiedFor(held: seq<Held>, depositor: string): nat {
    if held == [] then 0
    else
      (if held[0].depositor == depositor && held[0].tier == Verified then 1 else 0) + VerifiedFor(held[1..], depositor)
  }

  function VerifiedHeld(held: seq<Held>): nat {
    if held == [] then 0 else (if held[0].tier == Verified then 1 else 0) + VerifiedHeld(held[1..])
  }

  function FirstVerified(held: seq<Held>): (i: nat)
    ensures i <= |held| && forall j :: 0 <= j < i ==> held[j].tier != Verified
    ensures i < |held| ==> held[i].tier == Verified
  {
    if held == [] || held[0].tier == Verified then 0
    else
      var i := FirstVerified(held[1..]);
      assert held[0].tier != Verified && forall j :: 1 <= j <= i ==> held[j] == held[1..][j - 1];
      1 + i
  }

  function FirstSame(held: seq<Held>, e: Envelope): (i: nat)
    ensures i <= |held| && forall j :: 0 <= j < i ==> Fingerprint(held[j].envelope) != Fingerprint(e)
    ensures i < |held| ==> Fingerprint(held[i].envelope) == Fingerprint(e)
  {
    if held == [] || Fingerprint(held[0].envelope) == Fingerprint(e) then 0
    else
      var i := FirstSame(held[1..], e);
      assert forall j :: 1 <= j <= i ==> held[j] == held[1..][j - 1];
      1 + i
  }

  function Without(held: seq<Held>, i: nat): seq<Held>
    requires i < |held|
  {
    held[..i] + held[i + 1..]
  }

  function Addressed(held: seq<Held>, tags: seq<Tag>): seq<Held> {
    if held == [] then []
    else if held[0].envelope.tag in tags then [held[0]] + Addressed(held[1..], tags)
    else Addressed(held[1..], tags)
  }

  function Unaddressed(held: seq<Held>, tags: seq<Tag>): seq<Held> {
    if held == [] then []
    else if held[0].envelope.tag in tags then Unaddressed(held[1..], tags)
    else [held[0]] + Unaddressed(held[1..], tags)
  }

  function Envelopes(held: seq<Held>): seq<Envelope> {
    if held == [] then [] else [held[0].envelope] + Envelopes(held[1..])
  }

  // ---------- The file ----------

  function Label(tier: Tier): string {
    if tier == Favourite then "favourite" else "verified"
  }

  function Row(x: Held): string {
    Join([Hex(Encoded(x.envelope)), x.depositor, Label(x.tier), Decimal(x.storedAtMs)], '\t')
  }

  /** An envelope that does not encode is left out. */
  function Rows(held: seq<Held>): seq<string> {
    if held == [] then []
    else if SizeFits(held[0].envelope.ciphertext) then [Row(held[0])] + Rows(held[1..])
    else Rows(held[1..])
  }

  function ReadTier(word: string): Option<Tier> {
    if word == "favourite" then Some(Favourite) else if word == "verified" then Some(Verified) else None
  }

  function ReadRow(row: string): Option<Held> {
    var fields := Split(row, '\t');
    if |fields| < 4 then None
    else
      var wire :- Unhex(fields[0]);
      var envelope :- Decoded(wire);
      var tier :- ReadTier(fields[2]);
      var storedAtMs :- ParseU64(fields[3]);
      Some(Held(envelope, fields[1], tier, storedAtMs))
  }

  /** Rows that do not read are skipped. */
  function ReadRows(rows: seq<string>): seq<Held> {
    if rows == [] then []
    else (if ReadRow(rows[0]).Some? then [ReadRow(rows[0]).value] else []) + ReadRows(rows[1..])
  }

  function ReadBack(file: Option<string>): seq<Held> {
    if file.None? then [] else ReadRows(Lines(file.value))
  }

  /** Writes are taken to succeed; an empty shelf leaves no file. */
  function Saved(m: Shelf): Shelf {
    if !m.persistent then m
    else m.(file := if m.held == [] then None else Some(Join(Rows(m.held), '\n')))
  }

  function Opened(persistent: bool, file: Option<string>, nowMs: u64): Shelf {
    Shelf(false, if persistent then Live(ReadBack(file), nowMs) else [], 0, persistent, file)
  }

  // ---------- Operations on values ----------

  function Switched(m: Shelf, on: bool): Shelf {
    if on then m.(enabled := true) else Saved(m.(enabled := false, held := []))
  }

  function Pruned(m: Shelf, nowMs: u64): Shelf {
    if |Live(m.held, nowMs)| < |m.held| then Saved(m.(held := Live(m.held, nowMs))) else m
  }

  /** The shelf with one slot freed for this tier, if it will be. */
  function Room(held: seq<Held>, incoming: Tier): Option<seq<Held>> {
    if FirstVerified(held) < |held| then Some(Without(held, FirstVerified(held)))
    else if incoming == Favourite && held != [] then Some(held[1..])
    else None
  }

  function MoreCopies(held: seq<Held>, i: nat, copies: byte): seq<Held>
    requires i < |held|
  {
    var e := held[i].envelope;
    held[i := held[i].(envelope := e.(copies := if copies > e.copies then copies else e.copies))]
  }

  function Deposited(m: Shelf, e: Envelope, depositor: string, tier: Tier, nowMs: u64): (Shelf, Deposit) {
    if !m.enabled then (m, Refused("not holding mail"))
    else if IsExpired(e, nowMs) then (m, Refused("already expired"))
    else if e.expiryMs > nowMs + LONGEST_MS then (m, Refused("wants holding for longer than we hold anything"))
    else Shelved(Pruned(m, nowMs), e, depositor, tier, nowMs)
  }

  function Shelved(m: Shelf, e: Envelope, depositor: string, tier: Tier, nowMs: u64): (Shelf, Deposit) {
    var same := FirstSame(m.held, e);
    if same < |m.held| then (Saved(m.(held := MoreCopies(m.held, same, e.copies))), AlreadyHeld)
    else if CountFor(m.held, depositor) >= Quota(tier) then (m, Refused("this peer's share of the shelf is full"))
    else if tier == Verified && VerifiedHeld(m.held) >= MAX_VERIFIED_HELD
    then (m, Refused("no room left for mail from peers we do not know"))
    else
      var room := if |m.held| >= MAX_HELD then Room(m.held, tier) else Some(m.held);
      if room.None? then (m, Refused("the shelf is full of favourites' mail"))
      else (Saved(m.(held := room.value + [Held(e, depositor, tier, nowMs)])), Accepted)
  }

  function Collected(m: Shelf, tags: seq<Tag>): (Shelf, seq<Envelope>) {
    var theirs := Addressed(m.held, tags);
    (if theirs == [] then m
     else Saved(m.(held := Unaddressed(m.held, tags), delivered := m.delivered + |theirs|)),
     Envelopes(theirs))
  }

  function Wiped(m: Shelf): Shelf {
    m.(held := [], delivered := 0, file := if m.persistent then None else m.file)
  }

  // ---------- The mailbox object ----------

  class Mailbox {
    var enabled: bool
    var held: seq<Held>
    var delivered: nat
    const persistent: bool
    var file: Option<string>

    ghost function Value(): Shelf
      reads this
    {
      Shelf(enabled, held, delivered, persistent, file)
    }

    constructor OpenAt(persistent: bool, file: Option<string>, nowMs: u64)
      ensures Value() == Opened(persistent, file, nowMs)
    {
      this.persistent, this.file := persistent, file;
      enabled, delivered := false, 0;
      var stored := if persistent then ReadBack(file) else [];
      held := Live(stored, nowMs);
    }

    method Save()
      modifies this`file
      ensures Value() == Saved(old(Value()))
    {
      if !persistent {
        return;
      }
      if held == [] {
        file := None;
        return;
      }
      file := Some(Join(Rows(held), '\n'));
    }

    method SetEnabled(on: bool) returns (dropped: nat)
      modifies this
      ensures Value() == Switched(old(Value()), on) && dropped == |old(held)| - |held|
    {
      enabled := on;
      if on {
        return 0;
      }
      dropped := |held|;
      held := [];
      Save();
    }

    method Prune(nowMs: u64) returns (dropped: nat)
      modifies this
      ensures Value() == Pruned(old(Value()), nowMs) && held == Live(old(held), nowMs)
      ensures dropped == |old(held)| - |held|
    {
      var before := |held|;
      var live := Live(held, nowMs);
      if |live| == before {
        SameLength(held, nowMs);
      }
      held := live;
      dropped := before - |held|;
      if dropped > 0 {
        Save();
      }
    }

    method MakeRoom(incoming: Tier) returns (freed: bool)
      modifies this`held
      ensures freed <==> Room(old(held), incoming).Some?
      ensures held == if freed then Room(old(held), incoming).value else old(held)
    {
      var victim := FirstVerified(held);
      if victim < |held| {
        held := held[..victim] + held[victim + 1..];
        return true;
      }
      if incoming == Favourite && held != [] {
        held := held[1..];
        return true;
      }
      return false;
    }

    method Accept(e: Envelope, depositor: string, tier: Tier, nowMs: u64) returns (r: Deposit)
      modifies this
      ensures (Value(), r) == Deposited(old(Value()), e, depositor, tier, nowMs)
    {
      if !enabled {
        return Refused("not holding mail");
      }
      if IsExpired(e, nowMs) {
        return Refused("already expired");
      }
      if e.expiryMs > nowMs + LONGEST_MS {
        return Refused("wants holding for longer than we hold anything");
      }
      var _ := Prune(nowMs);
      r := Shelve(e, depositor, tier, nowMs);
    }

    /** What is left of accepting a deposit once the shelf is pruned. */
    method Shelve(e: Envelope, depositor: string, tier: Tier, nowMs: u64) returns (r: Deposit)
      modifies this
      ensures (Value(), r) == Shelved(old(Value()), e, depositor, tier, nowMs)
    {
      var same := FirstSame(held, e);
      if same < |held| {
        held := MoreCopies(held, same, e.copies);
        Save();
        return AlreadyHeld;
      }
      if CountFor(held, depositor) >= Quota(tier) {
        return Refused("this peer's share of the shelf is full");
      }
      if tier == Verified && VerifiedHeld(held) >= MAX_VERIFIED_HELD {
        return Refused("no room left for mail from peers we do not know");
      }
      if |held| >= MAX_HELD {
        var freed := MakeRoom(tier);
        if !freed {
          return Refused("the shelf is full of favourites' mail");
        }
      }
      held := held + [Held(e, depositor, tier, nowMs)];
      Save();
      return Accepted;
    }

    method Collect(tags: seq<Tag>) returns (theirs: seq<Envelope>)
      modifies this
      ensures (Value(), theirs) == Collected(old(Value()), tags)
    {
      var kept: seq<Held>;
      theirs, kept := Retain(held, tags);
      EnvelopesLength(Addressed(held, tags));
      AllUnaddressed(held, tags);
      held := kept;
      if theirs != [] {
        delivered := delivered + |theirs|;
        Save();
      }
    }

    method Wipe()
      modifies this
      ensures Value() == Wiped(old(Value()))
    {
      held := [];
      delivered := 0;
      if persistent {
        file := None;
      }
    }
  }

  method Retain(held: seq<Held>, tags: seq<Tag>) returns (theirs: seq<Envelope>, kept: seq<Held>)
    ensures theirs == Envelopes(Addressed(held, tags)) && kept == Unaddressed(held, tags)
  {
    theirs, kept := [], [];
    assert held[0..] == held;
    for i := 0 to |held|
      invariant Envelopes(Addressed(held, tags)) == theirs + Envelopes(Addressed(held[i..], tags))
      invariant Unaddressed(held, tags) == kept + Unaddressed(held[i..], tags)
    {
      assert held[i..][0] == held[i] && held[i..][1..] == held[i + 1..];
      if held[i].envelope.tag in tags {
        theirs := theirs + [held[i].envelope];
      } else {
        kept := kept + [held[i]];
      }
    }
  }

  lemma {:induction false} SameLength(held: seq<Held>, nowMs: u64)
    requires |Live(held, nowMs)| == |held|
    ensures Live(held, nowMs) == held
  {
    if held != [] {
      SameLength(held[1..], nowMs);
    }
  }

  lemma {:induction false} EnvelopesLength(held: seq<Held>)
    ensures |Envelopes(held)| == |held|
  {
    if held != [] {
      EnvelopesLength(held[1..]);
    }
  }

  lemma {:induction false} AllUnaddressed(held: seq<Held>, tags: seq<Tag>)
    ensures |Addressed(held, tags)| + |Unaddressed(held, tags)| == |held|
    ensures Addressed(held, tags) == [] ==> Unaddressed(held, tags) == held
  {
    if held != [] {
      AllUnaddressed(held[1..], tags);
    }
  }
}
