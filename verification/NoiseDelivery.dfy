/** Whole runs of session managers: who ends up with which keys, what an established session survives, what arrives. */
module NoiseDelivery {
  import opened Prelude
  import opened Bytes
  import opened NoiseCrypto
  import opened NoiseCipher
  import opened NoiseHandshake
  import opened NoiseSessions

  // ---------- Runs ----------

  /** What can happen to a node's sessions: `Greet` is a handshake frame from the mesh, `Open` an encrypted one. */
  datatype Action =
    | Initiate(peer: string, ephemeral: seq<byte>)
    | Greet(peer: string, message: seq<byte>, ephemeral: seq<byte>)
    | Seal(peer: string, text: seq<byte>)
    | Open(peer: string, text: seq<byte>)
    | Remove(peer: string)

  function AsReply(r: Outcome): Reply {
    if r.Ok? then Ok(Some(r.value)) else Err(r.error)
  }

  function AsOutcome(r: Reply): Outcome {
    if r.Err? then Err(r.error) else if r.value.Some? then Ok(r.value.value) else Ok([])
  }

  function Next(l: Local, m: Manager, a: Action): (Manager, Reply) {
    match a
    case Initiate(peer, ephemeral) =>
      var (m', r) := Initiated(l, m, peer, ephemeral);
      (m', AsReply(r))
    case Greet(peer, message, ephemeral) => Handled(l, m, peer, message, ephemeral)
    case Seal(peer, text) =>
      var (m', r) := ManagerEncrypted(l.s, m, peer, text);
      (m', AsReply(r))
    case Open(peer, text) =>
      var (m', r) := ManagerDecrypted(l.s, m, peer, text);
      (m', AsReply(r))
    case Remove(peer) => (Removed(m, peer), Ok(None))
  }

  datatype Run = Run(managers: seq<Manager>, actions: seq<Action>, replies: seq<Reply>)

  ghost predicate IsRun(l: Local, run: Run) {
    && |run.managers| == |run.actions| + 1 && |run.replies| == |run.actions|
    && forall i :: 0 <= i < |run.actions| ==> NextAt(l, run, i)
  }

  ghost predicate NextAt(l: Local, run: Run, i: int)
    requires 0 <= i < |run.actions| == |run.replies| && |run.managers| == |run.actions| + 1
  {
    (run.managers[i + 1], run.replies[i]) == Next(l, run.managers[i], run.actions[i])
  }

  // ---------- An established session ----------

  /** An established session with both its ciphers and no handshake left. */
  predicate Up(m: Manager, peer: string) {
    && peer in m.sessions && m.sessions[peer].phase == Established && m.sessions[peer].handshake.None?
    && m.sessions[peer].send.Some? && m.sessions[peer].receive.Some?
  }

  function SendOf(m: Manager, peer: string): Cipher {
    if Up(m, peer) then m.sessions[peer].send.value else UNKEYED
  }

  function ReceiveOf(m: Manager, peer: string): Cipher {
    if Up(m, peer) then m.sessions[peer].receive.value else UNKEYED
  }

  /**
   * Nothing but removal ends an established session, and only its own frames move it: handshake messages do nothing.
   */
  lemma StepOnUp(l: Local, m: Manager, a: Action, peer: string)
    requires Up(m, peer) && a != Remove(peer)
    ensures var (m', r) := Next(l, m, a);
            && Up(m', peer)
            && m'.sessions[peer]
               == m.sessions[peer].(send := Some(SendOf(m', peer)), receive := Some(ReceiveOf(m', peer)))
            && (if a.Seal? && a.peer == peer
                then (SendOf(m', peer), AsOutcome(r)) == Encrypted(l.s, SendOf(m, peer), a.text, [])
                else SendOf(m', peer) == SendOf(m, peer))
            && (if a.Open? && a.peer == peer
                then (ReceiveOf(m', peer), AsOutcome(r)) == Decrypted(l.s, ReceiveOf(m, peer), a.text, [])
                else ReceiveOf(m', peer) == ReceiveOf(m, peer))
  {
  }

  // ---------- The frames of one peer within a run ----------

  predicate OpensAt(run: Run, peer: string, i: nat)
    requires i < |run.actions|
  {
    run.actions[i].Open? && run.actions[i].peer == peer
  }

  predicate SealsAt(run: Run, peer: string, i: nat)
    requires i < |run.actions|
  {
    run.actions[i].Seal? && run.actions[i].peer == peer
  }

  /** Frames given to the peer's session among the first `k` actions, in order. */
  function Arrived(run: Run, peer: string, k: nat): seq<seq<byte>>
    requires k <= |run.actions|
  {
    if k == 0 then []
    else if OpensAt(run, peer, k - 1) then Arrived(run, peer, k - 1) + [run.actions[k - 1].text]
    else Arrived(run, peer, k - 1)
  }

  function Results(run: Run, peer: string, k: nat): seq<Outcome>
    requires k <= |run.actions| == |run.replies|
  {
    if k == 0 then []
    else if OpensAt(run, peer, k - 1) then Results(run, peer, k - 1) + [AsOutcome(run.replies[k - 1])]
    else Results(run, peer, k - 1)
  }

  function Receivers(run: Run, peer: string, k: nat): seq<Cipher>
    requires k <= |run.actions| && |run.managers| == |run.actions| + 1
  {
    if k == 0 then [ReceiveOf(run.managers[0], peer)]
    else if OpensAt(run, peer, k - 1) then Receivers(run, peer, k - 1) + [ReceiveOf(run.managers[k], peer)]
    else Receivers(run, peer, k - 1)
  }

  /** Texts handed in for the peer among the first `k` actions, and the frames they became. */
  function Plaintexts(run: Run, peer: string, k: nat): seq<seq<byte>>
    requires k <= |run.actions|
  {
    if k == 0 then []
    else if SealsAt(run, peer, k - 1) then Plaintexts(run, peer, k - 1) + [run.actions[k - 1].text]
    else Plaintexts(run, peer, k - 1)
  }

  function SentFrames(run: Run, peer: string, k: nat): seq<Outcome>
    requires k <= |run.actions| == |run.replies|
  {
    if k == 0 then []
    else if SealsAt(run, peer, k - 1) then SentFrames(run, peer, k - 1) + [AsOutcome(run.replies[k - 1])]
    else SentFrames(run, peer, k - 1)
  }

  ghost predicate NeverRemoved(run: Run, peer: string, k: nat) {
    forall i :: 0 <= i < k && i < |run.actions| ==> run.actions[i] != Remove(peer)
  }

  /**
   * Over any run without a removal, whatever handshake messages come in and whatever other peers do, the session stays
   * up with the same keys and remote identity, and its receiving cipher sees exactly the frames of that peer.
   */
  lemma {:induction false} SessionSurvives(l: Local, run: Run, peer: string, k: nat)
    requires IsRun(l, run) && k <= |run.actions| && Up(run.managers[0], peer) && NeverRemoved(run, peer, k)
    ensures Up(run.managers[k], peer)
    ensures run.managers[k].sessions[peer]
         == run.managers[0].sessions[peer].(send := Some(SendOf(run.managers[k], peer)),
                                            receive := Some(ReceiveOf(run.managers[k], peer)))
    ensures NoiseCipher.IsRun(l.s, Receivers(run, peer, k), Arrived(run, peer, k), Results(run, peer, k))
    ensures Receivers(run, peer, k)[0] == ReceiveOf(run.managers[0], peer)
    ensures Receivers(run, peer, k)[|Arrived(run, peer, k)|] == ReceiveOf(run.managers[k], peer)
  {
    if k > 0 {
      SessionSurvives(l, run, peer, k - 1);
      assert NextAt(l, run, k - 1);
      StepOnUp(l, run.managers[k - 1], run.actions[k - 1], peer);
      if OpensAt(run, peer, k - 1) {
        RunGrows(l.s, Receivers(run, peer, k - 1), Arrived(run, peer, k - 1), Results(run, peer, k - 1),
                 ReceiveOf(run.managers[k], peer), run.actions[k - 1].text, AsOutcome(run.replies[k - 1]));
      }
    }
  }

  lemma RunGrows(s: Suite, ciphers: seq<Cipher>, frames: seq<seq<byte>>, results: seq<Outcome>, c: Cipher,
                 frame: seq<byte>, result: Outcome)
    requires NoiseCipher.IsRun(s, ciphers, frames, results)
    requires (c, result) == Decrypted(s, ciphers[|frames|], frame, [])
    ensures NoiseCipher.IsRun(s, ciphers + [c], frames + [frame], results + [result])
  {
    forall i | 0 <= i < |frames| + 1 ensures ReceivesAt(s, ciphers + [c], frames + [frame], results + [result], i) {
      assert i < |frames| ==> ReceivesAt(s, ciphers, frames, results, i);
    }
  }

  /** The sending side numbers its frames from zero, whatever else the node does meanwhile. */
  lemma {:induction false} FramesAreNumbered(l: Local, run: Run, peer: string, key: seq<byte>, k: nat)
    requires IsRun(l, run) && k <= |run.actions| && Up(run.managers[0], peer) && NeverRemoved(run, peer, k)
    requires SendOf(run.managers[0], peer) == Fresh(key, true)
    ensures Up(run.managers[k], peer)
    ensures |SentFrames(run, peer, k)| == |Plaintexts(run, peer, k)|
    ensures SendOf(run.managers[k], peer) == Fresh(key, true).(nonce := |Plaintexts(run, peer, k)|)
    ensures forall i :: 0 <= i < |Plaintexts(run, peer, k)|
              ==> SentFrames(run, peer, k)[i] == Ok(SentFrame(l.s, key, Plaintexts(run, peer, k), i))
  {
    if k > 0 {
      FramesAreNumbered(l, run, peer, key, k - 1);
      assert NextAt(l, run, k - 1);
      StepOnUp(l, run.managers[k - 1], run.actions[k - 1], peer);
    }
  }

  /**
   * Alice's sending key is Bob's receiving key, as after a handshake. Then over any two runs that keep the session,
   * with fewer than 2^32 texts sealed and nothing opening that Alice did not seal: Bob gets a text from a frame exactly
   * when it is a frame Alice put out, inside the window and not delivered yet, it is the text she put in, and never
   * twice.
   */
  lemma SecureChannel(alice: Local, bob: Local, a: Run, b: Run, toBob: string, toAlice: string, key: seq<byte>, k: nat)
    requires Laws(alice.s) && alice.s == bob.s
    requires IsRun(alice, a) && Up(a.managers[0], toBob) && NeverRemoved(a, toBob, |a.actions|)
    requires IsRun(bob, b) && Up(b.managers[0], toAlice) && NeverRemoved(b, toAlice, |b.actions|)
    requires SendOf(a.managers[0], toBob) == Fresh(key, true) == ReceiveOf(b.managers[0], toAlice)
    requires |Plaintexts(a, toBob, |a.actions|)| <= 0x1_0000_0000
    requires k < |Arrived(b, toAlice, |b.actions|)|
    requires Authentic(alice.s, key, Plaintexts(a, toBob, |a.actions|), Arrived(b, toAlice, |b.actions|)[k])
    ensures |Results(b, toAlice, |b.actions|)| == |Arrived(b, toAlice, |b.actions|)|
    ensures |Receivers(b, toAlice, |b.actions|)| == |Arrived(b, toAlice, |b.actions|)| + 1
    ensures |SentFrames(a, toBob, |a.actions|)| == |Plaintexts(a, toBob, |a.actions|)|
    ensures var frames, results := Arrived(b, toAlice, |b.actions|), Results(b, toAlice, |b.actions|);
            var texts, sent := Plaintexts(a, toBob, |a.actions|), SentFrames(a, toBob, |a.actions|);
            && (results[k].Ok?
                <==> exists i :: && 0 <= i < |sent| && sent[i] == Ok(frames[k])
                                 && i + 1024 > Receivers(b, toAlice, |b.actions|)[k].highest
                                 && i !in Accepted(frames, results, k))
            && (results[k].Ok? ==> && NonceOf(frames[k]) < |texts| && sent[NonceOf(frames[k])] == Ok(frames[k])
                                   && results[k] == Ok(texts[NonceOf(frames[k])]))
            && forall j :: 0 <= j < k && results[j].Ok? && results[k].Ok? ==> NonceOf(frames[j]) != NonceOf(frames[k])
  {
    var frames, results := Arrived(b, toAlice, |b.actions|), Results(b, toAlice, |b.actions|);
    var texts, sent := Plaintexts(a, toBob, |a.actions|), SentFrames(a, toBob, |a.actions|);
    var ciphers := Receivers(b, toAlice, |b.actions|);
    SessionSurvives(bob, b, toAlice, |b.actions|);
    FramesAreNumbered(alice, a, toBob, key, |a.actions|);
    DeliveredExactlyWhen(alice.s, key, texts, ciphers, frames, results, k);
    forall j | 0 <= j < k && results[j].Ok? && results[k].Ok? ensures NonceOf(frames[j]) != NonceOf(frames[k]) {
      DeliveredAtMostOnce(alice.s, key, ciphers, frames, results, j, k);
    }
  }

  // ---------- From first message to channel ----------

  /** The three messages of XX between two nodes, each written and read where the other left off. */
  lemma ThreeMessages(s: Suite, names: Names, kA: seq<byte>, kB: seq<byte>, e1: seq<byte>, e2: seq<byte>, e3: seq<byte>)
    requires Laws(s)
    ensures var i0 := Start(s, names, Initiator, XX, Some(kA), None, []);
            var r0 := Start(s, names, Responder, XX, Some(kB), None, []);
            var (i1, m1) := Written(s, i0, [], e1);
            && m1.Ok? && i1.pattern == XX
            && var (r1, g1) := Read(s, r0, m1.value);
            && g1 == Ok([]) && r1.pattern == XX && r1.current == 1
            && var (r2, m2) := Written(s, r1, [], e2);
            && m2.Ok? && r2.pattern == XX && r2.current == 2
            && var (i2, g2) := Read(s, i1, m2.value);
            && g2 == Ok([]) && i2.pattern == XX && i2.current == 2
            && var (i3, m3) := Written(s, i2, [], e3);
            && m3.Ok?
            && var (r3, g3) := Read(s, r2, m3.value);
               g3 == Ok([]) && InStepAfter(s, XX, Some(kA), kB, Ends(i3, r3, g3), 3)
  {
    var i0 := Start(s, names, Initiator, XX, Some(kA), None, []);
    var r0 := Start(s, names, Responder, XX, Some(kB), None, []);
    var a := Ends(i0, r0, Ok([]));
    TablesRun(XX, true, 0);
    StartInStep(s, names, XX, [], Some(kA), kB, a);
    var b := OneMessage(s, kA, kB, a, 0, e1);
    var c := OneMessage(s, kA, kB, b, 1, e2);
    var d := OneMessage(s, kA, kB, c, 2, e3);
  }

  lemma OneMessage(s: Suite, kA: seq<byte>, kB: seq<byte>, e: Ends, n: nat, ephemeral: seq<byte>) returns (now: Ends)
    requires Laws(s) && n < 3 && InStepAfter(s, XX, Some(kA), kB, e, n)
    ensures InStepAfter(s, XX, Some(kA), kB, now, n + 1)
    ensures var w, r := if Turn(n) == Initiator then e.initiator else e.responder,
                        if Turn(n) == Initiator then e.responder else e.initiator;
            var w1, r1 := if Turn(n) == Initiator then now.initiator else now.responder,
                          if Turn(n) == Initiator then now.responder else now.initiator;
            var (w', m) := Written(s, w, [], ephemeral);
            && m.Ok? && w' == w1 && Read(s, r, m.value) == (r1, Ok([])) && now.got == Ok([])
            && w1.pattern == r1.pattern == XX && w1.current == r1.current == n + 1
  {
    TurnInStep(s, XX, Some(kA), kB, e, n, [], ephemeral);
    now := Exchange(s, e, [], ephemeral, Turn(n));
  }

  /** Two established sessions that are each other's counterpart. */
  predicate Joined(x: Session, y: Session, keyX: seq<byte>, keyY: seq<byte>) {
    && x.phase == y.phase == Established && x.handshake == y.handshake == None
    && x.send.Some? && x.receive.Some? && x.send == y.receive && x.receive == y.send
    && IsFresh(x.send.value) && IsFresh(x.receive.value)
    && x.remoteStatic == Some(keyY) && y.remoteStatic == Some(keyX) && x.hash.Some? && x.hash == y.hash
  }

  predicate IsFresh(c: Cipher) {
    c.key.Some? && c == Fresh(c.key.value, true)
  }

  lemma EndsJoin(s: Suite, kA: seq<byte>, kB: seq<byte>, e: Ends, x: Session, y: Session)
    requires Laws(s) && InStepAfter(s, XX, Some(kA), kB, e, 3)
    ensures e.initiator.Complete() && e.responder.Complete()
    ensures Joined(Finished(s, x, e.initiator), Finished(s, y, e.responder), s.pub(kA), s.pub(kB))
  {
    TablesRun(XX, true, 3);
  }

  lemma SessionsMeet(a: Local, b: Local, e1: seq<byte>, e2: seq<byte>, e3: seq<byte>, e4: seq<byte>)
    requires Laws(a.s) && a.s == b.s && a.names == b.names
    ensures var (x1, m1) := Restarted(a.s, Opening(a), e1);
            && m1.Ok? && x1.phase == Handshaking
            && var (y1, m2) := Processed(b, Waiting(b), m1.value, e2);
            && m2.Ok? && m2.value.Some? && y1.phase == Handshaking
            && var (x2, m3) := Processed(a, x1, m2.value.value, e3);
            && m3.Ok? && m3.value.Some?
            && var (y2, end) := Processed(b, y1, m3.value.value, e4);
               end == Ok(None) && Joined(x2, y2, a.s.pub(a.key), a.s.pub(b.key))
  {
    ThreeMessages(a.s, a.names, a.key, b.key, e1, e2, e3);
    var s := a.s;
    var i0 := Start(s, a.names, Initiator, XX, Some(a.key), None, []);
    var r0 := Start(s, a.names, Responder, XX, Some(b.key), None, []);
    var (i1, m1) := Written(s, i0, [], e1);
    var r1 := Read(s, r0, m1.value).0;
    var (r2, m2) := Written(s, r1, [], e2);
    var i2 := Read(s, i1, m2.value).0;
    var (i3, m3) := Written(s, i2, [], e3);
    var r3 := Read(s, r2, m3.value).0;
    var x1 := Restarted(s, Opening(a), e1).0;
    var y0 := Begun(b, Waiting(b));
    var y1 := y0.(handshake := Some(r2), sent := y0.sent + [m2.value]);
    EndsJoin(s, a.key, b.key, Ends(i3, r3, Ok([])), x1.(handshake := Some(i3), sent := x1.sent + [m3.value]), y1);
  }

  /**
   * Two nodes with no session for each other run the handshake through their managers: three messages later both have
   * an established session, each sending under the key the other receives under, each knowing the other's static key
   * and having filed its fingerprint, with the same handshake hash; sessions with anyone else are not touched.
   */
  lemma ChannelOpens(a: Local, b: Local, ma: Manager, mb: Manager, toB: string, toA: string,
                     e1: seq<byte>, e2: seq<byte>, e3: seq<byte>, e4: seq<byte>)
    requires Laws(a.s) && a.s == b.s && a.names == b.names && toB !in ma.sessions && toA !in mb.sessions
    ensures var (ma1, m1) := Initiated(a, ma, toB, e1);
            && m1.Ok?
            && var (mb1, m2) := Handled(b, mb, toA, m1.value, e2);
            && m2.Ok? && m2.value.Some?
            && var (ma2, m3) := Handled(a, ma1, toB, m2.value.value, e3);
            && m3.Ok? && m3.value.Some?
            && var (mb2, end) := Handled(b, mb1, toA, m3.value.value, e4);
            && end == Ok(None) && Up(ma2, toB) && Up(mb2, toA)
            && Joined(ma2.sessions[toB], mb2.sessions[toA], a.s.pub(a.key), a.s.pub(b.key))
            && ma2 == Manager(ma.sessions[toB := ma2.sessions[toB]],
                              ma.fingerprints[toB := Fingerprint(a.s, a.s.pub(b.key))])
            && mb2 == Manager(mb.sessions[toA := mb2.sessions[toA]],
                              mb.fingerprints[toA := Fingerprint(a.s, a.s.pub(a.key))])
  {
    SessionsMeet(a, b, e1, e2, e3, e4);
    var (x1, m1) := Restarted(a.s, Opening(a), e1);
    var (y1, m2) := Processed(b, Waiting(b), m1.value, e2);
    var (x2, m3) := Processed(a, x1, m2.value.value, e3);
    var y2 := Processed(b, y1, m3.value.value, e4).0;
    InitiatorSide(a, ma, toB, e1, m2.value.value, e3, x1, m1.value, x2, m3.value);
    ResponderSide(b, mb, toA, m1.value, e2, m3.value.value, e4, y1, m2.value, y2);
  }

  lemma InitiatorSide(l: Local, m: Manager, peer: string, e1: seq<byte>, message: seq<byte>, e2: seq<byte>,
                      x1: Session, m1: seq<byte>, x2: Session, m3: Option<seq<byte>>)
    requires peer !in m.sessions && Restarted(l.s, Opening(l), e1) == (x1, Ok(m1)) && x1.phase == Handshaking
    requires Processed(l, x1, message, e2) == (x2, Ok(m3)) && x2.phase == Established && x2.remoteStatic.Some?
    ensures var known := m.fingerprints[peer := Fingerprint(l.s, x2.remoteStatic.value)];
            && Initiated(l, m, peer, e1) == (With(m, peer, x1), Ok(m1))
            && Handled(l, With(m, peer, x1), peer, message, e2) == (Manager(m.sessions[peer := x2], known), Ok(m3))
  {
    HalfOpenSession(l, With(m, peer, x1), peer, message, e2);
    WithTwice(m, peer, x1, x2);
  }

  lemma ResponderSide(l: Local, m: Manager, peer: string, first: seq<byte>, e1: seq<byte>, last: seq<byte>,
                      e2: seq<byte>, y1: Session, m2: Option<seq<byte>>, y2: Session)
    requires peer !in m.sessions && Processed(l, Waiting(l), first, e1) == (y1, Ok(m2)) && y1.phase == Handshaking
    requires Processed(l, y1, last, e2) == (y2, Ok(None)) && y2.phase == Established && y2.remoteStatic.Some?
    ensures var known := m.fingerprints[peer := Fingerprint(l.s, y2.remoteStatic.value)];
            && Handled(l, m, peer, first, e1) == (With(m, peer, y1), Ok(m2))
            && Handled(l, With(m, peer, y1), peer, last, e2) == (Manager(m.sessions[peer := y2], known), Ok(None))
  {
    NewSession(l, m, peer, first, e1);
    HalfOpenSession(l, With(m, peer, y1), peer, last, e2);
    WithTwice(m, peer, y1, y2);
  }

  lemma NewSession(l: Local, m: Manager, peer: string, message: seq<byte>, ephemeral: seq<byte>)
    requires peer !in m.sessions
    ensures var (y, r) := Processed(l, Waiting(l), message, ephemeral);
            && (r.Ok? && y.phase == Handshaking ==> Handled(l, m, peer, message, ephemeral) == (With(m, peer, y), r))
            && (r.Err? ==> Handled(l, m, peer, message, ephemeral).0.sessions == m.sessions)
  {
    var y := Processed(l, Waiting(l), message, ephemeral).0;
    assert m.sessions[peer := y] - {peer} == m.sessions;
  }

  lemma HalfOpenSession(l: Local, m: Manager, peer: string, message: seq<byte>, ephemeral: seq<byte>)
    requires peer in m.sessions && m.sessions[peer].phase == Handshaking
    ensures var (y, r) := Processed(l, m.sessions[peer], message, ephemeral);
            && (r.Ok? && y.phase == Established && y.remoteStatic.Some?
                ==> Handled(l, m, peer, message, ephemeral)
                    == (With(m, peer, y).(fingerprints :=
                                            m.fingerprints[peer := Fingerprint(l.s, y.remoteStatic.value)]), r))
            && (r.Err? ==> Handled(l, m, peer, message, ephemeral) == (Removed(m, peer), r))
  {
    var y := Processed(l, m.sessions[peer], message, ephemeral).0;
    assert m.sessions[peer := y] - {peer} == m.sessions - {peer};
  }
}
