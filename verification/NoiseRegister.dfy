/** Whose fingerprint a manager knows, over whole runs, and what the frames of a session look like. */
module NoiseRegister {
  import opened Bytes
  import opened NoiseCrypto
  import opened NoiseCipher
  import opened NoiseHandshake
  import opened NoiseSessions
  import opened NoiseDelivery
  import opened NoiseHalfOpen

  // ---------- Who is there ----------

  /** A static key in a message is known once the message has been read. */
  lemma {:induction false} ReadingLearns(s: Suite, h: Handshake, tokens: seq<Token>, message: seq<byte>)
    requires S in tokens || h.remoteStatic.Some?
    ensures var (h', r) := ReadTokens(s, h, tokens, message);
            r.Ok? ==> h'.remoteStatic.Some?
    decreases |tokens|
  {
    if tokens != [] {
      var (h1, r1) := ReadToken(s, h, tokens[0], message);
      if r1.Ok? {
        ReadingLearns(s, h1, tokens[1..], r1.value);
      }
    }
  }

  /** An established session knows the other end's static key. */
  predicate Knows(x: Session) {
    x.phase == Established ==> x.remoteStatic.Some?
  }

  lemma ReadLearns(s: Suite, h: Handshake, message: seq<byte>)
    requires !h.Complete() && S in Messages(h.pattern)[h.current]
    ensures var (h', r) := Read(s, h, message);
            r.Ok? ==> h'.remoteStatic.Some?
  {
    ReadingLearns(s, h, Messages(h.pattern)[h.current], message);
  }

  lemma WriteKeeps(s: Suite, h: Handshake, ephemeral: seq<byte>)
    requires !h.Complete()
    ensures Written(s, h, [], ephemeral).0.remoteStatic == h.remoteStatic
  {
    WritingKeeps(s, h, Messages(h.pattern)[h.current], ephemeral);
  }

  lemma ProceedingLearns(l: Local, x: Session, message: seq<byte>, ephemeral: seq<byte>)
    requires Shaped(l, x) && x.phase == Handshaking
    ensures Knows(Processed(l, x, message, ephemeral).0)
  {
    var h := x.handshake.value;
    assert S in Messages(XX)[h.current] by {
      assert Messages(XX)[h.current] == if h.current == 1 then [E, EE, S, ES] else [S, SE];
    }
    ReadLearns(l.s, h, message);
    var (h1, got) := Read(l.s, h, message);
    if got.Ok? && !h1.Complete() {
      WriteKeeps(l.s, h1, ephemeral);
    }
  }

  lemma AnsweringIsNotThere(l: Local, message: seq<byte>, ephemeral: seq<byte>)
    ensures var (y, r) := Processed(l, Waiting(l), message, ephemeral);
            y.phase != Established
  {
    var x := Begun(l, Waiting(l));
    ReadingKeeps(l.s, x.handshake.value, [E], message);
    var (h, got) := Read(l.s, x.handshake.value, message);
    if got.Ok? {
      WritingKeeps(l.s, h, Messages(XX)[1], ephemeral);
    }
  }

  /** The register holds the fingerprints of the keys of the sessions that are up, and nothing else. */
  ghost predicate Filed(l: Local, m: Manager) {
    && (forall p :: p in m.fingerprints <==> IsEstablished(m, p))
    && (forall p :: p in m.sessions ==> Knows(m.sessions[p]))
    && (forall p :: IsEstablished(m, p)
          ==> m.fingerprints[p] == Hex(l.s.hash(m.sessions[p].remoteStatic.value)))
  }

  /** A session replaced by one that is no further. */
  lemma StillFiled(l: Local, m: Manager, peer: string, x: Session)
    requires Filed(l, m)
    requires x.phase == Established
        ==> && peer in m.sessions && m.sessions[peer].phase == Established
            && x.remoteStatic == m.sessions[peer].remoteStatic
    requires IsEstablished(m, peer) ==> x.phase == Established
    ensures Filed(l, With(m, peer, x))
  {
  }

  lemma NowFiled(l: Local, m: Manager, peer: string, x: Session)
    requires Filed(l, m) && !IsEstablished(m, peer) && Knows(x)
    ensures Filed(l, Noted(l.s, With(m, peer, x), peer, true))
  {
  }

  lemma NoLongerFiled(l: Local, m: Manager, peer: string, x: Session)
    requires Filed(l, m)
    ensures Filed(l, Removed(m, peer))
    ensures Removed(Noted(l.s, With(m, peer, x), peer, false), peer) == Removed(m, peer)
  {
  }

  lemma InitiatedFiled(l: Local, m: Manager, peer: string, ephemeral: seq<byte>)
    requires Filed(l, m) && AllShaped(l, m)
    ensures Filed(l, Initiated(l, m, peer, ephemeral).0)
  {
    StillFiled(l, m, peer, Initiated(l, m, peer, ephemeral).0.sessions[peer]);
  }

  lemma GreetedFiled(l: Local, m: Manager, peer: string, message: seq<byte>, ephemeral: seq<byte>)
    requires Filed(l, m) && AllShaped(l, m)
    ensures Filed(l, Handled(l, m, peer, message, ephemeral).0)
  {
    if !IsEstablished(m, peer) {
      var x := if peer in m.sessions then m.sessions[peer] else Waiting(l);
      var (y, r) := Processed(l, x, message, ephemeral);
      if peer in m.sessions {
        ProceedingLearns(l, x, message, ephemeral);
      } else {
        AnsweringIsNotThere(l, message, ephemeral);
      }
      if r.Ok? {
        NowFiled(l, m, peer, y);
      } else {
        NoLongerFiled(l, m, peer, y);
      }
    }
  }

  lemma TextsFiled(l: Local, m: Manager, peer: string, text: seq<byte>)
    requires Filed(l, m)
    ensures Filed(l, ManagerEncrypted(l.s, m, peer, text).0)
    ensures Filed(l, ManagerDecrypted(l.s, m, peer, text).0)
  {
    if peer in m.sessions {
      StillFiled(l, m, peer, SessionEncrypted(l.s, m.sessions[peer], text).0);
      StillFiled(l, m, peer, SessionDecrypted(l.s, m.sessions[peer], text).0);
    }
  }

  lemma StepFiled(l: Local, m: Manager, a: Action)
    requires Filed(l, m) && AllShaped(l, m)
    ensures Filed(l, Next(l, m, a).0)
  {
    match a
    case Initiate(peer, ephemeral) => InitiatedFiled(l, m, peer, ephemeral);
    case Greet(peer, message, ephemeral) => GreetedFiled(l, m, peer, message, ephemeral);
    case Seal(peer, text) => TextsFiled(l, m, peer, text);
    case Open(peer, text) => TextsFiled(l, m, peer, text);
    case Remove(peer) => NoLongerFiled(l, m, peer, Waiting(l));
  }

  lemma RunStepFiled(l: Local, run: Run, k: nat, next: nat)
    requires NoiseDelivery.IsRun(l, run) && next == k + 1 <= |run.actions|
    requires Filed(l, run.managers[k]) && AllShaped(l, run.managers[k])
    ensures Filed(l, run.managers[next])
  {
    StepFiled(l, run.managers[k], run.actions[k]);
    assert run.managers[next] == Next(l, run.managers[k], run.actions[k]).0 by {
      assert NextAt(l, run, k);
    }
  }

  /**
   * In every state a node can reach, it knows the fingerprint of a peer exactly while a session with it is up, and it
   * is that of the static key the handshake proved.
   */
  lemma {:induction false} FingerprintsExactlyWhen(l: Local, run: Run, k: nat)
    requires NoiseDelivery.IsRun(l, run) && k <= |run.actions| && run.managers[0] == Manager(map[], map[])
    ensures Filed(l, run.managers[k])
  {
    if k > 0 {
      FingerprintsExactlyWhen(l, run, k - 1);
      ReachableShapes(l, run, k - 1);
      RunStepFiled(l, run, k - 1, k);
    }
  }

  // ---------- What was sent ----------

  /** The handshake message that a step puts out for a peer, if it does. */
  function Emitted(a: Action, r: Reply, peer: string): seq<seq<byte>> {
    if (a.Initiate? || a.Greet?) && a.peer == peer && r.Ok? && r.value.Some? then [r.value.value] else []
  }

  function SentOf(m: Manager, peer: string): seq<seq<byte>> {
    if peer in m.sessions then m.sessions[peer].sent else []
  }

  /** A session that is there has sent what was sent before and what this step emits. */
  ghost predicate Sends(m: Manager, a: Action, m': Manager, r: Reply, peer: string) {
    SentOf(m', peer) == if peer in m'.sessions then SentOf(m, peer) + Emitted(a, r, peer) else []
  }

  lemma OpeningSends(l: Local, m: Manager, to: string, ephemeral: seq<byte>, peer: string)
    ensures var (m', r) := Next(l, m, Initiate(to, ephemeral));
            Sends(m, Initiate(to, ephemeral), m', r, peer)
  {
    var x := if to in m.sessions then m.sessions[to] else Opening(l);
    var (y, r) := Restarted(l.s, x, ephemeral);
    assert y.sent == x.sent + (if r.Ok? then [r.value] else []);
    assert Initiated(l, m, to, ephemeral) == (With(m, to, y), r);
  }

  lemma AnsweringSends(l: Local, x: Session, message: seq<byte>, ephemeral: seq<byte>)
    ensures var (y, r) := Processed(l, x, message, ephemeral);
            y.sent == x.sent + (if r.Ok? && r.value.Some? then [r.value.value] else [])
  {
  }

  lemma GreetingSends(l: Local, m: Manager, from: string, message: seq<byte>, ephemeral: seq<byte>, peer: string)
    ensures var (m', r) := Next(l, m, Greet(from, message, ephemeral));
            Sends(m, Greet(from, message, ephemeral), m', r, peer)
  {
    AnsweringSends(l, if from in m.sessions then m.sessions[from] else Waiting(l), message, ephemeral);
  }

  lemma StepSends(l: Local, m: Manager, a: Action, peer: string)
    ensures var (m', r) := Next(l, m, a);
            Sends(m, a, m', r, peer)
  {
    match a
    case Initiate(to, ephemeral) => OpeningSends(l, m, to, ephemeral, peer);
    case Greet(from, message, ephemeral) => GreetingSends(l, m, from, message, ephemeral, peer);
    case Seal(_, _) =>
    case Open(_, _) =>
    case Remove(_) =>
  }

  /** The handshake messages put out for a peer since it last had no session. */
  function EmittedSince(run: Run, peer: string, k: nat): seq<seq<byte>>
    requires k <= |run.actions| == |run.replies| < |run.managers|
  {
    if k == 0 || peer !in run.managers[k].sessions then []
    else EmittedSince(run, peer, k - 1) + Emitted(run.actions[k - 1], run.replies[k - 1], peer)
  }

  lemma RunStepSends(l: Local, run: Run, k: nat, next: nat, peer: string)
    requires NoiseDelivery.IsRun(l, run) && next == k + 1 <= |run.actions|
    ensures Sends(run.managers[k], run.actions[k], run.managers[next], run.replies[k], peer)
  {
    StepSends(l, run.managers[k], run.actions[k], peer);
    assert (run.managers[next], run.replies[k]) == Next(l, run.managers[k], run.actions[k]) by {
      assert NextAt(l, run, k);
    }
  }

  /** In every reachable state a session's record of what it sent is what was put out for it. */
  lemma {:induction false} SentIsEmitted(l: Local, run: Run, peer: string, k: nat)
    requires NoiseDelivery.IsRun(l, run) && k <= |run.actions| && run.managers[0] == Manager(map[], map[])
    ensures SentOf(run.managers[k], peer) == EmittedSince(run, peer, k)
  {
    if k > 0 {
      SentIsEmitted(l, run, peer, k - 1);
      RunStepSends(l, run, k - 1, k, peer);
    }
  }

  // ---------- Frames ----------

  /** A frame begins with its number, the low byte first, in four bytes; the rest is the sealed text. */
  ghost predicate FrameIs(frame: seq<byte>, n: int, sealed: seq<byte>) {
    && |frame| >= 4
    && n == frame[0] + frame[1] as int * 0x100 + frame[2] as int * 0x1_0000 + frame[3] as int * 0x100_0000
    && frame[4..] == sealed
  }

  lemma FourBytes(s: seq<byte>)
    requires |s| == 4
    ensures FromLittleEndian(s) == s[0] + s[1] as int * 0x100 + s[2] as int * 0x1_0000 + s[3] as int * 0x100_0000
  {
    assert FromLittleEndian(s[1..]) == s[1] + 256 * FromLittleEndian(s[1..][1..]);
    assert FromLittleEndian(s[1..][1..]) == s[2] + 256 * FromLittleEndian(s[1..][1..][1..]);
    assert FromLittleEndian(s[1..][1..][1..]) == s[3] + 256 * FromLittleEndian([]);
  }

  /** What a session with a key makes of the text it seals as its `n`-th. */
  lemma SealedFrame(s: Suite, c: Cipher, text: seq<byte>, ad: seq<byte>)
    requires c.key.Some? && c.extracted && c.nonce < 0x1_0000_0000
    ensures var (c', r) := Encrypted(s, c, text, ad);
            && r.Ok? && FrameIs(r.value, c.nonce, s.seal(c.key.value, c.nonce, ad, text))
            && c' == c.(nonce := c.nonce + 1)
  {
    Pow256Values();
    LittleEndianRoundTrip(c.nonce, 4);
    FourBytes(LittleEndian(c.nonce, 4));
  }
}
