/** What sessions can look like in a reachable manager, and what that makes of a second or simultaneous opening. */
module NoiseHalfOpen {
  import opened Prelude
  import opened Bytes
  import opened NoiseCrypto
  import opened NoiseHandshake
  import opened NoiseSessions
  import opened NoiseDelivery

  // ---------- What tokens leave alone ----------

  predicate SameFrame(h: Handshake, h': Handshake) {
    h'.role == h.role && h'.pattern == h.pattern && h'.current == h.current && h'.localStatic == h.localStatic
  }

  predicate IsDh(t: Token) {
    t != E && t != S
  }

  lemma {:induction false} WritingKeeps(s: Suite, h: Handshake, tokens: seq<Token>, ephemeral: seq<byte>)
    ensures var (h', r) := WrittenTokens(s, h, tokens, ephemeral);
            && SameFrame(h, h') && h'.remoteStatic == h.remoteStatic && h'.remoteEphemeral == h.remoteEphemeral
            && (r.Ok? && (h.sym.cipher.key.Some? || exists t :: t in tokens && IsDh(t)) ==> h'.sym.cipher.key.Some?)
    decreases |tokens|
  {
    if tokens != [] {
      var (h1, r1) := WrittenToken(s, h, tokens[0], ephemeral);
      WritingKeeps(s, h1, tokens[1..], ephemeral);
    }
  }

  lemma {:induction false} ReadingKeeps(s: Suite, h: Handshake, tokens: seq<Token>, message: seq<byte>)
    ensures var (h', r) := ReadTokens(s, h, tokens, message);
            SameFrame(h, h') && (S !in tokens ==> h'.remoteStatic == h.remoteStatic)
    decreases |tokens|
  {
    if tokens != [] {
      var (h1, r1) := ReadToken(s, h, tokens[0], message);
      if r1.Ok? {
        ReadingKeeps(s, h1, tokens[1..], r1.value);
      }
    }
  }

  // ---------- Reachable sessions ----------

  /** An opened session waits for the second message, an answered one for the third; any other is up. */
  ghost predicate Shaped(l: Local, x: Session) {
    match x.phase
    case Uninitialized => false
    case Established => x.handshake.None? && x.send.Some? && x.receive.Some? && x.send.value.key.Some?
    case Handshaking =>
      && x.handshake.Some?
      && var h := x.handshake.value;
         h.pattern == XX && h.role == x.role && h.localStatic == Some(l.key)
         && (if x.role == Initiator then h.current == 1 && h.remoteEphemeral.None? && h.localEphemeral.Some?
             else h.current == 2 && h.remoteStatic.None? && h.sym.cipher.key.Some?)
  }

  ghost predicate AllShaped(l: Local, m: Manager) {
    forall p :: p in m.sessions ==> Shaped(l, m.sessions[p])
  }

  /** Opening afresh always works. */
  lemma FreshOpening(l: Local, ephemeral: seq<byte>)
    ensures var (x, r) := Restarted(l.s, Opening(l), ephemeral);
            r.Ok? && Shaped(l, x)
  {
    var h := Opening(l).handshake.value;
    OpenedState(l, ephemeral);
    WritingKeeps(l.s, h, [E], ephemeral);
  }

  /** Opening over a half-open session always fails, but not before the transcript has been changed. */
  lemma HalfOpenRestart(l: Local, x: Session, ephemeral: seq<byte>)
    requires Shaped(l, x) && x.phase == Handshaking
    ensures var (y, r) := Restarted(l.s, x, ephemeral);
            && r == Err(MissingKeys) && Shaped(l, y) && y.phase == Handshaking
            && (x.role == Initiator
                ==> var h := x.handshake.value;
                    y == x.(handshake := Some(h.(localEphemeral := Some(ephemeral),
                                                 sym := MixedHash(l.s, h.sym, l.s.pub(ephemeral))))))
  {
    var h := x.handshake.value;
    var tokens := Messages(XX)[h.current];
    WritingKeeps(l.s, h, tokens, ephemeral);
    var h1 := WrittenToken(l.s, h, tokens[0], ephemeral).0;
    assert tokens[1..] == if h.current == 1 then [EE, S, ES] else [SE];
    assert WrittenTokens(l.s, h1, tokens[1..], ephemeral) == (h1, Err(MissingKeys));
  }

  lemma NewlyAnswered(l: Local, message: seq<byte>, ephemeral: seq<byte>)
    ensures var (y, r) := Processed(l, Waiting(l), message, ephemeral);
            r.Ok? ==> Shaped(l, y)
  {
    var x := Begun(l, Waiting(l));
    ReadingKeeps(l.s, x.handshake.value, [E], message);
    var (h, got) := Read(l.s, x.handshake.value, message);
    if got.Ok? {
      var tokens := Messages(XX)[1];
      assert EE in tokens && IsDh(EE);
      WritingKeeps(l.s, h, tokens, ephemeral);
      assert Processed(l, Waiting(l), message, ephemeral) == Answered(l, x, h, ephemeral);
    }
  }

  /** A half-open session that takes the message it waits for is up; any other message fails it. */
  lemma HalfOpenProceeds(l: Local, x: Session, message: seq<byte>, ephemeral: seq<byte>)
    requires Shaped(l, x) && x.phase == Handshaking
    ensures var (y, r) := Processed(l, x, message, ephemeral);
            r.Ok? ==> Shaped(l, y) && y.phase == Established
  {
    var h := x.handshake.value;
    ReadingKeeps(l.s, h, Messages(XX)[h.current], message);
    var (h1, got) := Read(l.s, h, message);
    if got.Ok? && x.role == Initiator {
      WritingKeeps(l.s, h1, Messages(XX)[2], ephemeral);
    }
  }

  lemma StepKeepsShapes(l: Local, m: Manager, a: Action)
    requires AllShaped(l, m)
    ensures AllShaped(l, Next(l, m, a).0)
  {
    var m' := Next(l, m, a).0;
    forall p | p in m'.sessions ensures Shaped(l, m'.sessions[p]) {
      if p != a.peer {
        assert p in m.sessions && m'.sessions[p] == m.sessions[p];
      } else if a.Initiate? {
        InitiateKeepsShape(l, m, p, a.ephemeral);
      } else if a.Greet? {
        GreetKeepsShape(l, m, p, a.message, a.ephemeral);
      }
    }
  }

  lemma InitiateKeepsShape(l: Local, m: Manager, peer: string, ephemeral: seq<byte>)
    requires peer in m.sessions ==> Shaped(l, m.sessions[peer])
    ensures var (m', r) := Initiated(l, m, peer, ephemeral);
            && peer in m'.sessions && Shaped(l, m'.sessions[peer])
            && r.Ok? == (peer !in m.sessions)
            && (peer in m.sessions ==> r == Err(if IsEstablished(m, peer) then InvalidState else MissingKeys))
  {
    if peer !in m.sessions {
      FreshOpening(l, ephemeral);
    } else if !IsEstablished(m, peer) {
      HalfOpenRestart(l, m.sessions[peer], ephemeral);
    }
  }

  lemma GreetKeepsShape(l: Local, m: Manager, peer: string, message: seq<byte>, ephemeral: seq<byte>)
    requires peer in m.sessions ==> Shaped(l, m.sessions[peer])
    ensures var (m', r) := Handled(l, m, peer, message, ephemeral);
            && (peer in m'.sessions ==> Shaped(l, m'.sessions[peer]))
            && (peer in m'.sessions <==> r.Ok?)
  {
    if peer !in m.sessions {
      NewlyAnswered(l, message, ephemeral);
    } else if !IsEstablished(m, peer) {
      HalfOpenProceeds(l, m.sessions[peer], message, ephemeral);
    }
  }

  lemma {:induction false} ReachableShapes(l: Local, run: Run, k: nat)
    requires NoiseDelivery.IsRun(l, run) && k <= |run.actions| && run.managers[0] == Manager(map[], map[])
    ensures AllShaped(l, run.managers[k])
  {
    if k > 0 {
      ReachableShapes(l, run, k - 1);
      assert NextAt(l, run, k - 1);
      StepKeepsShapes(l, run.managers[k - 1], run.actions[k - 1]);
    }
  }

  /**
   * In every state a node can reach: a handshake can be initiated exactly with a peer that has no session, a second
   * try on a half-open one failing for want of keys; and a text can be sealed exactly for an established session.
   */
  lemma InitiateExactlyWhen(l: Local, run: Run, k: nat, peer: string, ephemeral: seq<byte>, text: seq<byte>)
    requires NoiseDelivery.IsRun(l, run) && k <= |run.actions| && run.managers[0] == Manager(map[], map[])
    ensures var m := run.managers[k];
            var r := Initiated(l, m, peer, ephemeral).1;
            && (r.Ok? <==> peer !in m.sessions)
            && (r == Err(InvalidState) <==> IsEstablished(m, peer))
            && (r == Err(MissingKeys) <==> peer in m.sessions && !IsEstablished(m, peer))
            && (ManagerEncrypted(l.s, m, peer, text).1.Ok? <==> IsEstablished(m, peer))
  {
    ReachableShapes(l, run, k);
    InitiateKeepsShape(l, run.managers[k], peer, ephemeral);
  }

  // ---------- Openings that meet ----------

  /** An opening message: one ephemeral key and nothing else. */
  lemma OpeningMessage(l: Local, m: Manager, peer: string, ephemeral: seq<byte>)
    requires Laws(l.s) && peer !in m.sessions
    ensures Initiated(l, m, peer, ephemeral).1 == Ok(l.s.pub(ephemeral))
  {
    assert Messages(XX)[0][1..] == [];
    assert l.s.pub(ephemeral) + [] == l.s.pub(ephemeral);
  }

  /** In every reachable state an opening message finds a half-open session unable to read it, and clears it. */
  lemma OpeningOnHalfOpen(l: Local, m: Manager, peer: string, theirs: seq<byte>, ephemeral: seq<byte>)
    requires Laws(l.s) && AllShaped(l, m) && peer in m.sessions && !IsEstablished(m, peer)
    ensures Handled(l, m, peer, l.s.pub(theirs), ephemeral) == (Removed(m, peer), Err(InvalidMessage))
  {
    HalfOpenSession(l, m, peer, l.s.pub(theirs), ephemeral);
    ShortForHalfOpen(l.s, m.sessions[peer].handshake.value, l.s.pub(theirs));
  }

  /** What is waited for is a second or third message, and one key is too short for either. */
  lemma ShortForHalfOpen(s: Suite, h: Handshake, message: seq<byte>)
    requires |message| == KEY_SIZE && s.valid(message) && h.pattern == XX
    requires if h.current == 1 then h.localEphemeral.Some? else h.current == 2 && h.sym.cipher.key.Some?
    ensures ReadTokens(s, h, Messages(XX)[h.current], message).1 == Err(InvalidMessage)
  {
    var tokens := Messages(XX)[h.current];
    if h.current == 1 {
      assert message[..KEY_SIZE] == message;
      var h1 := h.(remoteEphemeral := Some(message), sym := MixedHash(s, h.sym, message));
      assert ReadToken(s, h, E, message) == (h1, Ok([]));
      var h2 := MixedDh(s, h1, EE).0;
      assert tokens[1..] == [EE, S, ES] && tokens[1..][1..] == [S, ES];
      assert ReadToken(s, h1, EE, []) == (h2, Ok([])) && h2.sym.cipher.key.Some?;
      assert ReadToken(s, h2, S, []).1 == Err(InvalidMessage);
      assert ReadTokens(s, h2, [S, ES], []).1 == Err(InvalidMessage);
      assert ReadTokens(s, h1, [EE, S, ES], []).1 == Err(InvalidMessage);
    }
  }

  /** Two nodes that open to each other at the same time both fail, and both are left with no session. */
  lemma SimultaneousOpening(a: Local, b: Local, ma: Manager, mb: Manager, toB: string, toA: string,
                            eA: seq<byte>, eB: seq<byte>, e1: seq<byte>, e2: seq<byte>)
    requires Laws(a.s) && a.s == b.s && AllShaped(a, ma) && AllShaped(b, mb)
    requires toB !in ma.sessions && toA !in mb.sessions
    ensures var (ma1, m1) := Initiated(a, ma, toB, eA);
            var (mb1, m2) := Initiated(b, mb, toA, eB);
            && m1.Ok? && m2.Ok?
            && Handled(a, ma1, toB, m2.value, e1).1 == Handled(b, mb1, toA, m1.value, e2).1 == Err(InvalidMessage)
            && Handled(a, ma1, toB, m2.value, e1).0.sessions == ma.sessions
            && Handled(b, mb1, toA, m1.value, e2).0.sessions == mb.sessions
  {
    OpeningRefused(a, ma, toB, eA, eB, e1);
    OpeningRefused(b, mb, toA, eB, eA, e2);
    OpeningMessage(a, ma, toB, eA);
    OpeningMessage(b, mb, toA, eB);
  }

  lemma OpeningRefused(l: Local, m: Manager, peer: string, ours: seq<byte>, theirs: seq<byte>, ephemeral: seq<byte>)
    requires Laws(l.s) && AllShaped(l, m) && peer !in m.sessions
    ensures var (m', r) := Handled(l, Initiated(l, m, peer, ours).0, peer, l.s.pub(theirs), ephemeral);
            r == Err(InvalidMessage) && m'.sessions == m.sessions
  {
    var m1 := Initiated(l, m, peer, ours).0;
    StepKeepsShapes(l, m, Initiate(peer, ours));
    OpeningOnHalfOpen(l, m1, peer, theirs, ephemeral);
    assert m1.sessions - {peer} == m.sessions;
  }

  lemma OpenedState(l: Local, ours: seq<byte>)
    ensures var x := Restarted(l.s, Opening(l), ours).0;
            && x.role == Initiator && x.phase == Handshaking && x.handshake.Some?
            && x.handshake.value.localEphemeral == Some(ours)
            && x.handshake.value.current == 1 && x.handshake.value.remoteEphemeral.None?
  {
    assert Messages(XX)[0][1..] == [];
  }

  // ---------- A second opening is no retry ----------

  /** The initiator's transcript hash once its first message is out. */
  function OpeningHash(l: Local, ephemeral: seq<byte>): seq<byte> {
    var x := Restarted(l.s, Opening(l), ephemeral).0;
    if x.handshake.Some? then x.handshake.value.sym.hash else []
  }

  /** A sealed text opens under no associated data but the one it was sealed with. */
  ghost predicate Bound(s: Suite, ad: seq<byte>, sealed: seq<byte>) {
    forall k, ad' :: s.open(k, 0, ad', sealed).Some? ==> ad' == ad
  }

  /** The static key within a second message, sealed. */
  function SealedStatic(answer: Reply): seq<byte> {
    if answer.Ok? && answer.value.Some? && |answer.value.value| >= 2 * KEY_SIZE + TAG_SIZE
    then answer.value.value[KEY_SIZE..2 * KEY_SIZE + TAG_SIZE] else []
  }

  /**
   * What ideal primitives give for one attempt: the answer's static key is bound to the transcript it was sealed over,
   * and mixing the second ephemeral key in makes the initiator's transcript hash differ from that one.
   */
  ghost predicate Distinct(a: Local, b: Local, first: seq<byte>, second: seq<byte>, e1: seq<byte>) {
    var s, h := a.s, OpeningHash(a, first);
    && Bound(s, s.hash(h + s.pub(e1)), SealedStatic(Processed(b, Waiting(b), s.pub(first), e1).1))
    && s.hash(s.hash(h + s.pub(second)) + s.pub(e1)) != s.hash(h + s.pub(e1))
  }

  /** The second message of XX starts with an ephemeral key and the static key sealed over the transcript so far. */
  lemma SecondMessage(s: Suite, r: Handshake, ephemeral: seq<byte>) returns (k: seq<byte>, tail: seq<byte>)
    requires Written(s, r, [], ephemeral).1.Ok? && r.pattern == XX && r.current == 1 && r.role == Responder
    requires r.remoteEphemeral.Some? && r.localStatic.Some? && !r.sym.cipher.extracted
    ensures Written(s, r, [], ephemeral).1.value
         == s.pub(ephemeral)
            + (s.seal(k, 0, s.hash(r.sym.hash + s.pub(ephemeral)), s.pub(r.localStatic.value)) + tail)
  {
    var tokens := Messages(XX)[1];
    assert tokens[1..] == [EE, S, ES] && tokens[1..][1..] == [S, ES] && tokens[1..][1..][1..] == [ES];
    var (h1, r1) := WrittenToken(s, r, E, ephemeral);
    var (h2, r2) := WrittenToken(s, h1, EE, ephemeral);
    var (h3, r3) := WrittenToken(s, h2, S, ephemeral);
    var rest := WrittenTokens(s, h3, [ES], ephemeral);
    k := h2.sym.cipher.key.value;
    assert r3.value == s.seal(k, 0, s.hash(r.sym.hash + s.pub(ephemeral)), s.pub(r.localStatic.value));
    var after := WrittenTokens(s, r, tokens, ephemeral);
    assert after.1.value == r1.value + (r2.value + (r3.value + rest.1.value));
    var payload := EncryptedAndHashed(s, after.0.sym, []).1;
    tail := rest.1.value + payload.value;
    assert r2.value + (r3.value + rest.1.value) == r3.value + rest.1.value;
    assert r1.value + (r3.value + rest.1.value) + payload.value == r1.value + (r3.value + tail);
  }

  /** A reader whose transcript differs cannot open the static key in it. */
  lemma SpoiledReader(s: Suite, h: Handshake, ephemeral: seq<byte>, k: seq<byte>, ad: seq<byte>, public: seq<byte>,
                      tail: seq<byte>)
    requires Laws(s) && Bound(s, ad, s.seal(k, 0, ad, public)) && ad != s.hash(h.sym.hash + s.pub(ephemeral))
    requires h.pattern == XX && h.current == 1 && h.localEphemeral.Some? && !h.sym.cipher.extracted
    requires |public| == KEY_SIZE
    ensures Read(s, h, s.pub(ephemeral) + (s.seal(k, 0, ad, public) + tail)).1 == Err(DecryptionFailed)
  {
    var key := s.pub(ephemeral);
    var sealed := s.seal(k, 0, ad, public);
    var message := key + (sealed + tail);
    var tokens := Messages(XX)[1];
    assert tokens[1..] == [EE, S, ES] && tokens[1..][1..] == [S, ES];
    assert message[..KEY_SIZE] == key && message[KEY_SIZE..] == sealed + tail;
    var h1 := h.(remoteEphemeral := Some(key), sym := MixedHash(s, h.sym, key));
    assert ReadToken(s, h, E, message) == (h1, Ok(sealed + tail));
    var h2 := MixedDh(s, h1, EE).0;
    assert ReadToken(s, h1, EE, sealed + tail) == (h2, Ok(sealed + tail)) && h2.sym.cipher.key.Some?;
    assert (sealed + tail)[..KEY_SIZE + TAG_SIZE] == sealed;
    assert ReadToken(s, h2, S, sealed + tail).1 == Err(DecryptionFailed);
    assert ReadTokens(s, h2, [S, ES], sealed + tail).1 == Err(DecryptionFailed);
    assert ReadTokens(s, h1, [EE, S, ES], sealed + tail).1 == Err(DecryptionFailed);
  }

  /**
   * An initiator that opens again while its first message is being answered: the second try fails, and by changing key
   * and transcript it makes the answer to the first unreadable too, so the session is lost and both must start over.
   */
  lemma SecondOpeningSpoils(a: Local, b: Local, ma: Manager, mb: Manager, toB: string, toA: string,
                            first: seq<byte>, second: seq<byte>, e1: seq<byte>, e2: seq<byte>)
    requires Laws(a.s) && a.s == b.s && a.names == b.names && toB !in ma.sessions && toA !in mb.sessions
    requires Distinct(a, b, first, second, e1)
    ensures var (ma1, m1) := Initiated(a, ma, toB, first);
            && m1.Ok?
            && var (mb1, m2) := Handled(b, mb, toA, m1.value, e1);
            && m2.Ok? && m2.value.Some?
            && var (ma2, again) := Initiated(a, ma1, toB, second);
            && again == Err(MissingKeys)
            && var (ma3, end) := Handled(a, ma2, toB, m2.value.value, e2);
               end == Err(DecryptionFailed) && ma3.sessions == ma.sessions
  {
    var (x1, m1) := Restarted(a.s, Opening(a), first);
    AnswerToFirst(a, b, first, e1);
    var (y1, m2) := Processed(b, Waiting(b), m1.value, e1);
    NewSession(b, mb, toA, m1.value, e1);
    FreshOpening(a, first);
    HalfOpenRestart(a, x1, second);
    SpoiledSession(a, b, first, second, e1, e2);
    SpoiledSide(a, ma, toB, first, x1, m1.value, second, Restarted(a.s, x1, second).0, m2.value.value, e2);
  }

  lemma SpoiledSide(l: Local, m: Manager, peer: string, first: seq<byte>, x1: Session, m1: seq<byte>, second: seq<byte>,
                    x2: Session, message: seq<byte>, ephemeral: seq<byte>)
    requires peer !in m.sessions && Restarted(l.s, Opening(l), first) == (x1, Ok(m1))
    requires Restarted(l.s, x1, second) == (x2, Err(MissingKeys)) && x2.phase == Handshaking
    requires Processed(l, x2, message, ephemeral).1 == Err(DecryptionFailed)
    ensures Initiated(l, m, peer, first) == (With(m, peer, x1), Ok(m1))
    ensures Initiated(l, With(m, peer, x1), peer, second) == (With(m, peer, x2), Err(MissingKeys))
    ensures var (m', r) := Handled(l, With(m, peer, x2), peer, message, ephemeral);
            r == Err(DecryptionFailed) && m'.sessions == m.sessions
  {
    WithTwice(m, peer, x1, x2);
    HalfOpenSession(l, With(m, peer, x2), peer, message, ephemeral);
    assert With(m, peer, x2).sessions - {peer} == m.sessions;
  }

  /** The responder answers a first message, staying half-open. */
  lemma AnswerToFirst(a: Local, b: Local, first: seq<byte>, ephemeral: seq<byte>)
    requires Laws(a.s) && a.s == b.s && a.names == b.names
    ensures var (x, m1) := Restarted(a.s, Opening(a), first);
            && m1.Ok? && x.handshake.Some?
            && var (y, m2) := Processed(b, Waiting(b), m1.value, ephemeral);
            && m2.Ok? && m2.value.Some? && y.phase == Handshaking
            && exists k, tail ::
                 m2.value.value == a.s.pub(ephemeral)
                   + (a.s.seal(k, 0, a.s.hash(x.handshake.value.sym.hash + a.s.pub(ephemeral)), a.s.pub(b.key)) + tail)
  {
    ThreeMessages(a.s, a.names, a.key, b.key, first, ephemeral, []);
    var s := a.s;
    var i0 := Start(s, a.names, Initiator, XX, Some(a.key), None, []);
    var r0 := Start(s, a.names, Responder, XX, Some(b.key), None, []);
    var e := Ends(i0, r0, Ok([]));
    TablesRun(XX, true, 0);
    StartInStep(s, a.names, XX, [], Some(a.key), b.key, e);
    TablesRun(XX, true, 1);
    var now := OneMessage(s, a.key, b.key, e, 0, first);
    var (i1, m1) := Written(s, i0, [], first);
    var r1 := Read(s, r0, m1.value).0;
    assert KnownAfter(XX, Given(XX, true), 1).value.eI by {
      FirstKnown();
    }
    var k, tail := SecondMessage(s, r1, ephemeral);
    var (r2, m2) := Written(s, r1, [], ephemeral);
  }

  lemma FirstKnown()
    ensures KnownAfter(XX, Given(XX, true), 1) == Some(Given(XX, true).(eI := true))
  {
    assert KnownAfter(XX, Given(XX, true), 0) == Some(Given(XX, true));
    assert Messages(XX)[0][1..] == [];
    assert LearnAll([], Initiator, Given(XX, true).(eI := true)) == Some(Given(XX, true).(eI := true));
  }

  lemma SpoiledSession(a: Local, b: Local, first: seq<byte>, second: seq<byte>, e1: seq<byte>, e2: seq<byte>)
    requires Laws(a.s) && a.s == b.s && a.names == b.names && Distinct(a, b, first, second, e1)
    ensures var (x1, m1) := Restarted(a.s, Opening(a), first);
            && m1.Ok?
            && var m2 := Processed(b, Waiting(b), m1.value, e1).1;
            && m2.Ok? && m2.value.Some?
            && var x2 := Restarted(a.s, x1, second).0;
               x2.phase == Handshaking && Processed(a, x2, m2.value.value, e2).1 == Err(DecryptionFailed)
  {
    var s := a.s;
    AnswerToFirst(a, b, first, e1);
    FreshOpening(a, first);
    var (x1, m1) := Restarted(s, Opening(a), first);
    HalfOpenRestart(a, x1, second);
    var x2 := Restarted(s, x1, second).0;
    var m2 := Processed(b, Waiting(b), m1.value, e1).1;
    var h1, h2 := x1.handshake.value, x2.handshake.value;
    var k, tail :| m2.value.value == s.pub(e1) + (s.seal(k, 0, s.hash(h1.sym.hash + s.pub(e1)), s.pub(b.key)) + tail);
    var ad := s.hash(h1.sym.hash + s.pub(e1));
    OpeningMessage(a, Manager(map[], map[]), "", first);
    OpeningCipher(a, first);
    SealedAt(s.pub(e1), s.seal(k, 0, ad, s.pub(b.key)), tail);
    SpoiledReader(s, h2, e1, k, ad, s.pub(b.key), tail);
  }

  lemma SealedAt(key: seq<byte>, sealed: seq<byte>, tail: seq<byte>)
    requires |key| == KEY_SIZE && |sealed| == KEY_SIZE + TAG_SIZE
    ensures SealedStatic(Ok(Some(key + (sealed + tail)))) == sealed
  {
  }

  lemma OpeningCipher(l: Local, ephemeral: seq<byte>)
    ensures var x := Restarted(l.s, Opening(l), ephemeral).0;
            x.handshake.Some? && !x.handshake.value.sym.cipher.extracted
  {
    assert Messages(XX)[0][1..] == [];
  }
}
