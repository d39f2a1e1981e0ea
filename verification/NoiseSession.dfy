/** `NoiseSession` and `NoiseSessionManager`, with the mesh handler that clears a session whose handshake failed. */
module NoiseSessions {
  import opened Prelude
  import opened Bytes
  import opened NoiseCrypto
  import opened NoiseCipher
  import opened NoiseHandshake
  import opened NoiseMachine

  type Reply = Result<Option<seq<byte>>, NoiseError>

  /** What one node brings to every handshake: the primitives, the protocol names and its static private key. */
  datatype Local = Local(s: Suite, names: Names, key: seq<byte>)

  // ---------- Sessions and managers as values ----------

  datatype Phase = Uninitialized | Handshaking | Established

  datatype Session = Session(
    role: Role, phase: Phase, handshake: Option<Handshake>, sent: seq<seq<byte>>, send: Option<Cipher>,
    receive: Option<Cipher>, remoteStatic: Option<seq<byte>>, hash: Option<seq<byte>>)

  datatype Manager = Manager(sessions: map<string, Session>, fingerprints: map<string, string>)

  function Opening(l: Local): Session {
    var h := Start(l.s, l.names, Initiator, XX, Some(l.key), None, []);
    Session(Initiator, Handshaking, Some(h), [], None, None, None, None)
  }

  function Waiting(l: Local): Session {
    Session(Responder, Uninitialized, None, [], None, None, None, None)
  }

  function Begun(l: Local, x: Session): Session {
    if x.phase == Uninitialized && x.role == Responder
    then x.(handshake := Some(Start(l.s, l.names, Responder, XX, Some(l.key), None, [])), phase := Handshaking)
    else x
  }

  function Finished(s: Suite, x: Session, h: Handshake): Session
    requires h.Complete()
  {
    var ciphers := TransportCiphers(s, h).value;
    x.(phase := Established, handshake := None, send := Some(ciphers.0), receive := Some(ciphers.1),
       remoteStatic := h.remoteStatic, hash := Some(h.sym.hash))
  }

  /** A handshake message read and, unless it was the last, answered. Whatever had changed before an error stays. */
  function Processed(l: Local, x: Session, message: seq<byte>, ephemeral: seq<byte>): (Session, Reply) {
    Proceeded(l, Begun(l, x), message, ephemeral)
  }

  function Proceeded(l: Local, x: Session, message: seq<byte>, ephemeral: seq<byte>): (Session, Reply) {
    if x.phase != Handshaking || x.handshake.None? then (x, Err(InvalidState))
    else
      var (h, got) := Read(l.s, x.handshake.value, message);
      if got.Err? then (x.(handshake := Some(h)), Err(got.error))
      else if h.Complete() then (Finished(l.s, x, h), Ok(None))
      else Answered(l, x, h, ephemeral)
  }

  function Answered(l: Local, y: Session, h: Handshake, ephemeral: seq<byte>): (Session, Reply) {
    var (h1, reply) := Written(l.s, h, [], ephemeral);
    if reply.Err? then (y.(handshake := Some(h1)), Err(reply.error))
    else
      var z := y.(handshake := Some(h1), sent := y.sent + [reply.value]);
      (if h1.Complete() then Finished(l.s, z, h1) else z, Ok(Some(reply.value)))
  }

  function SessionEncrypted(s: Suite, x: Session, plaintext: seq<byte>): (Session, Outcome) {
    if x.phase != Established || x.send.None? then (x, Err(NotEstablished))
    else
      var (c, r) := Encrypted(s, x.send.value, plaintext, []);
      (x.(send := Some(c)), r)
  }

  function SessionDecrypted(s: Suite, x: Session, ciphertext: seq<byte>): (Session, Outcome) {
    if x.phase != Established || x.receive.None? then (x, Err(NotEstablished))
    else
      var (c, r) := Decrypted(s, x.receive.value, ciphertext, []);
      (x.(receive := Some(c)), r)
  }

  /** Writes the next handshake message, whatever that is for a session that is already there. */
  function Restarted(s: Suite, x: Session, ephemeral: seq<byte>): (Session, Outcome) {
    if x.handshake.None? then (x, Err(InvalidState))
    else
      var (h, r) := Written(s, x.handshake.value, [], ephemeral);
      (x.(handshake := Some(h), sent := if r.Ok? then x.sent + [r.value] else x.sent), r)
  }

  function Initiated(l: Local, m: Manager, peer: string, ephemeral: seq<byte>): (Manager, Outcome) {
    var (x, r) := Restarted(l.s, if peer in m.sessions then m.sessions[peer] else Opening(l), ephemeral);
    (With(m, peer, x), r)
  }

  function With(m: Manager, peer: string, x: Session): Manager {
    m.(sessions := m.sessions[peer := x])
  }

  lemma WithTwice(m: Manager, peer: string, x: Session, y: Session)
    ensures With(With(m, peer, x), peer, y) == With(m, peer, y)
  {
    assert m.sessions[peer := x][peer := y] == m.sessions[peer := y];
  }

  function IsEstablished(m: Manager, peer: string): bool {
    peer in m.sessions && m.sessions[peer].phase == Established
  }

  function Incoming(l: Local, m: Manager, peer: string, message: seq<byte>, ephemeral: seq<byte>): (Manager, Reply) {
    if IsEstablished(m, peer) then (m, Ok(None))
    else
      var x := if peer in m.sessions then m.sessions[peer] else Waiting(l);
      var (y, r) := Processed(l, x, message, ephemeral);
      (Noted(l.s, With(m, peer, y), peer, r.Ok?), r)
  }

  function Noted(s: Suite, m: Manager, peer: string, processed: bool): Manager
    requires peer in m.sessions
  {
    var x := m.sessions[peer];
    if processed && x.phase == Established && x.remoteStatic.Some?
    then m.(fingerprints := m.fingerprints[peer := Fingerprint(s, x.remoteStatic.value)])
    else m
  }

  function Fingerprint(s: Suite, key: seq<byte>): string {
    Hex(s.hash(key))
  }

  function Removed(m: Manager, peer: string): Manager {
    Manager(m.sessions - {peer}, m.fingerprints - {peer})
  }

  /** The mesh's side of a handshake frame: a failure clears the session. */
  function Handled(l: Local, m: Manager, peer: string, message: seq<byte>, ephemeral: seq<byte>): (Manager, Reply) {
    var (m', r) := Incoming(l, m, peer, message, ephemeral);
    (if r.Err? then Removed(m', peer) else m', r)
  }

  function ManagerEncrypted(s: Suite, m: Manager, peer: string, plaintext: seq<byte>): (Manager, Outcome) {
    if peer !in m.sessions then (m, Err(SessionNotFound))
    else
      var (x, r) := SessionEncrypted(s, m.sessions[peer], plaintext);
      (With(m, peer, x), r)
  }

  function ManagerDecrypted(s: Suite, m: Manager, peer: string, ciphertext: seq<byte>): (Manager, Outcome) {
    if peer !in m.sessions then (m, Err(SessionNotFound))
    else
      var (x, r) := SessionDecrypted(s, m.sessions[peer], ciphertext);
      (With(m, peer, x), r)
  }

  // ---------- The session object ----------

  class NoiseSession {
    const role: Role
    var phase: Phase
    var handshake: HandshakeState?
    var sent: seq<seq<byte>>
    var send: CipherState?
    var receive: CipherState?
    var remoteStatic: Option<seq<byte>>
    var hash: Option<seq<byte>>

    ghost var Repr: set<object>

    /** Everything the session owns is in `Repr`: a handshake under way or the two transport ciphers. */
    ghost predicate Valid()
      reads this, Repr
    {
      && this in Repr
      && (handshake != null ==> {handshake, handshake.symmetric, handshake.symmetric.cipher} <= Repr)
      && (handshake != null || phase == Uninitialized ==> send == null && receive == null)
      && (send != null ==> send in Repr && send != receive)
      && (receive != null ==> receive in Repr)
    }

    ghost function Value(): Session
      requires Valid()
      reads this, Repr
    {
      Session(role, phase, if handshake == null then None else Some(handshake.Value()), sent,
              if send == null then None else Some(send.Value()),
              if receive == null then None else Some(receive.Value()), remoteStatic, hash)
    }

    constructor AsInitiator(l: Local)
      ensures Valid() && fresh(Repr) && Value() == Opening(l)
    {
      role, phase, sent, send, receive, remoteStatic, hash := Initiator, Handshaking, [], null, null, None, None;
      var h := new HandshakeState(l.s, l.names, Initiator, XX, Some(l.key), None, []);
      handshake := h;
      Repr := {this, h, h.symmetric, h.symmetric.cipher};
    }

    constructor AsResponder(l: Local)
      ensures Valid() && fresh(Repr) && Value() == Waiting(l)
    {
      role, phase, sent, handshake, send, receive := Responder, Uninitialized, [], null, null, null;
      remoteStatic, hash := None, None;
      Repr := {this};
    }

    /** Takes the transport ciphers and lets go of the handshake. */
    method Finish(s: Suite)
      requires Valid() && handshake != null && handshake.Value().Complete()
      modifies this
      ensures Valid() && fresh(Repr - old(Repr))
      ensures Value() == Finished(s, old(Value()), old(handshake.Value()))
    {
      var ciphers := handshake.GetTransportCiphers(s);
      send, receive := ciphers.value.0, ciphers.value.1;
      Repr := Repr + {send, receive};
      remoteStatic := handshake.remoteStatic;
      hash := Some(handshake.symmetric.hash);
      phase := Established;
      handshake := null;
    }

    method Answer(l: Local, ephemeral: seq<byte>) returns (r: Reply)
      requires Valid() && handshake != null
      modifies Repr
      ensures Valid() && fresh(Repr - old(Repr))
      ensures (Value(), r) == Answered(l, old(Value()), old(handshake.Value()), ephemeral)
    {
      var response := handshake.WriteMessage(l.s, [], ephemeral);
      if response.Err? {
        return Err(response.error);
      }
      sent := sent + [response.value];
      if handshake.current >= |Messages(handshake.pattern)| {
        Finish(l.s);
      }
      return Ok(Some(response.value));
    }

    /** Reads the message an open handshake is waiting for, and answers it unless it was the last. */
    method Proceed(l: Local, message: seq<byte>, ephemeral: seq<byte>) returns (r: Reply)
      requires Valid()
      modifies Repr
      ensures Valid() && fresh(Repr - old(Repr))
      ensures (Value(), r) == Proceeded(l, old(Value()), message, ephemeral)
    {
      if phase != Handshaking || handshake == null {
        return Err(InvalidState);
      }
      var payload := handshake.ReadMessage(l.s, message);
      if payload.Err? {
        return Err(payload.error);
      }
      if handshake.current >= |Messages(handshake.pattern)| {
        Finish(l.s);
        return Ok(None);
      }
      r := Answer(l, ephemeral);
    }

    /** A responder starts its handshake when the first message comes. */
    method Begin(l: Local)
      requires Valid()
      modifies this
      ensures Valid() && fresh(Repr - old(Repr)) && Value() == Begun(l, old(Value()))
    {
      if phase == Uninitialized && role == Responder {
        handshake := new HandshakeState(l.s, l.names, Responder, XX, Some(l.key), None, []);
        phase := Handshaking;
        Repr := Repr + {handshake, handshake.symmetric, handshake.symmetric.cipher};
      }
    }

    method ProcessHandshakeMessage(l: Local, message: seq<byte>, ephemeral: seq<byte>) returns (r: Reply)
      requires Valid()
      modifies Repr
      ensures Valid() && fresh(Repr - old(Repr))
      ensures (Value(), r) == Processed(l, old(Value()), message, ephemeral)
    {
      Begin(l);
      r := Proceed(l, message, ephemeral);
    }

    method Restart(s: Suite, ephemeral: seq<byte>) returns (r: Outcome)
      requires Valid()
      modifies Repr
      ensures Valid() && Repr == old(Repr)
      ensures (Value(), r) == Restarted(s, old(Value()), ephemeral)
    {
      if handshake == null {
        return Err(InvalidState);
      }
      r := handshake.WriteMessage(s, [], ephemeral);
      if r.Ok? {
        sent := sent + [r.value];
      }
    }

    method Encrypt(s: Suite, plaintext: seq<byte>) returns (r: Outcome)
      requires Valid()
      modifies if send == null then {} else {send}
      ensures Valid()
      ensures (Value(), r) == SessionEncrypted(s, old(Value()), plaintext)
    {
      if phase != Established || send == null {
        return Err(NotEstablished);
      }
      r := send.Encrypt(s, plaintext, []);
    }

    method Decrypt(s: Suite, ciphertext: seq<byte>) returns (r: Outcome)
      requires Valid()
      modifies if receive == null then {} else {receive}
      ensures Valid()
      ensures (Value(), r) == SessionDecrypted(s, old(Value()), ciphertext)
    {
      if phase != Established || receive == null {
        return Err(NotEstablished);
      }
      r := receive.Decrypt(s, ciphertext, []);
    }
  }

  // ---------- The manager object ----------

  class NoiseSessionManager {
    const local: Local
    var sessions: map<string, NoiseSession>
    var fingerprints: map<string, string>
    ghost var Repr: set<object>

    /** Each session is sound and owned whole, and no two share anything. */
    ghost predicate Valid()
      reads this, Repr
    {
      && this in Repr
      && (forall p {:trigger Owns(p)} :: p in sessions ==> Owns(p))
      && (forall p, q {:trigger Apart(p, q)} :: p in sessions && q in sessions && p != q ==> Apart(p, q))
    }

    ghost predicate Owns(p: string)
      reads this, Repr
    {
      p in sessions && sessions[p] in Repr && sessions[p].Repr <= Repr - {this} && sessions[p].Valid()
    }

    ghost predicate Apart(p: string, q: string)
      reads this, Repr
    {
      Owns(p) && Owns(q) && sessions[p].Repr !! sessions[q].Repr
    }

    ghost function At(p: string): Session
      requires Owns(p)
      reads this, Repr
    {
      sessions[p].Value()
    }

    ghost function Value(): Manager
      requires Valid()
      reads this, Repr
    {
      Manager(map p | p in sessions :: At(p), fingerprints)
    }

    constructor (l: Local)
      ensures Valid() && fresh(Repr) && local == l && Value() == Manager(map[], map[])
    {
      local, sessions, fingerprints := l, map[], map[];
      Repr := {this};
    }

    /** `p` is as it was, except that `peer` may own more. */
    twostate predicate Kept(peer: string, p: string)
      reads this, Repr
    {
      && Owns(p) && old(Owns(p))
      && (if p == peer then fresh(sessions[p].Repr - old(sessions[p].Repr))
          else sessions[p].Repr == old(sessions[p].Repr) && At(p) == old(At(p)))
    }

    /** Changing one session, and what it owns, leaves every other session alone. */
    twostate lemma OthersStay(peer: string)
      requires old(Valid()) && sessions == old(sessions) && peer in sessions
      requires forall o :: o in old(Repr) - {this} && o !in old(sessions[peer].Repr) ==> unchanged(o)
      requires fresh(sessions[peer].Repr - old(sessions[peer].Repr))
      requires old(Repr) <= Repr && Owns(peer)
      ensures Valid() && Value().sessions == old(Value().sessions)[peer := At(peer)]
    {
      assert old(Owns(peer));
      forall p | p in sessions ensures Kept(peer, p) {
        assert old(Owns(p));
        assert p != peer ==> old(Apart(p, peer));
      }
      forall p, q | p in sessions && q in sessions && p != q ensures Apart(p, q) {
        assert Kept(peer, p) && Kept(peer, q);
        assert old(Apart(p, q));
      }
    }

    /** The sessions among `kept`, with nothing of theirs touched, are as they were. */
    twostate lemma TheseStay(kept: set<string>)
      requires old(Valid()) && old(Repr) <= Repr
      requires forall p :: p in kept ==> p in old(sessions) && p in sessions && sessions[p] == old(sessions[p])
      requires forall o :: o in old(Repr) - {this} ==> unchanged(o)
      ensures forall p :: p in kept ==> Owns(p) && old(Owns(p)) && At(p) == old(At(p)) && sessions[p].Repr <= old(Repr)
      ensures forall p, q :: p in kept && q in kept && p != q ==> Apart(p, q)
    {
      forall p | p in kept ensures Owns(p) && old(Owns(p)) && At(p) == old(At(p)) {
        assert old(Owns(p));
      }
      forall p, q | p in kept && q in kept && p != q ensures Apart(p, q) {
        assert Owns(p) && Owns(q) && old(Apart(p, q));
      }
    }

    method RemoveSession(peer: string)
      requires Valid()
      modifies this
      ensures Valid() && Repr == old(Repr)
      ensures Value() == Removed(old(Value()), peer)
    {
      sessions := sessions - {peer};
      fingerprints := fingerprints - {peer};
      TheseStay(sessions.Keys);
    }

    /** A new session joins the ones that are there, apart from them all. */
    twostate lemma NewcomerFits(peer: string)
      requires old(Valid()) && peer !in old(sessions) && Owns(peer) && sessions[peer].Repr !! old(Repr)
      requires sessions == old(sessions)[peer := sessions[peer]] && Repr == old(Repr) + sessions[peer].Repr
      requires forall o :: o in old(Repr) - {this} ==> unchanged(o)
      ensures Valid()
      ensures forall p :: p in old(sessions) ==> Owns(p) && old(Owns(p)) && At(p) == old(At(p))
    {
      forall p | p in old(sessions)
        ensures Owns(p) && old(Owns(p)) && At(p) == old(At(p)) && Apart(p, peer) && Apart(peer, p)
      {
        assert old(Owns(p));
      }
      forall p, q | p in sessions && q in sessions && p != q ensures Apart(p, q) {
        assert Owns(p) && Owns(q);
        assert p != peer && q != peer ==> old(Apart(p, q));
      }
    }

    twostate lemma NewcomerJoins(peer: string)
      requires old(Valid()) && peer !in old(sessions) && Owns(peer) && sessions[peer].Repr !! old(Repr)
      requires sessions == old(sessions)[peer := sessions[peer]] && Repr == old(Repr) + sessions[peer].Repr
      requires forall o :: o in old(Repr) - {this} ==> unchanged(o)
      ensures Valid() && Value().sessions == old(Value().sessions)[peer := At(peer)]
    {
      NewcomerFits(peer);
    }

    /** Files a new session for a peer that has none. */
    method Admit(peer: string, x: NoiseSession)
      requires Valid() && peer !in sessions && x.Valid() && x.Repr !! Repr
      modifies this
      ensures Valid() && Repr == old(Repr) + x.Repr && sessions == old(sessions)[peer := x]
      ensures Value() == With(old(Value()), peer, old(x.Value()))
    {
      sessions := sessions[peer := x];
      Repr := Repr + x.Repr;
      assert x.Value() == old(x.Value());
      assert Owns(peer);
      NewcomerJoins(peer);
    }

    method InitiateHandshake(peer: string, ephemeral: seq<byte>) returns (r: Outcome)
      requires Valid()
      modifies Repr
      ensures Valid() && fresh(Repr - old(Repr))
      ensures (Value(), r) == Initiated(local, old(Value()), peer, ephemeral)
    {
      if peer !in sessions {
        var x := new NoiseSession.AsInitiator(local);
        Admit(peer, x);
        assert Value() == With(old(Value()), peer, Opening(local));
      }
      ghost var x := Value().sessions[peer];
      r := RestartSession(peer, ephemeral);
      WithTwice(old(Value()), peer, x, Value().sessions[peer]);
    }

    method RestartSession(peer: string, ephemeral: seq<byte>) returns (r: Outcome)
      requires Valid() && peer in sessions
      modifies Repr
      ensures Valid() && Repr == old(Repr)
      ensures var (x, r') := Restarted(local.s, old(Value()).sessions[peer], ephemeral);
              r == r' && Value() == With(old(Value()), peer, x)
    {
      assert Owns(peer);
      var session := sessions[peer];
      r := session.Restart(local.s, ephemeral);
      OthersStay(peer);
    }

    method ProcessHandshake(peer: string, message: seq<byte>, ephemeral: seq<byte>) returns (r: Reply)
      requires Valid() && peer in sessions
      modifies Repr
      ensures Valid() && fresh(Repr - old(Repr)) && sessions == old(sessions)
      ensures var (x, r') := Processed(local, old(Value()).sessions[peer], message, ephemeral);
              r == r' && Value() == With(old(Value()), peer, x)
    {
      assert Owns(peer);
      var session := sessions[peer];
      r := session.ProcessHandshakeMessage(local, message, ephemeral);
      Repr := Repr + session.Repr;
      OthersStay(peer);
    }

    method AdmitResponder(peer: string)
      requires Valid() && peer !in sessions
      modifies this
      ensures Valid() && fresh(Repr - old(Repr)) && peer in sessions
      ensures Value() == With(old(Value()), peer, Waiting(local))
    {
      var x := new NoiseSession.AsResponder(local);
      Admit(peer, x);
    }

    method HandleIncomingHandshake(peer: string, message: seq<byte>, ephemeral: seq<byte>) returns (r: Reply)
      requires Valid()
      modifies Repr
      ensures Valid() && fresh(Repr - old(Repr))
      ensures (Value(), r) == Incoming(local, old(Value()), peer, message, ephemeral)
    {
      if peer in sessions {
        assert Owns(peer);
        if sessions[peer].phase == Established {
          return Ok(None);
        }
      } else {
        AdmitResponder(peer);
      }
      ghost var x := Value().sessions[peer];
      r := ProcessHandshake(peer, message, ephemeral);
      WithTwice(old(Value()), peer, x, Value().sessions[peer]);
      NoteFingerprint(peer, r.Ok?);
    }

    /** Files the fingerprint of a peer whose session just came up. */
    method NoteFingerprint(peer: string, processed: bool)
      requires Valid() && peer in sessions
      modifies this`fingerprints
      ensures Valid() && Value() == Noted(local.s, old(Value()), peer, processed)
    {
      assert Owns(peer);
      if processed && sessions[peer].phase == Established && sessions[peer].remoteStatic.Some? {
        fingerprints := fingerprints[peer := Fingerprint(local.s, sessions[peer].remoteStatic.value)];
      }
      TheseStay(sessions.Keys);
    }

    method HandleNoiseHandshake(peer: string, message: seq<byte>, ephemeral: seq<byte>) returns (r: Reply)
      requires Valid()
      modifies Repr
      ensures Valid() && fresh(Repr - old(Repr))
      ensures (Value(), r) == Handled(local, old(Value()), peer, message, ephemeral)
    {
      r := HandleIncomingHandshake(peer, message, ephemeral);
      if r.Err? {
        RemoveSession(peer);
      }
    }

    method Encrypt(plaintext: seq<byte>, peer: string) returns (r: Outcome)
      requires Valid()
      modifies Repr
      ensures Valid() && fresh(Repr - old(Repr))
      ensures (Value(), r) == ManagerEncrypted(local.s, old(Value()), peer, plaintext)
    {
      if peer !in sessions {
        return Err(SessionNotFound);
      }
      assert Owns(peer);
      var session := sessions[peer];
      r := session.Encrypt(local.s, plaintext);
      OthersStay(peer);
    }

    method Decrypt(ciphertext: seq<byte>, peer: string) returns (r: Outcome)
      requires Valid()
      modifies Repr
      ensures Valid() && fresh(Repr - old(Repr))
      ensures (Value(), r) == ManagerDecrypted(local.s, old(Value()), peer, ciphertext)
    {
      if peer !in sessions {
        return Err(SessionNotFound);
      }
      assert Owns(peer);
      var session := sessions[peer];
      r := session.Decrypt(local.s, ciphertext);
      OthersStay(peer);
    }
  }
}
