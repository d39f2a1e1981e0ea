/** `NoiseSymmetricState` and `NoiseHandshakeState`: the token machine of the four handshake patterns. */
module NoiseHandshake {
  import opened Prelude
  import opened Bytes
  import opened NoiseCrypto
  import opened NoiseCipher

  type Outcome = Result<seq<byte>, NoiseError>

  // ---------- Symmetric state ----------

  datatype Sym = Sym(cipher: Cipher, chainingKey: seq<byte>, hash: seq<byte>)

  function NewSym(s: Suite, name: seq<byte>): Sym {
    var h := if |name| <= 32 then name + seq(32 - |name|, _ => 0) else s.hash(name);
    Sym(UNKEYED, h, h)
  }

  function MixedKey(s: Suite, y: Sym, input: seq<byte>): Sym {
    var (ck, key) := s.hkdf(y.chainingKey, input);
    y.(chainingKey := ck, cipher := Rekeyed(y.cipher, key))
  }

  function MixedHash(s: Suite, y: Sym, data: seq<byte>): Sym {
    y.(hash := s.hash(y.hash + data))
  }

  function EncryptedAndHashed(s: Suite, y: Sym, plaintext: seq<byte>): (Sym, Outcome) {
    if y.cipher.key.None? then (MixedHash(s, y, plaintext), Ok(plaintext))
    else
      var (c, r) := Encrypted(s, y.cipher, plaintext, y.hash);
      if r.Err? then (y.(cipher := c), r) else (MixedHash(s, y.(cipher := c), r.value), r)
  }

  function SplitKeys(s: Suite, y: Sym): (Cipher, Cipher) {
    var (k1, k2) := s.hkdf(y.chainingKey, []);
    (Fresh(k1, true), Fresh(k2, true))
  }

  /** An empty ciphertext is taken as an empty text, unauthenticated, as the source has it. */
  function DecryptedAndHashed(s: Suite, y: Sym, ciphertext: seq<byte>): (Sym, Outcome) {
    if y.cipher.key.None? then (MixedHash(s, y, ciphertext), Ok(ciphertext))
    else if ciphertext == [] then (MixedHash(s, y, ciphertext), Ok([]))
    else
      var (c, r) := Decrypted(s, y.cipher, ciphertext, y.hash);
      if r.Err? then (y.(cipher := c), r) else (MixedHash(s, y.(cipher := c), ciphertext), r)
  }

  // ---------- Patterns ----------

  datatype Pattern = XX | IK | NK | X
  datatype Role = Initiator | Responder
  datatype Token = E | S | EE | ES | SE | SS

  function Messages(p: Pattern): seq<seq<Token>> {
    match p
    case XX => [[E], [E, EE, S, ES], [S, SE]]
    case IK => [[E, ES, S, SS], [E, EE, SE]]
    case NK => [[E, ES], [E, EE]]
    case X => [[E, ES, S, SS]]
  }

  // ---------- Handshake state ----------

  /** Private keys are held; their public halves are `pub` of them. */
  datatype Handshake = Handshake(
    role: Role, pattern: Pattern, sym: Sym, localStatic: Option<seq<byte>>, localEphemeral: Option<seq<byte>>,
    remoteStatic: Option<seq<byte>>, remoteEphemeral: Option<seq<byte>>, current: nat)
  {
    predicate Complete() {
      current >= |Messages(pattern)|
    }
  }

  /** The protocol name of each pattern, as bytes. */
  type Names = Pattern -> seq<byte>

  function PreMixed(s: Suite, y: Sym, role: Role, pattern: Pattern, localStatic: Option<seq<byte>>,
                    remoteStatic: Option<seq<byte>>, prologue: seq<byte>): Sym
  {
    var mixed := MixedHash(s, y, prologue);
    var responderStatic := if role == Initiator then remoteStatic
                           else if localStatic.Some? then Some(s.pub(localStatic.value)) else None;
    if pattern != XX && responderStatic.Some? then MixedHash(s, mixed, responderStatic.value) else mixed
  }

  function Start(s: Suite, names: Names, role: Role, pattern: Pattern, localStatic: Option<seq<byte>>,
                 remoteStatic: Option<seq<byte>>, prologue: seq<byte>): Handshake
  {
    Handshake(role, pattern, PreMixed(s, NewSym(s, names(pattern)), role, pattern, localStatic, remoteStatic, prologue),
              localStatic, None, remoteStatic, None, 0)
  }

  // ---------- Diffie-Hellman tokens ----------

  function Secret(s: Suite, private: Option<seq<byte>>, remote: Option<seq<byte>>): Option<seq<byte>> {
    if private.Some? && remote.Some? then Some(s.dh(private.value, remote.value)) else None
  }

  /** The shared secret a token mixes, from this side's keys. */
  function Shared(s: Suite, h: Handshake, t: Token): Option<seq<byte>>
    requires t != E && t != S
  {
    match t
    case EE => Secret(s, h.localEphemeral, h.remoteEphemeral)
    case ES => if h.role == Initiator then Secret(s, h.localEphemeral, h.remoteStatic)
               else Secret(s, h.localStatic, h.remoteEphemeral)
    case SE => if h.role == Initiator then Secret(s, h.localStatic, h.remoteEphemeral)
               else Secret(s, h.localEphemeral, h.remoteStatic)
    case SS => Secret(s, h.localStatic, h.remoteStatic)
  }

  function MixedDh(s: Suite, h: Handshake, t: Token): (Handshake, Outcome)
    requires t != E && t != S
  {
    var shared := Shared(s, h, t);
    if shared.None? then (h, Err(MissingKeys)) else (h.(sym := MixedKey(s, h.sym, shared.value)), Ok([]))
  }

  // ---------- Writing ----------

  function WrittenToken(s: Suite, h: Handshake, t: Token, ephemeral: seq<byte>): (Handshake, Outcome) {
    match t
    case E =>
      var public := s.pub(ephemeral);
      (h.(localEphemeral := Some(ephemeral), sym := MixedHash(s, h.sym, public)), Ok(public))
    case S =>
      if h.localStatic.None? then (h, Err(MissingLocalStaticKey))
      else
        var (y, r) := EncryptedAndHashed(s, h.sym, s.pub(h.localStatic.value));
        (h.(sym := y), r)
    case _ => MixedDh(s, h, t)
  }

  /** Tokens in order, stopping, with what has changed so far, at the first that fails. */
  function WrittenTokens(s: Suite, h: Handshake, tokens: seq<Token>, ephemeral: seq<byte>): (Handshake, Outcome)
    decreases |tokens|
  {
    if tokens == [] then (h, Ok([]))
    else
      var (h1, r1) := WrittenToken(s, h, tokens[0], ephemeral);
      if r1.Err? then (h1, r1)
      else
        var (h2, r2) := WrittenTokens(s, h1, tokens[1..], ephemeral);
        (h2, if r2.Err? then r2 else Ok(r1.value + r2.value))
  }

  function Written(s: Suite, h: Handshake, payload: seq<byte>, ephemeral: seq<byte>): (Handshake, Outcome) {
    if h.Complete() then (h, Err(HandshakeComplete))
    else
      var (h1, r1) := WrittenTokens(s, h, Messages(h.pattern)[h.current], ephemeral);
      if r1.Err? then (h1, r1)
      else
        var (y, r2) := EncryptedAndHashed(s, h1.sym, payload);
        if r2.Err? then (h1.(sym := y), r2)
        else (h1.(sym := y, current := h1.current + 1), Ok(r1.value + r2.value))
  }

  // ---------- Reading ----------

  /** A token read off the front of a message; the outcome is what follows it. */
  function ReadToken(s: Suite, h: Handshake, t: Token, message: seq<byte>): (Handshake, Outcome) {
    match t
    case E =>
      if |message| < KEY_SIZE then (h, Err(InvalidMessage))
      else
        var key := message[..KEY_SIZE];
        if !s.valid(key) then (h, Err(InvalidPublicKey))
        else (h.(remoteEphemeral := Some(key), sym := MixedHash(s, h.sym, key)), Ok(message[KEY_SIZE..]))
    case S =>
      var size := if h.sym.cipher.key.Some? then KEY_SIZE + TAG_SIZE else KEY_SIZE;
      if |message| < size then (h, Err(InvalidMessage))
      else
        var (y, r) := DecryptedAndHashed(s, h.sym, message[..size]);
        if r.Err? then (h.(sym := y), r)
        else if |r.value| != KEY_SIZE then (h.(sym := y), Err(InvalidMessage))
        else if !s.valid(r.value) then (h.(sym := y), Err(AuthenticationFailure))
        else (h.(sym := y, remoteStatic := Some(r.value)), Ok(message[size..]))
    case _ =>
      var (h1, r) := MixedDh(s, h, t);
      (h1, if r.Err? then r else Ok(message))
  }

  function ReadTokens(s: Suite, h: Handshake, tokens: seq<Token>, message: seq<byte>): (Handshake, Outcome)
    decreases |tokens|
  {
    if tokens == [] then (h, Ok(message))
    else
      var (h1, r1) := ReadToken(s, h, tokens[0], message);
      if r1.Err? then (h1, r1) else ReadTokens(s, h1, tokens[1..], r1.value)
  }

  function Read(s: Suite, h: Handshake, message: seq<byte>): (Handshake, Outcome) {
    if h.Complete() then (h, Err(HandshakeComplete))
    else
      var (h1, r1) := ReadTokens(s, h, Messages(h.pattern)[h.current], message);
      if r1.Err? then (h1, r1)
      else
        var (y, r2) := DecryptedAndHashed(s, h1.sym, r1.value);
        if r2.Err? then (h1.(sym := y), r2) else (h1.(sym := y, current := h1.current + 1), r2)
  }

  /** The two transport ciphers, sending first: the initiator's sending key is the responder's receiving key. */
  function TransportCiphers(s: Suite, h: Handshake): Result<(Cipher, Cipher), NoiseError> {
    if !h.Complete() then Err(HandshakeNotComplete)
    else
      var (c1, c2) := SplitKeys(s, h.sym);
      Ok(if h.role == Initiator then (c1, c2) else (c2, c1))
  }

  // ---------- What both ends know ----------

  /** Which ephemerals have been exchanged, which statics exist and which of them the other side has. */
  datatype Know = Know(eI: bool, eR: bool, sI: bool, sR: bool, kI: bool, kR: bool)

  /** The two ends in step: same transcript, same keys, and each holding the other's public keys as far as known. */
  ghost predicate InStep(s: Suite, i: Handshake, r: Handshake, k: Know) {
    && i.role == Initiator && r.role == Responder && i.pattern == r.pattern && i.current == r.current && i.sym == r.sym
    && !i.sym.cipher.extracted
    && k.sI == i.localStatic.Some? && k.sR == r.localStatic.Some?
    && (k.eI ==> i.localEphemeral.Some? && r.remoteEphemeral == Some(s.pub(i.localEphemeral.value)))
    && (k.eR ==> r.localEphemeral.Some? && i.remoteEphemeral == Some(s.pub(r.localEphemeral.value)))
    && (k.kI ==> i.localStatic.Some? && r.remoteStatic == Some(s.pub(i.localStatic.value)))
    && (k.kR ==> r.localStatic.Some? && i.remoteStatic == Some(s.pub(r.localStatic.value)))
  }

  ghost predicate Paired(s: Suite, writer: Handshake, reader: Handshake, k: Know) {
    if writer.role == Initiator then InStep(s, writer, reader, k) else InStep(s, reader, writer, k)
  }

  /** What a token adds to the knowledge, if both ends have the keys it needs. */
  function Learn(t: Token, writer: Role, k: Know): Option<Know> {
    match t
    case E => Some(if writer == Initiator then k.(eI := true) else k.(eR := true))
    case S =>
      if writer == Initiator then if k.sI then Some(k.(kI := true)) else None
      else if k.sR then Some(k.(kR := true)) else None
    case EE => if k.eI && k.eR then Some(k) else None
    case ES => if k.eI && k.kR then Some(k) else None
    case SE => if k.kI && k.eR then Some(k) else None
    case SS => if k.kI && k.kR then Some(k) else None
  }

  function LearnAll(tokens: seq<Token>, writer: Role, k: Know): Option<Know> {
    if tokens == [] then Some(k)
    else
      var k1 :- Learn(tokens[0], writer, k);
      LearnAll(tokens[1..], writer, k1)
  }

  // ---------- Lockstep ----------

  lemma CipherPair(s: Suite, y: Sym, plaintext: seq<byte>)
    requires Laws(s) && !y.cipher.extracted
    ensures var (y1, r) := EncryptedAndHashed(s, y, plaintext);
            && r.Ok? && !y1.cipher.extracted
            && |r.value| == |plaintext| + (if y.cipher.key.Some? then TAG_SIZE else 0)
            && DecryptedAndHashed(s, y, r.value) == (y1, Ok(plaintext))
  {
  }

  /** One token written and read: both ends move together and the reader is left with exactly what followed. */
  lemma TokenInStep(s: Suite, w: Handshake, r: Handshake, t: Token, ephemeral: seq<byte>, rest: seq<byte>, k: Know)
    requires Laws(s) && w.role != r.role && Paired(s, w, r, k) && Learn(t, w.role, k).Some?
    ensures var (w1, out) := WrittenToken(s, w, t, ephemeral);
            && out.Ok? && w1.role == w.role && w1.pattern == w.pattern && w1.current == w.current
            && var (r1, left) := ReadToken(s, r, t, out.value + rest);
               && left == Ok(rest) && r1.role == r.role
               && Paired(s, w1, r1, Learn(t, w.role, k).value)
  {
    if t == E {
      var public := s.pub(ephemeral);
      assert (public + rest)[..KEY_SIZE] == public && (public + rest)[KEY_SIZE..] == rest;
    } else if t == S {
      StaticInStep(s, w, r, rest, k);
    } else {
      assert [] + rest == rest;
      assert Shared(s, w, t).Some? && Shared(s, w, t) == Shared(s, r, t);
    }
  }

  lemma StaticInStep(s: Suite, w: Handshake, r: Handshake, rest: seq<byte>, k: Know)
    requires Laws(s) && w.role != r.role && Paired(s, w, r, k) && w.localStatic.Some?
    ensures var (y, out) := EncryptedAndHashed(s, w.sym, s.pub(w.localStatic.value));
            && out.Ok? && !y.cipher.extracted
            && ReadToken(s, r, S, out.value + rest)
               == (r.(sym := y, remoteStatic := Some(s.pub(w.localStatic.value))), Ok(rest))
  {
    var public := s.pub(w.localStatic.value);
    CipherPair(s, w.sym, public);
    var (y, out) := EncryptedAndHashed(s, w.sym, public);
    var size := if r.sym.cipher.key.Some? then KEY_SIZE + TAG_SIZE else KEY_SIZE;
    assert |out.value| == size;
    assert (out.value + rest)[..size] == out.value && (out.value + rest)[size..] == rest;
  }

  lemma {:induction false} TokensInStep(s: Suite, w: Handshake, r: Handshake, tokens: seq<Token>, ephemeral: seq<byte>,
                                        rest: seq<byte>, k: Know)
    requires Laws(s) && w.role != r.role && Paired(s, w, r, k) && LearnAll(tokens, w.role, k).Some?
    ensures var (w1, out) := WrittenTokens(s, w, tokens, ephemeral);
            && out.Ok? && w1.role == w.role && w1.pattern == w.pattern && w1.current == w.current
            && var (r1, left) := ReadTokens(s, r, tokens, out.value + rest);
               && left == Ok(rest) && r1.role == r.role
               && Paired(s, w1, r1, LearnAll(tokens, w.role, k).value)
    decreases |tokens|
  {
    if tokens == [] {
      assert [] + rest == rest;
    } else {
      var (w1, out1) := WrittenToken(s, w, tokens[0], ephemeral);
      var tail := WrittenTokens(s, w1, tokens[1..], ephemeral).1;
      var after := if tail.Ok? then tail.value + rest else rest;
      TokenInStep(s, w, r, tokens[0], ephemeral, after, k);
      var r1 := ReadToken(s, r, tokens[0], out1.value + after).0;
      TokensInStep(s, w1, r1, tokens[1..], ephemeral, rest, Learn(tokens[0], w.role, k).value);
      OneTokenMore(s, w, r, tokens, ephemeral, out1.value, tail.value, rest);
    }
  }

  /** A first token and the rest of the tokens, written and read, put together. */
  lemma OneTokenMore(s: Suite, w: Handshake, r: Handshake, tokens: seq<Token>, ephemeral: seq<byte>, first: seq<byte>,
                     others: seq<byte>, rest: seq<byte>)
    requires tokens != [] && WrittenToken(s, w, tokens[0], ephemeral).1 == Ok(first)
    requires WrittenTokens(s, WrittenToken(s, w, tokens[0], ephemeral).0, tokens[1..], ephemeral).1 == Ok(others)
    requires ReadToken(s, r, tokens[0], first + (others + rest)).1 == Ok(others + rest)
    ensures WrittenTokens(s, w, tokens, ephemeral)
         == (WrittenTokens(s, WrittenToken(s, w, tokens[0], ephemeral).0, tokens[1..], ephemeral).0, Ok(first + others))
    ensures ReadTokens(s, r, tokens, first + others + rest)
         == ReadTokens(s, ReadToken(s, r, tokens[0], first + (others + rest)).0, tokens[1..], others + rest)
  {
    assert first + others + rest == first + (others + rest);
  }

  /** One whole message: the reader gets exactly the payload, and both ends agree again. */
  lemma MessageInStep(s: Suite, w: Handshake, r: Handshake, payload: seq<byte>, ephemeral: seq<byte>, k: Know)
    requires Laws(s) && w.role != r.role && Paired(s, w, r, k) && !w.Complete()
    requires LearnAll(Messages(w.pattern)[w.current], w.role, k).Some?
    ensures var (w1, out) := Written(s, w, payload, ephemeral);
            && out.Ok? && w1.role == w.role && w1.pattern == w.pattern && w1.current == w.current + 1
            && var (r1, got) := Read(s, r, out.value);
               && got == Ok(payload) && r1.role == r.role
               && Paired(s, w1, r1, LearnAll(Messages(w.pattern)[w.current], w.role, k).value)
  {
    var tokens := Messages(w.pattern)[w.current];
    TokensInStep(s, w, r, tokens, ephemeral, [], k);
    var (w1, out) := WrittenTokens(s, w, tokens, ephemeral);
    CipherPair(s, w1.sym, payload);
    var sealed := EncryptedAndHashed(s, w1.sym, payload).1;
    TokensInStep(s, w, r, tokens, ephemeral, sealed.value, k);
  }

  // ---------- Whole handshakes ----------

  /** Initiator and responder writing in turn, each message read by the other. */
  datatype Ends = Ends(initiator: Handshake, responder: Handshake, got: Outcome)

  function Turn(n: nat): Role {
    if n % 2 == 0 then Initiator else Responder
  }

  function Exchange(s: Suite, e: Ends, payload: seq<byte>, ephemeral: seq<byte>, writer: Role): Ends {
    var w, r := if writer == Initiator then e.initiator else e.responder,
                if writer == Initiator then e.responder else e.initiator;
    var (w1, out) := Written(s, w, payload, ephemeral);
    if out.Err? then (if writer == Initiator then Ends(w1, r, out) else Ends(r, w1, out))
    else
      var (r1, got) := Read(s, r, out.value);
      if writer == Initiator then Ends(w1, r1, got) else Ends(r1, w1, got)
  }

  function After(s: Suite, e: Ends, payloads: seq<seq<byte>>, ephemerals: seq<seq<byte>>, n: nat): Ends
    requires n <= |payloads| == |ephemerals|
  {
    if n == 0 then e
    else Exchange(s, After(s, e, payloads, ephemerals, n - 1), payloads[n - 1], ephemerals[n - 1], Turn(n - 1))
  }

  /** What is known after `n` messages of a pattern, if none of them lacks a key. */
  function KnownAfter(p: Pattern, k: Know, n: nat): Option<Know>
    requires n <= |Messages(p)|
  {
    if n == 0 then Some(k)
    else
      var before :- KnownAfter(p, k, n - 1);
      LearnAll(Messages(p)[n - 1], Turn(n - 1), before)
  }

  /**
   * What is there beforehand: the responder's static key, perhaps the initiator's, and the former given out unless XX.
   */
  function Given(p: Pattern, sI: bool): Know {
    Know(false, false, sI, true, false, p != XX)
  }

  /** Each pattern's table never asks for a key its ends do not have, and ends with these statics exchanged. */
  lemma TablesRun(p: Pattern, sI: bool, n: nat)
    requires n <= |Messages(p)| && (p != NK ==> sI)
    ensures KnownAfter(p, Given(p, sI), n).Some?
    ensures n == |Messages(p)| ==> KnownAfter(p, Given(p, sI), n).value == Know(true, p != X, sI, true, p != NK, true)
  {
    var k0 := Given(p, sI);
    var m := Messages(p);
    assert KnownAfter(p, k0, 0) == Some(k0);
    var a := Learn4(m[0], Initiator, k0);
    if |m| >= 2 {
      var b := Learn4(m[1], Responder, a);
      if |m| == 3 {
        var c := Learn4(m[2], Initiator, b);
      }
    }
  }

  lemma Learn4(tokens: seq<Token>, writer: Role, k: Know) returns (k': Know)
    requires 1 <= |tokens| <= 4
    requires Learn(tokens[0], writer, k).Some?
    requires |tokens| > 1 ==> Learn(tokens[1], writer, Learn(tokens[0], writer, k).value).Some?
    requires |tokens| > 2
        ==> Learn(tokens[2], writer, Learn(tokens[1], writer, Learn(tokens[0], writer, k).value).value).Some?
    requires |tokens| > 3 ==> Learn(tokens[3], writer,
               Learn(tokens[2], writer, Learn(tokens[1], writer, Learn(tokens[0], writer, k).value).value).value).Some?
    ensures LearnAll(tokens, writer, k) == Some(k')
    ensures |tokens| == 1 ==> Some(k') == Learn(tokens[0], writer, k)
    ensures |tokens| == 2 ==> Some(k') == Learn(tokens[1], writer, Learn(tokens[0], writer, k).value)
    ensures |tokens| == 3
        ==> Some(k') == Learn(tokens[2], writer, Learn(tokens[1], writer, Learn(tokens[0], writer, k).value).value)
    ensures |tokens| == 4
        ==> Some(k') == Learn(tokens[3], writer,
               Learn(tokens[2], writer, Learn(tokens[1], writer, Learn(tokens[0], writer, k).value).value).value)
  {
    var k1 := Learn(tokens[0], writer, k).value;
    if |tokens| == 1 {
      k' := k1;
      assert LearnAll(tokens[1..], writer, k1) == Some(k1);
    } else {
      k' := Learn4(tokens[1..], writer, k1);
    }
  }

  /**
   * Two ends started for one handshake: the initiator has a static key unless the pattern is NK, where it may, and was
   * given the responder's unless the pattern is XX, where anything it was given is overwritten.
   */
  ghost predicate Started(s: Suite, names: Names, p: Pattern, prologue: seq<byte>, sI: Option<seq<byte>>, sR: seq<byte>,
                          e: Ends)
  {
    && (p != NK ==> sI.Some?)
    && (p != XX ==> e.initiator.remoteStatic == Some(s.pub(sR)))
    && e.initiator == Start(s, names, Initiator, p, sI, e.initiator.remoteStatic, prologue)
    && e.responder == Start(s, names, Responder, p, Some(sR), e.responder.remoteStatic, prologue)
  }

  /** After `n` messages both ends are in step, at the same place of the pattern, with what it has sent so far known. */
  ghost predicate InStepAfter(s: Suite, p: Pattern, sI: Option<seq<byte>>, sR: seq<byte>, now: Ends, n: nat)
    requires n <= |Messages(p)|
  {
    && KnownAfter(p, Given(p, sI.Some?), n).Some?
    && InStep(s, now.initiator, now.responder, KnownAfter(p, Given(p, sI.Some?), n).value)
    && now.initiator.pattern == p && now.initiator.current == n
    && now.initiator.localStatic == sI && now.responder.localStatic == Some(sR)
  }

  /**
   * For XX, IK, NK and X, any prologue, keys and payloads: after every message both ends hold the same hash, chaining
   * key, cipher key and nonce, the reader got exactly the payload, and each knows the static keys the pattern has sent.
   */
  lemma {:induction false} Lockstep(s: Suite, names: Names, p: Pattern, prologue: seq<byte>, sI: Option<seq<byte>>,
                                    sR: seq<byte>, e: Ends, payloads: seq<seq<byte>>, ephemerals: seq<seq<byte>>,
                                    n: nat)
    requires Laws(s) && Started(s, names, p, prologue, sI, sR, e)
    requires |payloads| == |ephemerals| == |Messages(p)| && n <= |Messages(p)|
    ensures InStepAfter(s, p, sI, sR, After(s, e, payloads, ephemerals, n), n)
    ensures n > 0 ==> After(s, e, payloads, ephemerals, n).got == Ok(payloads[n - 1])
  {
    if n == 0 {
      TablesRun(p, sI.Some?, 0);
      StartInStep(s, names, p, prologue, sI, sR, e);
    } else {
      Lockstep(s, names, p, prologue, sI, sR, e, payloads, ephemerals, n - 1);
      var before := After(s, e, payloads, ephemerals, n - 1);
      TurnInStep(s, p, sI, sR, before, n - 1, payloads[n - 1], ephemerals[n - 1]);
    }
  }

  lemma TurnInStep(s: Suite, p: Pattern, sI: Option<seq<byte>>, sR: seq<byte>, e: Ends, n: nat, payload: seq<byte>,
                   ephemeral: seq<byte>)
    requires Laws(s) && (p != NK ==> sI.Some?) && n < |Messages(p)| && InStepAfter(s, p, sI, sR, e, n)
    ensures InStepAfter(s, p, sI, sR, Exchange(s, e, payload, ephemeral, Turn(n)), n + 1)
    ensures Exchange(s, e, payload, ephemeral, Turn(n)).got == Ok(payload)
  {
    TablesRun(p, sI.Some?, n + 1);
    ExchangeInStep(s, e, payload, ephemeral, Turn(n), KnownAfter(p, Given(p, sI.Some?), n).value);
  }

  lemma StartInStep(s: Suite, names: Names, p: Pattern, prologue: seq<byte>, sI: Option<seq<byte>>, sR: seq<byte>,
                    e: Ends)
    requires Started(s, names, p, prologue, sI, sR, e)
    ensures InStep(s, e.initiator, e.responder, Given(p, sI.Some?))
  {
  }

  /** One turn of the exchange, from any two ends in step. */
  lemma ExchangeInStep(s: Suite, e: Ends, payload: seq<byte>, ephemeral: seq<byte>, writer: Role, k: Know)
    requires Laws(s) && InStep(s, e.initiator, e.responder, k) && !e.initiator.Complete()
    requires LearnAll(Messages(e.initiator.pattern)[e.initiator.current], writer, k).Some?
    ensures var now := Exchange(s, e, payload, ephemeral, writer);
            && InStep(s, now.initiator, now.responder,
                      LearnAll(Messages(e.initiator.pattern)[e.initiator.current], writer, k).value)
            && now.initiator.pattern == e.initiator.pattern && now.initiator.current == e.initiator.current + 1
            && now.initiator.localStatic == e.initiator.localStatic
            && now.responder.localStatic == e.responder.localStatic && now.got == Ok(payload)
  {
    var w, r := if writer == Initiator then e.initiator else e.responder,
                if writer == Initiator then e.responder else e.initiator;
    MessageInStep(s, w, r, payload, ephemeral, k);
    StaticsStay(s, w, r, payload, ephemeral);
  }

  lemma {:induction false} TokensKeepStatic(s: Suite, h: Handshake, tokens: seq<Token>, ephemeral: seq<byte>,
                                            message: seq<byte>)
    ensures WrittenTokens(s, h, tokens, ephemeral).0.localStatic == h.localStatic
    ensures ReadTokens(s, h, tokens, message).0.localStatic == h.localStatic
    decreases |tokens|
  {
    if tokens != [] {
      var (h1, r1) := WrittenToken(s, h, tokens[0], ephemeral);
      TokensKeepStatic(s, h1, tokens[1..], ephemeral, message);
      var (h2, r2) := ReadToken(s, h, tokens[0], message);
      if r2.Ok? {
        TokensKeepStatic(s, h2, tokens[1..], ephemeral, r2.value);
      }
    }
  }

  lemma StaticsStay(s: Suite, w: Handshake, r: Handshake, payload: seq<byte>, ephemeral: seq<byte>)
    ensures Written(s, w, payload, ephemeral).0.localStatic == w.localStatic
    ensures forall m :: Read(s, r, m).0.localStatic == r.localStatic
  {
    if !w.Complete() {
      TokensKeepStatic(s, w, Messages(w.pattern)[w.current], ephemeral, []);
    }
    forall m ensures Read(s, r, m).0.localStatic == r.localStatic {
      if !r.Complete() {
        TokensKeepStatic(s, r, Messages(r.pattern)[r.current], [], m);
      }
    }
  }

  /**
   * At completion each side's sending cipher is the other's receiving cipher, both hold the same handshake hash for
   * channel binding, and each has the other's static key, except that an NK initiator stays anonymous.
   */
  lemma HandshakeCompletes(s: Suite, names: Names, p: Pattern, prologue: seq<byte>, sI: Option<seq<byte>>,
                           sR: seq<byte>, e: Ends, payloads: seq<seq<byte>>, ephemerals: seq<seq<byte>>)
    requires Laws(s) && Started(s, names, p, prologue, sI, sR, e)
    requires |payloads| == |ephemerals| == |Messages(p)|
    ensures var now := After(s, e, payloads, ephemerals, |Messages(p)|);
            && TransportCiphers(s, now.initiator).Ok? && TransportCiphers(s, now.responder).Ok?
            && TransportCiphers(s, now.initiator).value.0 == TransportCiphers(s, now.responder).value.1
            && TransportCiphers(s, now.initiator).value.1 == TransportCiphers(s, now.responder).value.0
            && now.initiator.sym.hash == now.responder.sym.hash
            && now.initiator.remoteStatic == Some(s.pub(sR))
            && (p != NK ==> now.responder.remoteStatic == Some(s.pub(sI.value)))
  {
    Lockstep(s, names, p, prologue, sI, sR, e, payloads, ephemerals, |Messages(p)|);
    TablesRun(p, sI.Some?, |Messages(p)|);
  }

  /**
   * A sealed courier envelope: one X message under its own prologue. Whoever holds the recipient's key reads exactly
   * the payload and learns the sender's static key, which the `ss` token authenticates.
   */
  lemma SealedMailOpens(s: Suite, names: Names, prologue: seq<byte>, sender: seq<byte>, recipient: seq<byte>,
                        payload: seq<byte>, ephemeral: seq<byte>)
    requires Laws(s)
    ensures var sealed := Written(s, Start(s, names, Initiator, X, Some(sender), Some(s.pub(recipient)), prologue),
                                  payload, ephemeral).1;
            && sealed.Ok?
            && var (h, read) := Read(s, Start(s, names, Responder, X, Some(recipient), None, prologue), sealed.value);
               read == Ok(payload) && h.remoteStatic == Some(s.pub(sender))
  {
    var i := Start(s, names, Initiator, X, Some(sender), Some(s.pub(recipient)), prologue);
    var r := Start(s, names, Responder, X, Some(recipient), None, prologue);
    StartInStep(s, names, X, prologue, Some(sender), recipient, Ends(i, r, Ok([])));
    SealedInStep(s, i, r, payload, ephemeral);
  }

  lemma SealedInStep(s: Suite, i: Handshake, r: Handshake, payload: seq<byte>, ephemeral: seq<byte>)
    requires Laws(s) && InStep(s, i, r, Given(X, true)) && i.pattern == X && i.current == 0
    ensures var sealed := Written(s, i, payload, ephemeral).1;
            && sealed.Ok?
            && var (h, read) := Read(s, r, sealed.value);
               read == Ok(payload) && h.remoteStatic == Some(s.pub(i.localStatic.value))
  {
    TablesRun(X, true, 1);
    assert KnownAfter(X, Given(X, true), 0) == Some(Given(X, true));
    MessageInStep(s, i, r, payload, ephemeral, Given(X, true));
    StaticsStay(s, i, r, payload, ephemeral);
  }
}
