/**
 * The four handshakes written out: every message, key and hash in terms of the private keys of both ends, with no
 * tables of tokens. What a handshake is worth rests on which Diffie-Hellman secrets went into its keys.
 */
module NoiseTranscript {
  import opened Prelude
  import opened Bytes
  import opened NoiseCrypto
  import opened NoiseCipher
  import opened NoiseHandshake

  // ---------- Keys and hashes, one step at a time ----------

  /** What a protocol name starts the transcript with: padded to the size of a hash, or hashed if longer. */
  function Named(s: Suite, name: seq<byte>): seq<byte> {
    if |name| > 32 then s.hash(name) else name + seq(32 - |name|, _ => 0)
  }

  function Then(s: Suite, hash: seq<byte>, data: seq<byte>): seq<byte> {
    s.hash(hash + data)
  }

  /** The chaining key, and the cipher key, after a secret. */
  function Chain(s: Suite, chain: seq<byte>, secret: seq<byte>): seq<byte> {
    s.hkdf(chain, secret).0
  }

  function Key(s: Suite, chain: seq<byte>, secret: seq<byte>): seq<byte> {
    s.hkdf(chain, secret).1
  }

  /** A symmetric state of a handshake, with or without a key. */
  function Bare(chain: seq<byte>, hash: seq<byte>): Sym {
    Sym(Cipher(None, 0, false, {}, 0), chain, hash)
  }

  function Keyed(key: seq<byte>, nonce: nat, chain: seq<byte>, hash: seq<byte>): Sym {
    Sym(Cipher(Some(key), nonce, false, {}, 0), chain, hash)
  }

  // ---------- Writing a message of up to four tokens ----------

  /** Tokens one after another, none of which fails. */
  lemma {:induction false} WrittenInTurn(s: Suite, w: Handshake, tokens: seq<Token>, ephemeral: seq<byte>)
    requires tokens != [] && WrittenToken(s, w, tokens[0], ephemeral).1.Ok?
    requires WrittenTokens(s, WrittenToken(s, w, tokens[0], ephemeral).0, tokens[1..], ephemeral).1.Ok?
    ensures var (h, first) := WrittenToken(s, w, tokens[0], ephemeral);
            var (h', others) := WrittenTokens(s, h, tokens[1..], ephemeral);
            WrittenTokens(s, w, tokens, ephemeral) == (h', Ok(first.value + others.value))
  {
  }

  /** The first message of XX: an ephemeral key and the payload in the clear. */
  lemma FirstOfXX(s: Suite, w: Handshake, payload: seq<byte>, a: seq<byte>, chain: seq<byte>, h: seq<byte>)
    requires w.pattern == XX && w.current == 0 && w.sym == Bare(chain, h)
    ensures Written(s, w, payload, a)
         == (w.(localEphemeral := Some(a), current := 1, sym := Bare(chain, Then(s, Then(s, h, s.pub(a)), payload))),
             Ok(s.pub(a) + payload))
  {
    var tokens := [E];
    assert Messages(XX)[0] == tokens && tokens[1..] == [];
    WrittenInTurn(s, w, tokens, a);
    assert s.pub(a) + [] == s.pub(a);
  }

  /** The second: an ephemeral key, the static key sealed under `ee`, and the payload under `es` on top. */
  lemma SecondOfXX(s: Suite, w: Handshake, payload: seq<byte>, b: seq<byte>, chain: seq<byte>, h: seq<byte>,
                   remote: seq<byte>, key: seq<byte>)
    requires w.pattern == XX && w.current == 1 && w.role == Responder && w.sym == Bare(chain, h)
    requires w.remoteEphemeral == Some(remote) && w.localStatic == Some(key)
    ensures var h1 := Then(s, h, s.pub(b));
            var ee, es := s.dh(b, remote), s.dh(key, remote);
            var c1 := s.seal(Key(s, chain, ee), 0, h1, s.pub(key));
            var chain1, h2 := Chain(s, chain, ee), Then(s, h1, c1);
            var c2 := s.seal(Key(s, chain1, es), 0, h2, payload);
            Written(s, w, payload, b)
            == (w.(localEphemeral := Some(b), current := 2,
                   sym := Keyed(Key(s, chain1, es), 1, Chain(s, chain1, es), Then(s, h2, c2))),
                Ok(s.pub(b) + c1 + c2))
  {
    var tokens := [E, EE, S, ES];
    assert Messages(XX)[1] == tokens;
    assert tokens[1..] == [EE, S, ES] && tokens[1..][1..] == [S, ES] && tokens[1..][1..][1..] == [ES];
    assert tokens[1..][1..][1..][1..] == [];
    var (w1, r1) := WrittenToken(s, w, E, b);
    var (w2, r2) := WrittenToken(s, w1, EE, b);
    var (w3, r3) := WrittenToken(s, w2, S, b);
    var (w4, r4) := WrittenToken(s, w3, ES, b);
    WrittenInTurn(s, w3, [ES], b);
    WrittenInTurn(s, w2, [S, ES], b);
    WrittenInTurn(s, w1, [EE, S, ES], b);
    WrittenInTurn(s, w, tokens, b);
    assert s.pub(b) + ([] + (r3.value + ([] + []))) == s.pub(b) + r3.value;
  }

  /** The third: the static key sealed under the same key, and the payload under `se` on top. */
  lemma ThirdOfXX(s: Suite, w: Handshake, payload: seq<byte>, unused: seq<byte>, k: seq<byte>, chain: seq<byte>,
                  h: seq<byte>, remote: seq<byte>, key: seq<byte>)
    requires w.pattern == XX && w.current == 2 && w.role == Initiator && w.sym == Keyed(k, 1, chain, h)
    requires w.remoteEphemeral == Some(remote) && w.localStatic == Some(key)
    ensures var se := s.dh(key, remote);
            var c1 := s.seal(k, 1, h, s.pub(key));
            var h1 := Then(s, h, c1);
            var c2 := s.seal(Key(s, chain, se), 0, h1, payload);
            Written(s, w, payload, unused)
            == (w.(current := 3, sym := Keyed(Key(s, chain, se), 1, Chain(s, chain, se), Then(s, h1, c2))), Ok(c1 + c2))
  {
    var tokens := [S, SE];
    assert Messages(XX)[2] == tokens && tokens[1..] == [SE] && tokens[1..][1..] == [];
    var (w1, r1) := WrittenToken(s, w, S, unused);
    var (w2, r2) := WrittenToken(s, w1, SE, unused);
    WrittenInTurn(s, w1, [SE], unused);
    WrittenInTurn(s, w, tokens, unused);
    assert r1.value + ([] + []) == r1.value;
  }

  /** The first message of NK: an ephemeral key, and the payload under `es`. */
  lemma FirstOfNK(s: Suite, w: Handshake, payload: seq<byte>, a: seq<byte>, chain: seq<byte>, h: seq<byte>,
                  remote: seq<byte>)
    requires w.pattern == NK && w.current == 0 && w.role == Initiator && w.sym == Bare(chain, h)
    requires w.remoteStatic == Some(remote)
    ensures var es, h1 := s.dh(a, remote), Then(s, h, s.pub(a));
            var c := s.seal(Key(s, chain, es), 0, h1, payload);
            Written(s, w, payload, a)
            == (w.(localEphemeral := Some(a), current := 1,
                   sym := Keyed(Key(s, chain, es), 1, Chain(s, chain, es), Then(s, h1, c))), Ok(s.pub(a) + c))
  {
    var tokens := [E, ES];
    assert Messages(NK)[0] == tokens && tokens[1..] == [ES] && tokens[1..][1..] == [];
    var (w1, r1) := WrittenToken(s, w, E, a);
    var (w2, r2) := WrittenToken(s, w1, ES, a);
    WrittenInTurn(s, w1, [ES], a);
    WrittenInTurn(s, w, tokens, a);
    assert r1.value + ([] + []) == r1.value;
  }

  /** The second: an ephemeral key, and the payload under `ee`. */
  lemma SecondOfNK(s: Suite, w: Handshake, payload: seq<byte>, b: seq<byte>, k: seq<byte>, chain: seq<byte>,
                   h: seq<byte>, remote: seq<byte>)
    requires w.pattern == NK && w.current == 1 && w.role == Responder && w.sym == Keyed(k, 1, chain, h)
    requires w.remoteEphemeral == Some(remote)
    ensures var ee, h1 := s.dh(b, remote), Then(s, h, s.pub(b));
            var c := s.seal(Key(s, chain, ee), 0, h1, payload);
            Written(s, w, payload, b)
            == (w.(localEphemeral := Some(b), current := 2,
                   sym := Keyed(Key(s, chain, ee), 1, Chain(s, chain, ee), Then(s, h1, c))), Ok(s.pub(b) + c))
  {
    var tokens := [E, EE];
    assert Messages(NK)[1] == tokens && tokens[1..] == [EE] && tokens[1..][1..] == [];
    var (w1, r1) := WrittenToken(s, w, E, b);
    var (w2, r2) := WrittenToken(s, w1, EE, b);
    WrittenInTurn(s, w1, [EE], b);
    WrittenInTurn(s, w, tokens, b);
    assert r1.value + ([] + []) == r1.value;
  }

  /** An envelope, and the first message of IK: an ephemeral key, the static key under `es`, the payload under `ss`. */
  lemma FirstOfIK(s: Suite, w: Handshake, payload: seq<byte>, a: seq<byte>, chain: seq<byte>, h: seq<byte>,
                  remote: seq<byte>, key: seq<byte>)
    requires (w.pattern == IK || w.pattern == X) && w.current == 0 && w.role == Initiator && w.sym == Bare(chain, h)
    requires w.remoteStatic == Some(remote) && w.localStatic == Some(key)
    ensures var es, ss, h1 := s.dh(a, remote), s.dh(key, remote), Then(s, h, s.pub(a));
            var c1 := s.seal(Key(s, chain, es), 0, h1, s.pub(key));
            var chain1, h2 := Chain(s, chain, es), Then(s, h1, c1);
            var c2 := s.seal(Key(s, chain1, ss), 0, h2, payload);
            Written(s, w, payload, a)
            == (w.(localEphemeral := Some(a), current := 1,
                   sym := Keyed(Key(s, chain1, ss), 1, Chain(s, chain1, ss), Then(s, h2, c2))), Ok(s.pub(a) + c1 + c2))
  {
    var tokens := [E, ES, S, SS];
    assert Messages(w.pattern)[0] == tokens;
    assert tokens[1..] == [ES, S, SS] && tokens[1..][1..] == [S, SS] && tokens[1..][1..][1..] == [SS];
    assert tokens[1..][1..][1..][1..] == [];
    var (w1, r1) := WrittenToken(s, w, E, a);
    var (w2, r2) := WrittenToken(s, w1, ES, a);
    var (w3, r3) := WrittenToken(s, w2, S, a);
    var (w4, r4) := WrittenToken(s, w3, SS, a);
    WrittenInTurn(s, w3, [SS], a);
    WrittenInTurn(s, w2, [S, SS], a);
    WrittenInTurn(s, w1, [ES, S, SS], a);
    WrittenInTurn(s, w, tokens, a);
    assert s.pub(a) + ([] + (r3.value + ([] + []))) == s.pub(a) + r3.value;
  }

  /** The second message of IK: an ephemeral key, and the payload under `ee` and `se`. */
  lemma SecondOfIK(s: Suite, w: Handshake, payload: seq<byte>, b: seq<byte>, k: seq<byte>, chain: seq<byte>,
                   h: seq<byte>, remote: seq<byte>, remoteKey: seq<byte>)
    requires w.pattern == IK && w.current == 1 && w.role == Responder && w.sym == Keyed(k, 1, chain, h)
    requires w.remoteEphemeral == Some(remote) && w.remoteStatic == Some(remoteKey)
    ensures var ee, se, h1 := s.dh(b, remote), s.dh(b, remoteKey), Then(s, h, s.pub(b));
            var chain1 := Chain(s, chain, ee);
            var c := s.seal(Key(s, chain1, se), 0, h1, payload);
            Written(s, w, payload, b)
            == (w.(localEphemeral := Some(b), current := 2,
                   sym := Keyed(Key(s, chain1, se), 1, Chain(s, chain1, se), Then(s, h1, c))), Ok(s.pub(b) + c))
  {
    var tokens := [E, EE, SE];
    assert Messages(IK)[1] == tokens;
    assert tokens[1..] == [EE, SE] && tokens[1..][1..] == [SE] && tokens[1..][1..][1..] == [];
    var (w1, r1) := WrittenToken(s, w, E, b);
    var (w2, r2) := WrittenToken(s, w1, EE, b);
    var (w3, r3) := WrittenToken(s, w2, SE, b);
    WrittenInTurn(s, w2, [SE], b);
    WrittenInTurn(s, w1, [EE, SE], b);
    WrittenInTurn(s, w, tokens, b);
    assert r1.value + ([] + ([] + [])) == r1.value;
  }

  // ---------- Reading an envelope ----------

  /**
   * What an envelope to `recipient` must be to read as this text from this sender: 32 bytes of an ephemeral key, the
   * sender's key sealed under `es`, and the text sealed under `es` and `ss` on top, or nothing for the empty text.
   */
  ghost predicate SaysFrom(s: Suite, recipient: seq<byte>, chain: seq<byte>, h: seq<byte>, message: seq<byte>,
                           sender: seq<byte>, text: seq<byte>)
  {
    && |message| >= 80 && s.valid(message[..32]) && |sender| == 32 && s.valid(sender)
    && var es, ss := s.dh(recipient, message[..32]), s.dh(recipient, sender);
       var h1 := Then(s, h, message[..32]);
       var h2 := Then(s, h1, message[32..80]);
       && message[32..80] == s.seal(Key(s, chain, es), 0, h1, sender)
       && (message[80..] == s.seal(Key(s, Chain(s, chain, es), ss), 0, h2, text) || (message[80..] == [] && text == []))
  }

  lemma EphemeralIsRead(s: Suite, r: Handshake, message: seq<byte>, chain: seq<byte>, h: seq<byte>)
    requires r.sym == Bare(chain, h)
    ensures ReadToken(s, r, E, message)
         == if |message| < 32 then (r, Err(InvalidMessage))
            else if !s.valid(message[..32]) then (r, Err(InvalidPublicKey))
            else (r.(remoteEphemeral := Some(message[..32]), sym := Bare(chain, Then(s, h, message[..32]))),
                  Ok(message[32..]))
  {
  }

  /** The static key read under a key: exactly what was sealed, if it is 32 bytes of a valid key. */
  lemma StaticIsRead(s: Suite, r: Handshake, rest: seq<byte>, k: seq<byte>, chain: seq<byte>, h: seq<byte>,
                     sender: seq<byte>)
    requires Laws(s) && r.sym == Keyed(k, 0, chain, h)
    ensures var (r1, left) := ReadToken(s, r, S, rest);
            left.Ok? && r1.remoteStatic == Some(sender)
            <==> |rest| >= 48 && |sender| == 32 && s.valid(sender) && rest[..48] == s.seal(k, 0, h, sender)
    ensures var (r1, left) := ReadToken(s, r, S, rest);
            left.Ok? ==> && r1.remoteStatic.Some? && left.value == rest[48..] && |rest| >= 48
                         && r1 == r.(remoteStatic := r1.remoteStatic, sym := Keyed(k, 1, chain, Then(s, h, rest[..48])))
  {
    if |rest| >= 48 {
      assert s.open(k, 0, h, s.seal(k, 0, h, sender)) == Some(sender);
    }
  }

  /** The tokens of an envelope, read one after another. */
  lemma EnvelopeTokens(s: Suite, r: Handshake, message: seq<byte>)
    requires (r.pattern == IK || r.pattern == X) && r.current == 0
    ensures Messages(r.pattern)[0] == [E, ES, S, SS]
    ensures var (r1, m1) := ReadToken(s, r, E, message);
            ReadTokens(s, r, [E, ES, S, SS], message)
            == if m1.Err? then (r1, m1)
               else
                 var (r2, m2) := ReadToken(s, r1, ES, m1.value);
                 if m2.Err? then (r2, m2)
                 else
                   var (r3, m3) := ReadToken(s, r2, S, m2.value);
                   if m3.Err? then (r3, m3) else ReadToken(s, r3, SS, m3.value)
  {
    var tokens := [E, ES, S, SS];
    assert tokens[1..] == [ES, S, SS] && tokens[1..][1..] == [S, SS] && tokens[1..][1..][1..] == [SS];
    assert tokens[1..][1..][1..][1..] == [];
    var (r1, m1) := ReadToken(s, r, E, message);
    if m1.Ok? {
      var (r2, m2) := ReadToken(s, r1, ES, m1.value);
      if m2.Ok? {
        var (r3, m3) := ReadToken(s, r2, S, m2.value);
        if m3.Ok? {
          assert ReadTokens(s, r3, [SS], m3.value) == ReadToken(s, r3, SS, m3.value);
        }
        assert ReadTokens(s, r2, [S, SS], m2.value) == if m3.Err? then (r3, m3) else ReadToken(s, r3, SS, m3.value);
      }
    }
  }

  /** What the tokens of an envelope leave a reader with. */
  lemma KeysAreRead(s: Suite, r: Handshake, message: seq<byte>, chain: seq<byte>, h: seq<byte>, recipient: seq<byte>,
                    sender: seq<byte>)
    requires Laws(s) && (r.pattern == IK || r.pattern == X) && r.current == 0 && r.role == Responder
    requires r.localStatic == Some(recipient) && r.sym == Bare(chain, h)
    ensures var (r', left) := ReadTokens(s, r, Messages(r.pattern)[0], message);
            left.Ok? && r'.remoteStatic == Some(sender)
            <==> && |message| >= 80 && s.valid(message[..32]) && |sender| == 32 && s.valid(sender)
                 && message[32..80] == s.seal(Key(s, chain, s.dh(recipient, message[..32])), 0,
                                              Then(s, h, message[..32]), sender)
    ensures var (r', left) := ReadTokens(s, r, Messages(r.pattern)[0], message);
            left.Ok? ==> && |message| >= 80 && r'.remoteStatic.Some? && left.value == message[80..]
                         && r'.pattern == r.pattern && r'.current == r.current
                         && r'.sym == AfterKeys(s, message, chain, h, recipient, r'.remoteStatic.value)
  {
    EnvelopeTokens(s, r, message);
    EphemeralIsRead(s, r, message, chain, h);
    var (r1, m1) := ReadToken(s, r, E, message);
    if m1.Ok? {
      var (r2, m2) := ReadToken(s, r1, ES, m1.value);
      var es, h1 := s.dh(recipient, message[..32]), Then(s, h, message[..32]);
      assert r2.sym == Keyed(Key(s, chain, es), 0, Chain(s, chain, es), h1);
      StaticIsRead(s, r2, m1.value, Key(s, chain, es), Chain(s, chain, es), h1, sender);
      assert |message| >= 80 ==> m1.value[..48] == message[32..80] && m1.value[48..] == message[80..];
    }
  }

  /** The state an envelope's keys lead to: the payload's key takes `es` and `ss`. */
  function AfterKeys(s: Suite, message: seq<byte>, chain: seq<byte>, h: seq<byte>, recipient: seq<byte>,
                     sender: seq<byte>): Sym
    requires |message| >= 80
  {
    var es, ss := s.dh(recipient, message[..32]), s.dh(recipient, sender);
    var h2 := Then(s, Then(s, h, message[..32]), message[32..80]);
    Keyed(Key(s, Chain(s, chain, es), ss), 0, Chain(s, Chain(s, chain, es), ss), h2)
  }

  lemma PayloadIsRead(s: Suite, y: Sym, k: seq<byte>, chain: seq<byte>, h: seq<byte>, ciphertext: seq<byte>,
                      text: seq<byte>)
    requires Laws(s) && y == Keyed(k, 0, chain, h)
    ensures DecryptedAndHashed(s, y, ciphertext).1 == Ok(text)
       <==> ciphertext == s.seal(k, 0, h, text) || (ciphertext == [] && text == [])
    ensures DecryptedAndHashed(s, y, ciphertext).0.chainingKey == chain
    ensures DecryptedAndHashed(s, y, ciphertext).0.cipher.key == Some(k)
  {
    assert s.open(k, 0, h, s.seal(k, 0, h, text)) == Some(text);
    assert |s.seal(k, 0, h, text)| == |text| + TAG_SIZE;
  }

  /** A reader of envelopes, or of the first message of IK, takes exactly what says so. */
  lemma EnvelopeReads(s: Suite, r: Handshake, message: seq<byte>, chain: seq<byte>, h: seq<byte>, recipient: seq<byte>,
                      sender: seq<byte>, text: seq<byte>)
    requires Laws(s) && (r.pattern == IK || r.pattern == X) && r.current == 0 && r.role == Responder
    requires r.localStatic == Some(recipient) && r.sym == Bare(chain, h)
    ensures var (r', got) := Read(s, r, message);
            && (got == Ok(text) && r'.remoteStatic == Some(sender)
                <==> SaysFrom(s, recipient, chain, h, message, sender, text))
            && (got == Ok(text) && r'.remoteStatic == Some(sender)
                ==> var es, ss := s.dh(recipient, message[..32]), s.dh(recipient, sender);
                    && r'.sym.chainingKey == Chain(s, Chain(s, chain, es), ss)
                    && r'.sym.cipher.key == Some(Key(s, Chain(s, chain, es), ss)))
  {
    KeysAreRead(s, r, message, chain, h, recipient, sender);
    var (r1, left) := ReadTokens(s, r, Messages(r.pattern)[0], message);
    if left.Ok? && r1.remoteStatic == Some(sender) {
      var y := AfterKeys(s, message, chain, h, recipient, sender);
      PayloadIsRead(s, y, y.cipher.key.value, y.chainingKey, y.hash, left.value, text);
    }
  }

  /** Where a handshake starts: its name and prologue, and the responder's public key unless that is yet to be sent. */
  lemma StartsBare(s: Suite, names: Names, role: Role, p: Pattern, local: Option<seq<byte>>, remote: Option<seq<byte>>,
                   prologue: seq<byte>, known: seq<byte>)
    requires p != XX ==> (if role == Initiator then remote == Some(known)
                          else local.Some? && known == s.pub(local.value))
    ensures var n := Named(s, names(p));
            Start(s, names, role, p, local, remote, prologue).sym
            == Bare(n, if p == XX then Then(s, n, prologue) else Then(s, Then(s, n, prologue), known))
  {
  }

  /**
   * An envelope reads as this text from this sender exactly if it says so: the key of its payload takes in the secret
   * of the recipient's and the sender's static keys, so nobody writes as a sender without one of the two.
   */
  lemma EnvelopeReadsExactlyWhen(s: Suite, names: Names, prologue: seq<byte>, recipient: seq<byte>, message: seq<byte>,
                                 sender: seq<byte>, text: seq<byte>)
    requires Laws(s)
    ensures var n := Named(s, names(X));
            var h := Then(s, Then(s, n, prologue), s.pub(recipient));
            var (r, got) := Read(s, Start(s, names, Responder, X, Some(recipient), None, prologue), message);
            && (got == Ok(text) && r.remoteStatic == Some(sender)
                <==> SaysFrom(s, recipient, n, h, message, sender, text))
            && (got == Ok(text) && r.remoteStatic == Some(sender)
                ==> var es, ss := s.dh(recipient, message[..32]), s.dh(recipient, sender);
                    r.sym.cipher.key == Some(Key(s, Chain(s, n, es), ss)))
  {
    var r := Start(s, names, Responder, X, Some(recipient), None, prologue);
    StartsBare(s, names, Responder, X, Some(recipient), None, prologue, s.pub(recipient));
    EnvelopeReads(s, r, message, r.sym.chainingKey, r.sym.hash, recipient, sender, text);
  }

  /** And so does the first message of IK, which is an envelope under its own name. */
  lemma OpeningReadsExactlyWhen(s: Suite, names: Names, prologue: seq<byte>, recipient: seq<byte>, message: seq<byte>,
                                sender: seq<byte>, text: seq<byte>)
    requires Laws(s)
    ensures var n := Named(s, names(IK));
            var h := Then(s, Then(s, n, prologue), s.pub(recipient));
            var (r, got) := Read(s, Start(s, names, Responder, IK, Some(recipient), None, prologue), message);
            got == Ok(text) && r.remoteStatic == Some(sender)
            <==> SaysFrom(s, recipient, n, h, message, sender, text)
  {
    var r := Start(s, names, Responder, IK, Some(recipient), None, prologue);
    StartsBare(s, names, Responder, IK, Some(recipient), None, prologue, s.pub(recipient));
    EnvelopeReads(s, r, message, r.sym.chainingKey, r.sym.hash, recipient, sender, text);
  }

  /** What is written into an envelope, in full. */
  lemma EnvelopeInFull(s: Suite, names: Names, prologue: seq<byte>, sender: seq<byte>, recipient: seq<byte>,
                       payload: seq<byte>, a: seq<byte>)
    requires Laws(s)
    ensures var n := Named(s, names(X));
            var h1 := Then(s, Then(s, Then(s, n, prologue), s.pub(recipient)), s.pub(a));
            var es, ss := s.dh(a, s.pub(recipient)), s.dh(sender, s.pub(recipient));
            var c1 := s.seal(Key(s, n, es), 0, h1, s.pub(sender));
            var c2 := s.seal(Key(s, Chain(s, n, es), ss), 0, Then(s, h1, c1), payload);
            Written(s, Start(s, names, Initiator, X, Some(sender), Some(s.pub(recipient)), prologue), payload, a).1
            == Ok(s.pub(a) + c1 + c2)
  {
    var w := Start(s, names, Initiator, X, Some(sender), Some(s.pub(recipient)), prologue);
    StartsBare(s, names, Initiator, X, Some(sender), Some(s.pub(recipient)), prologue, s.pub(recipient));
    FirstOfIK(s, w, payload, a, w.sym.chainingKey, w.sym.hash, s.pub(recipient), sender);
  }

  // ---------- Whole handshakes ----------

  /** The `n`-th message of an exchange. */
  function Spoken(s: Suite, e: Ends, payloads: seq<seq<byte>>, ephemerals: seq<seq<byte>>, n: nat): Outcome
    requires n < |payloads| == |ephemerals|
  {
    var now := After(s, e, payloads, ephemerals, n);
    Written(s, if Turn(n) == Initiator then now.initiator else now.responder, payloads[n], ephemerals[n]).1
  }

  lemma FirstIsKnown(p: Pattern, sI: bool)
    requires p != NK ==> sI
    ensures KnownAfter(p, Given(p, sI), 1).Some? && KnownAfter(p, Given(p, sI), 1).value.eI
    ensures p == IK ==> KnownAfter(p, Given(p, sI), 1).value.kI
  {
    TablesRun(p, sI, 1);
    assert KnownAfter(p, Given(p, sI), 0) == Some(Given(p, sI));
    var known := Learn4(Messages(p)[0], Initiator, Given(p, sI));
  }

  lemma SecondIsKnown()
    ensures KnownAfter(XX, Given(XX, true), 2).Some?
    ensures KnownAfter(XX, Given(XX, true), 2).value.eR
  {
    FirstIsKnown(XX, true);
    TablesRun(XX, true, 2);
    assert KnownAfter(XX, Given(XX, true), 0) == Some(Given(XX, true));
    var one := Learn4(Messages(XX)[0], Initiator, Given(XX, true));
    var two := Learn4(Messages(XX)[1], Responder, one);
  }

  /** What a handshake ends in: one state on both sides, and transport keys from its chaining key. */
  ghost predicate EndsIn(s: Suite, now: Ends, y: Sym) {
    && now.initiator.sym == now.responder.sym == y
    && var (k1, k2) := s.hkdf(y.chainingKey, []);
       && TransportCiphers(s, now.initiator) == Ok((Fresh(k1, true), Fresh(k2, true)))
       && TransportCiphers(s, now.responder) == Ok((Fresh(k2, true), Fresh(k1, true)))
  }

  /** NK: `es` and `ee`, from the responder's static key and both ephemeral keys. */
  lemma NKInFull(s: Suite, names: Names, prologue: seq<byte>, sI: Option<seq<byte>>, key: seq<byte>, e: Ends,
                 payloads: seq<seq<byte>>, ephemerals: seq<seq<byte>>)
    requires Laws(s) && Started(s, names, NK, prologue, sI, key, e) && |payloads| == |ephemerals| == 2
    ensures var a, b := ephemerals[0], ephemerals[1];
            var es, ee := s.dh(a, s.pub(key)), s.dh(a, s.pub(b));
            var n := Named(s, names(NK));
            var h1 := Then(s, Then(s, Then(s, n, prologue), s.pub(key)), s.pub(a));
            var c1 := s.seal(Key(s, n, es), 0, h1, payloads[0]);
            var h2 := Then(s, Then(s, h1, c1), s.pub(b));
            var chain := Chain(s, n, es);
            var c2 := s.seal(Key(s, chain, ee), 0, h2, payloads[1]);
            && Spoken(s, e, payloads, ephemerals, 0) == Ok(s.pub(a) + c1)
            && Spoken(s, e, payloads, ephemerals, 1) == Ok(s.pub(b) + c2)
            && EndsIn(s, After(s, e, payloads, ephemerals, 2),
                      Keyed(Key(s, chain, ee), 1, Chain(s, chain, ee), Then(s, h2, c2)))
  {
    var a, b := ephemerals[0], ephemerals[1];
    StartsBare(s, names, Initiator, NK, sI, e.initiator.remoteStatic, prologue, s.pub(key));
    FirstOfNK(s, e.initiator, payloads[0], a, e.initiator.sym.chainingKey, e.initiator.sym.hash, s.pub(key));
    Lockstep(s, names, NK, prologue, sI, key, e, payloads, ephemerals, 1);
    FirstIsKnown(NK, sI.Some?);
    var r := After(s, e, payloads, ephemerals, 1).responder;
    SecondOfNK(s, r, payloads[1], b, r.sym.cipher.key.value, r.sym.chainingKey, r.sym.hash, s.pub(a));
    Lockstep(s, names, NK, prologue, sI, key, e, payloads, ephemerals, 2);
  }

  /** IK: `es`, `ss`, `ee` and `se`, from both static and both ephemeral keys. */
  lemma IKInFull(s: Suite, names: Names, prologue: seq<byte>, own: seq<byte>, key: seq<byte>, e: Ends,
                 payloads: seq<seq<byte>>, ephemerals: seq<seq<byte>>)
    requires Laws(s) && Started(s, names, IK, prologue, Some(own), key, e) && |payloads| == |ephemerals| == 2
    ensures var a, b := ephemerals[0], ephemerals[1];
            var es, ss := s.dh(a, s.pub(key)), s.dh(own, s.pub(key));
            var ee, se := s.dh(a, s.pub(b)), s.dh(own, s.pub(b));
            var n := Named(s, names(IK));
            var h1 := Then(s, Then(s, Then(s, n, prologue), s.pub(key)), s.pub(a));
            var c1 := s.seal(Key(s, n, es), 0, h1, s.pub(own));
            var c2 := s.seal(Key(s, Chain(s, n, es), ss), 0, Then(s, h1, c1), payloads[0]);
            var h2 := Then(s, Then(s, Then(s, h1, c1), c2), s.pub(b));
            var chain := Chain(s, Chain(s, Chain(s, n, es), ss), ee);
            var c3 := s.seal(Key(s, chain, se), 0, h2, payloads[1]);
            && Spoken(s, e, payloads, ephemerals, 0) == Ok(s.pub(a) + c1 + c2)
            && Spoken(s, e, payloads, ephemerals, 1) == Ok(s.pub(b) + c3)
            && EndsIn(s, After(s, e, payloads, ephemerals, 2),
                      Keyed(Key(s, chain, se), 1, Chain(s, chain, se), Then(s, h2, c3)))
  {
    var a, b := ephemerals[0], ephemerals[1];
    StartsBare(s, names, Initiator, IK, Some(own), e.initiator.remoteStatic, prologue, s.pub(key));
    FirstOfIK(s, e.initiator, payloads[0], a, e.initiator.sym.chainingKey, e.initiator.sym.hash, s.pub(key), own);
    Lockstep(s, names, IK, prologue, Some(own), key, e, payloads, ephemerals, 1);
    FirstIsKnown(IK, true);
    var r := After(s, e, payloads, ephemerals, 1).responder;
    SecondOfIK(s, r, payloads[1], b, r.sym.cipher.key.value, r.sym.chainingKey, r.sym.hash, s.pub(a), s.pub(own));
    Lockstep(s, names, IK, prologue, Some(own), key, e, payloads, ephemerals, 2);
  }

  /** XX after its first message. */
  lemma FirstSpoken(s: Suite, names: Names, prologue: seq<byte>, own: seq<byte>, key: seq<byte>, e: Ends,
                    payloads: seq<seq<byte>>, ephemerals: seq<seq<byte>>)
    requires Laws(s) && Started(s, names, XX, prologue, Some(own), key, e) && |payloads| == |ephemerals| == 3
    ensures var n := Named(s, names(XX));
            var h1 := Then(s, Then(s, Then(s, n, prologue), s.pub(ephemerals[0])), payloads[0]);
            var now := After(s, e, payloads, ephemerals, 1);
            && Spoken(s, e, payloads, ephemerals, 0) == Ok(s.pub(ephemerals[0]) + payloads[0])
            && now.responder.sym == Bare(n, h1) && now.responder.remoteEphemeral == Some(s.pub(ephemerals[0]))
  {
    StartsBare(s, names, Initiator, XX, Some(own), e.initiator.remoteStatic, prologue, []);
    FirstOfXX(s, e.initiator, payloads[0], ephemerals[0], e.initiator.sym.chainingKey, e.initiator.sym.hash);
    Lockstep(s, names, XX, prologue, Some(own), key, e, payloads, ephemerals, 1);
    FirstIsKnown(XX, true);
  }

  /** And after its second. */
  lemma SecondSpoken(s: Suite, names: Names, prologue: seq<byte>, own: seq<byte>, key: seq<byte>, e: Ends,
                     payloads: seq<seq<byte>>, ephemerals: seq<seq<byte>>)
    requires Laws(s) && Started(s, names, XX, prologue, Some(own), key, e) && |payloads| == |ephemerals| == 3
    ensures var a, b := ephemerals[0], ephemerals[1];
            var ee, es := s.dh(a, s.pub(b)), s.dh(a, s.pub(key));
            var n := Named(s, names(XX));
            var h1 := Then(s, Then(s, Then(s, n, prologue), s.pub(a)), payloads[0]);
            var h2 := Then(s, h1, s.pub(b));
            var c1 := s.seal(Key(s, n, ee), 0, h2, s.pub(key));
            var h3, chain := Then(s, h2, c1), Chain(s, n, ee);
            var c2 := s.seal(Key(s, chain, es), 0, h3, payloads[1]);
            var now := After(s, e, payloads, ephemerals, 2);
            && Spoken(s, e, payloads, ephemerals, 1) == Ok(s.pub(b) + c1 + c2)
            && now.initiator.sym == Keyed(Key(s, chain, es), 1, Chain(s, chain, es), Then(s, h3, c2))
            && now.initiator.remoteEphemeral == Some(s.pub(b))
  {
    FirstSpoken(s, names, prologue, own, key, e, payloads, ephemerals);
    Lockstep(s, names, XX, prologue, Some(own), key, e, payloads, ephemerals, 1);
    var r := After(s, e, payloads, ephemerals, 1).responder;
    SecondOfXX(s, r, payloads[1], ephemerals[1], r.sym.chainingKey, r.sym.hash, s.pub(ephemerals[0]), key);
    Lockstep(s, names, XX, prologue, Some(own), key, e, payloads, ephemerals, 2);
    SecondIsKnown();
  }

  /** XX: `ee`, `es` and `se`, from both static and both ephemeral keys. */
  lemma XXInFull(s: Suite, names: Names, prologue: seq<byte>, own: seq<byte>, key: seq<byte>, e: Ends,
                 payloads: seq<seq<byte>>, ephemerals: seq<seq<byte>>)
    requires Laws(s) && Started(s, names, XX, prologue, Some(own), key, e) && |payloads| == |ephemerals| == 3
    ensures var a, b := ephemerals[0], ephemerals[1];
            var ee, es, se := s.dh(a, s.pub(b)), s.dh(a, s.pub(key)), s.dh(own, s.pub(b));
            var n := Named(s, names(XX));
            var h1 := Then(s, Then(s, Then(s, n, prologue), s.pub(a)), payloads[0]);
            var h2 := Then(s, h1, s.pub(b));
            var c1 := s.seal(Key(s, n, ee), 0, h2, s.pub(key));
            var h3, chain1 := Then(s, h2, c1), Chain(s, n, ee);
            var c2 := s.seal(Key(s, chain1, es), 0, h3, payloads[1]);
            var h4, chain2 := Then(s, h3, c2), Chain(s, chain1, es);
            var c3 := s.seal(Key(s, chain1, es), 1, h4, s.pub(own));
            var h5 := Then(s, h4, c3);
            var c4 := s.seal(Key(s, chain2, se), 0, h5, payloads[2]);
            && Spoken(s, e, payloads, ephemerals, 0) == Ok(s.pub(a) + payloads[0])
            && Spoken(s, e, payloads, ephemerals, 1) == Ok(s.pub(b) + c1 + c2)
            && Spoken(s, e, payloads, ephemerals, 2) == Ok(c3 + c4)
            && EndsIn(s, After(s, e, payloads, ephemerals, 3),
                      Keyed(Key(s, chain2, se), 1, Chain(s, chain2, se), Then(s, h5, c4)))
  {
    FirstSpoken(s, names, prologue, own, key, e, payloads, ephemerals);
    SecondSpoken(s, names, prologue, own, key, e, payloads, ephemerals);
    Lockstep(s, names, XX, prologue, Some(own), key, e, payloads, ephemerals, 2);
    var i := After(s, e, payloads, ephemerals, 2).initiator;
    ThirdOfXX(s, i, payloads[2], ephemerals[2], i.sym.cipher.key.value, i.sym.chainingKey, i.sym.hash,
              s.pub(ephemerals[1]), own);
    Lockstep(s, names, XX, prologue, Some(own), key, e, payloads, ephemerals, 3);
  }
}
