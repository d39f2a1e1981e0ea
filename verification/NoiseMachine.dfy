/** `NoiseSymmetricState` and `NoiseHandshakeState` as the source has them: objects changed token by token. */
module NoiseMachine {
  import opened Prelude
  import opened Bytes
  import opened NoiseCrypto
  import opened NoiseCipher
  import opened NoiseHandshake

  class SymmetricState {
    const cipher: CipherState
    var chainingKey: seq<byte>
    var hash: seq<byte>

    ghost function Value(): Sym
      reads this, cipher
    {
      Sym(cipher.Value(), chainingKey, hash)
    }

    constructor (s: Suite, name: seq<byte>)
      ensures fresh(cipher) && Value() == NewSym(s, name)
    {
      var h := name;
      if |name| <= KEY_SIZE {
        h := name + seq(KEY_SIZE - |name|, _ => 0);
      } else {
        h := s.hash(name);
      }
      cipher := new CipherState();
      chainingKey, hash := h, h;
    }

    method MixKey(s: Suite, input: seq<byte>)
      modifies this, cipher
      ensures Value() == MixedKey(s, old(Value()), input)
    {
      var (ck, key) := s.hkdf(chainingKey, input);
      chainingKey := ck;
      cipher.InitializeKey(key);
    }

    method MixHash(s: Suite, data: seq<byte>)
      modifies this`hash
      ensures Value() == MixedHash(s, old(Value()), data)
    {
      hash := s.hash(hash + data);
    }

    method EncryptAndHash(s: Suite, plaintext: seq<byte>) returns (r: Outcome)
      modifies this`hash, cipher
      ensures (Value(), r) == EncryptedAndHashed(s, old(Value()), plaintext)
    {
      if cipher.key.None? {
        MixHash(s, plaintext);
        return Ok(plaintext);
      }
      r := cipher.Encrypt(s, plaintext, hash);
      if r.Ok? {
        MixHash(s, r.value);
      }
    }

    method DecryptAndHash(s: Suite, ciphertext: seq<byte>) returns (r: Outcome)
      modifies this`hash, cipher
      ensures (Value(), r) == DecryptedAndHashed(s, old(Value()), ciphertext)
    {
      if cipher.key.None? {
        MixHash(s, ciphertext);
        return Ok(ciphertext);
      }
      if ciphertext == [] {
        MixHash(s, ciphertext);
        return Ok([]);
      }
      r := cipher.Decrypt(s, ciphertext, hash);
      if r.Ok? {
        MixHash(s, ciphertext);
      }
    }

    method Split(s: Suite) returns (c1: CipherState, c2: CipherState)
      ensures fresh(c1) && fresh(c2) && c1 != c2
      ensures (c1.Value(), c2.Value()) == SplitKeys(s, Value())
    {
      var (k1, k2) := s.hkdf(chainingKey, []);
      c1 := new CipherState.WithKey(k1, true);
      c2 := new CipherState.WithKey(k2, true);
    }
  }

  class HandshakeState {
    const role: Role
    const pattern: Pattern
    const symmetric: SymmetricState
    var localStatic: Option<seq<byte>>
    var localEphemeral: Option<seq<byte>>
    var remoteStatic: Option<seq<byte>>
    var remoteEphemeral: Option<seq<byte>>
    var current: nat

    ghost function Value(): Handshake
      reads this, symmetric, symmetric.cipher
    {
      Handshake(role, pattern, symmetric.Value(), localStatic, localEphemeral, remoteStatic, remoteEphemeral, current)
    }

    constructor (s: Suite, names: Names, role: Role, pattern: Pattern, localStatic: Option<seq<byte>>,
                 remoteStatic: Option<seq<byte>>, prologue: seq<byte>)
      ensures fresh(symmetric) && fresh(symmetric.cipher)
      ensures Value() == Start(s, names, role, pattern, localStatic, remoteStatic, prologue)
    {
      this.role, this.pattern := role, pattern;
      this.localStatic, this.remoteStatic := localStatic, remoteStatic;
      localEphemeral, remoteEphemeral, current := None, None, 0;
      symmetric := new SymmetricState(s, names(pattern));
      new;
      symmetric.MixHash(s, prologue);
      if pattern != XX {
        var responderStatic := remoteStatic;
        if role == Responder {
          responderStatic := if localStatic.Some? then Some(s.pub(localStatic.value)) else None;
        }
        if responderStatic.Some? {
          symmetric.MixHash(s, responderStatic.value);
        }
      }
    }

    method MixDh(s: Suite, t: Token) returns (r: Outcome)
      requires t != E && t != S
      modifies symmetric, symmetric.cipher
      ensures (Value(), r) == MixedDh(s, old(Value()), t)
    {
      var private, remote := localEphemeral, remoteEphemeral;
      if t == SS || (t == SE && role == Initiator) || (t == ES && role == Responder) {
        private := localStatic;
      }
      if t == SS || (t == ES && role == Initiator) || (t == SE && role == Responder) {
        remote := remoteStatic;
      }
      if private.None? || remote.None? {
        return Err(MissingKeys);
      }
      symmetric.MixKey(s, s.dh(private.value, remote.value));
      return Ok([]);
    }

    method WriteToken(s: Suite, t: Token, ephemeral: seq<byte>) returns (r: Outcome)
      modifies this`localEphemeral, symmetric, symmetric.cipher
      ensures (Value(), r) == WrittenToken(s, old(Value()), t, ephemeral)
    {
      match t
      case E =>
        localEphemeral := Some(ephemeral);
        symmetric.MixHash(s, s.pub(ephemeral));
        return Ok(s.pub(ephemeral));
      case S =>
        if localStatic.None? {
          return Err(MissingLocalStaticKey);
        }
        r := symmetric.EncryptAndHash(s, s.pub(localStatic.value));
      case _ =>
        r := MixDh(s, t);
    }

    method WriteTokens(s: Suite, tokens: seq<Token>, ephemeral: seq<byte>) returns (r: Outcome)
      modifies this`localEphemeral, symmetric, symmetric.cipher
      ensures (Value(), r) == WrittenTokens(s, old(Value()), tokens, ephemeral)
    {
      ghost var whole := WrittenTokens(s, Value(), tokens, ephemeral);
      var buffer: seq<byte> := [];
      ResumedStart(tokens, s, Value(), ephemeral);
      for i := 0 to |tokens|
        invariant whole == Resumed(buffer, tokens, i, s, Value(), ephemeral)
      {
        ghost var before := Value();
        r := WriteToken(s, tokens[i], ephemeral);
        ResumedStep(buffer, tokens, i, s, before, ephemeral);
        if r.Err? {
          return;
        }
        buffer := buffer + r.value;
      }
      assert buffer + [] == buffer;
      return Ok(buffer);
    }

    /** The fresh ephemeral key of the source's random generator is a parameter. */
    method WriteMessage(s: Suite, payload: seq<byte>, ephemeral: seq<byte>) returns (r: Outcome)
      modifies this, symmetric, symmetric.cipher
      ensures (Value(), r) == Written(s, old(Value()), payload, ephemeral)
    {
      if current >= |Messages(pattern)| {
        return Err(HandshakeComplete);
      }
      r := WriteTokens(s, Messages(pattern)[current], ephemeral);
      if r.Err? {
        return;
      }
      var sealed := symmetric.EncryptAndHash(s, payload);
      if sealed.Err? {
        return sealed;
      }
      current := current + 1;
      return Ok(r.value + sealed.value);
    }

    /** A token read from `message` at `offset`, which moves past what the token takes. */
    method ReadToken(s: Suite, t: Token, message: seq<byte>, offset: nat) returns (r: Result<nat, NoiseError>)
      requires offset <= |message|
      modifies this`remoteEphemeral, this`remoteStatic, symmetric, symmetric.cipher
      ensures r.Ok? ==> offset <= r.value <= |message|
      ensures (Value(), if r.Ok? then Ok(message[r.value..]) else Err(r.error))
           == NoiseHandshake.ReadToken(s, old(Value()), t, message[offset..])
    {
      match t
      case E =>
        if offset + KEY_SIZE > |message| {
          return Err(InvalidMessage);
        }
        var key := message[offset..offset + KEY_SIZE];
        assert key == message[offset..][..KEY_SIZE];
        if !s.valid(key) {
          return Err(InvalidPublicKey);
        }
        remoteEphemeral := Some(key);
        symmetric.MixHash(s, key);
        return Ok(offset + KEY_SIZE);
      case S =>
        var size := if symmetric.cipher.key.Some? then KEY_SIZE + TAG_SIZE else KEY_SIZE;
        if offset + size > |message| {
          return Err(InvalidMessage);
        }
        assert message[offset..offset + size] == message[offset..][..size];
        var text := symmetric.DecryptAndHash(s, message[offset..offset + size]);
        if text.Err? {
          return Err(text.error);
        }
        if |text.value| != KEY_SIZE {
          return Err(InvalidMessage);
        }
        if !s.valid(text.value) {
          return Err(AuthenticationFailure);
        }
        remoteStatic := Some(text.value);
        return Ok(offset + size);
      case _ =>
        var mixed := MixDh(s, t);
        return if mixed.Ok? then Ok(offset) else Err(mixed.error);
    }

    /** All the tokens of one message; the result is the offset of the payload behind them. */
    method ReadTokens(s: Suite, tokens: seq<Token>, message: seq<byte>) returns (r: Result<nat, NoiseError>)
      modifies this`remoteEphemeral, this`remoteStatic, symmetric, symmetric.cipher
      ensures r.Ok? ==> r.value <= |message|
      ensures (Value(), if r.Ok? then Ok(message[r.value..]) else Err(r.error))
           == NoiseHandshake.ReadTokens(s, old(Value()), tokens, message)
    {
      ghost var whole := NoiseHandshake.ReadTokens(s, Value(), tokens, message);
      var offset: nat := 0;
      assert tokens[0..] == tokens && message[0..] == message;
      for i := 0 to |tokens|
        invariant offset <= |message|
        invariant whole == NoiseHandshake.ReadTokens(s, Value(), tokens[i..], message[offset..])
      {
        assert tokens[i..][0] == tokens[i] && tokens[i..][1..] == tokens[i + 1..];
        var next := ReadToken(s, tokens[i], message, offset);
        if next.Err? {
          return next;
        }
        offset := next.value;
      }
      return Ok(offset);
    }

    method ReadMessage(s: Suite, message: seq<byte>) returns (r: Outcome)
      modifies this, symmetric, symmetric.cipher
      ensures (Value(), r) == Read(s, old(Value()), message)
    {
      if current >= |Messages(pattern)| {
        return Err(HandshakeComplete);
      }
      var offset := ReadTokens(s, Messages(pattern)[current], message);
      if offset.Err? {
        return Err(offset.error);
      }
      r := symmetric.DecryptAndHash(s, message[offset.value..]);
      if r.Ok? {
        current := current + 1;
      }
    }

    method GetTransportCiphers(s: Suite) returns (r: Result<(CipherState, CipherState), NoiseError>)
      ensures r.Ok? ==> fresh(r.value.0) && fresh(r.value.1) && r.value.0 != r.value.1
      ensures (if r.Ok? then Ok((r.value.0.Value(), r.value.1.Value())) else Err(r.error))
          == TransportCiphers(s, Value())
    {
      if current < |Messages(pattern)| {
        return Err(HandshakeNotComplete);
      }
      var c1, c2 := symmetric.Split(s);
      return Ok(if role == Initiator then (c1, c2) else (c2, c1));
    }
  }

  /** What writing comes to once the first `i` tokens have put out `buffer` and left `h`. */
  ghost function Resumed(buffer: seq<byte>, tokens: seq<Token>, i: nat, s: Suite, h: Handshake, ephemeral: seq<byte>)
    : (Handshake, Outcome)
    requires i <= |tokens|
  {
    Prefixed(buffer, WrittenTokens(s, h, tokens[i..], ephemeral))
  }

  function Prefixed(buffer: seq<byte>, rest: (Handshake, Outcome)): (Handshake, Outcome) {
    (rest.0, if rest.1.Err? then rest.1 else Ok(buffer + rest.1.value))
  }

  lemma PrefixedTwice(a: seq<byte>, b: seq<byte>, rest: (Handshake, Outcome))
    ensures Prefixed(a, Prefixed(b, rest)) == Prefixed(a + b, rest)
  {
    if rest.1.Ok? {
      assert a + (b + rest.1.value) == a + b + rest.1.value;
    }
  }

  lemma ResumedStart(tokens: seq<Token>, s: Suite, h: Handshake, ephemeral: seq<byte>)
    ensures Resumed([], tokens, 0, s, h, ephemeral) == WrittenTokens(s, h, tokens, ephemeral)
  {
    assert tokens[0..] == tokens;
    var rest := WrittenTokens(s, h, tokens, ephemeral);
    assert rest.1.Ok? ==> [] + rest.1.value == rest.1.value;
  }

  lemma ResumedStep(buffer: seq<byte>, tokens: seq<Token>, i: nat, s: Suite, h: Handshake, ephemeral: seq<byte>)
    requires i < |tokens|
    ensures var (h1, r1) := WrittenToken(s, h, tokens[i], ephemeral);
            Resumed(buffer, tokens, i, s, h, ephemeral)
            == if r1.Err? then (h1, r1) else Resumed(buffer + r1.value, tokens, i + 1, s, h1, ephemeral)
  {
    var (h1, r1) := WrittenToken(s, h, tokens[i], ephemeral);
    assert tokens[i..][0] == tokens[i] && tokens[i..][1..] == tokens[i + 1..];
    if r1.Ok? {
      PrefixedTwice(buffer, r1.value, WrittenTokens(s, h1, tokens[i + 1..], ephemeral));
    }
  }
}
