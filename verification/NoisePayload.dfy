/**
 * What a reader accepts as the payload of a handshake message: what was sealed for it, and also nothing at all, since
 * an empty ciphertext is never checked.
 */
module NoisePayload {
  import opened Prelude
  import opened Bytes
  import opened NoiseCrypto
  import opened NoiseHandshake
  import opened NoiseSessions
  import opened NoiseDelivery

  // ---------- Tokens and what follows them ----------

  /** How many bytes a token takes off the front of a message. */
  function TokenSize(h: Handshake, t: Token): nat {
    match t
    case E => KEY_SIZE
    case S => if h.sym.cipher.key.Some? then KEY_SIZE + TAG_SIZE else KEY_SIZE
    case _ => 0
  }

  lemma TokenTakesItsSize(s: Suite, h: Handshake, t: Token, front: seq<byte>, a: seq<byte>, b: seq<byte>)
    requires ReadToken(s, h, t, front + a).1.Ok? && |front| >= TokenSize(h, t)
    ensures ReadToken(s, h, t, front + a).1 == Ok(front[TokenSize(h, t)..] + a)
    ensures ReadToken(s, h, t, front + b) == (ReadToken(s, h, t, front + a).0, Ok(front[TokenSize(h, t)..] + b))
  {
    var n := TokenSize(h, t);
    assert (front + a)[..n] == front[..n] == (front + b)[..n];
    assert (front + a)[n..] == front[n..] + a && (front + b)[n..] == front[n..] + b;
  }

  lemma TokenShortens(s: Suite, h: Handshake, t: Token, message: seq<byte>)
    ensures var left := ReadToken(s, h, t, message).1;
            left.Ok? ==> |message| == TokenSize(h, t) + |left.value|
  {
  }

  lemma {:induction false} TokensShorten(s: Suite, h: Handshake, tokens: seq<Token>, message: seq<byte>)
    ensures var left := ReadTokens(s, h, tokens, message).1;
            left.Ok? ==> |left.value| <= |message|
    decreases |tokens|
  {
    if tokens != [] {
      var (h1, r1) := ReadToken(s, h, tokens[0], message);
      TokenShortens(s, h, tokens[0], message);
      if r1.Ok? {
        TokensShorten(s, h1, tokens[1..], r1.value);
      }
    }
  }

  /** What tokens do to a reader does not depend on what follows them. */
  lemma {:induction false} TokensIgnoreRest(s: Suite, h: Handshake, tokens: seq<Token>, front: seq<byte>, a: seq<byte>,
                                            b: seq<byte>)
    requires ReadTokens(s, h, tokens, front + a).1 == Ok(a)
    ensures ReadTokens(s, h, tokens, front + b) == (ReadTokens(s, h, tokens, front + a).0, Ok(b))
    decreases |tokens|
  {
    if tokens == [] {
      assert front == [];
      assert front + b == b;
    } else {
      var (h1, r1) := ReadToken(s, h, tokens[0], front + a);
      TokenShortens(s, h, tokens[0], front + a);
      TokensShorten(s, h1, tokens[1..], r1.value);
      TokenTakesItsSize(s, h, tokens[0], front, a, b);
      TokensIgnoreRest(s, h1, tokens[1..], front[TokenSize(h, tokens[0])..], a, b);
    }
  }

  // ---------- When a payload is accepted ----------

  /**
   * The ciphertexts a keyed reader takes for this text: its sealing under the current key, nonce and hash, or nothing.
   */
  predicate Accepts(s: Suite, y: Sym, ciphertext: seq<byte>, text: seq<byte>)
    requires y.cipher.key.Some?
  {
    || (ciphertext == [] && text == [])
    || ciphertext == s.seal(y.cipher.key.value, y.cipher.nonce, y.hash, text)
  }

  lemma AcceptedExactlyWhen(s: Suite, y: Sym, ciphertext: seq<byte>, text: seq<byte>)
    requires Laws(s) && y.cipher.key.Some? && !y.cipher.extracted
    ensures DecryptedAndHashed(s, y, ciphertext).1 == Ok(text) <==> Accepts(s, y, ciphertext, text)
  {
    var k, n := y.cipher.key.value, y.cipher.nonce;
    assert s.open(k, n, y.hash, s.seal(k, n, y.hash, text)) == Some(text);
    assert |s.seal(k, n, y.hash, text)| == |text| + TAG_SIZE;
  }

  /**
   * Once the tokens of a message can be read, whatever comes after them: the message is accepted, and read as a text,
   * exactly if what comes after is the text sealed under the current key, nonce and hash, or nothing and the text
   * empty.
   */
  lemma PayloadAcceptedExactlyWhen(s: Suite, h: Handshake, front: seq<byte>, a: seq<byte>, b: seq<byte>,
                                   text: seq<byte>)
    requires Laws(s) && !h.Complete() && ReadTokens(s, h, Messages(h.pattern)[h.current], front + a).1 == Ok(a)
    requires var y := ReadTokens(s, h, Messages(h.pattern)[h.current], front + a).0.sym;
             y.cipher.key.Some? && !y.cipher.extracted
    ensures Read(s, h, front + b).1 == Ok(text)
       <==> Accepts(s, ReadTokens(s, h, Messages(h.pattern)[h.current], front + a).0.sym, b, text)
  {
    var tokens := Messages(h.pattern)[h.current];
    TokensIgnoreRest(s, h, tokens, front, a, b);
    AcceptedExactlyWhen(s, ReadTokens(s, h, tokens, front + a).0.sym, b, text);
  }

  // ---------- Between two ends in step ----------

  /** The tokens of the next message, written. */
  function Fronted(s: Suite, w: Handshake, ephemeral: seq<byte>): (Handshake, Outcome)
    requires !w.Complete()
  {
    WrittenTokens(s, w, Messages(w.pattern)[w.current], ephemeral)
  }

  predicate MixesKey(tokens: seq<Token>) {
    exists i :: 0 <= i < |tokens| && tokens[i] != E && tokens[i] != S
  }

  lemma {:induction false} TokensKey(s: Suite, h: Handshake, tokens: seq<Token>, ephemeral: seq<byte>)
    requires WrittenTokens(s, h, tokens, ephemeral).1.Ok? && !h.sym.cipher.extracted
    requires h.sym.cipher.key.Some? || MixesKey(tokens)
    ensures var y := WrittenTokens(s, h, tokens, ephemeral).0.sym;
            y.cipher.key.Some? && !y.cipher.extracted
    decreases |tokens|
  {
    if tokens != [] {
      var h1 := WrittenToken(s, h, tokens[0], ephemeral).0;
      if h1.sym.cipher.key.None? {
        var i :| 0 <= i < |tokens| && tokens[i] != E && tokens[i] != S;
        assert tokens[1..][i - 1] == tokens[i];
      }
      TokensKey(s, h1, tokens[1..], ephemeral);
    }
  }

  /** Every message of every pattern mixes a key in before its payload, but for the first of XX. */
  lemma KeyedMessages(p: Pattern, n: nat)
    requires n < |Messages(p)|
    ensures MixesKey(Messages(p)[n]) <==> (p != XX || n > 0)
  {
    var m := Messages(p)[n];
    if p != XX {
      assert m[1] != E && m[1] != S;
    } else if n > 0 {
      assert m[1] != E && m[1] != S;
    }
  }

  /** The next message of a writer in step with its reader, and that it seals its payload. */
  ghost predicate Sealing(s: Suite, w: Handshake, r: Handshake, k: Know) {
    && Laws(s) && w.role != r.role && Paired(s, w, r, k) && !w.Complete() && (w.pattern != XX || w.current > 0)
    && LearnAll(Messages(w.pattern)[w.current], w.role, k).Some?
  }

  lemma FrontSeals(s: Suite, w: Handshake, r: Handshake, payload: seq<byte>, ephemeral: seq<byte>, rest: seq<byte>,
                   k: Know)
    requires Sealing(s, w, r, k)
    ensures var (w1, front) := Fronted(s, w, ephemeral);
            && front.Ok? && w1.sym.cipher.key.Some? && !w1.sym.cipher.extracted
            && Written(s, w, payload, ephemeral).1
               == Ok(front.value + s.seal(w1.sym.cipher.key.value, w1.sym.cipher.nonce, w1.sym.hash, payload))
            && var (r1, left) := ReadTokens(s, r, Messages(r.pattern)[r.current], front.value + rest);
               left == Ok(rest) && r1.sym == w1.sym
  {
    var tokens := Messages(w.pattern)[w.current];
    TokensInStep(s, w, r, tokens, ephemeral, rest, k);
    KeyedMessages(w.pattern, w.current);
    TokensKey(s, w, tokens, ephemeral);
  }

  /**
   * For every pattern: a message whose payload was replaced by any other bytes is read exactly as the text those bytes
   * seal under the writer's key, nonce and hash; with no bytes at all it is read as the empty text.
   */
  lemma AlteredPayload(s: Suite, w: Handshake, r: Handshake, ephemeral: seq<byte>, b: seq<byte>, text: seq<byte>,
                       k: Know)
    requires Sealing(s, w, r, k)
    ensures var (w1, front) := Fronted(s, w, ephemeral);
            && front.Ok? && w1.sym.cipher.key.Some?
            && (Read(s, r, front.value + b).1 == Ok(text) <==> Accepts(s, w1.sym, b, text))
  {
    FrontSeals(s, w, r, [], ephemeral, b, k);
    var (w1, front) := Fronted(s, w, ephemeral);
    PayloadAcceptedExactlyWhen(s, r, front.value, b, b, text);
  }

  /**
   * A message cut off after its tokens is read as an empty one. Both ends are where they would be, with the same keys
   * and each other's public keys; the transcripts differ by the ciphertext one of them never saw.
   */
  lemma BlankedInStep(s: Suite, w: Handshake, r: Handshake, payload: seq<byte>, ephemeral: seq<byte>, k: Know)
    requires Sealing(s, w, r, k)
    ensures var (w1, front) := Fronted(s, w, ephemeral);
            && front.Ok? && w1.sym.cipher.key.Some?
            && var w2 := Written(s, w, payload, ephemeral).0;
            && var (r2, got) := Read(s, r, front.value);
            && got == Ok([])
            && Paired(s, w2, r2.(sym := w2.sym), LearnAll(Messages(w.pattern)[w.current], w.role, k).value)
            && w2.pattern == w.pattern && w2.current == w.current + 1 && r2.role == r.role
            && r2.sym.chainingKey == w2.sym.chainingKey && r2.sym.hash == s.hash(w1.sym.hash)
            && w2.sym.hash
               == s.hash(w1.sym.hash + s.seal(w1.sym.cipher.key.value, w1.sym.cipher.nonce, w1.sym.hash, payload))
            && w2.sym.cipher == w1.sym.cipher.(nonce := w1.sym.cipher.nonce + 1) && r2.sym.cipher == w1.sym.cipher
  {
    var tokens := Messages(w.pattern)[w.current];
    FrontSeals(s, w, r, payload, ephemeral, [], k);
    TokensInStep(s, w, r, tokens, ephemeral, [], k);
    var (w1, front) := Fronted(s, w, ephemeral);
    assert front.value + [] == front.value;
    assert w1.sym.hash + [] == w1.sym.hash;
  }

  // ---------- Sealed mail ----------

  /** The writer's side of a sealed envelope. */
  function MailWriter(s: Suite, names: Names, prologue: seq<byte>, sender: seq<byte>, recipient: seq<byte>): Handshake {
    Start(s, names, Initiator, X, Some(sender), Some(s.pub(recipient)), prologue)
  }

  function MailReader(s: Suite, names: Names, prologue: seq<byte>, recipient: seq<byte>): Handshake {
    Start(s, names, Responder, X, Some(recipient), None, prologue)
  }

  lemma MailIsSealing(s: Suite, names: Names, prologue: seq<byte>, sender: seq<byte>, recipient: seq<byte>)
    requires Laws(s)
    ensures Sealing(s, MailWriter(s, names, prologue, sender, recipient), MailReader(s, names, prologue, recipient),
                    Given(X, true))
    ensures LearnAll(Messages(X)[0], Initiator, Given(X, true)) == Some(Given(X, true).(eI := true, kI := true))
  {
    var i, r := MailWriter(s, names, prologue, sender, recipient), MailReader(s, names, prologue, recipient);
    StartInStep(s, names, X, prologue, Some(sender), recipient, Ends(i, r, Ok([])));
    TablesRun(X, true, 1);
    assert KnownAfter(X, Given(X, true), 0) == Some(Given(X, true));
  }

  /** How long the part of a message is that comes before its payload. */
  function FrontSize(tokens: seq<Token>, keyed: bool): nat {
    if tokens == [] then 0
    else
      match tokens[0]
      case E => KEY_SIZE + FrontSize(tokens[1..], keyed)
      case S => KEY_SIZE + (if keyed then TAG_SIZE else 0) + FrontSize(tokens[1..], keyed)
      case _ => FrontSize(tokens[1..], true)
  }

  lemma {:induction false} TokensSize(s: Suite, h: Handshake, tokens: seq<Token>, ephemeral: seq<byte>)
    requires Laws(s) && WrittenTokens(s, h, tokens, ephemeral).1.Ok? && !h.sym.cipher.extracted
    ensures |WrittenTokens(s, h, tokens, ephemeral).1.value| == FrontSize(tokens, h.sym.cipher.key.Some?)
    decreases |tokens|
  {
    if tokens != [] {
      TokensSize(s, WrittenToken(s, h, tokens[0], ephemeral).0, tokens[1..], ephemeral);
    }
  }

  /** Of an envelope, 80 bytes are the ephemeral key and the sealed static key of its sender. */
  lemma MailFront(s: Suite, names: Names, prologue: seq<byte>, sender: seq<byte>, recipient: seq<byte>,
                  ephemeral: seq<byte>)
    requires Laws(s)
    ensures var front := Fronted(s, MailWriter(s, names, prologue, sender, recipient), ephemeral).1;
            front.Ok? && |front.value| == 80
  {
    var w, r := MailWriter(s, names, prologue, sender, recipient), MailReader(s, names, prologue, recipient);
    MailIsSealing(s, names, prologue, sender, recipient);
    FrontSeals(s, w, r, [], ephemeral, [], Given(X, true));
    TokensSize(s, w, Messages(X)[0], ephemeral);
    assert FrontSize([SS], true) == 0 && FrontSize([S, SS], true) == 48;
    assert FrontSize([ES, S, SS], false) == 48;
  }

  /**
   * Whatever follows the keys of an envelope is read exactly as the text it seals under the writer's key, nonce and
   * hash, or as the empty text if nothing follows; and whatever is read is read as from the sender.
   */
  lemma AlteredMail(s: Suite, names: Names, prologue: seq<byte>, sender: seq<byte>, recipient: seq<byte>,
                    payload: seq<byte>, ephemeral: seq<byte>, b: seq<byte>, text: seq<byte>)
    requires Laws(s)
    ensures var w := MailWriter(s, names, prologue, sender, recipient);
            var (w1, front) := Fronted(s, w, ephemeral);
            && front.Ok? && w1.sym.cipher.key.Some?
            && var sealed := Written(s, w, payload, ephemeral).1;
            && sealed.Ok? && |sealed.value| == 96 + |payload| && sealed.value[..80] == front.value
            && Accepts(s, w1.sym, sealed.value[80..], payload)
            && var (h, read) := Read(s, MailReader(s, names, prologue, recipient), sealed.value[..80] + b);
            && (read == Ok(text) <==> Accepts(s, w1.sym, b, text))
            && (read == Ok(text) ==> h.remoteStatic == Some(s.pub(sender)))
  {
    var w, r := MailWriter(s, names, prologue, sender, recipient), MailReader(s, names, prologue, recipient);
    MailIsSealing(s, names, prologue, sender, recipient);
    MailFront(s, names, prologue, sender, recipient, ephemeral);
    AlteredPayload(s, w, r, ephemeral, b, text, Given(X, true));
    FrontSeals(s, w, r, payload, ephemeral, b, Given(X, true));
    SenderIsRead(s, w, r, ephemeral, b);
  }

  lemma SenderIsRead(s: Suite, w: Handshake, r: Handshake, ephemeral: seq<byte>, b: seq<byte>)
    requires Sealing(s, w, r, Given(X, true)) && w.pattern == X && w.role == Initiator && w.current == 0
    requires LearnAll(Messages(X)[0], Initiator, Given(X, true)) == Some(Given(X, true).(eI := true, kI := true))
    ensures var front := Fronted(s, w, ephemeral).1;
            && front.Ok? && w.localStatic.Some?
            && Read(s, r, front.value + b).0.remoteStatic == Some(s.pub(w.localStatic.value))
  {
    TokensInStep(s, w, r, Messages(X)[0], ephemeral, b, Given(X, true));
    TokensKeepStatic(s, w, Messages(X)[0], ephemeral, []);
  }

  /** So an envelope cut to its first 80 bytes reads as an empty text from its sender, whatever it held. */
  lemma BlankedMail(s: Suite, names: Names, prologue: seq<byte>, sender: seq<byte>, recipient: seq<byte>,
                    payload: seq<byte>, ephemeral: seq<byte>)
    requires Laws(s)
    ensures var sealed := Written(s, MailWriter(s, names, prologue, sender, recipient), payload, ephemeral).1;
            && sealed.Ok? && |sealed.value| == 96 + |payload|
            && var (h, read) := Read(s, MailReader(s, names, prologue, recipient), sealed.value[..80]);
               read == Ok([]) && h.remoteStatic == Some(s.pub(sender))
  {
    AlteredMail(s, names, prologue, sender, recipient, payload, ephemeral, [], []);
    var sealed := Written(s, MailWriter(s, names, prologue, sender, recipient), payload, ephemeral).1;
    assert sealed.value[..80] + [] == sealed.value[..80];
  }

  // ---------- The three messages of XX ----------

  /** XX after its first two messages. */
  lemma TwoMessages(s: Suite, names: Names, kA: seq<byte>, kB: seq<byte>, e1: seq<byte>, e2: seq<byte>)
    returns (now: Ends)
    requires Laws(s)
    ensures var i0 := Start(s, names, Initiator, XX, Some(kA), None, []);
            var r0 := Start(s, names, Responder, XX, Some(kB), None, []);
            var (i1, m1) := Written(s, i0, [], e1);
            && m1.Ok? && i1.pattern == XX && i1.current == 1
            && var (r1, g1) := Read(s, r0, m1.value);
            && g1 == Ok([]) && r1.pattern == XX && r1.current == 1
            && var (r2, m2) := Written(s, r1, [], e2);
            && m2.Ok? && r2.pattern == XX && r2.current == 2
            && Read(s, i1, m2.value) == (now.initiator, Ok([])) && now.responder == r2
    ensures InStepAfter(s, XX, Some(kA), kB, now, 2)
  {
    var e := Ends(Start(s, names, Initiator, XX, Some(kA), None, []),
                  Start(s, names, Responder, XX, Some(kB), None, []), Ok([]));
    TablesRun(XX, true, 0);
    StartInStep(s, names, XX, [], Some(kA), kB, e);
    now := OneMessage(s, kA, kB, e, 0, e1);
    now := OneMessage(s, kA, kB, now, 1, e2);
  }

  /** The third message, cut off after its tokens: both ends complete, with each other's keys and crossed ciphers. */
  lemma BlankedThird(s: Suite, kA: seq<byte>, kB: seq<byte>, e: Ends, ephemeral: seq<byte>)
    requires Laws(s) && InStepAfter(s, XX, Some(kA), kB, e, 2)
    ensures var (w1, front) := Fronted(s, e.initiator, ephemeral);
            && front.Ok? && w1.sym.cipher.key.Some?
            && var h, tag := w1.sym.hash, s.seal(w1.sym.cipher.key.value, w1.sym.cipher.nonce, w1.sym.hash, []);
            && var (i, m) := Written(s, e.initiator, [], ephemeral);
            && m == Ok(front.value + tag)
            && var (r, got) := Read(s, e.responder, front.value);
            && got == Ok([]) && i.Complete() && r.Complete()
            && i.sym.hash == s.hash(h + tag) && r.sym.hash == s.hash(h)
            && TransportCiphers(s, i).value.0 == TransportCiphers(s, r).value.1
            && TransportCiphers(s, i).value.1 == TransportCiphers(s, r).value.0
            && i.remoteStatic == Some(s.pub(kB)) && r.remoteStatic == Some(s.pub(kA))
  {
    TablesRun(XX, true, 2);
    TablesRun(XX, true, 3);
    var k := KnownAfter(XX, Given(XX, true), 2).value;
    FrontSeals(s, e.initiator, e.responder, [], ephemeral, [], k);
    BlankedInStep(s, e.initiator, e.responder, [], ephemeral, k);
    StaticsStay(s, e.initiator, e.responder, [], ephemeral);
  }

  /**
   * The tag of the last message taken off on its way: the responder establishes its session all the same, the two
   * sessions seal and open for each other and know each other's key, and only their handshake hashes give it away.
   */
  lemma BlankedHandshake(a: Local, b: Local, e1: seq<byte>, e2: seq<byte>, e3: seq<byte>, e4: seq<byte>)
    requires Laws(a.s) && a.s == b.s && a.names == b.names
    ensures var (x1, m1) := Restarted(a.s, Opening(a), e1);
            && m1.Ok?
            && var (y1, m2) := Processed(b, Waiting(b), m1.value, e2);
            && m2.Ok? && m2.value.Some?
            && var (x2, m3) := Processed(a, x1, m2.value.value, e3);
            && m3.Ok? && m3.value.Some? && |m3.value.value| >= TAG_SIZE
            && var cut := |m3.value.value| - TAG_SIZE;
            && var (y2, end) := Processed(b, y1, m3.value.value[..cut], e4);
            && end == Ok(None) && Joined(x2, y2.(hash := x2.hash), a.s.pub(a.key), a.s.pub(b.key))
            && exists h :: x2.hash == Some(a.s.hash(h + m3.value.value[cut..])) && y2.hash == Some(a.s.hash(h))
  {
    var s := a.s;
    var e := TwoMessages(s, a.names, a.key, b.key, e1, e2);
    BlankedThird(s, a.key, b.key, e, e3);
    var (i1, m1) := Written(s, Start(s, a.names, Initiator, XX, Some(a.key), None, []), [], e1);
    var (r2, m2) := Written(s, Read(s, Start(s, b.names, Responder, XX, Some(b.key), None, []), m1.value).0, [], e2);
    var (w1, front) := Fronted(s, e.initiator, e3);
    var (i3, m3) := Written(s, e.initiator, [], e3);
    var cut := |m3.value| - TAG_SIZE;
    assert m3.value[..cut] == front.value;
    assert i3.sym.hash == s.hash(w1.sym.hash + m3.value[cut..]);
    var x1 := Restarted(s, Opening(a), e1).0;
    var y0 := Begun(b, Waiting(b));
    var y1 := y0.(handshake := Some(r2), sent := y0.sent + [m2.value]);
    assert Processed(b, Waiting(b), m1.value, e2) == (y1, Ok(Some(m2.value)));
    var x2 := Finished(s, x1.(handshake := Some(i3), sent := x1.sent + [m3.value]), i3);
    assert Processed(a, x1, m2.value, e3) == (x2, Ok(Some(m3.value)));
    var r3 := Read(s, r2, front.value).0;
    assert Processed(b, y1, front.value, e4) == (Finished(s, y1, r3), Ok(None));
  }

  /**
   * The same done to the second message is noticed with the third: the initiator seals its static key one nonce behind
   * and under another hash, so the responder fails to open it, unless what is sealed under the one opens under the
   * other.
   */
  lemma BlankedSecond(s: Suite, kA: seq<byte>, kB: seq<byte>, e: Ends, e2: seq<byte>, e3: seq<byte>)
    requires Laws(s) && InStepAfter(s, XX, Some(kA), kB, e, 1)
    ensures var (w1, front) := Fronted(s, e.responder, e2);
            && front.Ok? && w1.sym.cipher.key.Some?
            && var key, n, h := w1.sym.cipher.key.value, w1.sym.cipher.nonce, w1.sym.hash;
            && var (r, m) := Written(s, e.responder, [], e2);
            && m == Ok(front.value + s.seal(key, n, h, []))
            && var (i, got) := Read(s, e.initiator, front.value);
            && got == Ok([])
            && var last := Written(s, i, [], e3).1;
            && last.Ok?
            && (s.open(key, n + 1, s.hash(h + s.seal(key, n, h, [])), s.seal(key, n, s.hash(h), s.pub(kA))) == None
                ==> Read(s, r, last.value).1 == Err(DecryptionFailed))
  {
    BlankedAnswer(s, kA, kB, e, e2);
    var front := Fronted(s, e.responder, e2).1;
    StaleThird(s, Read(s, e.initiator, front.value).0, Written(s, e.responder, [], e2).0, e3);
  }

  lemma BlankedAnswer(s: Suite, kA: seq<byte>, kB: seq<byte>, e: Ends, e2: seq<byte>)
    requires Laws(s) && InStepAfter(s, XX, Some(kA), kB, e, 1)
    ensures var (w1, front) := Fronted(s, e.responder, e2);
            && front.Ok? && w1.sym.cipher.key.Some? && !w1.sym.cipher.extracted
            && var key, n, h := w1.sym.cipher.key.value, w1.sym.cipher.nonce, w1.sym.hash;
            && var (r, m) := Written(s, e.responder, [], e2);
            && m == Ok(front.value + s.seal(key, n, h, []))
            && var (i, got) := Read(s, e.initiator, front.value);
            && got == Ok([]) && i.role == Initiator && i.localStatic == Some(kA) && i.remoteEphemeral.Some?
            && i.pattern == r.pattern == XX && i.current == r.current == 2
            && i.sym.cipher == w1.sym.cipher && r.sym.cipher == w1.sym.cipher.(nonce := n + 1)
            && i.sym.hash == s.hash(h) && r.sym.hash == s.hash(h + s.seal(key, n, h, []))
  {
    AnswerKnown();
    var k := KnownAfter(XX, Given(XX, true), 1).value;
    FrontSeals(s, e.responder, e.initiator, [], e2, [], k);
    BlankedInStep(s, e.responder, e.initiator, [], e2, k);
    StaticsStay(s, e.responder, e.initiator, [], e2);
  }

  lemma AnswerKnown()
    ensures KnownAfter(XX, Given(XX, true), 1).Some?
    ensures var after := LearnAll(Messages(XX)[1], Responder, KnownAfter(XX, Given(XX, true), 1).value);
            after.Some? && after.value.eR
  {
    TablesRun(XX, true, 1);
    TablesRun(XX, true, 2);
    assert KnownAfter(XX, Given(XX, true), 0) == Some(Given(XX, true));
    var one := Learn4(Messages(XX)[0], Initiator, Given(XX, true));
    var two := Learn4(Messages(XX)[1], Responder, one);
  }

  /** A third message to a responder whose key, nonce and hash are not the initiator's. */
  lemma StaleThird(s: Suite, i: Handshake, r: Handshake, ephemeral: seq<byte>)
    requires Laws(s) && i.pattern == XX && i.current == 2 && i.role == Initiator
    requires i.localStatic.Some? && i.remoteEphemeral.Some? && i.sym.cipher.key.Some? && !i.sym.cipher.extracted
    requires r.pattern == XX && r.current == 2 && r.sym.cipher.key.Some? && !r.sym.cipher.extracted
    ensures var last := Written(s, i, [], ephemeral).1;
            var sealed := s.seal(i.sym.cipher.key.value, i.sym.cipher.nonce, i.sym.hash, s.pub(i.localStatic.value));
            && last.Ok?
            && (s.open(r.sym.cipher.key.value, r.sym.cipher.nonce, r.sym.hash, sealed) == None
                ==> Read(s, r, last.value).1 == Err(DecryptionFailed))
  {
    var tail := ThirdMessage(s, i, ephemeral);
    var sealed := s.seal(i.sym.cipher.key.value, i.sym.cipher.nonce, i.sym.hash, s.pub(i.localStatic.value));
    if s.open(r.sym.cipher.key.value, r.sym.cipher.nonce, r.sym.hash, sealed) == None {
      StaleStatic(s, r, sealed, tail);
    }
  }

  /** The third message of XX starts with the sealed static key. */
  lemma ThirdMessage(s: Suite, i: Handshake, ephemeral: seq<byte>) returns (tail: seq<byte>)
    requires i.pattern == XX && i.current == 2 && i.role == Initiator && i.localStatic.Some? && i.remoteEphemeral.Some?
    requires i.sym.cipher.key.Some? && !i.sym.cipher.extracted
    ensures Written(s, i, [], ephemeral).1
         == Ok(s.seal(i.sym.cipher.key.value, i.sym.cipher.nonce, i.sym.hash, s.pub(i.localStatic.value)) + tail)
  {
    var tokens := Messages(XX)[2];
    assert tokens[1..] == [SE] && tokens[1..][1..] == [];
    var (h1, r1) := WrittenToken(s, i, S, ephemeral);
    var (h2, r2) := WrittenToken(s, h1, SE, ephemeral);
    assert WrittenTokens(s, h1, [SE], ephemeral) == (h2, Ok(r2.value + []));
    assert WrittenTokens(s, i, tokens, ephemeral) == (h2, Ok(r1.value + (r2.value + [])));
    tail := EncryptedAndHashed(s, h2.sym, []).1.value;
    assert r1.value + (r2.value + []) + tail == r1.value + tail;
  }

  lemma StaleStatic(s: Suite, r: Handshake, sealed: seq<byte>, tail: seq<byte>)
    requires r.pattern == XX && r.current == 2 && r.sym.cipher.key.Some? && !r.sym.cipher.extracted
    requires |sealed| == KEY_SIZE + TAG_SIZE
    requires s.open(r.sym.cipher.key.value, r.sym.cipher.nonce, r.sym.hash, sealed) == None
    ensures Read(s, r, sealed + tail).1 == Err(DecryptionFailed)
  {
    var message := sealed + tail;
    assert message[..KEY_SIZE + TAG_SIZE] == sealed;
    assert ReadToken(s, r, S, message).1 == Err(DecryptionFailed);
    assert ReadTokens(s, r, Messages(XX)[2], message).1 == Err(DecryptionFailed);
  }
}
