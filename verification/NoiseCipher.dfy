/** The primitives of the Noise stack, left abstract behind the laws they are trusted for. */
module NoiseCrypto {
  import opened Prelude
  import opened Bytes

  const KEY_SIZE := 32
  const TAG_SIZE := 16

  /** Secrets are byte strings; `seal` and `open` take key, nonce, associated data and text. */
  datatype Suite = Suite(
    pub: seq<byte> -> seq<byte>,
    dh: (seq<byte>, seq<byte>) -> seq<byte>,
    valid: seq<byte> -> bool,
    hash: seq<byte> -> seq<byte>,
    hkdf: (seq<byte>, seq<byte>) -> (seq<byte>, seq<byte>),
    seal: (seq<byte>, nat, seq<byte>, seq<byte>) -> seq<byte>,
    open: (seq<byte>, nat, seq<byte>, seq<byte>) -> Option<seq<byte>>)

  /** Diffie-Hellman commutes, honest keys are valid, and decryption undoes encryption and nothing else. */
  ghost predicate Laws(s: Suite) {
    && (forall a :: |s.pub(a)| == KEY_SIZE && s.valid(s.pub(a)))
    && (forall a, b :: s.dh(a, s.pub(b)) == s.dh(b, s.pub(a)))
    && (forall k, n, ad, p :: |s.seal(k, n, ad, p)| == |p| + TAG_SIZE)
    && (forall k, n, ad, p :: s.open(k, n, ad, s.seal(k, n, ad, p)) == Some(p))
    && (forall k, n, ad, c :: s.open(k, n, ad, c).Some? ==> c == s.seal(k, n, ad, s.open(k, n, ad, c).value))
  }

  datatype NoiseError =
    | UninitializedCipher | InvalidCiphertext | ReplayDetected | DecryptionFailed
    | HandshakeComplete | HandshakeNotComplete | MissingLocalStaticKey | MissingKeys
    | InvalidMessage | AuthenticationFailure | InvalidPublicKey
    | InvalidState | NotEstablished | SessionNotFound
}

/** `NoiseCipherState`: one key, a counter for sending and a sliding window over received nonces. */
module NoiseCipher {
  import opened Prelude
  import opened Bytes
  import opened NoiseCrypto

  const NONCE_SIZE_BYTES := 4
  const REPLAY_WINDOW_SIZE := 1024

  datatype Cipher = Cipher(key: Option<seq<byte>>, nonce: nat, extracted: bool, window: set<nat>, highest: nat)

  const UNKEYED := Cipher(None, 0, false, {}, 0)

  function Fresh(key: seq<byte>, extracted: bool): Cipher {
    Cipher(Some(key), 0, extracted, {}, 0)
  }

  function Rekeyed(c: Cipher, key: seq<byte>): Cipher {
    Cipher(Some(key), 0, c.extracted, {}, 0)
  }

  // ---------- Nonces ----------

  predicate IsValidNonce(c: Cipher, n: nat) {
    if n + REPLAY_WINDOW_SIZE <= c.highest then false
    else if n > c.highest then true
    else n !in c.window
  }

  function Marked(c: Cipher, n: nat): Cipher {
    if n > c.highest then
      var kept := if n - c.highest >= REPLAY_WINDOW_SIZE then {}
                  else set m | m in c.window && m + REPLAY_WINDOW_SIZE > n;
      c.(window := kept + {n}, highest := n)
    else c.(window := c.window + {n})
  }

  /** Little-endian, truncated to `width` bytes. */
  function LittleEndian(n: nat, width: nat): (s: seq<byte>)
    ensures |s| == width
  {
    if width == 0 then [] else [n % 256] + LittleEndian(n / 256, width - 1)
  }

  function FromLittleEndian(s: seq<byte>): nat {
    if s == [] then 0 else s[0] + 256 * FromLittleEndian(s[1..])
  }

  lemma {:induction false} LittleEndianRoundTrip(n: nat, width: nat)
    requires n < Pow256(width)
    ensures FromLittleEndian(LittleEndian(n, width)) == n
  {
    if width > 0 {
      LittleEndianRoundTrip(n / 256, width - 1);
      assert LittleEndian(n, width)[1..] == LittleEndian(n / 256, width - 1);
    }
  }

  lemma {:induction false} FromLittleEndianBound(s: seq<byte>)
    ensures FromLittleEndian(s) < Pow256(|s|)
  {
    if s != [] {
      FromLittleEndianBound(s[1..]);
    }
  }

  // ---------- Encryption and decryption ----------

  function Frame(s: Suite, key: seq<byte>, nonce: nat, ad: seq<byte>, plaintext: seq<byte>): seq<byte> {
    LittleEndian(nonce, NONCE_SIZE_BYTES) + s.seal(key, nonce, ad, plaintext)
  }

  function Encrypted(s: Suite, c: Cipher, plaintext: seq<byte>, ad: seq<byte>)
    : (Cipher, Result<seq<byte>, NoiseError>)
  {
    if c.key.None? then (c, Err(UninitializedCipher))
    else
      var out := if c.extracted then Frame(s, c.key.value, c.nonce, ad, plaintext)
                 else s.seal(c.key.value, c.nonce, ad, plaintext);
      (c.(nonce := c.nonce + 1), Ok(out))
  }

  function Decrypted(s: Suite, c: Cipher, ciphertext: seq<byte>, ad: seq<byte>)
    : (Cipher, Result<seq<byte>, NoiseError>)
  {
    if c.key.None? then (c, Err(UninitializedCipher))
    else if c.extracted && |ciphertext| < NONCE_SIZE_BYTES then (c, Err(InvalidCiphertext))
    else if c.extracted && !IsValidNonce(c, FromLittleEndian(ciphertext[..NONCE_SIZE_BYTES]))
    then (c, Err(ReplayDetected))
    else
      var nonce := if c.extracted then FromLittleEndian(ciphertext[..NONCE_SIZE_BYTES]) else c.nonce;
      var body := if c.extracted then ciphertext[NONCE_SIZE_BYTES..] else ciphertext;
      var plaintext := s.open(c.key.value, nonce, ad, body);
      if plaintext.None? then (c, Err(DecryptionFailed))
      else (if c.extracted then Marked(c, nonce) else c.(nonce := c.nonce + 1), Ok(plaintext.value))
  }

  class CipherState {
    var key: Option<seq<byte>>
    var nonce: nat
    var extracted: bool
    var window: set<nat>
    var highest: nat

    ghost function Value(): Cipher
      reads this
    {
      Cipher(key, nonce, extracted, window, highest)
    }

    constructor ()
      ensures Value() == UNKEYED
    {
      key, nonce, extracted, window, highest := None, 0, false, {}, 0;
    }

    constructor WithKey(k: seq<byte>, useExtractedNonce: bool)
      ensures Value() == Fresh(k, useExtractedNonce)
    {
      key, nonce, extracted, window, highest := Some(k), 0, useExtractedNonce, {}, 0;
    }

    method InitializeKey(k: seq<byte>)
      modifies this
      ensures Value() == Rekeyed(old(Value()), k)
    {
      key, nonce, window, highest := Some(k), 0, {}, 0;
    }

    method Check(n: nat) returns (ok: bool)
      ensures ok == IsValidNonce(Value(), n)
    {
      if n + REPLAY_WINDOW_SIZE <= highest {
        return false;
      }
      if n > highest {
        return true;
      }
      return n !in window;
    }

    method Mark(n: nat)
      modifies this
      ensures Value() == Marked(old(Value()), n)
    {
      if n > highest {
        var shift := n - highest;
        if shift >= REPLAY_WINDOW_SIZE {
          window := {};
        } else {
          window := set m | m in window && m + REPLAY_WINDOW_SIZE > n;
        }
        highest := n;
      }
      window := window + {n};
    }

    method Encrypt(s: Suite, plaintext: seq<byte>, ad: seq<byte>) returns (r: Result<seq<byte>, NoiseError>)
      modifies this
      ensures (Value(), r) == Encrypted(s, old(Value()), plaintext, ad)
    {
      if key.None? {
        return Err(UninitializedCipher);
      }
      var ciphertext := s.seal(key.value, nonce, ad, plaintext);
      if extracted {
        ciphertext := LittleEndian(nonce, NONCE_SIZE_BYTES) + ciphertext;
      }
      nonce := nonce + 1;
      return Ok(ciphertext);
    }

    method Decrypt(s: Suite, ciphertext: seq<byte>, ad: seq<byte>) returns (r: Result<seq<byte>, NoiseError>)
      modifies this
      ensures (Value(), r) == Decrypted(s, old(Value()), ciphertext, ad)
    {
      if key.None? {
        return Err(UninitializedCipher);
      }
      var n, body := nonce, ciphertext;
      if extracted {
        if |ciphertext| < NONCE_SIZE_BYTES {
          return Err(InvalidCiphertext);
        }
        n := FromLittleEndian(ciphertext[..NONCE_SIZE_BYTES]);
        var valid := Check(n);
        if !valid {
          return Err(ReplayDetected);
        }
        body := ciphertext[NONCE_SIZE_BYTES..];
      }
      var plaintext := s.open(key.value, n, ad, body);
      if plaintext.None? {
        return Err(DecryptionFailed);
      }
      if extracted {
        Mark(n);
      } else {
        nonce := nonce + 1;
      }
      return Ok(plaintext.value);
    }
  }

  // ---------- The window is the accepted nonces ----------

  /** The cipher's window against the set of every nonce it ever accepted. */
  ghost predicate Refines(c: Cipher, accepted: set<nat>) {
    && (forall n :: n in accepted ==> n <= c.highest)
    && (if accepted == {} then c.highest == 0 else c.highest in accepted)
    && c.window == (set n | n in accepted && n + 1024 > c.highest)
  }

  /** A nonce is let in exactly when it is inside the window and was never accepted before. */
  lemma ValidExactlyWhenNew(c: Cipher, accepted: set<nat>, n: nat)
    requires Refines(c, accepted)
    ensures IsValidNonce(c, n) <==> n + 1024 > c.highest && n !in accepted
  {
  }

  lemma MarkKeepsRefinement(c: Cipher, accepted: set<nat>, n: nat)
    requires Refines(c, accepted) && IsValidNonce(c, n)
    ensures Refines(Marked(c, n), accepted + {n})
    ensures Marked(c, n).highest == if n > c.highest then n else c.highest
  {
    assert n in accepted + {n};
    var c' := Marked(c, n);
    forall m ensures m in c'.window <==> m in accepted + {n} && m + 1024 > c'.highest {
    }
  }

  /** So the window never holds more than 1024 nonces. */
  lemma WindowIsBounded(c: Cipher, accepted: set<nat>)
    requires Refines(c, accepted)
    ensures |c.window| <= 1024
  {
    RangeSize(c.window, c.highest + 1 - REPLAY_WINDOW_SIZE, c.highest + 1);
  }

  // ---------- A receiving cipher over any run of frames ----------

  function NonceOf(raw: seq<byte>): nat {
    if |raw| < NONCE_SIZE_BYTES then 0 else FromLittleEndian(raw[..NONCE_SIZE_BYTES])
  }

  /** A run: frames in the order they arrive, the cipher before and after each, and what each decryption said. */
  ghost predicate IsRun(s: Suite, ciphers: seq<Cipher>, frames: seq<seq<byte>>,
                        results: seq<Result<seq<byte>, NoiseError>>)
  {
    && |ciphers| == |frames| + 1 && |results| == |frames|
    && forall i :: 0 <= i < |frames| ==> ReceivesAt(s, ciphers, frames, results, i)
  }

  ghost predicate ReceivesAt(s: Suite, ciphers: seq<Cipher>, frames: seq<seq<byte>>,
                             results: seq<Result<seq<byte>, NoiseError>>, i: int)
    requires 0 <= i < |frames| == |results| && |ciphers| == |frames| + 1
  {
    (ciphers[i + 1], results[i]) == Decrypted(s, ciphers[i], frames[i], [])
  }

  /** The nonces accepted by the first `k` decryptions. */
  ghost function Accepted(frames: seq<seq<byte>>, results: seq<Result<seq<byte>, NoiseError>>, k: nat): set<nat>
    requires k <= |frames| == |results|
  {
    set i | 0 <= i < k && results[i].Ok? :: NonceOf(frames[i])
  }

  lemma AcceptedGrows(frames: seq<seq<byte>>, results: seq<Result<seq<byte>, NoiseError>>, k: nat)
    requires k < |frames| == |results|
    ensures Accepted(frames, results, k + 1)
         == Accepted(frames, results, k) + (if results[k].Ok? then {NonceOf(frames[k])} else {})
  {
  }

  /** A frame that does not decrypt leaves the cipher exactly as it was; one that does uses its nonce up. */
  lemma DecryptStep(s: Suite, c: Cipher, raw: seq<byte>, accepted: set<nat>)
    requires c.key.Some? && c.extracted && Refines(c, accepted)
    ensures var (c', r) := Decrypted(s, c, raw, []);
            && (r.Err? ==> c' == c)
            && (r.Ok? ==> c' == Marked(c, NonceOf(raw)) && Refines(c', accepted + {NonceOf(raw)}))
            && (r.Ok? <==> && |raw| >= NONCE_SIZE_BYTES
                           && NonceOf(raw) + 1024 > c.highest && NonceOf(raw) !in accepted
                           && s.open(c.key.value, NonceOf(raw), [], raw[NONCE_SIZE_BYTES..]).Some?)
  {
    ValidExactlyWhenNew(c, accepted, NonceOf(raw));
    if IsValidNonce(c, NonceOf(raw)) {
      MarkKeepsRefinement(c, accepted, NonceOf(raw));
    }
  }

  /** Over any run from a fresh key, the 1024-wide window is an exact image of the whole history of accepted nonces. */
  lemma {:induction false} WindowRefinesHistory(s: Suite, key: seq<byte>, ciphers: seq<Cipher>, frames: seq<seq<byte>>,
                                                results: seq<Result<seq<byte>, NoiseError>>, k: nat)
    requires IsRun(s, ciphers, frames, results) && ciphers[0] == Fresh(key, true) && k <= |frames|
    ensures Refines(ciphers[k], Accepted(frames, results, k))
    ensures ciphers[k].key == Some(key) && ciphers[k].extracted
  {
    if k > 0 {
      WindowRefinesHistory(s, key, ciphers, frames, results, k - 1);
      assert ReceivesAt(s, ciphers, frames, results, k - 1);
      AcceptedGrows(frames, results, k - 1);
      DecryptStep(s, ciphers[k - 1], frames[k - 1], Accepted(frames, results, k - 1));
    }
  }

  // ---------- Two ends of one key ----------

  /** What a sending cipher puts out for its `i`-th plaintext. */
  function SentFrame(s: Suite, key: seq<byte>, plaintexts: seq<seq<byte>>, i: nat): seq<byte>
    requires i < |plaintexts|
  {
    Frame(s, key, i, [], plaintexts[i])
  }

  /** Encrypting in order numbers the frames in order. */
  lemma {:induction false} SenderNumbersFrames(s: Suite, key: seq<byte>, ciphers: seq<Cipher>,
                                               plaintexts: seq<seq<byte>>, frames: seq<seq<byte>>, k: nat)
    requires |ciphers| == |plaintexts| + 1 && |frames| == |plaintexts| && ciphers[0] == Fresh(key, true)
    requires forall i :: 0 <= i < |plaintexts|
               ==> (ciphers[i + 1], Ok(frames[i])) == Encrypted(s, ciphers[i], plaintexts[i], [])
    requires k <= |plaintexts|
    ensures ciphers[k] == Fresh(key, true).(nonce := k)
    ensures k < |plaintexts| ==> frames[k] == SentFrame(s, key, plaintexts, k)
  {
    if k > 0 {
      SenderNumbersFrames(s, key, ciphers, plaintexts, frames, k - 1);
    }
    if k < |plaintexts| {
      var out: Result<seq<byte>, NoiseError> := Ok(frames[k]);
      assert (ciphers[k + 1], out) == Encrypted(s, ciphers[k], plaintexts[k], []);
    }
  }

  /** Nobody without the key can make a frame that opens: whatever opens was sent. */
  ghost predicate Authentic(s: Suite, key: seq<byte>, plaintexts: seq<seq<byte>>, raw: seq<byte>) {
    (|raw| >= NONCE_SIZE_BYTES && s.open(key, NonceOf(raw), [], raw[NONCE_SIZE_BYTES..]).Some?)
    ==> exists i :: 0 <= i < |plaintexts| && raw == SentFrame(s, key, plaintexts, i)
  }

  lemma SentFrameNonce(s: Suite, key: seq<byte>, plaintexts: seq<seq<byte>>, i: nat)
    requires Laws(s) && i < |plaintexts| && i < 0x1_0000_0000
    ensures var raw := SentFrame(s, key, plaintexts, i);
            && |raw| >= NONCE_SIZE_BYTES && NonceOf(raw) == i
            && s.open(key, i, [], raw[NONCE_SIZE_BYTES..]) == Some(plaintexts[i])
  {
    var raw := SentFrame(s, key, plaintexts, i);
    Pow256Values();
    LittleEndianRoundTrip(i, 4);
    assert raw[..4] == LittleEndian(i, 4);
    assert raw[4..] == s.seal(key, i, [], plaintexts[i]);
  }

  /**
   * Frames reordered, repeated, dropped or forged at will, fewer than 2^32 of them sent: a frame is delivered exactly
   * when it is one that was sent, is inside the window and was not delivered before, and then with its own plaintext.
   */
  lemma DeliveredExactlyWhen(s: Suite, key: seq<byte>, plaintexts: seq<seq<byte>>, ciphers: seq<Cipher>,
                             frames: seq<seq<byte>>, results: seq<Result<seq<byte>, NoiseError>>, k: nat)
    requires Laws(s) && |plaintexts| <= 0x1_0000_0000
    requires IsRun(s, ciphers, frames, results) && ciphers[0] == Fresh(key, true) && k < |frames|
    requires Authentic(s, key, plaintexts, frames[k])
    ensures results[k].Ok?
       <==> exists i :: && 0 <= i < |plaintexts| && frames[k] == SentFrame(s, key, plaintexts, i)
                        && i + 1024 > ciphers[k].highest && i !in Accepted(frames, results, k)
    ensures results[k].Ok? ==> && NonceOf(frames[k]) < |plaintexts|
                               && frames[k] == SentFrame(s, key, plaintexts, NonceOf(frames[k]))
                               && results[k].value == plaintexts[NonceOf(frames[k])]
    ensures results[k].Err? ==> ciphers[k + 1] == ciphers[k]
  {
    WindowRefinesHistory(s, key, ciphers, frames, results, k);
    assert ReceivesAt(s, ciphers, frames, results, k);
    DecryptStep(s, ciphers[k], frames[k], Accepted(frames, results, k));
    if exists i :: 0 <= i < |plaintexts| && frames[k] == SentFrame(s, key, plaintexts, i) {
      var i :| 0 <= i < |plaintexts| && frames[k] == SentFrame(s, key, plaintexts, i);
      SentFrameNonce(s, key, plaintexts, i);
      forall j | 0 <= j < |plaintexts| && frames[k] == SentFrame(s, key, plaintexts, j) ensures j == i {
        SentFrameNonce(s, key, plaintexts, j);
      }
    }
  }

  /** No plaintext is delivered twice, whatever arrives how often. */
  lemma DeliveredAtMostOnce(s: Suite, key: seq<byte>, ciphers: seq<Cipher>, frames: seq<seq<byte>>,
                            results: seq<Result<seq<byte>, NoiseError>>, i: nat, j: nat)
    requires IsRun(s, ciphers, frames, results) && ciphers[0] == Fresh(key, true)
    requires i < j < |frames| && results[i].Ok? && results[j].Ok?
    ensures NonceOf(frames[i]) != NonceOf(frames[j])
  {
    WindowRefinesHistory(s, key, ciphers, frames, results, j);
    assert ReceivesAt(s, ciphers, frames, results, j);
    DecryptStep(s, ciphers[j], frames[j], Accepted(frames, results, j));
    assert NonceOf(frames[i]) in Accepted(frames, results, j);
  }

  /** Beyond 2^32 frames the four-byte prefix wraps: such a frame is read under another nonce and never opens there. */
  lemma PrefixWraps(s: Suite, key: seq<byte>, plaintexts: seq<seq<byte>>, i: nat)
    requires Laws(s) && 0x1_0000_0000 <= i < |plaintexts|
    requires forall n, p :: n != i ==> s.seal(key, n, [], p) != s.seal(key, i, [], plaintexts[i])
    ensures var raw := SentFrame(s, key, plaintexts, i);
            |raw| >= NONCE_SIZE_BYTES && s.open(key, NonceOf(raw), [], raw[NONCE_SIZE_BYTES..]).None?
  {
    var raw := SentFrame(s, key, plaintexts, i);
    FromLittleEndianBound(raw[..4]);
    Pow256Values();
    assert raw[4..] == s.seal(key, i, [], plaintexts[i]);
    assert forall text :: s.seal(key, NonceOf(raw), [], text) != raw[4..];
  }
}
