/** Courier envelopes: sealed mail addressed by tag alone, as tag-length-value fields. */
module Courier {
  import opened Prelude
  import opened Bytes

  const TAG_BYTES := 16
  const MAX_CIPHERTEXT_BYTES := 16 * 1024
  const MAX_LIFETIME_SECONDS := 24 * 60 * 60
  const MAX_COPIES := 8

  const TLV_RECIPIENT_TAG := 1
  const TLV_EXPIRY := 2
  const TLV_CIPHERTEXT := 3
  const TLV_COPIES := 4
  const TLV_PREKEY_ID := 5

  type Tag = s: seq<byte> | |s| == TAG_BYTES witness [0, 0, 0, 0, 0, 0, 0, 0, 0, 0, 0, 0, 0, 0, 0, 0]
  type u32 = x: int | 0 <= x < 0x1_0000_0000

  datatype Envelope = Envelope(tag: Tag, expiryMs: u64, ciphertext: seq<byte>, copies: byte, prekeyId: Option<u32>)

  predicate SizeFits(ciphertext: seq<byte>) {
    1 <= |ciphertext| <= MAX_CIPHERTEXT_BYTES
  }

  predicate WellFormed(e: Envelope) {
    SizeFits(e.ciphertext) && 1 <= e.copies <= MAX_COPIES
  }

  function Clamped(copies: byte): byte {
    if copies < 1 then 1 else if copies > MAX_COPIES then MAX_COPIES else copies
  }

  function New(tag: Tag, expiryMs: u64, ciphertext: seq<byte>, copies: byte,
               prekeyId: Option<u32>): (r: Option<Envelope>)
    ensures r.Some? <==> SizeFits(ciphertext)
    ensures r.Some? ==> WellFormed(r.value)
  {
    if !SizeFits(ciphertext) then None else Some(Envelope(tag, expiryMs, ciphertext, Clamped(copies), prekeyId))
  }

  predicate IsExpired(e: Envelope, nowMs: u64) {
    nowMs >= e.expiryMs
  }

  /** What makes two envelopes the same mail: the copy budget and the prekey id are not part of it. */
  function Fingerprint(e: Envelope): (Tag, u64, seq<byte>) {
    (e.tag, e.expiryMs, e.ciphertext)
  }

  // ---------- Encoding ----------

  function Tlv(tag: byte, value: seq<byte>): seq<byte> {
    [tag] + BigEndian(|value|, 2) + value
  }

  function Required(e: Envelope): seq<byte> {
    Tlv(TLV_RECIPIENT_TAG, e.tag) + Tlv(TLV_EXPIRY, BigEndian(e.expiryMs, 8)) + Tlv(TLV_CIPHERTEXT, e.ciphertext)
  }

  /** Left out at one, not written as one. */
  function Copies(e: Envelope): seq<byte> {
    if e.copies > 1 then Tlv(TLV_COPIES, [e.copies]) else []
  }

  function Prekey(e: Envelope): seq<byte> {
    if e.prekeyId.Some? then Tlv(TLV_PREKEY_ID, BigEndian(e.prekeyId.value, 4)) else []
  }

  function Encoded(e: Envelope): seq<byte> {
    Required(e) + Copies(e) + Prekey(e)
  }

  method PushTlv(data: seq<byte>, tag: byte, value: seq<byte>) returns (longer: seq<byte>)
    ensures longer == data + Tlv(tag, value)
  {
    longer := data + [tag];
    longer := longer + BigEndian(|value|, 2);
    longer := longer + value;
  }

  method Encode(e: Envelope) returns (r: Option<seq<byte>>)
    ensures r == if SizeFits(e.ciphertext) then Some(Encoded(e)) else None
  {
    if |e.ciphertext| == 0 || |e.ciphertext| > MAX_CIPHERTEXT_BYTES {
      return None;
    }
    var data := PushTlv([], TLV_RECIPIENT_TAG, e.tag);
    assert data == Tlv(TLV_RECIPIENT_TAG, e.tag);
    data := PushTlv(data, TLV_EXPIRY, BigEndian(e.expiryMs, 8));
    data := PushTlv(data, TLV_CIPHERTEXT, e.ciphertext);
    if e.copies > 1 {
      data := PushTlv(data, TLV_COPIES, [e.copies]);
    }
    assert data == Required(e) + Copies(e);
    if e.prekeyId.Some? {
      data := PushTlv(data, TLV_PREKEY_ID, BigEndian(e.prekeyId.value, 4));
    }
    assert data == Required(e) + Copies(e) + Prekey(e);
    return Some(data);
  }

  // ---------- Decoding ----------

  datatype Fields = Fields(tag: Option<Tag>, expiryMs: Option<u64>, ciphertext: Option<seq<byte>>, copies: byte,
                           prekeyId: Option<u32>)

  const NO_FIELDS := Fields(None, None, None, 1, None)

  /** One field taken in: a later one replaces an earlier, an unknown one is skipped. */
  function Filled(f: Fields, tag: byte, value: seq<byte>): Option<Fields> {
    if tag == TLV_RECIPIENT_TAG then if |value| == TAG_BYTES then Some(f.(tag := Some(value))) else None
    else if tag == TLV_EXPIRY then if |value| == 8 then Some(f.(expiryMs := Some(Read64(value)))) else None
    else if tag == TLV_CIPHERTEXT then if SizeFits(value) then Some(f.(ciphertext := Some(value))) else None
    else if tag == TLV_COPIES then if |value| == 1 then Some(f.(copies := value[0])) else None
    else if tag == TLV_PREKEY_ID then if |value| == 4 then Some(f.(prekeyId := Some(Read32(value)))) else None
    else Some(f)
  }

  function Read64(value: seq<byte>): u64
    requires |value| == 8
  {
    FromBigEndianBound(value);
    Pow256Values();
    FromBigEndian(value)
  }

  function Read32(value: seq<byte>): u32
    requires |value| == 4
  {
    FromBigEndianBound(value);
    Pow256Values();
    FromBigEndian(value)
  }

  function Length(data: seq<byte>): nat
    requires |data| >= 3
  {
    FromBigEndian(data[1..3])
  }

  function AllFilled(f: Fields, data: seq<byte>): Option<Fields>
    decreases |data|
  {
    if data == [] then Some(f)
    else if |data| < 3 || 3 + Length(data) > |data| then None
    else
      var g :- Filled(f, data[0], data[3..3 + Length(data)]);
      AllFilled(g, data[3 + Length(data)..])
  }

  function Assembled(f: Fields): Option<Envelope> {
    if f.tag.None? || f.expiryMs.None? || f.ciphertext.None? then None
    else New(f.tag.value, f.expiryMs.value, f.ciphertext.value, f.copies, f.prekeyId)
  }

  function Decoded(data: seq<byte>): Option<Envelope> {
    var f :- AllFilled(NO_FIELDS, data);
    Assembled(f)
  }

  method Decode(data: seq<byte>) returns (r: Option<Envelope>)
    ensures r == Decoded(data)
  {
    var offset := 0;
    var f := NO_FIELDS;
    assert data[0..] == data;
    while offset < |data|
      invariant 0 <= offset <= |data|
      invariant AllFilled(NO_FIELDS, data) == AllFilled(f, data[offset..])
    {
      ghost var rest := data[offset..];
      assert |rest| >= 3 ==> rest[1..3] == data[offset + 1..offset + 3];
      var tag := data[offset];
      offset := offset + 1;
      if offset + 2 > |data| {
        return None;
      }
      var length := FromBigEndian(data[offset..offset + 2]);
      offset := offset + 2;
      if offset + length > |data| {
        return None;
      }
      var value := data[offset..offset + length];
      assert value == rest[3..3 + Length(rest)] && data[offset + length..] == rest[3 + Length(rest)..];
      offset := offset + length;
      var g := Filled(f, tag, value);
      if g.None? {
        return None;
      }
      f := g.value;
    }
    return Assembled(f);
  }

  // ---------- Round trips ----------

  lemma TlvReads(tag: byte, value: seq<byte>, rest: seq<byte>, f: Fields)
    requires |value| < 0x1_0000
    ensures AllFilled(f, Tlv(tag, value) + rest)
         == var g := Filled(f, tag, value); if g.Some? then AllFilled(g.value, rest) else None
  {
    var data := Tlv(tag, value) + rest;
    Pow256Values();
    BigEndianRoundTrip(|value|, 2);
    assert data[1..3] == BigEndian(|value|, 2);
    assert data[3..3 + |value|] == value && data[3 + |value|..] == rest;
  }

  /** Encoding and decoding changes at most the copy budget, which it clamps to one to eight. */
  lemma RoundTrip(e: Envelope)
    requires SizeFits(e.ciphertext)
    ensures Decoded(Encoded(e)) == Some(e.(copies := Clamped(e.copies)))
  {
    var f := NO_FIELDS.(tag := Some(e.tag), expiryMs := Some(e.expiryMs), ciphertext := Some(e.ciphertext));
    RequiredFields(e, Copies(e) + Prekey(e));
    OptionalFields(e, f);
    Associates(Required(e), Copies(e), Prekey(e));
  }

  lemma Associates(a: seq<byte>, b: seq<byte>, c: seq<byte>)
    ensures a + b + c == a + (b + c)
  {
  }

  lemma RequiredFields(e: Envelope, rest: seq<byte>)
    requires SizeFits(e.ciphertext)
    ensures AllFilled(NO_FIELDS, Required(e) + rest)
         == AllFilled(NO_FIELDS.(tag := Some(e.tag), expiryMs := Some(e.expiryMs), ciphertext := Some(e.ciphertext)),
                      rest)
  {
    var t1, t2, t3 := Tlv(TLV_RECIPIENT_TAG, e.tag), Tlv(TLV_EXPIRY, BigEndian(e.expiryMs, 8)),
                      Tlv(TLV_CIPHERTEXT, e.ciphertext);
    var f1 := NO_FIELDS.(tag := Some(e.tag));
    var f2 := f1.(expiryMs := Some(e.expiryMs));
    Pow256Values();
    BigEndianRoundTrip(e.expiryMs, 8);
    TlvReads(TLV_RECIPIENT_TAG, e.tag, t2 + (t3 + rest), NO_FIELDS);
    TlvReads(TLV_EXPIRY, BigEndian(e.expiryMs, 8), t3 + rest, f1);
    TlvReads(TLV_CIPHERTEXT, e.ciphertext, rest, f2);
    Regroup(t1, t2, t3, rest);
  }

  lemma Regroup(a: seq<byte>, b: seq<byte>, c: seq<byte>, d: seq<byte>)
    ensures a + b + c + d == a + (b + (c + d))
  {
  }

  lemma OptionalFields(e: Envelope, f: Fields)
    requires f.copies == 1 && f.prekeyId.None?
    ensures AllFilled(f, Copies(e) + Prekey(e))
         == Some(f.(copies := if e.copies > 1 then e.copies else 1, prekeyId := e.prekeyId))
  {
    var g := f.(copies := if e.copies > 1 then e.copies else 1);
    if e.copies > 1 {
      TlvReads(TLV_COPIES, [e.copies], Prekey(e), f);
    } else {
      assert [] + Prekey(e) == Prekey(e);
    }
    if e.prekeyId.Some? {
      Pow256Values();
      BigEndianRoundTrip(e.prekeyId.value, 4);
      TlvReads(TLV_PREKEY_ID, BigEndian(e.prekeyId.value, 4), [], g);
      assert Prekey(e) + [] == Prekey(e);
    }
  }

  /** So an envelope comes back as it was exactly if it is one the constructor makes. */
  lemma RoundTripExactlyWhen(e: Envelope)
    requires SizeFits(e.ciphertext)
    ensures Decoded(Encoded(e)) == Some(e) <==> WellFormed(e)
  {
    RoundTrip(e);
  }

  /** Whatever decodes is well formed, and its own encoding decodes to it again. */
  lemma DecodedIsStable(data: seq<byte>)
    ensures var e := Decoded(data);
            e.Some? ==> WellFormed(e.value) && Decoded(Encoded(e.value)) == e
  {
    var e := Decoded(data);
    if e.Some? {
      RoundTrip(e.value);
    }
  }

  lemma {:induction false} FilledFurther(f: Fields, a: seq<byte>, b: seq<byte>)
    requires AllFilled(f, a).Some?
    ensures AllFilled(f, a + b) == AllFilled(AllFilled(f, a).value, b)
    decreases |a|
  {
    if a == [] {
      assert a + b == b;
    } else {
      var n := 3 + Length(a);
      assert (a + b)[1..3] == a[1..3];
      assert (a + b)[3..n] == a[3..n];
      assert (a + b)[n..] == a[n..] + b;
      FilledFurther(Filled(f, a[0], a[3..n]).value, a[n..], b);
    }
  }

  /** A field of a kind this client does not know may stand between any two others without changing what is read. */
  lemma UnknownFieldsAreCarried(before: seq<byte>, tag: byte, value: seq<byte>, after: seq<byte>)
    requires AllFilled(NO_FIELDS, before).Some? && |value| < 0x1_0000 && (tag == 0 || tag > TLV_PREKEY_ID)
    ensures Decoded(before + (Tlv(tag, value) + after)) == Decoded(before + after)
  {
    FilledFurther(NO_FIELDS, before, Tlv(tag, value) + after);
    FilledFurther(NO_FIELDS, before, after);
    TlvReads(tag, value, after, AllFilled(NO_FIELDS, before).value);
  }
}
