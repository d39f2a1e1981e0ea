/** What is inside a payload, byte by byte: fragments, file transfers and courier envelopes. */
module FieldLayouts {
  import opened Prelude
  import opened Bytes
  import opened WireLayout
  import Wire
  import F = Fragment
  import FP = FilePackets
  import C = Courier

  // ---------- Fragments ----------

  /** A fragment: its stream, its place, how many there are, the type of what it carries, and its bytes. */
  ghost predicate FragmentIs(payload: seq<byte>, id: int, index: int, total: int, originalType: int, data: seq<byte>) {
    && |payload| >= 13
    && Long(payload[..8]) == id
    && Short(payload[8..10]) == index
    && Short(payload[10..12]) == total
    && payload[12] == originalType
    && payload[13..] == data
  }

  function Least(a: nat, b: nat): nat {
    if a < b then a else b
  }

  /** `i` times `size`, by adding. */
  function Sum(i: nat, size: nat): nat {
    if i == 0 then 0 else Sum(i - 1, size) + size
  }

  lemma {:induction false} SumIs(i: nat, size: nat)
    ensures Sum(i, size) == i * size
  {
    if i > 0 {
      SumIs(i - 1, size);
      OneMore(i - 1, size, Sum(i - 1, size));
    }
  }

  lemma {:induction false} ChunkAt(body: seq<byte>, size: nat, i: nat, at: nat)
    requires size > 0 && i < |F.Chunks(body, size)| && at == Sum(i, size)
    ensures at <= |body| && F.Chunks(body, size)[i] == body[at..Least(at + size, |body|)]
  {
    if i > 0 {
      ChunkAt(body[size..], size, i - 1, at - size);
      var end := Least(at, |body| - size);
      assert body[size..][at - size..end] == body[at..size + end];
    }
  }

  lemma PayloadIs(id: u64, index: nat, total: nat, originalType: byte, slice: seq<byte>)
    requires index < 0x1_0000 && total < 0x1_0000
    ensures FragmentIs(F.Payload(id, index, total, originalType, slice), id, index, total, originalType, slice)
  {
    var payload := F.Payload(id, index, total, originalType, slice);
    Pow256Values();
    BigEndianRoundTrip(id, 8);
    BigEndianRoundTrip(index, 2);
    BigEndianRoundTrip(total, 2);
    assert payload[..8] == BigEndian(id, 8);
    assert payload[8..10] == BigEndian(index, 2);
    assert payload[10..12] == BigEndian(total, 2);
    LongRead(payload[..8]);
    ShortRead(payload[8..10]);
    ShortRead(payload[10..12]);
  }

  /** How `n` slices, `whole` bytes if they were all full, cover `length` bytes. */
  lemma Covering(length: nat, size: nat, n: nat, whole: nat, i: nat, at: nat)
    requires size > 0 && whole == n * size && at == i * size && length <= whole < length + size
    ensures i < n <==> at < length
  {
    if i < n {
      Apart(i, n, size);
    } else if n < i {
      Apart(n, i, size);
    }
  }

  lemma {:induction false} Apart(a: nat, b: nat, size: nat)
    requires a < b
    ensures a * size + size <= b * size
    decreases b
  {
    OneMore(b - 1, size, (b - 1) * size);
    if a < b - 1 {
      Apart(a, b - 1, size);
    }
  }

  lemma OneMore(i: nat, size: nat, at: nat)
    requires at == i * size
    ensures (i + 1) * size == at + size
  {
  }

  lemma Turned(n: nat, size: nat)
    ensures n * size == size * n
  {
  }

  /** There are pieces exactly if there are bytes, some to a piece, and no more than ten thousand pieces. */
  lemma SplitsExactlyWhen(id: u64, originalType: byte, body: seq<byte>, size: nat)
    ensures F.Split(id, originalType, body, size) != [] <==> body != [] && size > 0 && |body| <= 10_000 * size
  {
    if body != [] && size > 0 {
      var n := F.DivCeil(|body|, size);
      F.DivCeilIsCeiling(|body|, size);
      Turned(n, size);
      Covering(|body|, size, n, n * size, 10_000, 10_000 * size);
      if n <= 10_000 {
        F.SplitShape(id, originalType, body, size);
      }
    }
  }

  lemma PiecePlace(length: nat, size: nat, n: nat, i: nat, at: nat)
    requires size > 0 && length > 0 && n == F.DivCeil(length, size) && i < n && at == i * size
    ensures at < length && (i == n - 1 <==> at + size >= length)
  {
    F.DivCeilIsCeiling(length, size);
    Turned(n, size);
    OneMore(i, size, at);
    Covering(length, size, n, n * size, i, at);
    Covering(length, size, n, n * size, i + 1, at + size);
  }

  /** Each piece carries its own stretch of the body, from `at` on, and what it says of itself is so. */
  lemma PieceLayout(id: u64, originalType: byte, body: seq<byte>, size: nat, i: nat, at: nat)
    requires i < |F.Split(id, originalType, body, size)| && at == i * size
    ensures at < |body|
    ensures var pieces := F.Split(id, originalType, body, size);
            && FragmentIs(pieces[i], id, i, |pieces|, originalType, body[at..Least(at + size, |body|)])
            && (i == |pieces| - 1 <==> at + size >= |body|)
  {
    F.SplitShape(id, originalType, body, size);
    var n := |F.Split(id, originalType, body, size)|;
    PiecePlace(|body|, size, n, i, at);
    SumIs(i, size);
    ChunkAt(body, size, i, at);
    PayloadIs(id, i, n, originalType, F.Chunks(body, size)[i]);
  }

  /** A payload is read as a fragment exactly if it is laid out as one whose place is among the places there are. */
  lemma ParsesExactlyWhen(p: Wire.Packet, h: F.FragmentHeader)
    ensures F.Parse(p) == Some(h)
       <==> && FragmentIs(p.payload, h.key.id, h.index, h.total, h.originalType, h.data)
            && h.key.sender == p.sender && h.index < h.total <= 10_000
  {
    if |p.payload| >= 13 {
      LongRead(p.payload[..8]);
      ShortRead(p.payload[8..10]);
      ShortRead(p.payload[10..12]);
    }
  }

  // ---------- Fields ----------

  datatype Field = Field(tag: byte, value: seq<byte>)

  /** The last field of a kind is the one that counts. */
  function Last(fields: seq<Field>, tag: byte): Option<seq<byte>> {
    if fields == [] then None
    else if fields[|fields| - 1].tag == tag then Some(fields[|fields| - 1].value)
    else Last(fields[..|fields| - 1], tag)
  }

  // ---------- Envelopes ----------

  /** One field after another: a tag, two bytes of length, and that many bytes. */
  ghost predicate FieldsAre(data: seq<byte>, fields: seq<Field>)
    decreases |fields|
  {
    if fields == [] then data == []
    else
      var n := |fields[0].value|;
      && |data| >= 3 + n && data[0] == fields[0].tag && Short(data[1..3]) == n
      && data[3..3 + n] == fields[0].value && FieldsAre(data[3 + n..], fields[1..])
  }

  /** Sizes an envelope's fields must have; those of kinds unknown may have any. */
  ghost predicate Sized(f: Field) {
    && (f.tag == 1 ==> |f.value| == 16) && (f.tag == 2 ==> |f.value| == 8)
    && (f.tag == 3 ==> 1 <= |f.value| <= 16384) && (f.tag == 4 ==> |f.value| == 1) && (f.tag == 5 ==> |f.value| == 4)
  }

  ghost predicate AllSized(fields: seq<Field>) {
    forall i :: 0 <= i < |fields| ==> Sized(fields[i])
  }

  /** What fields say of an envelope, the others being as in `f`. */
  ghost predicate Says(fields: seq<Field>, f: C.Fields, g: C.Fields) {
    && g.tag == (var v := Last(fields, 1); if v.None? then f.tag else v)
    && (var v := Last(fields, 2);
        if v.None? then g.expiryMs == f.expiryMs else |v.value| == 8 && g.expiryMs == Some(Long(v.value)))
    && g.ciphertext == (var v := Last(fields, 3); if v.None? then f.ciphertext else v)
    && (var v := Last(fields, 4);
        if v.None? then g.copies == f.copies else |v.value| == 1 && g.copies == v.value[0])
    && (var v := Last(fields, 5);
        if v.None? then g.prekeyId == f.prekeyId else |v.value| == 4 && g.prekeyId == Some(Word(v.value)))
  }

  lemma {:induction false} LastOf(field: Field, rest: seq<Field>, tag: byte)
    ensures Last([field] + rest, tag)
         == if Last(rest, tag).Some? then Last(rest, tag) else if field.tag == tag then Some(field.value) else None
  {
    var all := [field] + rest;
    if rest == [] {
      assert all[..0] == [];
    } else {
      assert all[..|all| - 1] == [field] + rest[..|rest| - 1];
      LastOf(field, rest[..|rest| - 1], tag);
    }
  }

  lemma SizedFurther(fields: seq<Field>)
    requires fields != [] && AllSized(fields)
    ensures Sized(fields[0]) && AllSized(fields[1..])
  {
    forall i | 0 <= i < |fields[1..]| ensures Sized(fields[1..][i]) {
      assert fields[1..][i] == fields[i + 1];
    }
  }

  lemma FieldTaken(data: seq<byte>, fields: seq<Field>, f: C.Fields)
    requires fields != [] && FieldsAre(data, fields) && Sized(fields[0])
    ensures C.Filled(f, fields[0].tag, fields[0].value).Some?
    ensures var rest := data[3 + |fields[0].value|..];
            && FieldsAre(rest, fields[1..])
            && C.AllFilled(f, data) == C.AllFilled(C.Filled(f, fields[0].tag, fields[0].value).value, rest)
  {
    ShortRead(data[1..3]);
    FilledBy(f, fields[0]);
  }

  lemma {:induction false} FieldsSay(data: seq<byte>, fields: seq<Field>, f: C.Fields)
    requires FieldsAre(data, fields) && AllSized(fields)
    ensures C.AllFilled(f, data).Some? && Says(fields, f, C.AllFilled(f, data).value)
    decreases |fields|
  {
    if fields != [] {
      var (field, rest) := (fields[0], fields[1..]);
      SizedFurther(fields);
      FieldTaken(data, fields, f);
      FilledBy(f, field);
      var g := C.Filled(f, field.tag, field.value).value;
      FieldsSay(data[3 + |field.value|..], rest, g);
      assert fields == [field] + rest;
      SaysMore(field, rest, f, g, C.AllFilled(f, data).value);
    }
  }

  lemma FilledBy(f: C.Fields, field: Field)
    requires Sized(field)
    ensures C.Filled(f, field.tag, field.value).Some?
    ensures Says([field], f, C.Filled(f, field.tag, field.value).value)
  {
    assert [field] == [field] + [];
    LastOf(field, [], 1);
    LastOf(field, [], 2);
    LastOf(field, [], 3);
    LastOf(field, [], 4);
    LastOf(field, [], 5);
    if field.tag == 2 {
      LongRead(field.value);
    } else if field.tag == 5 {
      WordRead(field.value);
    }
  }

  lemma SaysMore(field: Field, rest: seq<Field>, f: C.Fields, g: C.Fields, h: C.Fields)
    requires Says([field], f, g) && Says(rest, g, h)
    ensures Says([field] + rest, f, h)
  {
    assert [field] == [field] + [];
    LastOf(field, rest, 1);
    LastOf(field, rest, 2);
    LastOf(field, rest, 3);
    LastOf(field, rest, 4);
    LastOf(field, rest, 5);
    LastOf(field, [], 1);
    LastOf(field, [], 2);
    LastOf(field, [], 3);
    LastOf(field, [], 4);
    LastOf(field, [], 5);
  }

  lemma {:induction false} FieldsFound(data: seq<byte>, f: C.Fields) returns (fields: seq<Field>)
    requires C.AllFilled(f, data).Some?
    ensures FieldsAre(data, fields) && AllSized(fields)
    decreases |data|
  {
    if data == [] {
      fields := [];
    } else {
      var n := 3 + C.Length(data);
      ShortRead(data[1..3]);
      var field := Field(data[0], data[3..n]);
      var rest := FieldsFound(data[n..], C.Filled(f, field.tag, field.value).value);
      fields := [field] + rest;
      assert fields[1..] == rest;
    }
  }

  /** The envelope that fields describe: one to eight copies, whatever they say, and one if they say nothing. */
  ghost predicate Describe(fields: seq<Field>, e: C.Envelope) {
    && Last(fields, 1) == Some(e.tag)
    && (var v := Last(fields, 2); v.Some? && |v.value| == 8 && Long(v.value) == e.expiryMs)
    && Last(fields, 3) == Some(e.ciphertext)
    && (var v := Last(fields, 4);
        if v.None? then e.copies == 1
        else |v.value| == 1 && e.copies == (if v.value[0] == 0 then 1 else if v.value[0] > 8 then 8 else v.value[0]))
    && (var v := Last(fields, 5);
        if v.None? then e.prekeyId.None? else |v.value| == 4 && e.prekeyId == Some(Word(v.value)))
  }

  lemma {:induction false} LastIsSized(fields: seq<Field>, tag: byte)
    requires AllSized(fields) && Last(fields, tag).Some?
    ensures Sized(Field(tag, Last(fields, tag).value))
  {
    if fields[|fields| - 1].tag != tag {
      LastIsSized(fields[..|fields| - 1], tag);
    } else {
      assert Sized(fields[|fields| - 1]);
    }
  }

  lemma SaysEnvelope(fields: seq<Field>, f: C.Fields, e: C.Envelope)
    requires AllSized(fields) && Says(fields, C.NO_FIELDS, f)
    ensures C.Assembled(f) == Some(e) <==> Describe(fields, e)
  {
    if Last(fields, 3).Some? {
      LastIsSized(fields, 3);
    }
  }

  /** Bytes are an envelope exactly if they are fields of the right sizes that describe it. */
  lemma EnvelopeExactlyWhen(data: seq<byte>, e: C.Envelope)
    ensures C.Decoded(data) == Some(e)
       <==> exists fields :: FieldsAre(data, fields) && AllSized(fields) && Describe(fields, e)
  {
    if C.Decoded(data) == Some(e) {
      var fields := FieldsFound(data, C.NO_FIELDS);
      FieldsSay(data, fields, C.NO_FIELDS);
      SaysEnvelope(fields, C.AllFilled(C.NO_FIELDS, data).value, e);
    }
    if fields :| FieldsAre(data, fields) && AllSized(fields) && Describe(fields, e) {
      FieldsSay(data, fields, C.NO_FIELDS);
      SaysEnvelope(fields, C.AllFilled(C.NO_FIELDS, data).value, e);
    }
  }

  lemma TlvIs(tag: byte, value: seq<byte>, rest: seq<byte>, fields: seq<Field>)
    requires |value| < 0x1_0000 && FieldsAre(rest, fields)
    ensures FieldsAre(C.Tlv(tag, value) + rest, [Field(tag, value)] + fields)
  {
    var data := C.Tlv(tag, value) + rest;
    Pow256Values();
    BigEndianRoundTrip(|value|, 2);
    assert data[1..3] == BigEndian(|value|, 2);
    ShortRead(data[1..3]);
    assert data[3..3 + |value|] == value && data[3 + |value|..] == rest;
    assert ([Field(tag, value)] + fields)[1..] == fields;
  }

  lemma OptionalIs(e: C.Envelope, prekey: seq<byte>, fields: seq<Field>)
    requires e.prekeyId.Some? ==> prekey == BigEndian(e.prekeyId.value, 4)
    requires fields == (if e.copies > 1 then [Field(4, [e.copies])] else [])
                       + (if e.prekeyId.Some? then [Field(5, prekey)] else [])
    ensures FieldsAre(C.Copies(e) + C.Prekey(e), fields)
  {
    var tail := if e.prekeyId.Some? then [Field(5, prekey)] else [];
    if e.prekeyId.Some? {
      TlvIs(5, prekey, [], []);
      assert C.Prekey(e) == C.Tlv(5, prekey) + [] && tail == [Field(5, prekey)] + [];
    }
    if e.copies > 1 {
      TlvIs(4, [e.copies], C.Prekey(e), tail);
    } else {
      assert C.Copies(e) + C.Prekey(e) == C.Prekey(e) && fields == tail;
    }
  }

  lemma RequiredIs(e: C.Envelope, expiry: seq<byte>, optional: seq<byte>, more: seq<Field>, fields: seq<Field>)
    requires |e.ciphertext| <= 16384 && expiry == BigEndian(e.expiryMs, 8) && FieldsAre(optional, more)
    requires fields == [Field(1, e.tag)] + ([Field(2, expiry)] + ([Field(3, e.ciphertext)] + more))
    ensures FieldsAre(C.Required(e) + optional, fields)
  {
    var last := [Field(3, e.ciphertext)] + more;
    TlvIs(3, e.ciphertext, optional, more);
    TlvIs(2, expiry, C.Tlv(3, e.ciphertext) + optional, last);
    TlvIs(1, e.tag, C.Tlv(2, expiry) + (C.Tlv(3, e.ciphertext) + optional), [Field(2, expiry)] + last);
    Regrouped(C.Tlv(1, e.tag), C.Tlv(2, expiry), C.Tlv(3, e.ciphertext), optional);
  }

  lemma Regrouped(a: seq<byte>, b: seq<byte>, c: seq<byte>, d: seq<byte>)
    ensures a + b + c + d == a + (b + (c + d))
  {
  }

  /** How an envelope is written: these fields in this order, the copies only if there are several. */
  lemma EnvelopeLayout(e: C.Envelope) returns (expiry: seq<byte>, prekey: seq<byte>)
    requires 1 <= |e.ciphertext| <= 16384
    ensures |expiry| == 8 && Long(expiry) == e.expiryMs
    ensures |prekey| == 4 && (e.prekeyId.Some? ==> Word(prekey) == e.prekeyId.value)
    ensures FieldsAre(C.Encoded(e),
                      [Field(1, e.tag), Field(2, expiry), Field(3, e.ciphertext)]
                      + ((if e.copies > 1 then [Field(4, [e.copies])] else [])
                         + (if e.prekeyId.Some? then [Field(5, prekey)] else [])))
  {
    var id := if e.prekeyId.Some? then e.prekeyId.value else 0;
    expiry, prekey := BigEndian(e.expiryMs, 8), BigEndian(id, 4);
    Pow256Values();
    BigEndianRoundTrip(e.expiryMs, 8);
    LongRead(expiry);
    BigEndianRoundTrip(id, 4);
    WordRead(prekey);
    var more := (if e.copies > 1 then [Field(4, [e.copies])] else [])
                + (if e.prekeyId.Some? then [Field(5, prekey)] else []);
    OptionalIs(e, prekey, more);
    RequiredIs(e, expiry, C.Copies(e) + C.Prekey(e), more,
               [Field(1, e.tag), Field(2, expiry), Field(3, e.ciphertext)] + more);
    C.Associates(C.Required(e), C.Copies(e), C.Prekey(e));
  }

  // ---------- File transfers ----------

  /** The content of a file has four bytes of length, if so many bytes follow. */
  predicate IsWide(data: seq<byte>)
    requires data != []
  {
    data[0] == 4 && |data| >= 5 && Word(data[1..5]) <= |data| - 5
  }

  /** One field of a file at the front of some bytes, with two bytes of length or four. */
  predicate FieldIs(data: seq<byte>, field: Field, width: nat) {
    var (start, n) := (1 + width, |field.value|);
    && (width == 2 || width == 4)
    && |data| >= start + n && data[0] == field.tag
    && (if width == 4 then Word(data[1..5]) == n else Short(data[1..3]) == n)
    && data[start..start + n] == field.value
  }

  ghost predicate FileFieldsAre(data: seq<byte>, fields: seq<Field>)
    decreases |fields|
  {
    if fields == [] then data == []
    else
      var width := if data != [] && IsWide(data) then 4 else 2;
      && FieldIs(data, fields[0], width)
      && FileFieldsAre(data[1 + width + |fields[0].value|..], fields[1..])
  }

  /** No content longer than a mebibyte. */
  ghost predicate Allowed(fields: seq<Field>) {
    forall i :: 0 <= i < |fields| && fields[i].tag == 4 ==> |fields[i].value| <= 1024 * 1024
  }

  function TextOf(text: Option<seq<byte>>, utf8: FP.Utf8): Option<seq<byte>> {
    if text.Some? && utf8(text.value) then text else None
  }

  function SizeIn(value: seq<byte>): Option<u64> {
    FP.BigEndianFits(value);
    if 1 <= |value| <= 8 then Some(FromBigEndian(value)) else None
  }

  /** What fields say of a file, the rest being as in `acc`. */
  ghost predicate Tells(fields: seq<Field>, acc: FP.FilePacket, utf8: FP.Utf8, f: FP.FilePacket) {
    && f.fileName == (if Last(fields, 1).Some? then TextOf(Last(fields, 1), utf8) else acc.fileName)
    && f.fileSize == (if Last(fields, 2).Some? then SizeIn(Last(fields, 2).value) else acc.fileSize)
    && f.mimeType == (if Last(fields, 3).Some? then TextOf(Last(fields, 3), utf8) else acc.mimeType)
    && f.content == (if Last(fields, 4).Some? then Last(fields, 4).value else acc.content)
  }

  lemma KeptTells(acc: FP.FilePacket, field: Field, utf8: FP.Utf8)
    ensures FP.Kept(acc, field.tag, field.value, utf8).Some? <==> (field.tag == 4 ==> |field.value| <= 1024 * 1024)
    ensures var next := FP.Kept(acc, field.tag, field.value, utf8);
            next.Some? ==> Tells([field], acc, utf8, next.value)
  {
    assert [field] == [field] + [];
    LastOf(field, [], 1);
    LastOf(field, [], 2);
    LastOf(field, [], 3);
    LastOf(field, [], 4);
  }

  lemma TellsMore(field: Field, rest: seq<Field>, acc: FP.FilePacket, next: FP.FilePacket, utf8: FP.Utf8,
                  f: FP.FilePacket)
    requires Tells([field], acc, utf8, next) && Tells(rest, next, utf8, f)
    ensures Tells([field] + rest, acc, utf8, f)
  {
    assert [field] == [field] + [];
    LastOf(field, rest, 1);
    LastOf(field, rest, 2);
    LastOf(field, rest, 3);
    LastOf(field, rest, 4);
    LastOf(field, [], 1);
    LastOf(field, [], 2);
    LastOf(field, [], 3);
    LastOf(field, [], 4);
  }

  lemma LengthRead(data: seq<byte>)
    requires |data| >= 1
    ensures var (read, width) := (FP.ReadLength(data[0], data[1..]), if IsWide(data) then 4 else 2);
            && (read.Some? <==> |data| >= 1 + width)
            && (read.Some? ==> read.value.0 == (if width == 4 then Word(data[1..5]) else Short(data[1..3]))
                               && read.value.1 == data[1 + width..])
  {
    if |data| >= 3 {
      assert data[1..][..2] == data[1..3] && data[1..][2..] == data[3..];
      ShortRead(data[1..3]);
    }
    if |data| >= 5 {
      assert data[1..][..4] == data[1..5] && data[1..][4..] == data[5..];
      WordRead(data[1..5]);
    }
  }

  /** One field read off the front. */
  lemma FileFieldTaken(data: seq<byte>, field: Field, width: nat, acc: FP.FilePacket, utf8: FP.Utf8)
    requires data != [] && width == (if IsWide(data) then 4 else 2) && FieldIs(data, field, width)
    ensures FP.DecodeFrom(data, acc, utf8)
         == var next := FP.Kept(acc, field.tag, field.value, utf8);
            if next.None? then None
            else FP.DecodeFrom(data[1 + width + |field.value|..], next.value, utf8)
  {
    LengthRead(data);
    var rest := data[1 + width..];
    assert rest[..|field.value|] == field.value;
    assert rest[|field.value|..] == data[1 + width + |field.value|..];
  }

  lemma AllowedFurther(fields: seq<Field>)
    requires fields != [] && Allowed(fields)
    ensures Allowed(fields[1..])
  {
    forall i | 0 <= i < |fields[1..]| && fields[1..][i].tag == 4 ensures |fields[1..][i].value| <= 1024 * 1024 {
      assert fields[1..][i] == fields[i + 1];
    }
  }

  ghost predicate Reads(data: seq<byte>, fields: seq<Field>, acc: FP.FilePacket, utf8: FP.Utf8, f: FP.FilePacket) {
    FileFieldsAre(data, fields) && Allowed(fields) && Tells(fields, acc, utf8, f) && f.content != []
  }

  lemma OneTold(fields: seq<Field>, acc: FP.FilePacket, utf8: FP.Utf8, f: FP.FilePacket, g: FP.FilePacket)
    requires Tells(fields, acc, utf8, f) && Tells(fields, acc, utf8, g)
    ensures f == g
  {
  }

  /** What is left to read once the first field has been. */
  lemma ReadsRest(data: seq<byte>, fields: seq<Field>, width: nat, acc: FP.FilePacket, utf8: FP.Utf8,
                  f: FP.FilePacket)
    requires Reads(data, fields, acc, utf8, f) && fields != []
    requires data != [] && width == (if IsWide(data) then 4 else 2)
    ensures var next := FP.Kept(acc, fields[0].tag, fields[0].value, utf8);
            next.Some? && Reads(data[1 + width + |fields[0].value|..], fields[1..], next.value, utf8, f)
  {
    KeptTells(acc, fields[0], utf8);
    AllowedFurther(fields);
    var next := FP.Kept(acc, fields[0].tag, fields[0].value, utf8).value;
    var g := After(fields[1..], next, utf8);
    assert fields == [fields[0]] + fields[1..];
    TellsMore(fields[0], fields[1..], acc, next, utf8, g);
    OneTold(fields, acc, utf8, f, g);
  }

  lemma {:induction false} FileRead(data: seq<byte>, fields: seq<Field>, acc: FP.FilePacket, utf8: FP.Utf8,
                                    f: FP.FilePacket)
    requires Reads(data, fields, acc, utf8, f)
    ensures FP.DecodeFrom(data, acc, utf8) == Some(f)
    decreases |fields|
  {
    if fields != [] {
      var width := if IsWide(data) then 4 else 2;
      FileFieldTaken(data, fields[0], width, acc, utf8);
      ReadsRest(data, fields, width, acc, utf8, f);
      FileRead(data[1 + width + |fields[0].value|..], fields[1..],
               FP.Kept(acc, fields[0].tag, fields[0].value, utf8).value, utf8, f);
    }
  }

  /** The file that fields tell of. */
  function After(fields: seq<Field>, acc: FP.FilePacket, utf8: FP.Utf8): (f: FP.FilePacket)
    ensures Tells(fields, acc, utf8, f)
  {
    FP.FilePacket(if Last(fields, 1).Some? then TextOf(Last(fields, 1), utf8) else acc.fileName,
                  if Last(fields, 2).Some? then SizeIn(Last(fields, 2).value) else acc.fileSize,
                  if Last(fields, 3).Some? then TextOf(Last(fields, 3), utf8) else acc.mimeType,
                  if Last(fields, 4).Some? then Last(fields, 4).value else acc.content)
  }

  lemma ReadsMore(data: seq<byte>, field: Field, width: nat, rest: seq<Field>, acc: FP.FilePacket,
                  next: FP.FilePacket, utf8: FP.Utf8, f: FP.FilePacket)
    requires data != [] && width == (if IsWide(data) then 4 else 2) && FieldIs(data, field, width)
    requires FP.Kept(acc, field.tag, field.value, utf8) == Some(next)
    requires Reads(data[1 + width + |field.value|..], rest, next, utf8, f)
    ensures Reads(data, [field] + rest, acc, utf8, f)
  {
    KeptTells(acc, field, utf8);
    TellsMore(field, rest, acc, next, utf8, f);
    AllowedMore(field, rest);
    assert ([field] + rest)[1..] == rest;
  }

  lemma AllowedMore(field: Field, rest: seq<Field>)
    requires Allowed(rest) && (field.tag == 4 ==> |field.value| <= 1024 * 1024)
    ensures Allowed([field] + rest)
  {
  }

  lemma FirstField(data: seq<byte>, acc: FP.FilePacket, utf8: FP.Utf8, width: nat) returns (field: Field)
    requires data != [] && FP.DecodeFrom(data, acc, utf8).Some? && width == (if IsWide(data) then 4 else 2)
    ensures FieldIs(data, field, width) && FP.Kept(acc, field.tag, field.value, utf8).Some?
  {
    LengthRead(data);
    var n := FP.ReadLength(data[0], data[1..]).value.0;
    field := Field(data[0], data[1 + width..1 + width + n]);
    FileFieldTaken(data, field, width, acc, utf8);
  }

  lemma {:induction false} FileFound(data: seq<byte>, acc: FP.FilePacket, utf8: FP.Utf8) returns (fields: seq<Field>)
    requires FP.DecodeFrom(data, acc, utf8).Some?
    ensures Reads(data, fields, acc, utf8, FP.DecodeFrom(data, acc, utf8).value)
    decreases |data|
  {
    if data == [] {
      fields := [];
    } else {
      var width := if IsWide(data) then 4 else 2;
      var field := FirstField(data, acc, utf8, width);
      FileFieldTaken(data, field, width, acc, utf8);
      var next := FP.Kept(acc, field.tag, field.value, utf8).value;
      var rest := FileFound(data[1 + width + |field.value|..], next, utf8);
      fields := [field] + rest;
      ReadsMore(data, field, width, rest, acc, next, utf8, FP.DecodeFrom(data, acc, utf8).value);
    }
  }

  /** Bytes are a file exactly if they are fields, none of them too long, that tell of it, and it is not empty. */
  lemma FileExactlyWhen(data: seq<byte>, utf8: FP.Utf8, f: FP.FilePacket)
    ensures FP.Decoded(data, utf8) == Some(f)
       <==> exists fields :: Reads(data, fields, FP.FilePacket(None, None, None, []), utf8, f)
  {
    if FP.Decoded(data, utf8) == Some(f) {
      var fields := FileFound(data, FP.BLANK, utf8);
    }
    if fields :| Reads(data, fields, FP.BLANK, utf8, f) {
      FileRead(data, fields, FP.BLANK, utf8, f);
    }
  }

  /** A text field on the wire, if it is there and not too long for its length. */
  function TextFields(tag: byte, text: Option<seq<byte>>): seq<Field> {
    if text.Some? && |text.value| <= 65535 then [Field(tag, text.value)] else []
  }

  lemma ShortFieldIs(tag: byte, value: seq<byte>, rest: seq<byte>, fields: seq<Field>)
    requires tag != 4 && |value| <= 65535 && FileFieldsAre(rest, fields)
    ensures FileFieldsAre([tag] + BigEndian(|value|, 2) + value + rest, [Field(tag, value)] + fields)
  {
    var data := [tag] + BigEndian(|value|, 2) + value + rest;
    Pow256Values();
    BigEndianRoundTrip(|value|, 2);
    assert data[1..3] == BigEndian(|value|, 2);
    ShortRead(data[1..3]);
    assert data[3..3 + |value|] == value && data[3 + |value|..] == rest;
    assert ([Field(tag, value)] + fields)[1..] == fields;
  }

  lemma TextFieldIs(tag: byte, text: Option<seq<byte>>, rest: seq<byte>, fields: seq<Field>, data: seq<byte>,
                    all: seq<Field>)
    requires tag != 4 && FileFieldsAre(rest, fields)
    requires data == FP.TextField(tag, text) + rest && all == TextFields(tag, text) + fields
    ensures FileFieldsAre(data, all)
  {
    if text.Some? && |text.value| <= 65535 {
      ShortFieldIs(tag, text.value, rest, fields);
      assert data == [tag] + BigEndian(|text.value|, 2) + text.value + rest;
    } else {
      assert data == rest && all == fields;
    }
  }

  lemma ContentFieldIs(content: seq<byte>)
    requires |content| <= 1024 * 1024
    ensures FileFieldsAre(FP.ContentField(content), [Field(4, content)])
  {
    var data := FP.ContentField(content);
    Pow256Values();
    BigEndianRoundTrip(|content|, 4);
    assert data[1..5] == BigEndian(|content|, 4);
    WordRead(data[1..5]);
    assert data[5..] == content;
    assert FieldIs(data, Field(4, content), 4);
    assert data[5 + |content|..] == [] && [Field(4, content)][1..] == [];
    assert FileFieldsAre([], []);
  }

  /** The size a file is sent with: what it says, or else what it is. */
  function SaidSize(f: FP.FilePacket): nat {
    if f.fileSize.Some? then f.fileSize.value else |f.content|
  }

  /** How a file is written, and when: name, size in four bytes, type and content, in this order. */
  lemma FileLayout(f: FP.FilePacket) returns (size: seq<byte>)
    ensures FP.Encoded(f).Some? <==> |f.content| <= 1024 * 1024 && SaidSize(f) < 0x1_0000_0000
    ensures FP.Encoded(f).Some?
        ==> && |size| == 4 && Word(size) == SaidSize(f)
            && FileFieldsAre(FP.Encoded(f).value,
                             TextFields(1, f.fileName)
                             + ([Field(2, size)] + (TextFields(3, f.mimeType) + [Field(4, f.content)])))
  {
    size := BigEndian(SaidSize(f), 4);
    if FP.Encoded(f).Some? {
      Pow256Values();
      BigEndianRoundTrip(SaidSize(f), 4);
      WordRead(size);
      ContentFieldIs(f.content);
      var content, typed := FP.ContentField(f.content), TextFields(3, f.mimeType) + [Field(4, f.content)];
      var last := FP.TextField(3, f.mimeType) + content;
      TextFieldIs(3, f.mimeType, content, [Field(4, f.content)], last, typed);
      ShortFieldIs(2, size, last, typed);
      assert FP.SizeField(SaidSize(f)) == [2] + BigEndian(4, 2) + size;
      TextFieldIs(1, f.fileName, FP.SizeField(SaidSize(f)) + last, [Field(2, size)] + typed, FP.Encoded(f).value,
                  TextFields(1, f.fileName) + ([Field(2, size)] + typed));
    }
  }

  // ---------- What is shown of a file ----------

  predicate ByteSpells(b: byte, c: char) {
    b == c as int || ('a' <= c <= 'z' && b == c as int - 32)
  }

  /** Text spells a lower-case word, in whatever case. */
  predicate Spells(text: seq<byte>, word: string) {
    && |text| == |word|
    && forall i :: 0 <= i < |word| ==> ByteSpells(text[i], word[i])
  }

  predicate EndsWith(text: seq<byte>, word: string) {
    |text| >= |word| && Spells(text[|text| - |word|..], word)
  }

  lemma {:induction false} LoweredAt(text: seq<byte>, i: nat)
    requires i < |text|
    ensures |FP.Lowered(text)| == |text|
    ensures FP.Lowered(text)[i] == if 65 <= text[i] <= 90 then text[i] + 32 else text[i]
  {
    if i > 0 {
      LoweredAt(text[1..], i - 1);
    } else if |text| > 1 {
      LoweredAt(text[1..], 0);
    }
  }

  lemma LoweredSize(text: seq<byte>)
    ensures |FP.Lowered(text)| == |text|
    ensures forall i :: 0 <= i < |text| ==> FP.Lowered(text)[i] == if 65 <= text[i] <= 90 then text[i] + 32 else text[i]
  {
    forall i | 0 <= i < |text|
      ensures |FP.Lowered(text)| == |text|
      ensures FP.Lowered(text)[i] == if 65 <= text[i] <= 90 then text[i] + 32 else text[i]
    {
      LoweredAt(text, i);
    }
  }

  predicate EndsIn(text: seq<byte>, end: seq<byte>) {
    |text| >= |end| && text[|text| - |end|..] == end
  }

  lemma ByteIs(text: seq<byte>, at: nat, c: char)
    requires at < |text| && ('a' <= c <= 'z' || c == '.' || c == '/')
    ensures |FP.Lowered(text)| == |text|
    ensures FP.Lowered(text)[at] == c as int <==> ByteSpells(text[at], c)
  {
    LoweredAt(text, at);
  }

  /** The bytes of a word in lower case, a full stop or a slash among them. */
  ghost predicate BytesOf(end: seq<byte>, word: string) {
    && |end| == |word|
    && forall i :: 0 <= i < |word|
         ==> end[i] == word[i] as int && ('a' <= word[i] <= 'z' || word[i] == '.' || word[i] == '/')
  }

  lemma TailSpells(text: seq<byte>, low: seq<byte>, end: seq<byte>, word: string)
    requires BytesOf(end, word) && |text| == |low| == |word|
    requires forall i :: 0 <= i < |word| ==> (low[i] == word[i] as int <==> ByteSpells(text[i], word[i]))
    ensures low == end <==> Spells(text, word)
  {
    if Spells(text, word) {
      forall i | 0 <= i < |word| ensures low[i] == end[i] {
        assert ByteSpells(text[i], word[i]);
      }
    }
  }

  lemma EndIs(text: seq<byte>, end: seq<byte>, word: string)
    requires BytesOf(end, word)
    ensures EndsIn(FP.Lowered(text), end) <==> EndsWith(text, word)
  {
    LoweredSize(text);
    if |text| >= |word| {
      var k := |text| - |word|;
      forall i | 0 <= i < |word|
        ensures FP.Lowered(text)[k..][i] == word[i] as int <==> ByteSpells(text[k..][i], word[i])
      {
        ByteIs(text, k + i, word[i]);
      }
      TailSpells(text[k..], FP.Lowered(text)[k..], end, word);
    }
  }

  lemma {:induction false} AnyEnd(text: seq<byte>, ends: seq<seq<byte>>)
    ensures FP.EndsInAny(text, ends) <==> exists i :: 0 <= i < |ends| && EndsIn(text, ends[i])
  {
    if ends != [] {
      AnyEnd(text, ends[1..]);
      assert EndsIn(text, ends[0]) || FP.EndsInAny(text, ends[1..]) <==> FP.EndsInAny(text, ends);
      if i :| 0 <= i < |ends| && EndsIn(text, ends[i]) {
        assert i > 0 ==> ends[i] == ends[1..][i - 1];
      }
      if i :| 0 <= i < |ends[1..]| && EndsIn(text, ends[1..][i]) {
        assert ends[i + 1] == ends[1..][i];
      }
    }
  }

  const PICTURES := [".png", ".jpg", ".jpeg", ".gif", ".webp", ".bmp"]

  lemma PicturesAre(text: seq<byte>, i: nat)
    requires i < 6
    ensures EndsIn(FP.Lowered(text), FP.IMAGE_EXTENSIONS[i]) <==> EndsWith(text, PICTURES[i])
  {
    EndIs(text, FP.IMAGE_EXTENSIONS[i], PICTURES[i]);
  }

  /** A file is an image by its type, if it has one, and otherwise by how its name ends. */
  lemma ImageExactlyWhen(f: FP.FilePacket)
    ensures FP.IsImage(f)
       <==> if f.mimeType.Some? then |f.mimeType.value| >= 6 && Spells(f.mimeType.value[..6], "image/")
            else f.fileName.Some? && exists i :: 0 <= i < |PICTURES| && EndsWith(f.fileName.value, PICTURES[i])
  {
    if f.mimeType.Some? {
      LoweredSize(f.mimeType.value);
    } else if f.fileName.Some? {
      var name := f.fileName.value;
      AnyEnd(FP.Lowered(name), FP.IMAGE_EXTENSIONS);
      forall i | 0 <= i < 6
        ensures EndsIn(FP.Lowered(name), FP.IMAGE_EXTENSIONS[i]) <==> EndsWith(name, PICTURES[i])
      {
        PicturesAre(name, i);
      }
    }
  }
}
