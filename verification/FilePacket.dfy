/** The payload of a file transfer: tag-length-value fields around the content (`file_packet.rs`). */
module FilePackets {
  import opened Prelude
  import opened Bytes

  const MAX_PAYLOAD_BYTES := 1024 * 1024
  const TLV_FILE_NAME := 0x01
  const TLV_FILE_SIZE := 0x02
  const TLV_MIME_TYPE := 0x03
  const TLV_CONTENT := 0x04

  /** Names and types are the UTF-8 bytes of the source's strings. */
  datatype FilePacket = FilePacket(
    fileName: Option<seq<byte>>, fileSize: Option<u64>, mimeType: Option<seq<byte>>, content: seq<byte>)

  /** Which byte strings are valid UTF-8, left abstract. */
  type Utf8 = seq<byte> -> bool

  // ---------- What is shown of a file ----------

  /** The bytes of `image/`. */
  const IMAGE_TYPE: seq<byte> := [0x69, 0x6D, 0x61, 0x67, 0x65, 0x2F]

  /** The bytes of `.png`, `.jpg`, `.jpeg`, `.gif`, `.webp` and `.bmp`. */
  const IMAGE_EXTENSIONS: seq<seq<byte>> := [
    [0x2E, 0x70, 0x6E, 0x67],
    [0x2E, 0x6A, 0x70, 0x67],
    [0x2E, 0x6A, 0x70, 0x65, 0x67],
    [0x2E, 0x67, 0x69, 0x66],
    [0x2E, 0x77, 0x65, 0x62, 0x70],
    [0x2E, 0x62, 0x6D, 0x70]]

  /** In lower case as far as ASCII goes, which is as far as the comparisons below look. */
  function Lowered(text: seq<byte>): seq<byte> {
    if text == [] then []
    else [if 0x41 <= text[0] <= 0x5A then text[0] + 32 else text[0]] + Lowered(text[1..])
  }

  predicate EndsInAny(text: seq<byte>, ends: seq<seq<byte>>) {
    && ends != []
    && ((|text| >= |ends[0]| && text[|text| - |ends[0]|..] == ends[0]) || EndsInAny(text, ends[1..]))
  }

  /** By its type; without one, by the extension of its name. */
  predicate IsImage(f: FilePacket) {
    if f.mimeType.Some? then IMAGE_TYPE <= Lowered(f.mimeType.value)
    else f.fileName.Some? && EndsInAny(Lowered(f.fileName.value), IMAGE_EXTENSIONS)
  }

  /** What a file is called: by its name, or untitled with its type in brackets if it has one. */
  datatype Title = Named(name: seq<byte>) | Untitled(mimeType: Option<seq<byte>>)

  /** Which names are all white space is left abstract. */
  function DisplayName(f: FilePacket, blank: seq<byte> -> bool): Title {
    if f.fileName.Some? && !blank(f.fileName.value) then Named(f.fileName.value) else Untitled(f.mimeType)
  }

  // ---------- Encoding ----------

  /** A text field with a two-byte length; one too long for it is left out. */
  function TextField(tag: byte, text: Option<seq<byte>>): seq<byte> {
    if text.Some? && |text.value| <= 0xFFFF then [tag] + BigEndian(|text.value|, 2) + text.value else []
  }

  function SizeOf(f: FilePacket): nat {
    if f.fileSize.Some? then f.fileSize.value else |f.content|
  }

  function SizeField(size: nat): seq<byte> {
    [TLV_FILE_SIZE] + BigEndian(4, 2) + BigEndian(size, 4)
  }

  function ContentField(content: seq<byte>): seq<byte> {
    [TLV_CONTENT] + BigEndian(|content|, 4) + content
  }

  function Encoded(f: FilePacket): Option<seq<byte>> {
    if |f.content| > MAX_PAYLOAD_BYTES || SizeOf(f) > 0xFFFF_FFFF then None
    else Some(TextField(TLV_FILE_NAME, f.fileName)
              + (SizeField(SizeOf(f)) + (TextField(TLV_MIME_TYPE, f.mimeType) + ContentField(f.content))))
  }

  method Encode(f: FilePacket) returns (r: Option<seq<byte>>)
    ensures r == Encoded(f)
  {
    if |f.content| > MAX_PAYLOAD_BYTES {
      return None;
    }
    var size := if f.fileSize.Some? then f.fileSize.value else |f.content|;
    if size > 0xFFFF_FFFF {
      return None;
    }
    var out := PushText([], TLV_FILE_NAME, f.fileName);
    out := out + SizeField(size);
    out := PushText(out, TLV_MIME_TYPE, f.mimeType);
    out := out + ContentField(f.content);
    Regroup(TextField(TLV_FILE_NAME, f.fileName), SizeField(size), TextField(TLV_MIME_TYPE, f.mimeType),
            ContentField(f.content));
    return Some(out);
  }

  lemma Regroup(a: seq<byte>, b: seq<byte>, c: seq<byte>, d: seq<byte>)
    ensures [] + a + b + c + d == a + (b + (c + d))
  {
  }

  method PushText(start: seq<byte>, tag: byte, text: Option<seq<byte>>) returns (out: seq<byte>)
    ensures out == start + TextField(tag, text)
  {
    out := start;
    if text.Some? {
      if |text.value| <= 0xFFFF {
        out := out + [tag];
        out := out + BigEndian(|text.value|, 2);
        out := out + text.value;
      }
    }
  }

  // ---------- Decoding ----------

  const BLANK := FilePacket(None, None, None, [])

  function ReadBigEndian(s: seq<byte>, width: nat): Option<nat> {
    if width == 0 || width > 8 || width > |s| then None else Some(FromBigEndian(s[..width]))
  }

  /** A field's length and what follows it; content takes four bytes when that fits and two when it does not. */
  function ReadLength(tag: byte, s: seq<byte>): Option<(nat, seq<byte>)> {
    var wide := ReadBigEndian(s, 4);
    if tag == TLV_CONTENT && wide.Some? && wide.value <= |s| - 4 then Some((wide.value, s[4..]))
    else
      var narrow :- ReadBigEndian(s, 2);
      Some((narrow, s[2..]))
  }

  function Kept(acc: FilePacket, tag: byte, value: seq<byte>, utf8: Utf8): Option<FilePacket> {
    if tag == TLV_FILE_NAME then Some(acc.(fileName := if utf8(value) then Some(value) else None))
    else if tag == TLV_FILE_SIZE then
      BigEndianFits(value);
      Some(acc.(fileSize := if 1 <= |value| <= 8 then Some(FromBigEndian(value)) else None))
    else if tag == TLV_MIME_TYPE then Some(acc.(mimeType := if utf8(value) then Some(value) else None))
    else if tag == TLV_CONTENT then
      if |value| > MAX_PAYLOAD_BYTES then None else Some(acc.(content := value))
    else Some(acc)
  }

  lemma {:induction false} PowGrows(a: nat, b: nat)
    requires a <= b
    ensures Pow256(a) <= Pow256(b)
  {
    if a < b {
      PowGrows(a, b - 1);
    }
  }

  lemma BigEndianFits(value: seq<byte>)
    ensures |value| <= 8 ==> FromBigEndian(value) < 0x1_0000_0000_0000_0000
  {
    if |value| <= 8 {
      FromBigEndianBound(value);
      PowGrows(|value|, 8);
      Pow256Values();
    }
  }

  function DecodeFrom(s: seq<byte>, acc: FilePacket, utf8: Utf8): Option<FilePacket>
    decreases |s|
  {
    if s == [] then if acc.content == [] then None else Some(acc)
    else
      var (length, rest) :- ReadLength(s[0], s[1..]);
      if length > |rest| then None
      else
        var next :- Kept(acc, s[0], rest[..length], utf8);
        DecodeFrom(rest[length..], next, utf8)
  }

  function Decoded(data: seq<byte>, utf8: Utf8): Option<FilePacket> {
    DecodeFrom(data, BLANK, utf8)
  }

  /** A field's length, and where what follows it starts. */
  method ReadLengthAt(data: seq<byte>, cursor: nat, tag: byte) returns (r: Option<(nat, nat)>)
    requires cursor <= |data|
    ensures r.Some? ==> cursor < r.value.1 <= |data|
    ensures ReadLength(tag, data[cursor..])
         == if r.None? then None else Some((r.value.0, data[r.value.1..]))
  {
    var wide := ReadBigEndian(data[cursor..], 4);
    if tag == TLV_CONTENT && wide.Some? && wide.value <= |data| - cursor - 4 {
      return Some((wide.value, cursor + 4));
    }
    var narrow := ReadBigEndian(data[cursor..], 2);
    if narrow.None? {
      return None;
    }
    return Some((narrow.value, cursor + 2));
  }

  /** One field: what is known of the file after it, and where the next one starts. */
  function FieldAt(data: seq<byte>, cursor: nat, acc: FilePacket, utf8: Utf8): Option<(FilePacket, nat)>
    requires cursor < |data|
  {
    var (length, rest) :- ReadLength(data[cursor], data[cursor + 1..]);
    if length > |rest| then None
    else
      var next :- Kept(acc, data[cursor], rest[..length], utf8);
      Some((next, |data| - |rest| + length))
  }

  lemma FieldIsRead(data: seq<byte>, cursor: nat, acc: FilePacket, utf8: Utf8)
    requires cursor < |data|
    ensures var field := FieldAt(data, cursor, acc, utf8);
            && (field.Some? ==> cursor < field.value.1 <= |data|)
            && DecodeFrom(data[cursor..], acc, utf8)
               == if field.None? then None else DecodeFrom(data[field.value.1..], field.value.0, utf8)
  {
    assert data[cursor..][1..] == data[cursor + 1..];
    var read := ReadLength(data[cursor], data[cursor + 1..]);
    if read.Some? && read.value.0 <= |read.value.1| {
      var (length, rest) := read.value;
      assert rest == data[|data| - |rest|..];
      assert rest[length..] == data[|data| - |rest| + length..];
    }
  }

  method DecodeField(data: seq<byte>, cursor: nat, file: FilePacket, utf8: Utf8) returns (r: Option<(FilePacket, nat)>)
    requires cursor < |data|
    ensures r == FieldAt(data, cursor, file, utf8)
  {
    var tag := data[cursor];
    var field := ReadLengthAt(data, cursor + 1, tag);
    if field.None? {
      return None;
    }
    var (length, start) := field.value;
    if start + length > |data| {
      return None;
    }
    assert data[start..][..length] == data[start..start + length];
    var next := Kept(file, tag, data[start..start + length], utf8);
    r := if next.None? then None else Some((next.value, start + length));
  }

  method Decode(data: seq<byte>, utf8: Utf8) returns (r: Option<FilePacket>)
    ensures r == Decoded(data, utf8)
  {
    var cursor: nat := 0;
    var file := BLANK;
    assert data[0..] == data;
    while cursor < |data|
      invariant cursor <= |data|
      invariant DecodeFrom(data[cursor..], file, utf8) == Decoded(data, utf8)
    {
      FieldIsRead(data, cursor, file, utf8);
      var next := DecodeField(data, cursor, file, utf8);
      if next.None? {
        return None;
      }
      file, cursor := next.value.0, next.value.1;
    }
    if file.content == [] {
      return None;
    }
    return Some(file);
  }

  // ---------- Round trip ----------

  /** What a packet says once it has been sent: the size filled in and texts too long for their field gone. */
  function Sent(f: FilePacket): FilePacket
    requires SizeOf(f) <= 0xFFFF_FFFF
  {
    FilePacket(Fitting(f.fileName), Some(SizeOf(f)), Fitting(f.mimeType), f.content)
  }

  function Fitting(text: Option<seq<byte>>): Option<seq<byte>> {
    if text.Some? && |text.value| <= 0xFFFF then text else None
  }

  lemma ReadShortField(tag: byte, value: seq<byte>, rest: seq<byte>, acc: FilePacket, utf8: Utf8)
    requires tag != TLV_CONTENT && |value| <= 0xFFFF && Kept(acc, tag, value, utf8).Some?
    ensures DecodeFrom([tag] + BigEndian(|value|, 2) + value + rest, acc, utf8)
         == DecodeFrom(rest, Kept(acc, tag, value, utf8).value, utf8)
  {
    var s := [tag] + BigEndian(|value|, 2) + value + rest;
    Pow256Values();
    BigEndianRoundTrip(|value|, 2);
    assert s[1..][..2] == BigEndian(|value|, 2);
    assert s[1..][2..] == value + rest;
    assert (value + rest)[..|value|] == value && (value + rest)[|value|..] == rest;
  }

  lemma ReadTextField(tag: byte, text: Option<seq<byte>>, rest: seq<byte>, acc: FilePacket, utf8: Utf8)
    requires tag == TLV_FILE_NAME || tag == TLV_MIME_TYPE
    requires text.Some? ==> utf8(text.value)
    requires tag == TLV_FILE_NAME ==> acc.fileName.None?
    requires tag == TLV_MIME_TYPE ==> acc.mimeType.None?
    ensures DecodeFrom(TextField(tag, text) + rest, acc, utf8)
         == DecodeFrom(rest, if tag == TLV_FILE_NAME then acc.(fileName := Fitting(text))
                             else acc.(mimeType := Fitting(text)), utf8)
  {
    if text.Some? && |text.value| <= 0xFFFF {
      ReadShortField(tag, text.value, rest, acc, utf8);
    } else {
      assert TextField(tag, text) + rest == rest;
    }
  }

  lemma ReadSizeField(size: nat, rest: seq<byte>, acc: FilePacket, utf8: Utf8)
    requires size <= 0xFFFF_FFFF
    ensures DecodeFrom(SizeField(size) + rest, acc, utf8) == DecodeFrom(rest, acc.(fileSize := Some(size)), utf8)
  {
    Pow256Values();
    BigEndianRoundTrip(size, 4);
    ReadShortField(TLV_FILE_SIZE, BigEndian(size, 4), rest, acc, utf8);
  }

  lemma ReadContentField(content: seq<byte>, acc: FilePacket, utf8: Utf8)
    requires 1 <= |content| <= MAX_PAYLOAD_BYTES
    ensures DecodeFrom(ContentField(content), acc, utf8) == Some(acc.(content := content))
  {
    var s := ContentField(content);
    Pow256Values();
    BigEndianRoundTrip(|content|, 4);
    assert s[1..][..4] == BigEndian(|content|, 4);
    assert s[1..][4..] == content;
    assert content[..|content|] == content && content[|content|..] == [];
    var next := acc.(content := content);
    assert Kept(acc, TLV_CONTENT, content, utf8) == Some(next);
    assert DecodeFrom([], next, utf8) == Some(next);
  }

  /** Every packet that encodes and is not empty decodes to what was sent. */
  lemma RoundTrip(f: FilePacket, utf8: Utf8)
    requires Encoded(f).Some? && f.content != []
    requires (f.fileName.Some? ==> utf8(f.fileName.value)) && (f.mimeType.Some? ==> utf8(f.mimeType.value))
    ensures Decoded(Encoded(f).value, utf8) == Some(Sent(f))
  {
    var tail2 := ContentField(f.content);
    var tail1 := TextField(TLV_MIME_TYPE, f.mimeType) + tail2;
    var tail0 := SizeField(SizeOf(f)) + tail1;
    var named := BLANK.(fileName := Sent(f).fileName);
    var sized := named.(fileSize := Some(SizeOf(f)));
    ReadTextField(TLV_FILE_NAME, f.fileName, tail0, BLANK, utf8);
    ReadSizeField(SizeOf(f), tail1, named, utf8);
    ReadTextField(TLV_MIME_TYPE, f.mimeType, tail2, sized, utf8);
    ReadContentField(f.content, sized.(mimeType := Sent(f).mimeType), utf8);
  }

  /** An older sender's two-byte content length is still understood when the content comes last. */
  lemma NarrowContentIsRead(content: seq<byte>, acc: FilePacket, utf8: Utf8)
    requires 1 <= |content| <= 0xFFFF
    ensures DecodeFrom([TLV_CONTENT] + BigEndian(|content|, 2) + content, acc, utf8) == Some(acc.(content := content))
  {
    var s := [TLV_CONTENT] + BigEndian(|content|, 2) + content;
    Pow256Values();
    BigEndianRoundTrip(|content|, 2);
    assert s[1..][..2] == BigEndian(|content|, 2) && s[1..][2..] == content;
    if |s[1..]| >= 4 {
      WideReadIsLarge(s[1..]);
    }
    assert content[..|content|] == content && content[|content|..] == [];
    var next := acc.(content := content);
    assert Kept(acc, TLV_CONTENT, content, utf8) == Some(next);
    assert DecodeFrom([], next, utf8) == Some(next);
  }

  lemma WideReadIsLarge(s: seq<byte>)
    requires |s| >= 4 && FromBigEndian(s[..2]) >= 1
    ensures FromBigEndian(s[..4]) >= 0x1_0000
  {
    assert s[..4][..3] == s[..3] && s[..3][..2] == s[..2];
    assert FromBigEndian(s[..4]) == 256 * FromBigEndian(s[..3]) + s[3];
    assert FromBigEndian(s[..3]) == 256 * FromBigEndian(s[..2]) + s[2];
  }
}
