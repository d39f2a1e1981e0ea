/** The text forms the mailbox file is made of: separated parts, lines, decimal numbers and hex. */
module Texts {
  import opened Prelude
  import opened Bytes

  // ---------- Case ----------

  function LowerChar(c: char): char {
    if 'A' <= c <= 'Z' then c - 'A' + 'a' else c
  }

  /** ASCII lower case, which is all that peer ids and geohashes need. */
  function Lower(s: string): (r: string)
    ensures |r| == |s|
  {
    seq(|s|, i requires 0 <= i < |s| => LowerChar(s[i]))
  }

  // ---------- Separated parts ----------

  /** Rust's `split`: one part more than there are separators. */
  function Split(s: string, sep: char): (parts: seq<string>)
    ensures |parts| >= 1
  {
    if s == "" then [""]
    else if s[0] == sep then [""] + Split(s[1..], sep)
    else
      var rest := Split(s[1..], sep);
      [[s[0]] + rest[0]] + rest[1..]
  }

  function Join(parts: seq<string>, sep: char): string {
    if parts == [] then ""
    else if |parts| == 1 then parts[0]
    else parts[0] + [sep] + Join(parts[1..], sep)
  }

  ghost predicate Free(parts: seq<string>, sep: char) {
    forall i :: 0 <= i < |parts| ==> sep !in parts[i]
  }

  lemma {:induction false} SplitFront(front: string, sep: char, rest: string)
    requires sep !in front
    ensures Split(front + [sep] + rest, sep) == [front] + Split(rest, sep)
  {
    var s := front + [sep] + rest;
    if front == "" {
      assert s[1..] == rest;
    } else {
      SplitFront(front[1..], sep, rest);
      assert s[1..] == front[1..] + [sep] + rest;
      assert front == [front[0]] + front[1..];
    }
  }

  lemma {:induction false} SplitPlain(s: string, sep: char)
    requires sep !in s
    ensures Split(s, sep) == [s]
  {
    if s != "" {
      SplitPlain(s[1..], sep);
      assert s == [s[0]] + s[1..];
    }
  }

  lemma {:induction false} SplitJoin(parts: seq<string>, sep: char)
    requires parts != [] && Free(parts, sep)
    ensures Split(Join(parts, sep), sep) == parts
  {
    if |parts| == 1 {
      SplitPlain(parts[0], sep);
    } else {
      SplitJoin(parts[1..], sep);
      SplitFront(parts[0], sep, Join(parts[1..], sep));
    }
  }

  lemma {:induction false} PartsAreFree(s: string, sep: char)
    ensures Free(Split(s, sep), sep)
  {
    if s != "" {
      PartsAreFree(s[1..], sep);
    }
  }

  lemma {:induction false} PartsStayFree(s: string, sep: char, c: char)
    requires c !in s
    ensures Free(Split(s, sep), c)
  {
    if s != "" {
      PartsStayFree(s[1..], sep, c);
    }
  }

  lemma {:induction false} JoinFree(parts: seq<string>, sep: char, c: char)
    requires c != sep && Free(parts, c)
    ensures c !in Join(parts, sep)
  {
    if |parts| > 1 {
      JoinFree(parts[1..], sep, c);
    }
  }

  // ---------- Lines ----------

  function WithoutCr(line: string): string {
    if line != "" && line[|line| - 1] == '\r' then line[..|line| - 1] else line
  }

  function Ended(parts: seq<string>): seq<string> {
    if parts == [] then [] else [WithoutCr(parts[0])] + Ended(parts[1..])
  }

  /** Rust's `lines`: a last line need not be ended, and a carriage return before a line feed goes with it. */
  function Lines(s: string): seq<string> {
    var parts := Split(s, '\n');
    var last := parts[|parts| - 1];
    Ended(parts[..|parts| - 1]) + (if last == "" then [] else [last])
  }

  /** A row that stays one line, whatever follows it. */
  predicate IsLine(row: string) {
    row != "" && '\n' !in row && row[|row| - 1] != '\r'
  }

  ghost predicate AreLines(rows: seq<string>) {
    forall i :: 0 <= i < |rows| ==> IsLine(rows[i])
  }

  lemma LinesJoin(rows: seq<string>)
    requires rows != [] && AreLines(rows)
    ensures Lines(Join(rows, '\n')) == rows
  {
    AreFree(rows);
    SplitJoin(rows, '\n');
    var front, last := rows[..|rows| - 1], rows[|rows| - 1];
    assert IsLine(last) && rows == front + [last];
    LinesOfSplit(Join(rows, '\n'), front, last);
    NoneEnded(front);
  }

  lemma AreFree(rows: seq<string>)
    requires AreLines(rows)
    ensures Free(rows, '\n')
  {
    forall i | 0 <= i < |rows| ensures '\n' !in rows[i] {
      assert IsLine(rows[i]);
    }
  }

  lemma LinesOfSplit(s: string, front: seq<string>, last: string)
    requires Split(s, '\n') == front + [last] && last != ""
    ensures Lines(s) == Ended(front) + [last]
  {
    assert (front + [last])[..|front|] == front;
  }

  lemma {:induction false} NoneEnded(parts: seq<string>)
    requires AreLines(parts)
    ensures Ended(parts) == parts
  {
    if parts != [] {
      assert IsLine(parts[0]);
      NoneEnded(parts[1..]);
    }
  }

  lemma {:induction false} EndedFree(parts: seq<string>, c: char)
    requires Free(parts, c)
    ensures Free(Ended(parts), c)
  {
    if parts != [] {
      EndedFree(parts[1..], c);
    }
  }

  lemma LinesAreFree(s: string)
    ensures Free(Lines(s), '\n')
  {
    PartsAreFree(s, '\n');
    var parts := Split(s, '\n');
    EndedFree(parts[..|parts| - 1], '\n');
  }

  // ---------- Decimal numbers ----------

  predicate IsDigit(c: char) {
    '0' <= c <= '9'
  }

  function DigitChar(d: nat): (c: char)
    requires d < 10
    ensures IsDigit(c)
  {
    '0' + d as char
  }

  function Decimal(n: nat): (s: string)
    ensures s != "" && IsDigit(s[0]) && IsDigit(s[|s| - 1])
  {
    if n < 10 then [DigitChar(n)] else Decimal(n / 10) + [DigitChar(n % 10)]
  }

  function DigitValue(c: char): Option<nat> {
    if IsDigit(c) then Some((c - '0') as nat) else None
  }

  function DigitsValue(s: string): Option<nat> {
    if s == "" then Some(0)
    else
      var front :- DigitsValue(s[..|s| - 1]);
      var last :- DigitValue(s[|s| - 1]);
      Some(10 * front + last)
  }

  /** Rust's `parse::<u64>`: digits, perhaps after a plus sign. */
  function ParseU64(s: string): Option<u64> {
    var digits := if s != "" && s[0] == '+' then s[1..] else s;
    if digits == "" then None
    else
      var n :- DigitsValue(digits);
      if n < 0x1_0000_0000_0000_0000 then Some(n) else None
  }

  lemma {:induction false} DecimalDigits(n: nat)
    ensures DigitsValue(Decimal(n)) == Some(n)
  {
    var s := Decimal(n);
    if n >= 10 {
      DecimalDigits(n / 10);
      assert s[..|s| - 1] == Decimal(n / 10);
    } else {
      assert s[..|s| - 1] == "";
    }
  }

  lemma {:induction false} DecimalFree(n: nat, c: char)
    requires !IsDigit(c)
    ensures c !in Decimal(n)
  {
    if n >= 10 {
      DecimalFree(n / 10, c);
    }
  }

  lemma DecimalRoundTrip(n: u64)
    ensures ParseU64(Decimal(n)) == Some(n)
  {
    DecimalDigits(n);
  }

  // ---------- Hex ----------

  function HexValue(c: char): Option<nat> {
    if '0' <= c <= '9' then Some((c - '0') as nat)
    else if 'a' <= c <= 'f' then Some((c - 'a') as nat + 10)
    else if 'A' <= c <= 'F' then Some((c - 'A') as nat + 10)
    else None
  }

  function Unhex(s: string): Option<seq<byte>> {
    if s == "" then Some([])
    else if |s| == 1 then None
    else
      var high :- HexValue(s[0]);
      var low :- HexValue(s[1]);
      var rest :- Unhex(s[2..]);
      Some([16 * high + low] + rest)
  }

  lemma {:induction false} UnhexHex(bytes: seq<byte>)
    ensures Unhex(Hex(bytes)) == Some(bytes)
  {
    if bytes != [] {
      UnhexHex(bytes[1..]);
      UnhexStep(bytes[0], Hex(bytes[1..]), bytes[1..]);
      assert bytes == [bytes[0]] + bytes[1..];
    }
  }

  lemma UnhexStep(b: byte, rest: string, tail: seq<byte>)
    requires Unhex(rest) == Some(tail)
    ensures Unhex([HEX_DIGITS[b / 16], HEX_DIGITS[b % 16]] + rest) == Some([b] + tail)
  {
    HexDigitValue(b / 16);
    HexDigitValue(b % 16);
    assert ([HEX_DIGITS[b / 16], HEX_DIGITS[b % 16]] + rest)[2..] == rest;
  }

  lemma {:induction false} HexFree(bytes: seq<byte>, c: char)
    requires c !in HEX_DIGITS
    ensures c !in Hex(bytes)
  {
    if bytes != [] {
      HexFree(bytes[1..], c);
    }
  }

  lemma HexDigitValue(n: nat)
    requires n < 16
    ensures HexValue(HEX_DIGITS[n]) == Some(n)
  {
  }
}
