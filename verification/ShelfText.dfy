/** The mailbox file to the letter: its lines, which of them are items, and how numbers and bytes are spelled. */
module ShelfText {
  import opened Prelude
  import opened Bytes
  import opened Texts
  import C = Courier
  import M = Mailboxes

  // ---------- Numbers and bytes ----------

  /** A number is spelled digit by digit, in tens. */
  lemma DecimalIs(n: nat, d: nat)
    requires d < 10
    ensures Decimal(d) == ["0123456789"[d]]
    ensures n > 0 ==> Decimal(10 * n + d) == Decimal(n) + ["0123456789"[d]]
  {
    assert DigitChar(d) == "0123456789"[d];
    assert (10 * n + d) / 10 == n && (10 * n + d) % 10 == d;
  }

  predicate AllDigits(s: string) {
    forall i :: 0 <= i < |s| ==> '0' <= s[i] <= '9'
  }

  /** The number digits stand for. */
  function NumberOf(digits: string): nat
    requires AllDigits(digits)
  {
    if digits == "" then 0
    else 10 * NumberOf(digits[..|digits| - 1]) + (digits[|digits| - 1] - '0') as nat
  }

  lemma {:induction false} DigitsRead(digits: string)
    ensures DigitsValue(digits).Some? <==> AllDigits(digits)
    ensures AllDigits(digits) ==> DigitsValue(digits) == Some(NumberOf(digits))
  {
    if digits != "" {
      var front, last := digits[..|digits| - 1], digits[|digits| - 1];
      DigitsRead(front);
      assert AllDigits(digits) <==> AllDigits(front) && '0' <= last <= '9' by {
        assert digits == front + [last];
        assert forall i :: 0 <= i < |front| ==> front[i] == digits[i];
      }
    }
  }

  /** A number is read exactly if it is digits, perhaps after a plus sign, and fits 64 bits. */
  lemma NumberReadExactlyWhen(s: string, n: nat)
    ensures var digits := if s != "" && s[0] == '+' then s[1..] else s;
            ParseU64(s) == Some(n)
            <==> digits != "" && AllDigits(digits) && NumberOf(digits) == n < 0x1_0000_0000_0000_0000
  {
    DigitsRead(if s != "" && s[0] == '+' then s[1..] else s);
  }

  /** Bytes are spelled as two lower-case digits each. */
  lemma HexIs(b: byte, rest: seq<byte>)
    ensures Hex([b] + rest) == ["0123456789abcdef"[b / 16], "0123456789abcdef"[b % 16]] + Hex(rest)
  {
    assert ([b] + rest)[1..] == rest;
  }

  lemma LowerDigit(c: char, n: nat)
    requires n < 16
    ensures HexValue(c) == Some(n) <==> LowerChar(c) == HEX_DIGITS[n]
  {
  }

  lemma LowerPair(s: string)
    requires |s| >= 2
    ensures Lower(s) == [LowerChar(s[0]), LowerChar(s[1])] + Lower(s[2..])
  {
  }

  lemma {:induction false} HexMatches(s: string, bytes: seq<byte>)
    ensures Unhex(s) == Some(bytes) <==> Lower(s) == Hex(bytes)
    decreases |s|
  {
    if |s| >= 2 && bytes != [] {
      var b, rest := bytes[0], bytes[1..];
      assert bytes == [b] + rest;
      HexMatches(s[2..], rest);
      LowerPair(s);
      LowerDigit(s[0], b / 16);
      LowerDigit(s[1], b % 16);
      PairApart([LowerChar(s[0]), LowerChar(s[1])], Lower(s[2..]), [HEX_DIGITS[b / 16], HEX_DIGITS[b % 16]], Hex(rest));
      UnhexApart(s, b, rest);
    }
  }

  lemma PairApart(a: string, b: string, c: string, d: string)
    requires |a| == |c|
    ensures a + b == c + d <==> a == c && b == d
  {
    if a + b == c + d {
      assert a == (a + b)[..|a|] && b == (a + b)[|a|..];
      assert c == (c + d)[..|a|] && d == (c + d)[|a|..];
    }
  }

  lemma UnhexApart(s: string, b: byte, rest: seq<byte>)
    requires |s| >= 2
    ensures Unhex(s) == Some([b] + rest)
       <==> HexValue(s[0]) == Some(b / 16) && HexValue(s[1]) == Some(b % 16) && Unhex(s[2..]) == Some(rest)
  {
    var high, low, tail := HexValue(s[0]), HexValue(s[1]), Unhex(s[2..]);
    if high.Some? && low.Some? && tail.Some? {
      assert ([b] + rest)[0] == b && ([b] + rest)[1..] == rest;
      assert ([16 * high.value + low.value] + tail.value)[1..] == tail.value;
    }
  }

  // ---------- Lines ----------

  lemma {:induction false} JoinSplit(s: string, sep: char)
    ensures Join(Split(s, sep), sep) == s
  {
    if s != "" {
      JoinSplit(s[1..], sep);
      var rest := Split(s[1..], sep);
      assert s == [s[0]] + s[1..];
      if s[0] == sep {
        assert ([""] + rest)[1..] == rest;
      } else {
        var parts := [[s[0]] + rest[0]] + rest[1..];
        assert parts[1..] == rest[1..];
      }
    }
  }

  /** Lines end at line feeds, and a carriage return before one goes with it; what is left at the end is a line. */
  lemma LinesAre(line: string, rest: string)
    requires '\n' !in line
    ensures Lines(line + "\n" + rest)
         == [if line != "" && line[|line| - 1] == '\r' then line[..|line| - 1] else line] + Lines(rest)
    ensures Lines(line) == if line == "" then [] else [line]
  {
    SplitFront(line, '\n', rest);
    SplitPlain(line, '\n');
    var tail := Split(rest, '\n');
    var parts := [line] + tail;
    assert parts[..|parts| - 1] == [line] + tail[..|tail| - 1];
    assert ([line] + tail[..|tail| - 1])[1..] == tail[..|tail| - 1];
    assert [line][..0] == [];
  }

  /** A line is an item exactly if it has four parts, or more, between tabs: envelope, depositor, tier and time. */
  ghost predicate LineIs(row: string, x: M.Held, parts: seq<string>, wire: seq<byte>) {
    && |parts| >= 4 && Free(parts, '\t') && row == Join(parts, '\t')
    && Lower(parts[0]) == Hex(wire) && C.Decoded(wire) == Some(x.envelope)
    && parts[1] == x.depositor
    && parts[2] == (if x.tier == M.Favourite then "favourite" else "verified")
    && ParseU64(parts[3]) == Some(x.storedAtMs)
  }

  lemma RowReadExactlyWhen(row: string, x: M.Held)
    ensures M.ReadRow(row) == Some(x) <==> exists parts, wire :: LineIs(row, x, parts, wire)
  {
    var fields := Split(row, '\t');
    JoinSplit(row, '\t');
    PartsAreFree(row, '\t');
    if M.ReadRow(row) == Some(x) {
      var wire := Unhex(fields[0]).value;
      HexMatches(fields[0], wire);
      assert LineIs(row, x, fields, wire);
    }
    if parts, wire :| LineIs(row, x, parts, wire) {
      SplitJoin(parts, '\t');
      HexMatches(parts[0], wire);
    }
  }

  /** What is read from a file are the lines that are items, in order. */
  lemma RowsRead(row: string, rows: seq<string>)
    ensures M.ReadRows([row] + rows)
         == (if M.ReadRow(row).Some? then [M.ReadRow(row).value] else []) + M.ReadRows(rows)
  {
    assert ([row] + rows)[1..] == rows;
  }
}
