/** The mailbox file: what is read back from what was written. */
module ShelfFile {
  import opened Prelude
  import opened Bytes
  import opened Texts
  import opened Courier
  import opened Mailboxes

  /** A depositor name that neither ends a field nor a row. */
  predicate Plain(depositor: string) {
    '\t' !in depositor && '\n' !in depositor
  }

  ghost predicate AllPlain(held: seq<Held>) {
    forall x :: x in held ==> Plain(x.depositor)
  }

  ghost predicate AllWellFormed(held: seq<Held>) {
    forall x :: x in held ==> WellFormed(x.envelope)
  }

  function RowFields(x: Held): seq<string> {
    [Hex(Encoded(x.envelope)), x.depositor, Label(x.tier), Decimal(x.storedAtMs)]
  }

  lemma HexBreaks(bytes: seq<byte>)
    ensures '\t' !in Hex(bytes) && '\n' !in Hex(bytes)
  {
    assert '\t' !in HEX_DIGITS && '\n' !in HEX_DIGITS;
    HexFree(bytes, '\t');
    HexFree(bytes, '\n');
  }

  lemma FieldsFree(x: Held)
    requires Plain(x.depositor)
    ensures Free(RowFields(x), '\t') && Free(RowFields(x), '\n')
  {
    HexBreaks(Encoded(x.envelope));
    DecimalFree(x.storedAtMs, '\t');
    DecimalFree(x.storedAtMs, '\n');
  }

  lemma RowReads(x: Held)
    requires WellFormed(x.envelope) && Plain(x.depositor)
    ensures ReadRow(Row(x)) == Some(x)
  {
    FieldsFree(x);
    SplitJoin(RowFields(x), '\t');
    UnhexHex(Encoded(x.envelope));
    RoundTripExactlyWhen(x.envelope);
    DecimalRoundTrip(x.storedAtMs);
  }

  lemma RowIsALine(x: Held)
    requires Plain(x.depositor)
    ensures IsLine(Row(x))
  {
    FieldsFree(x);
    JoinFree(RowFields(x), '\t', '\n');
    JoinEnds(RowFields(x), '\t');
  }

  lemma {:induction false} JoinEnds(parts: seq<string>, sep: char)
    requires parts != [] && parts[|parts| - 1] != ""
    ensures var s, last := Join(parts, sep), parts[|parts| - 1];
            s != "" && s[|s| - 1] == last[|last| - 1]
  {
    if |parts| > 1 {
      JoinEnds(parts[1..], sep);
    }
  }

  lemma {:induction false} RowsRead(held: seq<Held>)
    requires AllWellFormed(held) && AllPlain(held)
    ensures ReadRows(Rows(held)) == held && |Rows(held)| == |held|
    ensures AreLines(Rows(held))
  {
    if held != [] {
      TailIsSavable(held);
      RowReads(held[0]);
      RowIsALine(held[0]);
      RowsRead(held[1..]);
      OneRowMore(held[0], held[1..]);
      assert held == [held[0]] + held[1..];
    }
  }

  lemma TailIsSavable(held: seq<Held>)
    requires held != [] && AllWellFormed(held) && AllPlain(held)
    ensures WellFormed(held[0].envelope) && Plain(held[0].depositor)
    ensures AllWellFormed(held[1..]) && AllPlain(held[1..])
  {
    assert held[0] in held;
  }

  lemma OneRowMore(x: Held, rest: seq<Held>)
    requires WellFormed(x.envelope) && ReadRow(Row(x)) == Some(x) && IsLine(Row(x))
    requires ReadRows(Rows(rest)) == rest && |Rows(rest)| == |rest| && AreLines(Rows(rest))
    ensures ReadRows(Rows([x] + rest)) == [x] + rest && |Rows([x] + rest)| == |[x] + rest|
    ensures AreLines(Rows([x] + rest))
  {
    assert ([x] + rest)[1..] == rest;
    var rows := Rows([x] + rest);
    assert rows == [Row(x)] + Rows(rest) && rows[1..] == Rows(rest);
  }

  /** What was saved is what is read back: order, envelopes, depositors, tiers and times. */
  lemma SavedIsRead(held: seq<Held>)
    requires held != [] && AllWellFormed(held) && AllPlain(held)
    ensures ReadBack(Some(Join(Rows(held), '\n'))) == held
  {
    RowsRead(held);
    LinesJoin(Rows(held));
  }

  lemma {:induction false} ReadRowsPlain(rows: seq<string>)
    requires Free(rows, '\n')
    ensures AllPlain(ReadRows(rows))
  {
    if rows != [] {
      PartsAreFree(rows[0], '\t');
      PartsStayFree(rows[0], '\t', '\n');
      ReadRowsPlain(rows[1..]);
    }
  }

  /** Whatever the file holds, only plain depositor names come out of it. */
  lemma OnlyPlainIsRead(file: Option<string>)
    ensures AllPlain(ReadBack(file))
  {
    if file.Some? {
      LinesAreFree(file.value);
      ReadRowsPlain(Lines(file.value));
    }
  }

  /** So a saved shelf reads back as it was exactly if no depositor's name has a tab or a line feed in it. */
  lemma ReadBackExactlyWhen(m: Shelf)
    requires m.persistent && AllWellFormed(m.held)
    ensures ReadBack(Saved(m).file) == m.held <==> AllPlain(m.held)
  {
    OnlyPlainIsRead(Saved(m).file);
    if m.held != [] && AllPlain(m.held) {
      SavedIsRead(m.held);
    }
  }

  lemma {:induction false} LiveLater(held: seq<Held>, nowMs: u64, laterMs: u64)
    requires nowMs <= laterMs
    ensures Live(Live(held, nowMs), laterMs) == Live(held, laterMs)
  {
    if held != [] {
      LiveLater(held[1..], nowMs, laterMs);
      assert !IsExpired(held[0].envelope, nowMs) ==> Live(held, nowMs)[1..] == Live(held[1..], nowMs);
    }
  }

  lemma {:induction false} LiveElements(held: seq<Held>, nowMs: u64, x: Held)
    ensures x in Live(held, nowMs) <==> x in held && !IsExpired(x.envelope, nowMs)
  {
    if held != [] {
      LiveElements(held[1..], nowMs, x);
      assert held == [held[0]] + held[1..];
    }
  }

  /** The file stands for the shelf: opened at any time from now on, it gives what is still in date. */
  ghost predicate Mirrors(m: Shelf, nowMs: u64) {
    m.persistent ==> forall t: u64 :: nowMs <= t ==> Live(ReadBack(m.file), t) == Live(m.held, t)
  }

  lemma SavedMirrors(m: Shelf, nowMs: u64)
    requires AllWellFormed(m.held) && AllPlain(m.held)
    ensures Mirrors(Saved(m), nowMs)
  {
    if m.persistent {
      ReadBackExactlyWhen(m);
    }
  }
}
