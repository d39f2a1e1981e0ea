/** The chunks of a long message, from the message alone: its words, in lines that are as full as they can be. */
module SplitLaw {
  import opened MessageSplit

  // ---------- Bytes ----------

  /** How many characters so many bytes of UTF-8 are enough for: seven, eleven, sixteen and twenty-one bits. */
  function Room(bytes: nat): nat {
    match bytes
    case 0 => 0
    case 1 => 128
    case 2 => 128 * 16
    case 3 => 128 * 16 * 32
    case _ => 128 * 16 * 32 * 32
  }

  /** A character takes as many bytes as it needs and no more. */
  lemma WidthIsLeast(c: char, bytes: nat)
    ensures Width(c) <= bytes <==> (c as int) < Room(bytes)
  {
  }

  // ---------- Words ----------

  ghost predicate IsBlank(s: string) {
    forall c :: c in s ==> IsSpace(c)
  }

  /** A gap, a word, a gap, and so on to a last gap. */
  function Spelling(gaps: seq<string>, words: seq<string>): string
    requires |gaps| == |words| + 1
  {
    if words == [] then gaps[0] else gaps[0] + (words[0] + Spelling(gaps[1..], words[1..]))
  }

  /** White space between any two words, and perhaps around them. */
  ghost predicate Spells(content: string, gaps: seq<string>, words: seq<string>) {
    && |gaps| == |words| + 1 && AreWords(words)
    && (forall i :: 0 <= i < |gaps| ==> IsBlank(gaps[i]))
    && (forall i :: 0 < i < |words| ==> gaps[i] != "")
    && content == Spelling(gaps, words)
  }

  lemma {:induction false} BlankSkipped(gap: string, rest: string)
    requires IsBlank(gap)
    ensures WordsAfter("", gap + rest) == WordsAfter("", rest)
  {
    if gap == "" {
      assert gap + rest == rest;
    } else {
      assert (gap + rest)[1..] == gap[1..] + rest;
      assert gap[0] in gap;
      BlankSkipped(gap[1..], rest);
    }
  }

  lemma {:induction false} WordTaken(begun: string, word: string, rest: string)
    requires forall c :: c in word ==> !IsSpace(c)
    ensures WordsAfter(begun, word + rest) == WordsAfter(begun + word, rest)
    decreases |word|
  {
    if word == "" {
      assert word + rest == rest && begun + word == begun;
    } else {
      assert (word + rest)[1..] == word[1..] + rest && word[0] in word;
      assert begun + [word[0]] + word[1..] == begun + word;
      WordTaken(begun + [word[0]], word[1..], rest);
    }
  }

  lemma WordEnded(word: string, rest: string)
    requires word != "" && (rest == "" || IsSpace(rest[0]))
    ensures WordsAfter(word, rest) == [word] + WordsAfter("", rest)
  {
  }

  lemma {:induction false} SpeltWords(content: string, gaps: seq<string>, words: seq<string>)
    requires Spells(content, gaps, words)
    ensures Words(content) == words
    decreases |words|
  {
    if words == [] {
      BlankSkipped(content, "");
      assert content + "" == content;
    } else {
      var rest := Spelling(gaps[1..], words[1..]);
      BlankSkipped(gaps[0], words[0] + rest);
      assert IsWord(words[0]);
      WordTaken("", words[0], rest);
      assert "" + words[0] == words[0];
      if rest != "" {
        RestIsBlank(gaps, words);
      }
      WordEnded(words[0], rest);
      SpellsFurther(content, gaps, words);
      SpeltWords(rest, gaps[1..], words[1..]);
    }
  }

  lemma SpellsFurther(content: string, gaps: seq<string>, words: seq<string>)
    requires Spells(content, gaps, words) && words != []
    ensures Spells(Spelling(gaps[1..], words[1..]), gaps[1..], words[1..])
  {
    forall i | 0 <= i < |words[1..]| ensures IsWord(words[1..][i]) {
      assert words[1..][i] == words[i + 1];
    }
  }

  lemma RestIsBlank(gaps: seq<string>, words: seq<string>)
    requires |gaps| == |words| + 1 && words != [] && Spelling(gaps[1..], words[1..]) != ""
    requires forall i :: 0 <= i < |gaps| ==> IsBlank(gaps[i])
    requires forall i :: 0 < i < |words| ==> gaps[i] != ""
    ensures IsSpace(Spelling(gaps[1..], words[1..])[0])
  {
    assert IsBlank(gaps[1]);
    assert gaps[1] != "";
    assert gaps[1][0] in gaps[1];
  }

  lemma {:induction false} SpellingFound(s: string) returns (gaps: seq<string>, words: seq<string>)
    ensures Spells(s, gaps, words)
  {
    if s == "" {
      gaps, words := [""], [];
    } else {
      var g, w := SpellingFound(s[1..]);
      assert s == [s[0]] + s[1..];
      if IsSpace(s[0]) {
        gaps, words := [[s[0]] + g[0]] + g[1..], w;
        WiderGap(s[0], g, w);
      } else if g[0] == "" && w != [] {
        gaps, words := g, [[s[0]] + w[0]] + w[1..];
        LongerWord(s[0], g, w, words);
      } else {
        gaps, words := [""] + g, [[s[0]]] + w;
        assert gaps[1..] == g && words[1..] == w;
        forall i | 0 <= i < |words| ensures IsWord(words[i]) {
          assert i > 0 ==> words[i] == w[i - 1];
        }
      }
    }
  }

  lemma WiderGap(c: char, g: seq<string>, w: seq<string>)
    requires |g| == |w| + 1 && IsSpace(c)
    ensures Spelling([[c] + g[0]] + g[1..], w) == [c] + Spelling(g, w)
    ensures IsBlank(g[0]) ==> IsBlank([c] + g[0])
  {
    assert ([[c] + g[0]] + g[1..])[1..] == g[1..];
  }

  lemma Longer(c: char, word: string, rest: string)
    ensures "" + ([c] + word + rest) == [c] + ("" + (word + rest))
  {
  }

  lemma LongerWord(c: char, g: seq<string>, w: seq<string>, v: seq<string>)
    requires |g| == |w| + 1 && w != [] && g[0] == "" && !IsSpace(c) && AreWords(w)
    requires v == [[c] + w[0]] + w[1..]
    ensures Spelling(g, v) == [c] + Spelling(g, w) && AreWords(v)
  {
    assert v[1..] == w[1..] && v[0] == [c] + w[0];
    Longer(c, w[0], Spelling(g[1..], w[1..]));
    assert IsWord(w[0]);
    assert IsWord(v[0]);
    forall i | 0 <= i < |v| ensures IsWord(v[i]) {
      assert i > 0 ==> v[i] == w[i];
    }
  }

  // ---------- Lines ----------

  /** Words on one line, or the pieces of a word too long for one. */
  datatype Line = Row(words: seq<string>) | Long(pieces: seq<string>)

  /** Words with one space between them. */
  function Spaced(words: seq<string>): string {
    if words == [] then ""
    else if |words| == 1 then words[0]
    else Spaced(words[..|words| - 1]) + " " + words[|words| - 1]
  }

  function WordsOf(line: Line): seq<string> {
    match line case Row(words) => words case Long(pieces) => [Flat(pieces)]
  }

  function AllOf(lines: seq<Line>): seq<string> {
    if lines == [] then [] else WordsOf(lines[0]) + AllOf(lines[1..])
  }

  function ChunksOf(lines: seq<Line>): seq<string> {
    if lines == [] then []
    else (match lines[0] case Row(words) => [Spaced(words)] case Long(pieces) => pieces) + ChunksOf(lines[1..])
  }

  /** Pieces within the limit, none of which has room for the first character of the next. */
  ghost predicate PiecesFill(pieces: seq<string>, limit: nat) {
    && (forall i :: 0 <= i < |pieces| ==> pieces[i] != "" && Bytes(pieces[i]) <= limit)
    && (forall i :: 0 < i < |pieces| ==> Bytes(pieces[i - 1]) + Width(pieces[i][0]) > limit)
  }

  ghost predicate LineIs(line: Line, limit: nat) {
    match line
    case Row(words) =>
      && words != [] && (forall i :: 0 <= i < |words| ==> words[i] != "" && Bytes(words[i]) <= limit)
      && Bytes(Spaced(words)) <= limit
    case Long(pieces) => Bytes(Flat(pieces)) > limit && PiecesFill(pieces, limit)
  }

  /** A row is only broken off where the next word would not have fitted. */
  ghost predicate Breaks(line: Line, next: Line, limit: nat) {
    line.Row? && next.Row? && next.words != [] ==> Bytes(Spaced(line.words)) + 1 + Bytes(next.words[0]) > limit
  }

  ghost predicate Greedy(lines: seq<Line>, limit: nat) {
    && (forall i :: 0 <= i < |lines| ==> LineIs(lines[i], limit))
    && (forall i :: 0 < i < |lines| ==> Breaks(lines[i - 1], lines[i], limit))
  }

  // ---------- Packing is greedy ----------

  ghost predicate AllFit(words: seq<string>, limit: nat) {
    forall i :: 0 <= i < |words| ==> Fits(words[i], limit)
  }

  lemma SpaceIsOne()
    ensures Bytes(" ") == 1
  {
    assert " "[1..] == "";
  }

  lemma SpacedSize(words: seq<string>)
    requires words != [] && forall i :: 0 <= i < |words| ==> words[i] != ""
    ensures Spaced(words) != ""
  {
  }

  lemma SpacedMore(front: seq<string>, word: string)
    requires forall i :: 0 <= i < |front| ==> front[i] != ""
    ensures Joined(Spaced(front), word) == Spaced(front + [word])
    ensures front != [] ==> Bytes(Spaced(front + [word])) == Bytes(Spaced(front)) + 1 + Bytes(word)
  {
    if front == [] {
      assert front + [word] == [word];
    } else {
      SpacedSize(front);
      assert (front + [word])[..|front|] == front;
      BytesOfJoin(Spaced(front) + " ", word);
      BytesOfJoin(Spaced(front), " ");
      SpaceIsOne();
    }
  }

  lemma {:induction false} SpacedGrows(front: seq<string>, more: seq<string>)
    requires front != [] && forall i :: 0 <= i < |front + more| ==> (front + more)[i] != ""
    ensures Bytes(Spaced(front)) <= Bytes(Spaced(front + more))
    decreases |more|
  {
    if more == [] {
      assert front + more == front;
    } else {
      assert forall i :: 0 <= i < |front| ==> (front + more)[i] == front[i];
      assert front + [more[0]] + more[1..] == front + more;
      SpacedMore(front, more[0]);
      SpacedGrows(front + [more[0]], more[1..]);
    }
  }

  /** Words that fit on the line with those already there are put on it. */
  lemma {:induction false} RowPacked(front: seq<string>, more: seq<string>, rest: seq<string>, limit: nat)
    requires forall i :: 0 <= i < |front + more| ==> (front + more)[i] != "" && Bytes((front + more)[i]) <= limit
    requires Bytes(Spaced(front + more)) <= limit && AllFit(more + rest, limit) && AllFit(rest, limit)
    ensures Packed(more + rest, Spaced(front), limit) == Packed(rest, Spaced(front + more), limit)
    decreases |more|
  {
    if more == [] {
      assert more + rest == rest && front + more == front;
    } else {
      var w := more[0];
      assert (front + more)[|front|] == w;
      assert forall i :: 0 <= i < |front| ==> (front + more)[i] == front[i];
      assert front + [w] + more[1..] == front + more;
      assert (more + rest)[1..] == more[1..] + rest;
      assert AllFit(more[1..] + rest, limit) by {
        forall i | 0 <= i < |more[1..] + rest| ensures Fits((more[1..] + rest)[i], limit) {
          assert (more[1..] + rest)[i] == (more + rest)[i + 1];
        }
      }
      SpacedMore(front, w);
      SpacedGrows(front + [w], more[1..]);
      RowPacked(front + [w], more[1..], rest, limit);
    }
  }

  /** A line is closed before a word that does not fit on it, and at the end. */
  lemma Closed(current: string, rest: seq<string>, limit: nat)
    requires AllFit(rest, limit) && current != ""
    requires rest == [] || Bytes(rest[0]) > limit || Bytes(Joined(current, rest[0])) > limit
    ensures Packed(rest, current, limit) == [current] + Packed(rest, "", limit)
  {
    if rest == [] {
      assert [current] + [] == [current];
    } else if Bytes(rest[0]) > limit {
      var (hard, tail) := (HardSplit(rest[0], limit), Packed(rest[1..], "", limit));
      assert Whole("") + hard + tail == hard + tail;
      assert [current] + hard + tail == [current] + (hard + tail);
    } else {
      assert Joined("", rest[0]) == rest[0];
    }
  }

  /** The first piece is as long as fits. */
  lemma FirstFits(pieces: seq<string>, limit: nat)
    requires PiecesFill(pieces, limit) && pieces != []
    ensures var (word, first) := (Flat(pieces), pieces[0]);
            && first <= word && word[|first|..] == Flat(pieces[1..]) && first != "" && word != ""
            && Fit(word, limit) == |first|
  {
    var (word, first, rest) := (Flat(pieces), pieces[0], Flat(pieces[1..]));
    assert word[..|first|] == first && word[|first|..] == rest;
    FitIsLast(word, limit, |first|);
    if |pieces| > 1 {
      assert rest[0] == pieces[1][0];
      assert word[..|first| + 1] == first + [rest[0]];
      BytesOfJoin(first, [rest[0]]);
      assert [rest[0]][1..] == "";
      FitIsLast(word, limit, |first| + 1);
    }
  }

  /** Pieces that fill the limit are what hard splitting makes of the word. */
  lemma {:induction false} PiecesPacked(pieces: seq<string>, limit: nat)
    requires PiecesFill(pieces, limit) && Fits(Flat(pieces), limit)
    ensures HardSplit(Flat(pieces), limit) == pieces
  {
    if pieces != [] {
      FirstFits(pieces, limit);
      assert forall c :: c in Flat(pieces[1..]) ==> c in Flat(pieces);
      PiecesPacked(pieces[1..], limit);
      assert pieces == [pieces[0]] + pieces[1..];
    }
  }

  lemma GreedyFurther(lines: seq<Line>, limit: nat)
    requires Greedy(lines, limit) && lines != []
    ensures LineIs(lines[0], limit) && Greedy(lines[1..], limit)
    ensures |lines| > 1 ==> Breaks(lines[0], lines[1], limit)
  {
    forall i | 0 < i < |lines[1..]| ensures Breaks(lines[1..][i - 1], lines[1..][i], limit) {
      assert Breaks(lines[i + 1 - 1], lines[i + 1], limit);
    }
  }

  lemma FitFurther(a: seq<string>, b: seq<string>, limit: nat)
    requires AllFit(a + b, limit)
    ensures AllFit(a, limit) && AllFit(b, limit)
  {
    forall i | 0 <= i < |a| ensures Fits(a[i], limit) {
      assert (a + b)[i] == a[i];
    }
    forall i | 0 <= i < |b| ensures Fits(b[i], limit) {
      assert (a + b)[|a| + i] == b[i];
    }
  }

  lemma RowCloses(words: seq<string>, lines: seq<Line>, limit: nat)
    requires Greedy([Row(words)] + lines, limit)
    ensures var rest := AllOf(lines);
            rest == [] || Bytes(rest[0]) > limit || Bytes(Joined(Spaced(words), rest[0])) > limit
  {
    var all := [Row(words)] + lines;
    GreedyFurther(all, limit);
    assert all[1..] == lines;
    assert LineIs(all[0], limit);
    if lines != [] {
      GreedyFurther(lines, limit);
      assert all[1] == lines[0];
      SpacedSize(words);
      if lines[0].Row? {
        JoinedBytes(Spaced(words), lines[0].words[0]);
      }
    }
  }

  lemma RowFirst(words: seq<string>, lines: seq<Line>, limit: nat)
    requires Greedy([Row(words)] + lines, limit) && AllFit(words + AllOf(lines), limit)
    ensures AllFit(AllOf(lines), limit)
    ensures Packed(words + AllOf(lines), "", limit) == [Spaced(words)] + Packed(AllOf(lines), "", limit)
  {
    FitFurther(words, AllOf(lines), limit);
    GreedyFurther([Row(words)] + lines, limit);
    assert [] + words == words;
    RowPacked([], words, AllOf(lines), limit);
    RowCloses(words, lines, limit);
    SpacedSize(words);
    Closed(Spaced(words), AllOf(lines), limit);
  }

  lemma LongFirst(pieces: seq<string>, rest: seq<string>, limit: nat)
    requires LineIs(Long(pieces), limit) && AllFit([Flat(pieces)] + rest, limit)
    ensures AllFit(rest, limit)
    ensures Packed([Flat(pieces)] + rest, "", limit) == pieces + Packed(rest, "", limit)
  {
    FitFurther([Flat(pieces)], rest, limit);
    assert [Flat(pieces)][0] == Flat(pieces);
    PiecesPacked(pieces, limit);
    assert ([Flat(pieces)] + rest)[1..] == rest;
    assert Whole("") + pieces == pieces;
  }

  /** Lines as full as they can be are what packing makes of their words. */
  lemma {:induction false} LinesPacked(lines: seq<Line>, limit: nat)
    requires Greedy(lines, limit) && AllFit(AllOf(lines), limit)
    ensures Packed(AllOf(lines), "", limit) == ChunksOf(lines)
  {
    if lines != [] {
      GreedyFurther(lines, limit);
      if lines[0].Row? {
        assert lines == [lines[0]] + lines[1..];
        RowFirst(lines[0].words, lines[1..], limit);
      } else {
        LongFirst(lines[0].pieces, AllOf(lines[1..]), limit);
      }
      LinesPacked(lines[1..], limit);
    }
  }

  // ---------- And every message has such lines ----------

  /** What a cut leaves over would not have fitted. */
  lemma NoRoom(word: string, limit: nat, k: nat)
    requires k == Fit(word, limit) < |word|
    ensures Bytes(word[..k]) + Width(word[k]) > limit
  {
    FitIsLast(word, limit, k + 1);
    assert word[..k + 1] == word[..k] + [word[k]];
    BytesOfJoin(word[..k], [word[k]]);
    assert [word[k]][1..] == "";
  }

  lemma CutFills(word: string, limit: nat, k: nat, pieces: seq<string>)
    requires k == Fit(word, limit) > 0 && PiecesFill(pieces, limit) && Flat(pieces) == word[k..]
    ensures PiecesFill([word[..k]] + pieces, limit)
  {
    FitIsLast(word, limit, k);
    if pieces != [] {
      FirstFits(pieces, limit);
      assert pieces[0][0] == word[k..][0] == word[k];
      NoRoom(word, limit, k);
    }
    MoreFills(word[..k], pieces, limit);
  }

  lemma {:induction false} HardFills(word: string, limit: nat)
    requires Fits(word, limit)
    ensures PiecesFill(HardSplit(word, limit), limit) && Flat(HardSplit(word, limit)) == word
  {
    HardSplitSmall(word, limit);
    if word != "" {
      assert word[0] in word;
      var k := Fit(word, limit);
      HardFills(word[k..], limit);
      CutFills(word, limit, k, HardSplit(word[k..], limit));
    }
  }

  lemma MoreFills(piece: string, pieces: seq<string>, limit: nat)
    requires piece != "" && Bytes(piece) <= limit && PiecesFill(pieces, limit)
    requires pieces != [] ==> Bytes(piece) + Width(pieces[0][0]) > limit
    ensures PiecesFill([piece] + pieces, limit)
  {
    var all := [piece] + pieces;
    forall i | 0 < i < |all| ensures Bytes(all[i - 1]) + Width(all[i][0]) > limit {
      assert all[i] == pieces[i - 1];
      assert i > 1 ==> all[i - 1] == pieces[i - 1 - 1];
    }
  }

  /** Lines of which the first may have been begun with some words. */
  ghost predicate Begun(front: seq<string>, lines: seq<Line>) {
    front != [] ==> lines != [] && lines[0].Row? && front <= lines[0].words
  }

  lemma MoreGreedy(line: Line, lines: seq<Line>, limit: nat)
    requires LineIs(line, limit) && Greedy(lines, limit)
    requires lines != [] ==> Breaks(line, lines[0], limit)
    ensures Greedy([line] + lines, limit)
    ensures AllOf([line] + lines) == WordsOf(line) + AllOf(lines)
  {
    var all := [line] + lines;
    assert all[1..] == lines;
    forall i | 0 < i < |all| ensures Breaks(all[i - 1], all[i], limit) {
      assert all[i] == lines[i - 1];
      assert i > 1 ==> all[i - 1] == lines[i - 1 - 1];
    }
  }

  ghost predicate Short(words: seq<string>, limit: nat) {
    forall i :: 0 <= i < |words| ==> words[i] != "" && Bytes(words[i]) <= limit
  }

  /** A word too long for a line ends the one before it. */
  lemma LongNext(front: seq<string>, w: string, rest: seq<Line>, limit: nat) returns (lines: seq<Line>)
    requires Short(front, limit) && Bytes(Spaced(front)) <= limit && Fits(w, limit) && Bytes(w) > limit
    requires Greedy(rest, limit)
    ensures Greedy(lines, limit) && AllOf(lines) == front + ([w] + AllOf(rest)) && Begun(front, lines)
  {
    HardFills(w, limit);
    var long := Long(HardSplit(w, limit));
    MoreGreedy(long, rest, limit);
    lines := [long] + rest;
    if front != [] {
      MoreGreedy(Row(front), lines, limit);
      lines := [Row(front)] + lines;
    }
  }

  /** And so does one for which there is no room left. */
  lemma RowNext(front: seq<string>, w: string, rest: seq<Line>, limit: nat) returns (lines: seq<Line>)
    requires front != [] && Short(front, limit) && Bytes(Spaced(front)) <= limit
    requires Bytes(Spaced(front + [w])) > limit && Greedy(rest, limit) && Begun([w], rest)
    ensures Greedy(lines, limit) && AllOf(lines) == front + AllOf(rest) && Begun(front, lines)
  {
    SpacedMore(front, w);
    assert rest[0].words[0] == [w][0];
    MoreGreedy(Row(front), rest, limit);
    lines := [Row(front)] + rest;
  }

  lemma LastLine(front: seq<string>, limit: nat) returns (lines: seq<Line>)
    requires Short(front, limit) && Bytes(Spaced(front)) <= limit
    ensures Greedy(lines, limit) && AllOf(lines) == front && Begun(front, lines)
  {
    lines := if front == [] then [] else [Row(front)];
    assert front + AllOf([]) == front;
  }

  lemma WordsFurther(words: seq<string>, limit: nat)
    requires words != [] && AllFit(words, limit) && NoneEmpty(words)
    ensures AllFit(words[1..], limit) && NoneEmpty(words[1..]) && words[0] != "" && Fits(words[0], limit)
    ensures words == [words[0]] + words[1..]
  {
    FitFurther([words[0]], words[1..], limit);
    assert words == [words[0]] + words[1..];
  }

  ghost predicate NoneEmpty(words: seq<string>) {
    forall i :: 0 <= i < |words| ==> words[i] != ""
  }

  lemma ShortFurther(front: seq<string>, w: string, more: seq<string>, limit: nat)
    requires Short(front, limit) && w != "" && Bytes(w) <= limit
    ensures Short(front + [w], limit) && front + [w] + more == front + ([w] + more)
    ensures front == [] ==> Spaced(front + [w]) == w
  {
    assert front == [] ==> front + [w] == [w];
  }

  lemma {:induction false} LinesFound(front: seq<string>, words: seq<string>, limit: nat) returns (lines: seq<Line>)
    requires AllFit(words, limit) && NoneEmpty(words) && Short(front, limit) && Bytes(Spaced(front)) <= limit
    ensures Greedy(lines, limit) && AllOf(lines) == front + words && Begun(front, lines)
    decreases |words|
  {
    if words == [] {
      lines := LastLine(front, limit);
      assert front + words == front;
    } else {
      var (w, more) := (words[0], words[1..]);
      WordsFurther(words, limit);
      if Bytes(w) > limit {
        var rest := LinesFound([], more, limit);
        assert [] + more == more;
        lines := LongNext(front, w, rest, limit);
      } else if front == [] || Bytes(Spaced(front + [w])) <= limit {
        ShortFurther(front, w, more, limit);
        lines := LinesFound(front + [w], more, limit);
        BegunFurther(front, w, lines);
      } else {
        ShortFurther([], w, more, limit);
        assert [] + [w] == [w];
        var rest := LinesFound([w], more, limit);
        lines := RowNext(front, w, rest, limit);
      }
    }
  }

  lemma BegunFurther(front: seq<string>, w: string, lines: seq<Line>)
    requires Begun(front + [w], lines)
    ensures Begun(front, lines)
  {
  }

  // ---------- The law ----------

  /** The words of a message in lines as full as they can be, and its chunks. */
  ghost predicate LaidOut(content: string, limit: nat, gaps: seq<string>, lines: seq<Line>, chunks: seq<string>) {
    Spells(content, gaps, AllOf(lines)) && Greedy(lines, limit) && chunks == ChunksOf(lines)
  }

  /**
   * A message within the budget is one chunk. Of any other, the chunks are its words in lines, each line filled before
   * the next is begun, and a word too long for a line cut as late as it can be.
   */
  lemma ChunksExactlyWhen(content: string, limit: nat, chunks: seq<string>)
    requires Splittable(content, limit)
    ensures chunks == Chunks(content, limit)
       <==> if Bytes(content) <= limit then chunks == (if content == "" then [] else [content])
            else exists gaps, lines :: LaidOut(content, limit, gaps, lines, chunks)
  {
    if Bytes(content) > limit {
      var gaps, words := SpellingFound(content);
      SpeltWords(content, gaps, words);
      assert NoneEmpty(words) by {
        forall i | 0 <= i < |words| ensures words[i] != "" {
          assert IsWord(words[i]);
        }
      }
      var lines := LinesFound([], words, limit);
      assert [] + words == words;
      LinesPacked(lines, limit);
      assert LaidOut(content, limit, gaps, lines, ChunksOf(lines));
      if gaps', lines' :| LaidOut(content, limit, gaps', lines', chunks) {
        SpeltWords(content, gaps', AllOf(lines'));
        LinesPacked(lines', limit);
      }
    }
  }
}
