/** Splitting a message to a byte budget: on words where it can, on characters where it must. */
module MessageSplit {

  // ---------- Characters, bytes, words ----------

  /** Bytes of a character in UTF-8. */
  function Width(c: char): (w: nat)
    ensures 1 <= w <= 4
  {
    var n := c as int;
    if n < 0x80 then 1 else if n < 0x800 then 2 else if n < 0x1_0000 then 3 else 4
  }

  function Bytes(s: string): nat {
    if s == "" then 0 else Width(s[0]) + Bytes(s[1..])
  }

  /** Unicode white space. */
  predicate IsSpace(c: char) {
    var n := c as int;
    || 0x09 <= n <= 0x0D || n == 0x20 || n == 0x85 || n == 0xA0 || n == 0x1680 || 0x2000 <= n <= 0x200A
    || n == 0x2028 || n == 0x2029 || n == 0x202F || n == 0x205F || n == 0x3000
  }

  function Whole(word: string): seq<string> {
    if word == "" then [] else [word]
  }

  /** The words of `s`, the first of which has begun with `begun`. */
  function WordsAfter(begun: string, s: string): seq<string>
    decreases |s|
  {
    if s == "" then Whole(begun)
    else if IsSpace(s[0]) then Whole(begun) + WordsAfter("", s[1..])
    else WordsAfter(begun + [s[0]], s[1..])
  }

  function Words(s: string): seq<string> {
    WordsAfter("", s)
  }

  predicate IsWord(w: string) {
    w != "" && forall c :: c in w ==> !IsSpace(c)
  }

  ghost predicate AreWords(words: seq<string>) {
    forall i :: 0 <= i < |words| ==> IsWord(words[i])
  }

  function NonSpace(s: string): string {
    if s == "" then "" else if IsSpace(s[0]) then NonSpace(s[1..]) else [s[0]] + NonSpace(s[1..])
  }

  function Flat(parts: seq<string>): string {
    if parts == [] then "" else parts[0] + Flat(parts[1..])
  }

  function AllWords(chunks: seq<string>): seq<string> {
    if chunks == [] then [] else Words(chunks[0]) + AllWords(chunks[1..])
  }

  // ---------- Splitting ----------

  /** How many whole characters fit the budget. */
  function Fit(s: string, limit: nat): (k: nat)
    ensures k <= |s|
  {
    if s == "" || Width(s[0]) > limit then 0 else 1 + Fit(s[1..], limit - Width(s[0]))
  }

  /** No character is wider than the budget, so that a cut never stands still. */
  predicate Fits(s: string, limit: nat) {
    forall c :: c in s ==> Width(c) <= limit
  }

  function HardSplit(word: string, limit: nat): seq<string>
    requires Fits(word, limit)
  {
    if word == "" then []
    else
      var k := Fit(word, limit);
      assert word[0] in word;
      [word[..k]] + HardSplit(word[k..], limit)
  }

  function Joined(current: string, word: string): string {
    if current == "" then word else current + " " + word
  }

  function Packed(words: seq<string>, current: string, limit: nat): seq<string>
    requires forall i :: 0 <= i < |words| ==> Fits(words[i], limit)
  {
    if words == [] then Whole(current)
    else if Bytes(words[0]) > limit then Whole(current) + HardSplit(words[0], limit) + Packed(words[1..], "", limit)
    else if Bytes(Joined(current, words[0])) > limit then [current] + Packed(words[1..], words[0], limit)
    else Packed(words[1..], Joined(current, words[0]), limit)
  }

  /** What the split can be asked for: text within the budget, or words with no character wider than it. */
  ghost predicate Splittable(content: string, limit: nat) {
    Bytes(content) <= limit || forall i :: 0 <= i < |Words(content)| ==> Fits(Words(content)[i], limit)
  }

  function Chunks(content: string, limit: nat): seq<string>
    requires Splittable(content, limit)
  {
    if content == "" then []
    else if Bytes(content) <= limit then [content]
    else Packed(Words(content), "", limit)
  }

  lemma {:induction false} WordsFit(begun: string, s: string, limit: nat)
    requires Fits(begun, limit) && Fits(s, limit)
    ensures forall i :: 0 <= i < |WordsAfter(begun, s)| ==> Fits(WordsAfter(begun, s)[i], limit)
    decreases |s|
  {
    if s != "" {
      assert s[0] in s && Fits(s[1..], limit);
      WordsFit(if IsSpace(s[0]) then "" else begun + [s[0]], s[1..], limit);
    }
  }

  // ---------- The loops ----------

  lemma {:induction false} BytesSplit(s: string, k: nat)
    requires k <= |s|
    ensures Bytes(s) == Bytes(s[..k]) + Bytes(s[k..])
  {
    if k > 0 {
      BytesSplit(s[1..], k - 1);
      assert s[..k][1..] == s[1..][..k - 1] && s[1..][k - 1..] == s[k..];
    } else {
      assert s[..0] == "" && s[0..] == s;
    }
  }

  lemma {:induction false} LongerIsMore(s: string, j: nat, k: nat)
    requires j < k <= |s|
    ensures Bytes(s[..j]) < Bytes(s[..k])
  {
    BytesSplit(s[..k], j);
    assert s[..k][..j] == s[..j];
    assert s[..k][j..] != "";
  }

  /** The cut is the last character boundary within the budget. */
  lemma {:induction false} FitIsLast(s: string, limit: nat, k: nat)
    requires k <= |s|
    ensures Bytes(s[..Fit(s, limit)]) <= limit
    ensures Bytes(s[..k]) <= limit <==> k <= Fit(s, limit)
  {
    var f := Fit(s, limit);
    if s != "" && Width(s[0]) <= limit {
      FitIsLast(s[1..], limit - Width(s[0]), if k > 0 then k - 1 else 0);
      assert s[..f][1..] == s[1..][..f - 1];
      assert k > 0 ==> s[..k][1..] == s[1..][..k - 1];
    }
  }

  // ---------- When the splitting ends ----------

  /** What is left of an over-long word after `n` cuts. */
  function RestAfter(word: string, limit: nat, n: nat): string {
    if n == 0 then word
    else
      var rest := RestAfter(word, limit, n - 1);
      rest[Fit(rest, limit)..]
  }

  ghost predicate CutsEnd(word: string, limit: nat) {
    exists n: nat :: RestAfter(word, limit, n) == ""
  }

  /** Every loop over an over-long word comes to its end. */
  ghost predicate SplitEnds(content: string, limit: nat) {
    || Bytes(content) <= limit
    || forall i :: 0 <= i < |Words(content)| && Bytes(Words(content)[i]) > limit ==> CutsEnd(Words(content)[i], limit)
  }

  lemma {:induction false} FitStops(s: string, limit: nat, i: nat)
    requires i < |s| && Width(s[i]) > limit
    ensures Fit(s, limit) <= i
  {
    if i > 0 && Width(s[0]) <= limit {
      FitStops(s[1..], limit - Width(s[0]), i - 1);
    }
  }

  /** A character too wide is never cut off. */
  lemma {:induction false} WideStays(word: string, limit: nat, c: char, n: nat)
    requires c in word && Width(c) > limit
    ensures c in RestAfter(word, limit, n)
  {
    if n > 0 {
      WideStays(word, limit, c, n - 1);
      var rest := RestAfter(word, limit, n - 1);
      var i :| 0 <= i < |rest| && rest[i] == c;
      FitStops(rest, limit, i);
      assert rest[Fit(rest, limit)..][i - Fit(rest, limit)] == c;
    }
  }

  lemma {:induction false} CutsShorten(word: string, limit: nat, n: nat)
    requires Fits(word, limit) && n <= |word|
    ensures |RestAfter(word, limit, n)| <= |word| - n && Fits(RestAfter(word, limit, n), limit)
  {
    if n > 0 {
      CutsShorten(word, limit, n - 1);
      var rest := RestAfter(word, limit, n - 1);
      assert rest != "" ==> rest[0] in rest;
    }
  }

  lemma CutsEndExactlyWhen(word: string, limit: nat)
    ensures CutsEnd(word, limit) <==> Fits(word, limit)
  {
    if Fits(word, limit) {
      CutsShorten(word, limit, |word|);
    } else {
      var c :| c in word && Width(c) > limit;
      forall n: nat ensures RestAfter(word, limit, n) != "" {
        WideStays(word, limit, c, n);
      }
    }
  }

  /** The splitting ends exactly if the text is within the budget or no character of its words is wider than it. */
  lemma SplitEndsExactlyWhen(content: string, limit: nat)
    ensures SplitEnds(content, limit) <==> Splittable(content, limit)
  {
    var words := Words(content);
    forall i | 0 <= i < |words|
      ensures Fits(words[i], limit) <==> (Bytes(words[i]) > limit ==> CutsEnd(words[i], limit))
    {
      CutsEndExactlyWhen(words[i], limit);
      if Bytes(words[i]) <= limit {
        WithinFits(words[i], limit);
      }
    }
  }

  lemma {:induction false} WithinFits(s: string, limit: nat)
    requires Bytes(s) <= limit
    ensures Fits(s, limit)
  {
    if s != "" {
      assert s == [s[0]] + s[1..];
      WithinFits(s[1..], limit);
    }
  }

  /** The number of characters whose bytes these are, if a character ends there. */
  function Boundary(s: string, end: nat): (r: int)
    ensures r == -1 || (0 <= r <= |s| && Bytes(s[..r]) == end)
    ensures r == -1 ==> forall k :: 0 <= k <= |s| ==> Bytes(s[..k]) != end
  {
    if end == 0 then 0
    else if s == "" || Width(s[0]) > end then
      NoBoundary(s, end);
      -1
    else
      var r := Boundary(s[1..], end - Width(s[0]));
      assert forall k :: 1 <= k <= |s| ==> s[..k][1..] == s[1..][..k - 1];
      if r == -1 then -1 else r + 1
  }

  lemma NoBoundary(s: string, end: nat)
    requires end > 0 && (s == "" || Width(s[0]) > end)
    ensures forall k :: 0 <= k <= |s| ==> Bytes(s[..k]) != end
  {
    forall k | 0 <= k <= |s| ensures Bytes(s[..k]) != end {
      assert k > 0 ==> s[..k][0] == s[0];
    }
  }

  /** Back from the budget to a character boundary, byte by byte. */
  method Cut(rest: string, limit: nat) returns (k: nat)
    ensures k == Fit(rest, limit)
  {
    var end := if limit < Bytes(rest) then limit else Bytes(rest);
    ghost var fit := Fit(rest, limit);
    FitIsLast(rest, limit, |rest|);
    assert rest[..|rest|] == rest;
    BytesSplit(rest, fit);
    var at := Boundary(rest, end);
    while end > 0 && at == -1
      invariant Bytes(rest[..fit]) <= end <= limit && at == Boundary(rest, end)
    {
      end := end - 1;
      at := Boundary(rest, end);
    }
    k := if end == 0 then 0 else at;
    FitIsLast(rest, limit, k);
    if k < fit {
      LongerIsMore(rest, k, fit);
    }
  }

  method Split(content: string, limit: nat) returns (chunks: seq<string>)
    requires Splittable(content, limit)
    ensures chunks == Chunks(content, limit)
  {
    if content == "" {
      return [];
    }
    if Bytes(content) <= limit {
      return [content];
    }
    var words, current := Words(content), "";
    chunks := [];
    assert words[0..] == words;
    for i := 0 to |words|
      invariant chunks + Packed(words[i..], current, limit) == Packed(words, "", limit)
    {
      ghost var before := chunks;
      var word := words[i];
      assert words[i..][0] == word && words[i..][1..] == words[i + 1..];
      if Bytes(word) > limit {
        if current != "" {
          chunks := chunks + [current];
        }
        assert chunks == before + Whole(current);
        chunks := SplitWord(chunks, word, limit);
        Regroup(before, Whole(current), HardSplit(word, limit), Packed(words[i + 1..], "", limit));
        current := "";
        continue;
      }
      if Bytes(current) + (if current == "" then 0 else 1) + Bytes(word) > limit {
        JoinedBytes(current, word);
        Regroup(before, [], [current], Packed(words[i + 1..], word, limit));
        assert before + [] == before && [] + [current] == [current] && "" + word == word;
        chunks := chunks + [current];
        current := "";
      } else {
        JoinedBytes(current, word);
        assert "" + word == word;
      }
      if current != "" {
        current := current + " ";
      }
      current := current + word;
    }
    if current != "" {
      chunks := chunks + [current];
    }
  }

  /** A word longer than the budget, cut and added piece by piece. */
  method SplitWord(chunks: seq<string>, word: string, limit: nat) returns (more: seq<string>)
    requires Fits(word, limit)
    ensures more == chunks + HardSplit(word, limit)
  {
    more := chunks;
    var rest := word;
    while rest != ""
      invariant Fits(rest, limit) && more + HardSplit(rest, limit) == chunks + HardSplit(word, limit)
      decreases |rest|
    {
      assert rest[0] in rest;
      var end := Cut(rest, limit);
      assert more + ([rest[..end]] + HardSplit(rest[end..], limit))
          == more + [rest[..end]] + HardSplit(rest[end..], limit);
      more := more + [rest[..end]];
      rest := rest[end..];
    }
    assert more + [] == more;
  }

  lemma Regroup(a: seq<string>, b: seq<string>, c: seq<string>, d: seq<string>)
    ensures a + (b + c + d) == a + b + c + d
  {
  }

  lemma {:induction false} BytesOfJoin(a: string, b: string)
    ensures Bytes(a + b) == Bytes(a) + Bytes(b)
  {
    BytesSplit(a + b, |a|);
    assert (a + b)[..|a|] == a && (a + b)[|a|..] == b;
  }

  lemma JoinedBytes(current: string, word: string)
    ensures Bytes(Joined(current, word)) == Bytes(current) + (if current == "" then 0 else 1) + Bytes(word)
  {
    BytesOfJoin(current, " ");
    BytesOfJoin(current + " ", word);
    assert " "[1..] == "";
  }

  // ---------- Chunks are small ----------

  ghost predicate AllSmall(chunks: seq<string>, limit: nat) {
    forall i :: 0 <= i < |chunks| ==> chunks[i] != "" && Bytes(chunks[i]) <= limit
  }

  lemma {:induction false} HardSplitSmall(word: string, limit: nat)
    requires Fits(word, limit)
    ensures AllSmall(HardSplit(word, limit), limit)
    ensures Flat(HardSplit(word, limit)) == word
    ensures Bytes(word) > limit ==> |HardSplit(word, limit)| >= 2
  {
    if word != "" {
      assert word[0] in word;
      var k := Fit(word, limit);
      FitIsLast(word, limit, |word|);
      assert word[..|word|] == word;
      HardSplitSmall(word[k..], limit);
      assert word == word[..k] + word[k..];
      if Bytes(word) > limit {
        assert word[k..] != "";
      }
    }
  }

  lemma {:induction false} PackedSmall(words: seq<string>, current: string, limit: nat)
    requires (forall i :: 0 <= i < |words| ==> Fits(words[i], limit)) && AreWords(words) && Bytes(current) <= limit
    ensures AllSmall(Packed(words, current, limit), limit)
  {
    if words != [] {
      var w := words[0];
      if Bytes(w) > limit {
        HardSplitSmall(w, limit);
        PackedSmall(words[1..], "", limit);
      } else if Bytes(Joined(current, w)) > limit {
        PackedSmall(words[1..], w, limit);
      } else {
        PackedSmall(words[1..], Joined(current, w), limit);
      }
    }
  }

  lemma {:induction false} WordsAreWords(begun: string, s: string)
    requires begun == "" || IsWord(begun)
    ensures AreWords(WordsAfter(begun, s))
    decreases |s|
  {
    if s != "" {
      WordsAreWords(if IsSpace(s[0]) then "" else begun + [s[0]], s[1..]);
    }
  }

  /** No chunk is empty or over budget. */
  lemma ChunksAreSmall(content: string, limit: nat)
    requires Splittable(content, limit)
    ensures AllSmall(Chunks(content, limit), limit)
  {
    if Bytes(content) > limit {
      WordsAreWords("", content);
      PackedSmall(Words(content), "", limit);
    }
  }

  /** Four bytes hold any character. */
  lemma FourIsEnough(content: string, limit: nat)
    requires limit >= 4
    ensures Fits(content, limit) && Splittable(content, limit)
  {
    WordsFit("", content, limit);
  }

  // ---------- Nothing is lost ----------

  lemma {:induction false} WordsOfWord(begun: string, w: string)
    requires forall c :: c in w ==> !IsSpace(c)
    ensures WordsAfter(begun, w) == Whole(begun + w)
    decreases |w|
  {
    if w == "" {
      assert begun + w == begun;
    } else {
      WordsOfWord(begun + [w[0]], w[1..]);
      assert begun + [w[0]] + w[1..] == begun + w;
    }
  }

  lemma {:induction false} WordsAround(begun: string, a: string, c: char, b: string)
    requires IsSpace(c)
    ensures WordsAfter(begun, a + [c] + b) == WordsAfter(begun, a) + Words(b)
    decreases |a|
  {
    var s := a + [c] + b;
    if a == "" {
      assert s[0] == c && s[1..] == b;
    } else {
      assert s[0] == a[0] && s[1..] == a[1..] + [c] + b;
      if IsSpace(a[0]) {
        WordsAround("", a[1..], c, b);
      } else {
        WordsAround(begun + [a[0]], a[1..], c, b);
      }
    }
  }

  lemma JoinedWords(current: string, w: string)
    requires IsWord(w)
    ensures Words(Joined(current, w)) == Words(current) + [w]
  {
    WordsOfWord("", w);
    assert "" + w == w;
    if current != "" {
      WordsAround("", current, ' ', w);
    }
  }

  lemma {:induction false} AllWordsJoin(a: seq<string>, b: seq<string>)
    ensures AllWords(a + b) == AllWords(a) + AllWords(b)
  {
    if a == [] {
      assert a + b == b;
    } else {
      assert (a + b)[1..] == a[1..] + b;
      AllWordsJoin(a[1..], b);
    }
  }

  /** The words as they come out: whole, or in pieces if over budget. */
  function Pieces(words: seq<string>, limit: nat): seq<string>
    requires forall i :: 0 <= i < |words| ==> Fits(words[i], limit)
  {
    if words == [] then []
    else (if Bytes(words[0]) > limit then HardSplit(words[0], limit) else [words[0]]) + Pieces(words[1..], limit)
  }

  lemma {:induction false} PiecesAreWords(word: string, limit: nat)
    requires Fits(word, limit) && forall c :: c in word ==> !IsSpace(c)
    ensures AllWords(HardSplit(word, limit)) == HardSplit(word, limit)
  {
    if word != "" {
      assert word[0] in word;
      var k := Fit(word, limit);
      WordsOfWord("", word[..k]);
      assert "" + word[..k] == word[..k];
      PiecesAreWords(word[k..], limit);
    }
  }

  lemma AllWordsOfOne(s: string)
    ensures AllWords([s]) == Words(s) && AllWords(Whole(s)) == Words(s)
  {
    assert [s][1..] == [];
  }

  lemma Associates(a: seq<string>, b: seq<string>, c: seq<string>)
    ensures a + b + c == a + (b + c)
  {
  }

  lemma {:induction false} PackedWords(words: seq<string>, current: string, limit: nat)
    requires (forall i :: 0 <= i < |words| ==> Fits(words[i], limit)) && AreWords(words)
    ensures AllWords(Packed(words, current, limit)) == Words(current) + Pieces(words, limit)
  {
    AllWordsOfOne(current);
    if words != [] {
      var w := words[0];
      assert IsWord(w);
      if Bytes(w) > limit {
        PackedWords(words[1..], "", limit);
        PiecesAreWords(w, limit);
        AllWordsJoin(Whole(current) + HardSplit(w, limit), Packed(words[1..], "", limit));
        AllWordsJoin(Whole(current), HardSplit(w, limit));
        assert Words("") + Pieces(words[1..], limit) == Pieces(words[1..], limit);
        Associates(Words(current), HardSplit(w, limit), Pieces(words[1..], limit));
      } else if Bytes(Joined(current, w)) > limit {
        PackedWords(words[1..], w, limit);
        JoinedWords("", w);
        assert Words("") + [w] == [w];
        AllWordsJoin([current], Packed(words[1..], w, limit));
      } else {
        PackedWords(words[1..], Joined(current, w), limit);
        JoinedWords(current, w);
        Associates(Words(current), [w], Pieces(words[1..], limit));
      }
    }
  }

  lemma {:induction false} PiecesCount(words: seq<string>, limit: nat)
    requires forall i :: 0 <= i < |words| ==> Fits(words[i], limit)
    ensures |Pieces(words, limit)| >= |words|
    ensures Pieces(words, limit) == words <==> forall i :: 0 <= i < |words| ==> Bytes(words[i]) <= limit
    ensures (exists i :: 0 <= i < |words| && Bytes(words[i]) > limit) ==> |Pieces(words, limit)| > |words|
  {
    if words != [] {
      PiecesCount(words[1..], limit);
      HardSplitSmall(words[0], limit);
      assert words == [words[0]] + words[1..];
    }
  }

  /** The list of words survives the split exactly if no word is over budget. */
  lemma WordsKeptExactlyWhen(content: string, limit: nat)
    requires Splittable(content, limit)
    ensures AllWords(Chunks(content, limit)) == Words(content)
       <==> forall i :: 0 <= i < |Words(content)| ==> Bytes(Words(content)[i]) <= limit
  {
    if content != "" && Bytes(content) <= limit {
      AllWordsOfOne(content);
      WordsWithin("", content);
    } else if content != "" {
      WordsAreWords("", content);
      PackedWords(Words(content), "", limit);
      PiecesCount(Words(content), limit);
      assert Words("") + Pieces(Words(content), limit) == Pieces(Words(content), limit);
    }
  }

  lemma {:induction false} WordsWithin(begun: string, s: string)
    ensures forall i :: 0 <= i < |WordsAfter(begun, s)| ==> Bytes(WordsAfter(begun, s)[i]) <= Bytes(begun) + Bytes(s)
    decreases |s|
  {
    if s != "" {
      BytesOfJoin(begun, [s[0]]);
      assert [s[0]][1..] == "";
      WordsWithin(if IsSpace(s[0]) then "" else begun + [s[0]], s[1..]);
    }
  }

  lemma {:induction false} FlatJoin(a: seq<string>, b: seq<string>)
    ensures Flat(a + b) == Flat(a) + Flat(b)
  {
    if a == [] {
      assert a + b == b;
    } else {
      assert (a + b)[1..] == a[1..] + b;
      FlatJoin(a[1..], b);
    }
  }

  lemma {:induction false} FlatWords(begun: string, s: string)
    ensures Flat(WordsAfter(begun, s)) == begun + NonSpace(s)
    decreases |s|
  {
    FlatOne(begun);
    if s == "" {
      assert begun + "" == begun;
    } else if IsSpace(s[0]) {
      FlatWords("", s[1..]);
      FlatJoin(Whole(begun), WordsAfter("", s[1..]));
    } else {
      FlatWords(begun + [s[0]], s[1..]);
      assert begun + [s[0]] + NonSpace(s[1..]) == begun + ([s[0]] + NonSpace(s[1..]));
    }
  }

  lemma FlatOne(s: string)
    ensures Flat(Whole(s)) == s && Flat([s]) == s
  {
    assert [s][1..] == [] && s + "" == s;
  }

  lemma {:induction false} NonSpaceJoin(a: string, b: string)
    ensures NonSpace(a + b) == NonSpace(a) + NonSpace(b)
  {
    if a == "" {
      assert a + b == b;
    } else {
      assert (a + b)[1..] == a[1..] + b;
      NonSpaceJoin(a[1..], b);
    }
  }

  lemma {:induction false} NonSpaceOfChunks(chunks: seq<string>)
    ensures NonSpace(Flat(chunks)) == Flat(AllWords(chunks))
  {
    if chunks != [] {
      NonSpaceJoin(chunks[0], Flat(chunks[1..]));
      NonSpaceOfChunks(chunks[1..]);
      FlatWords("", chunks[0]);
      FlatJoin(Words(chunks[0]), AllWords(chunks[1..]));
      assert "" + NonSpace(chunks[0]) == NonSpace(chunks[0]);
    }
  }

  lemma {:induction false} FlatPieces(words: seq<string>, limit: nat)
    requires forall i :: 0 <= i < |words| ==> Fits(words[i], limit)
    ensures Flat(Pieces(words, limit)) == Flat(words)
  {
    if words != [] {
      HardSplitSmall(words[0], limit);
      FlatOne(words[0]);
      FlatPieces(words[1..], limit);
      FlatJoin(if Bytes(words[0]) > limit then HardSplit(words[0], limit) else [words[0]], Pieces(words[1..], limit));
    }
  }

  /** Every character that is not white space comes out, in order. */
  lemma NothingIsLost(content: string, limit: nat)
    requires Splittable(content, limit)
    ensures NonSpace(Flat(Chunks(content, limit))) == NonSpace(content)
  {
    if content != "" && Bytes(content) <= limit {
      FlatOne(content);
    } else if content != "" {
      WordsAreWords("", content);
      var words := Words(content);
      PackedWords(words, "", limit);
      NonSpaceOfChunks(Packed(words, "", limit));
      FlatPieces(words, limit);
      FlatWords("", content);
      assert Words("") + Pieces(words, limit) == Pieces(words, limit);
      assert "" + NonSpace(content) == NonSpace(content);
    }
  }
}
