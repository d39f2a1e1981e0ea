/** What the bisection means: cells partition the world, encoding finds the one a point is in, decoding inverts it. */
module GeohashLaws {
  import opened Prelude
  import opened Texts
  import opened Geohash

  // ---------- Points within cells ----------

  /** Half open, but closed where the world ends. */
  predicate Holds(s: Span, x: real, top: real) {
    s.lo <= x && (x < s.hi || (x == s.hi && x == top))
  }

  predicate Within(b: Box, p: Point) {
    Holds(b.lat, p.lat, 90.0) && Holds(b.lon, p.lon, 180.0)
  }

  predicate Proper(b: Box) {
    b.lat.lo < b.lat.hi <= 90.0 && b.lon.lo < b.lon.hi <= 180.0
  }

  function Chosen(b: Box, even: bool, p: Point): bool {
    if even then p.lon >= Mid(b.lon) else p.lat >= Mid(b.lat)
  }

  lemma {:induction false} NarrowedWithin(b: Box, even: bool, bits: seq<bool>, p: Point)
    requires Proper(b)
    ensures Proper(Narrowed(b, even, bits))
    ensures Within(Narrowed(b, even, bits), p) ==> Within(b, p)
    decreases |bits|
  {
    if bits != [] {
      NarrowedWithin(Halved(b, even, bits[0]), !even, bits[1..], p);
    }
  }

  lemma {:induction false} CellWithin(b: Box, even: bool, ds: seq<Digit>, p: Point)
    requires Proper(b)
    ensures Proper(CellFrom(b, even, ds))
    ensures Within(CellFrom(b, even, ds), p) ==> Within(b, p)
    decreases |ds|
  {
    if ds != [] {
      NarrowedWithin(b, even, Bits(ds[0]), p);
      CellWithin(Narrowed(b, even, Bits(ds[0])), !even, ds[1..], p);
    }
  }

  // ---------- Encoding classifies ----------

  /** Once a bit is not the digit's, the digit cannot come out. */
  lemma {:induction false} WrongBit(bits: seq<bool>, b: Box, even: bool, p: Point, n: nat, right: seq<bool>, j: nat)
    requires n > 0 && j < |bits| < 5 && |right| == 5 && bits[j] != right[j]
    ensures Encoding(bits, b, even, p, n)[0] != Packed(right)
    decreases 5 - |bits|
  {
    var more := bits + [Chosen(b, even, p)];
    assert more[j] == bits[j];
    if |more| < 5 {
      WrongBit(more, Halved(b, even, Chosen(b, even, p)), !even, p, n, right, j);
    } else if Packed(more) == Packed(right) {
      PackedOnce(more, right);
    }
  }

  lemma PackedOnce(a: seq<bool>, b: seq<bool>)
    requires |a| == |b| == 5 && Packed(a) == Packed(b)
    ensures a == b
  {
    BitsPacked(a);
    BitsPacked(b);
  }

  lemma WrongChoice(bits: seq<bool>, b: Box, even: bool, p: Point, n: nat, right: seq<bool>)
    requires n > 0 && |bits| < 5 && |right| == 5 && right[|bits|] != Chosen(b, even, p)
    ensures Encoding(bits, b, even, p, n)[0] != Packed(right)
  {
    var more := bits + [Chosen(b, even, p)];
    if |more| < 5 {
      WrongBit(more, Halved(b, even, Chosen(b, even, p)), !even, p, n, right, |bits|);
    } else if Packed(more) == Packed(right) {
      PackedOnce(more, right);
    }
  }

  /**
   * With `k` bits of the first digit chosen right, the digits come out exactly if the point is in the cell they lead
   * to.
   */
  lemma {:induction false} EncodesExactlyWhen(k: nat, bits: seq<bool>, b: Box, even: bool, p: Point, ds: seq<Digit>)
    requires k < |bits| == 5 && ds != [] && ds[0] == Packed(bits) && Proper(b) && Within(b, p)
    ensures Encoding(bits[..k], b, even, p, |ds|) == ds
       <==> Within(CellFrom(Narrowed(b, even, bits[k..]), Turned(even, 5 - k), ds[1..]), p)
    decreases |ds|, 5 - k
  {
    var half := Halved(b, even, bits[k]);
    BitNarrows(b, even, bits, k);
    if bits[k] != Chosen(b, even, p) {
      NotInside(half, !even, bits[k + 1..], Turned(even, 5 - k), ds[1..], p);
      WrongChoice(bits[..k], b, even, p, |ds|, bits);
    } else {
      BitChosen(bits, k, b, even, p, |ds|);
      if k < 4 {
        EncodesExactlyWhen(k + 1, bits, half, !even, p, ds);
      } else {
        DigitChosen(half, !even, p, ds);
        assert Narrowed(half, !even, bits[5..]) == half;
        assert Turned(!even, 0) == !even;
      }
    }
  }

  /** With all five bits of a digit chosen right, what is left are the digits behind it. */
  lemma {:induction false} DigitChosen(b: Box, even: bool, p: Point, ds: seq<Digit>)
    requires ds != [] && Proper(b) && Within(b, p)
    ensures [ds[0]] + Encoding([], b, even, p, |ds| - 1) == ds <==> Within(CellFrom(b, even, ds[1..]), p)
    decreases |ds|, 0
  {
    var rest := Encoding([], b, even, p, |ds| - 1);
    assert ds == [ds[0]] + ds[1..];
    assert ([ds[0]] + rest)[1..] == rest;
    if |ds| > 1 {
      FromDigit(b, even, p, ds[1..]);
    }
  }

  /** From the start of a digit. */
  lemma {:induction false} FromDigit(b: Box, even: bool, p: Point, ds: seq<Digit>)
    requires ds != [] && Proper(b) && Within(b, p)
    ensures Encoding([], b, even, p, |ds|) == ds <==> Within(CellFrom(b, even, ds), p)
    decreases |ds|, 6
  {
    var bits := Bits(ds[0]);
    PackedBits(ds[0]);
    EncodesExactlyWhen(0, bits, b, even, p, ds);
    assert bits[..0] == [] && bits[0..] == bits;
  }

  lemma NotInside(b: Box, even: bool, bits: seq<bool>, later: bool, ds: seq<Digit>, p: Point)
    requires Proper(b) && !Within(b, p)
    ensures !Within(CellFrom(Narrowed(b, even, bits), later, ds), p)
  {
    NarrowedWithin(b, even, bits, p);
    CellWithin(Narrowed(b, even, bits), later, ds, p);
  }

  lemma BitNarrows(b: Box, even: bool, bits: seq<bool>, k: nat)
    requires k < |bits|
    ensures Narrowed(b, even, bits[k..]) == Narrowed(Halved(b, even, bits[k]), !even, bits[k + 1..])
  {
    assert bits[k..][0] == bits[k] && bits[k..][1..] == bits[k + 1..];
  }

  lemma BitChosen(bits: seq<bool>, k: nat, b: Box, even: bool, p: Point, n: nat)
    requires k < |bits| == 5 && bits[k] == Chosen(b, even, p) && n > 0
    ensures var half := Halved(b, even, bits[k]);
            Encoding(bits[..k], b, even, p, n)
            == if k < 4 then Encoding(bits[..k + 1], half, !even, p, n)
               else [Packed(bits)] + Encoding([], half, !even, p, n - 1)
  {
    assert bits[..k] + [bits[k]] == bits[..k + 1];
    assert bits[..5] == bits;
  }

  /** Encoding a point gives a geohash exactly if the point, clamped, is in its cell: cells partition the world. */
  lemma CellsPartition(lat: real, lon: real, ds: seq<Digit>)
    ensures Encoding([], WORLD, true, Clamped(Point(lat, lon)), |ds|) == ds
       <==> Within(Cell(ds), Clamped(Point(lat, lon)))
  {
    if ds != [] {
      FromDigit(WORLD, true, Clamped(Point(lat, lon)), ds);
    }
  }

  // ---------- Texts and digits ----------

  predicate AllValid(geohash: string) {
    forall i :: 0 <= i < |geohash| ==> DigitOf(Lower(geohash)[i]).Some?
  }

  lemma {:induction false} DigitsOfChars(ds: seq<Digit>)
    ensures DigitsOf(Lower(Chars(ds))) == ds
  {
    if ds != [] {
      var s := Chars(ds);
      DigitsOfChars(ds[1..]);
      assert LowerChar(CharOf(ds[0])) == CharOf(ds[0]);
      assert Lower(s)[0] == CharOf(ds[0]) && Lower(s)[1..] == Lower(s[1..]) && s[1..] == Chars(ds[1..]);
    }
  }

  lemma {:induction false} CharsOfDigits(s: string)
    requires forall i :: 0 <= i < |s| ==> DigitOf(s[i]).Some?
    ensures Chars(DigitsOf(s)) == s
  {
    if s != "" {
      CharsOfDigits(s[1..]);
      DigitChar32(s[0]);
      assert DigitsOf(s)[1..] == DigitsOf(s[1..]);
    }
  }

  lemma {:induction false} CharsAreValid(ds: seq<Digit>, i: nat)
    requires i < |ds|
    ensures DigitOf(Chars(ds)[i]) == Some(ds[i])
  {
    if i == 0 {
    } else {
      CharsAreValid(ds[1..], i - 1);
    }
  }

  /** The geohash of a point, as `Encode` puts it out. */
  function Encoded(p: Point, precision: nat): string {
    Chars(Encoding([], WORLD, true, Clamped(p), precision))
  }

  /** The box of a point's geohash holds the point, clamped to the world. */
  lemma BoxHoldsPoint(lat: real, lon: real, precision: nat)
    ensures Within(CellOf(Encoded(Point(lat, lon), precision)), Clamped(Point(lat, lon)))
  {
    var ds := Encoding([], WORLD, true, Clamped(Point(lat, lon)), precision);
    CellsPartition(lat, lon, ds);
    DigitsOfChars(ds);
  }

  /**
   * Encoding the centre of a text's cell gives the text back, in lower case, exactly if it has no foreign character.
   */
  lemma CenterExactlyWhen(geohash: string)
    ensures Encoded(Center(CellOf(geohash)), |geohash|) == Lower(geohash) <==> AllValid(geohash)
  {
    var p := Center(CellOf(geohash));
    var ds := DigitsOf(Lower(geohash));
    CellWithin(WORLD, true, ds, p);
    if AllValid(geohash) {
      CharsOfDigits(Lower(geohash));
      CellsPartition(p.lat, p.lon, ds);
    }
    var out := Encoding([], WORLD, true, Clamped(p), |geohash|);
    if Chars(out) == Lower(geohash) {
      forall i | 0 <= i < |geohash| ensures DigitOf(Lower(geohash)[i]).Some? {
        CharsAreValid(out, i);
      }
    }
  }

  // ---------- Sizes ----------

  function Pow2(k: nat): real {
    if k == 0 then 1.0 else 2.0 * Pow2(k - 1)
  }

  function Size(s: Span): real {
    s.hi - s.lo
  }

  /** After `n` bits from here, how many were of longitude. */
  function LonBits(even: bool, n: nat): nat {
    if even then (n + 1) / 2 else n / 2
  }

  function Halves(x: real, k: nat): real
    decreases k
  {
    if k == 0 then x else Halves(x / 2.0, k - 1)
  }

  lemma {:induction false} HalvesTimesPow2(x: real, whole: real, k: nat)
    requires x == Halves(whole, k)
    ensures x * Pow2(k) == whole
    decreases k
  {
    if k > 0 {
      HalvesTimesPow2(x, whole / 2.0, k - 1);
      var m := Pow2(k - 1);
      assert x * (2.0 * m) == 2.0 * (x * m);
    }
  }

  lemma {:induction false} NarrowedSize(b: Box, even: bool, bits: seq<bool>)
    ensures Size(Narrowed(b, even, bits).lon) == Halves(Size(b.lon), LonBits(even, |bits|))
    ensures Size(Narrowed(b, even, bits).lat) == Halves(Size(b.lat), LonBits(!even, |bits|))
    decreases |bits|
  {
    if bits != [] {
      NarrowedSize(Halved(b, even, bits[0]), !even, bits[1..]);
    }
  }

  function AllBits(ds: seq<Digit>): (bits: seq<bool>)
    ensures |bits| == 5 * |ds|
  {
    if ds == [] then [] else Bits(ds[0]) + AllBits(ds[1..])
  }

  lemma {:induction false} NarrowedFurther(b: Box, even: bool, a: seq<bool>, c: seq<bool>)
    ensures Narrowed(b, even, a + c) == Narrowed(Narrowed(b, even, a), Turned(even, |a|), c)
    decreases |a|
  {
    if a == [] {
      assert a + c == c;
    } else {
      NarrowedFurther(Halved(b, even, a[0]), !even, a[1..], c);
      assert (a + c)[1..] == a[1..] + c;
    }
  }

  lemma {:induction false} CellByBits(b: Box, even: bool, ds: seq<Digit>)
    ensures CellFrom(b, even, ds) == Narrowed(b, even, AllBits(ds))
    decreases |ds|
  {
    if ds != [] {
      CellByBits(Narrowed(b, even, Bits(ds[0])), !even, ds[1..]);
      NarrowedFurther(b, even, Bits(ds[0]), AllBits(ds[1..]));
    }
  }

  lemma CellFromSize(b: Box, even: bool, ds: seq<Digit>)
    ensures Size(CellFrom(b, even, ds).lon) == Halves(Size(b.lon), LonBits(even, 5 * |ds|))
    ensures Size(CellFrom(b, even, ds).lat) == Halves(Size(b.lat), LonBits(!even, 5 * |ds|))
  {
    CellByBits(b, even, ds);
    NarrowedSize(b, even, AllBits(ds));
  }

  /** A cell of `p` characters is 360 degrees halved ceil(5p/2) times wide and 180 halved floor(5p/2) times high. */
  lemma CellSize(ds: seq<Digit>)
    ensures Size(Cell(ds).lon) == Halves(360.0, (5 * |ds| + 1) / 2)
    ensures Size(Cell(ds).lat) == Halves(180.0, 5 * |ds| / 2)
  {
    CellFromSize(WORLD, true, ds);
    assert Size(WORLD.lon) == 360.0 && Size(WORLD.lat) == 180.0;
    assert LonBits(true, 5 * |ds|) == (5 * |ds| + 1) / 2 && LonBits(false, 5 * |ds|) == 5 * |ds| / 2;
  }

  // ---------- Children ----------

  lemma {:induction false} AllBitsOfPushed(ds: seq<Digit>, d: Digit)
    ensures AllBits(ds + [d]) == AllBits(ds) + Bits(d)
  {
    if ds == [] {
      assert ds + [d] == [d] && AllBits([d][1..]) == [];
      assert AllBits([d]) == Bits(d) + [];
    } else {
      AllBitsOfPushed(ds[1..], d);
      assert (ds + [d])[1..] == ds[1..] + [d];
    }
  }

  lemma {:induction false} TurnsByFive(even: bool, n: nat)
    ensures Turned(even, 5 * n) == Turned(even, n)
    decreases n
  {
    if n > 0 {
      TurnsFurther(even, 5, 5 * (n - 1));
      TurnsByFive(!even, n - 1);
    }
  }

  lemma {:induction false} TurnsFurther(even: bool, a: nat, c: nat)
    ensures Turned(even, a + c) == Turned(Turned(even, a), c)
    decreases a
  {
    if a > 0 {
      TurnsFurther(!even, a - 1, c);
    }
  }

  lemma CellFurther(b: Box, even: bool, ds: seq<Digit>, d: Digit)
    ensures CellFrom(b, even, ds + [d]) == Narrowed(CellFrom(b, even, ds), Turned(even, |ds|), Bits(d))
  {
    CellByBits(b, even, ds + [d]);
    CellByBits(b, even, ds);
    AllBitsOfPushed(ds, d);
    TurnsByFive(even, |ds|);
    FurtherBits(b, even, AllBits(ds), Bits(d), Turned(even, |ds|));
  }

  lemma FurtherBits(b: Box, even: bool, a: seq<bool>, c: seq<bool>, later: bool)
    requires later == Turned(even, |a|)
    ensures Narrowed(b, even, a + c) == Narrowed(Narrowed(b, even, a), later, c)
  {
    NarrowedFurther(b, even, a, c);
  }

  lemma {:induction false} DigitsOfPushed(s: string, d: Digit)
    ensures DigitsOf(s + [CharOf(d)]) == DigitsOf(s) + [d]
  {
    if s == "" {
      assert s + [CharOf(d)] == [CharOf(d)] && DigitsOf([CharOf(d)][1..]) == [];
    } else {
      DigitsOfPushed(s[1..], d);
      assert (s + [CharOf(d)])[1..] == s[1..] + [CharOf(d)];
    }
  }

  /**
   * Each child's cell is the parent's narrowed by five bits, starting with longitude if the parent's length is even.
   */
  lemma ChildCell(prefix: string, d: Digit)
    ensures CellOf(Children(prefix)[d])
         == Narrowed(CellOf(prefix), Turned(true, |DigitsOf(Lower(prefix))|), Bits(d))
  {
    var s := Lower(prefix);
    assert LowerChar(CharOf(d)) == CharOf(d);
    assert Lower(Children(prefix)[d]) == s + [CharOf(d)];
    DigitsOfPushed(s, d);
    CellFurther(WORLD, true, DigitsOf(s), d);
  }

  /** The children tile the parent: every point of it, edges at the end of the world included, is in exactly one. */
  lemma ChildrenTile(prefix: string, p: Point) returns (d: Digit)
    requires Within(CellOf(prefix), p)
    ensures forall i: Digit :: Within(CellOf(Children(prefix)[i]), p) <==> i == d
  {
    var b, even := CellOf(prefix), Turned(true, |DigitsOf(Lower(prefix))|);
    CellWithin(WORLD, true, DigitsOf(Lower(prefix)), p);
    var ds := Encoding([], b, even, p, 1);
    d := ds[0];
    forall i: Digit ensures Within(CellOf(Children(prefix)[i]), p) <==> i == d {
      ChildCell(prefix, i);
      OneDigit(b, even, p, i);
    }
  }

  lemma OneDigit(b: Box, even: bool, p: Point, d: Digit)
    requires Proper(b) && Within(b, p)
    ensures Encoding([], b, even, p, 1)[0] == d <==> Within(Narrowed(b, even, Bits(d)), p)
  {
    var ds := Encoding([], b, even, p, |[d]|);
    FromDigit(b, even, p, [d]);
    CellStep(b, even, d, []);
    assert [d] + [] == [d] && ds == [ds[0]];
  }

  /** And no child reaches outside its parent. */
  lemma ChildrenInside(prefix: string, d: Digit, p: Point)
    requires Within(CellOf(Children(prefix)[d]), p)
    ensures Within(CellOf(prefix), p)
  {
    ChildCell(prefix, d);
    CellWithin(WORLD, true, DigitsOf(Lower(prefix)), p);
    NarrowedWithin(CellOf(prefix), Turned(true, |DigitsOf(Lower(prefix))|), Bits(d), p);
  }
}
