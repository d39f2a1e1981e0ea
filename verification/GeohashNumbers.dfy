/** Where a geohash lies, as numbers: its bits, taken in turn, are two binary fractions. */
module GeohashNumbers {
  import opened Prelude
  import opened Texts
  import opened Geohash
  import opened GeohashLaws

  /** 0.b1b2b3... in binary. */
  function Fraction(bits: seq<bool>): real {
    if bits == [] then 0.0 else (if bits[0] then 0.5 else 0.0) + Fraction(bits[1..]) / 2.0
  }

  /** Every other bit, with the first or without it. */
  function EveryOther(bits: seq<bool>, first: bool): seq<bool> {
    if bits == [] then [] else (if first then [bits[0]] else []) + EveryOther(bits[1..], !first)
  }

  /** The value of five bits, the first counting most. */
  ghost predicate IsDigit(bits: seq<bool>, d: int) {
    && |bits| == 5
    && d == (if bits[0] then 16 else 0) + (if bits[1] then 8 else 0) + (if bits[2] then 4 else 0)
            + (if bits[3] then 2 else 0) + (if bits[4] then 1 else 0)
  }

  /** Five bits for each digit. */
  ghost predicate BitsAre(ds: seq<Digit>, bits: seq<bool>) {
    && |bits| == 5 * |ds|
    && forall i :: 0 <= i < |ds| ==> IsDigit(bits[5 * i..5 * i + 5], ds[i])
  }

  // ---------- One axis ----------

  /** A span halved by one bit after another. */
  function Sub(s: Span, bits: seq<bool>): Span
    decreases |bits|
  {
    if bits == [] then s else Sub(Half(s, bits[0]), bits[1..])
  }

  lemma {:induction false} SubBegins(s: Span, bits: seq<bool>, width: real)
    requires s.hi == s.lo + width
    ensures Sub(s, bits).lo == s.lo + width * Fraction(bits)
    decreases |bits|
  {
    if bits != [] {
      var (half, rest) := (Half(s, bits[0]), bits[1..]);
      SubBegins(half, rest, width / 2.0);
      Scaled(width, Fraction(rest), if bits[0] then 0.5 else 0.0);
    }
  }

  lemma {:induction false} SubSize(s: Span, bits: seq<bool>)
    ensures Size(Sub(s, bits)) == Halves(Size(s), |bits|)
    decreases |bits|
  {
    if bits != [] {
      SubSize(Half(s, bits[0]), bits[1..]);
    }
  }

  lemma Scaled(width: real, f: real, b: real)
    ensures width * (b + f / 2.0) == b * width + width / 2.0 * f
  {
  }

  // ---------- Both ----------

  lemma {:induction false} NarrowedApart(b: Box, even: bool, bits: seq<bool>)
    ensures Narrowed(b, even, bits) == Box(Sub(b.lat, EveryOther(bits, !even)), Sub(b.lon, EveryOther(bits, even)))
    decreases |bits|
  {
    if bits != [] {
      NarrowedApart(Halved(b, even, bits[0]), !even, bits[1..]);
      var rest := EveryOther(bits[1..], false);
      assert EveryOther(bits, true) == [bits[0]] + rest;
      assert ([bits[0]] + rest)[1..] == rest;
      assert EveryOther(bits, false) == EveryOther(bits[1..], true);
    }
  }

  lemma DigitIs(d: Digit, bits: seq<bool>)
    requires bits == Bits(d)
    ensures IsDigit(bits, d)
  {
    PackedBits(d);
  }

  lemma {:induction false} AllBitsAre(ds: seq<Digit>)
    ensures BitsAre(ds, AllBits(ds))
  {
    if ds != [] {
      AllBitsAre(ds[1..]);
      var bits, rest := AllBits(ds), AllBits(ds[1..]);
      forall i | 0 <= i < |ds| ensures IsDigit(bits[5 * i..5 * i + 5], ds[i]) {
        if i == 0 {
          assert bits[0..5] == Bits(ds[0]);
          DigitIs(ds[0], bits[0..5]);
        } else {
          assert bits[5 * i..5 * i + 5] == rest[5 * (i - 1)..5 * (i - 1) + 5];
          assert ds[1..][i - 1] == ds[i];
        }
      }
    }
  }

  lemma SameDigit(a: seq<bool>, b: seq<bool>, d: int)
    requires IsDigit(a, d) && IsDigit(b, d)
    ensures a == b
  {
    assert a[4] == b[4];
    assert a[3] == b[3];
    assert a[2] == b[2];
    assert a[1] == b[1];
    assert a[0] == b[0];
  }

  lemma {:induction false} BitsAreAll(ds: seq<Digit>, bits: seq<bool>)
    requires BitsAre(ds, bits)
    ensures bits == AllBits(ds)
  {
    if ds != [] {
      assert bits[5 * 0..5 * 0 + 5] == bits[..5];
      DigitIs(ds[0], Bits(ds[0]));
      SameDigit(bits[..5], Bits(ds[0]), ds[0]);
      forall i | 0 <= i < |ds[1..]| ensures IsDigit(bits[5..][5 * i..5 * i + 5], ds[1..][i]) {
        assert bits[5..][5 * i..5 * i + 5] == bits[5 * (i + 1)..5 * (i + 1) + 5];
        assert IsDigit(bits[5 * (i + 1)..5 * (i + 1) + 5], ds[i + 1]);
      }
      BitsAreAll(ds[1..], bits[5..]);
      assert bits == bits[..5] + bits[5..];
    }
  }

  /** A span begins as far along the axis as the fraction says, and is as many times halved as there are bits. */
  ghost predicate SpanIs(s: Span, lo: real, width: real, bits: seq<bool>) {
    s.lo == lo + width * Fraction(bits) && s.hi - s.lo == Halves(width, |bits|)
  }

  lemma SubIs(s: Span, bits: seq<bool>, width: real)
    requires s.hi == s.lo + width
    ensures SpanIs(Sub(s, bits), s.lo, width, bits)
  {
    SubBegins(s, bits, width);
    SubSize(s, bits);
  }

  /** The cell of some digits: of their bits, the first, third and so on tell the longitude, the others the latitude. */
  lemma CellIs(ds: seq<Digit>, bits: seq<bool>)
    requires BitsAre(ds, bits)
    ensures SpanIs(Cell(ds).lon, -180.0, 360.0, EveryOther(bits, true))
    ensures SpanIs(Cell(ds).lat, -90.0, 180.0, EveryOther(bits, false))
  {
    BitsAreAll(ds, bits);
    CellByBits(WORLD, true, ds);
    NarrowedApart(WORLD, true, bits);
    var lon, lat := EveryOther(bits, true), EveryOther(bits, false);
    assert Cell(ds) == Box(Sub(WORLD.lat, lat), Sub(WORLD.lon, lon));
    SubIs(WORLD.lon, lon, 360.0);
    SubIs(WORLD.lat, lat, 180.0);
  }

  // ---------- Texts ----------

  const ALPHABET := "0123456789bcdefghjkmnpqrstuvwxyz"

  /** A character stands for a digit, in either case, if it is there in the alphabet. */
  lemma StandsExactlyWhen(c: char, d: Digit)
    ensures DigitOf(LowerChar(c)) == Some(d)
       <==> ALPHABET[d] == c || ('A' <= c <= 'Z' && ALPHABET[d] as int == c as int + 32)
  {
    TableIs(d);
    if DigitOf(LowerChar(c)).Some? {
      DigitChar32(LowerChar(c));
      TableIs(DigitOf(LowerChar(c)).value);
    }
    CharDigit(d);
  }

  lemma CharDigit(d: Digit)
    ensures DigitOf(CharOf(d)) == Some(d)
  {
  }

  function Standing(c: char): seq<Digit> {
    if DigitOf(LowerChar(c)).Some? then [DigitOf(LowerChar(c)).value] else []
  }

  lemma LowerFurther(c: char, s: string)
    ensures Lower([c] + s) == [LowerChar(c)] + Lower(s)
    ensures DigitsOf(Lower([c] + s)) == Standing(c) + DigitsOf(Lower(s))
  {
    assert Lower([c] + s)[1..] == Lower(s);
  }

  lemma Regroup(a: seq<Digit>, b: seq<Digit>, c: seq<Digit>, d: seq<Digit>)
    ensures a + (b + c + d) == (a + b) + c + d
  {
  }

  lemma Spelled(c: char, rest: string, more: string)
    ensures [c] + rest + more == [c] + (rest + more)
  {
  }

  /** The digits a text stands for, one by one; a character that stands for none is passed over. */
  lemma {:induction false} DigitsAre(a: string, c: char, b: string)
    ensures DigitsOf(Lower(a + ([c] + b))) == DigitsOf(Lower(a)) + Standing(c) + DigitsOf(Lower(b))
    decreases |a|
  {
    LowerFurther(c, b);
    if a == "" {
      assert "" + ([c] + b) == [c] + b;
    } else {
      var front := a[1..];
      DigitsAre(front, c, b);
      LowerFurther(a[0], front + ([c] + b));
      LowerFurther(a[0], front);
      assert a == [a[0]] + front;
      Spelled(a[0], front, [c] + b);
      Regroup(Standing(a[0]), DigitsOf(Lower(front)), Standing(c), DigitsOf(Lower(b)));
    }
  }
}
