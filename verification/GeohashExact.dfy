/**
 * Why laws over the reals speak of the source's 64-bit floats: up to seventeen characters no bisection rounds anything.
 */
module GeohashExact {
  import opened Texts
  import opened Geohash
  import opened GeohashLaws
  import opened GeohashGrid

  const MANTISSA := 0x20_0000_0000_0000

  predicate IsOver(x: real, k: nat, n: int) {
    x * Pow2(k) == n as real
  }

  /** A whole number of `k`-fold halves. */
  ghost predicate Dyadic(x: real, k: nat) {
    exists n: int :: IsOver(x, k, n)
  }

  /** What a 64-bit float holds without rounding (section 3.4 of IEEE 754): 53 bits and an exponent. */
  ghost predicate Exact(x: real) {
    exists k: nat, n: int :: k <= 1074 && -MANTISSA <= n <= MANTISSA && IsOver(x, k, n)
  }

  /** The bounds of a span, their sum and their middle: all that the source computes from it. */
  ghost predicate ExactSpan(s: Span) {
    Exact(s.lo) && Exact(s.hi) && Exact(s.lo + s.hi) && Exact(Mid(s))
  }

  ghost predicate DyadicSpan(s: Span, k: nat) {
    Dyadic(s.lo, k) && Dyadic(s.hi, k) && -180.0 <= s.lo <= 180.0 && -180.0 <= s.hi <= 180.0
  }

  lemma DyadicFiner(x: real, k: nat, next: nat)
    requires Dyadic(x, k) && next == k + 1
    ensures Dyadic(x, next) && Dyadic(x / 2.0, next)
  {
    var n: int :| IsOver(x, k, n);
    var m := Pow2(k);
    assert x * (2.0 * m) == 2.0 * (x * m);
    assert x / 2.0 * (2.0 * m) == x * m;
    assert IsOver(x, next, 2 * n) && IsOver(x / 2.0, next, n);
  }

  lemma DyadicSum(x: real, y: real, k: nat)
    requires Dyadic(x, k) && Dyadic(y, k)
    ensures Dyadic(x + y, k)
  {
    var n: int, m: int :| IsOver(x, k, n) && IsOver(y, k, m);
    var p := Pow2(k);
    assert (x + y) * p == x * p + y * p;
    assert IsOver(x + y, k, n + m);
  }

  lemma HalfIsDyadic(s: Span, k: nat, next: nat, upper: bool)
    requires DyadicSpan(s, k) && next == k + 1
    ensures Dyadic(Mid(s), next) && DyadicSpan(Half(s, upper), next) && DyadicSpan(s, next)
  {
    DyadicSum(s.lo, s.hi, k);
    DyadicFiner(s.lo + s.hi, k, next);
    DyadicFiner(s.lo, k, next);
    DyadicFiner(s.hi, k, next);
  }

  lemma {:induction false} NarrowedIsDyadic(b: Box, even: bool, bits: seq<bool>, i: nat, j: nat)
    requires DyadicSpan(b.lon, i) && DyadicSpan(b.lat, j)
    ensures DyadicSpan(Narrowed(b, even, bits).lon, i + LonBits(even, |bits|))
    ensures DyadicSpan(Narrowed(b, even, bits).lat, j + LonBits(!even, |bits|))
    decreases |bits|
  {
    if bits != [] {
      HalfIsDyadic(b.lon, i, i + 1, bits[0]);
      HalfIsDyadic(b.lat, j, j + 1, bits[0]);
      NarrowedIsDyadic(Halved(b, even, bits[0]), !even, bits[1..],
                       if even then i + 1 else i, if even then j else j + 1);
    }
  }

  lemma DyadicIsExact(x: real, k: nat)
    requires Dyadic(x, k) && -360.0 <= x <= 360.0 && k <= 44
    ensures Exact(x)
  {
    var n: int :| IsOver(x, k, n);
    Pow2UpTo(k);
    Scaled(x, Pow2(k));
    assert -MANTISSA <= n <= MANTISSA;
  }

  lemma Scaled(x: real, m: real)
    requires -360.0 <= x <= 360.0 && 0.0 < m <= 17592186044416.0
    ensures -9007199254740992.0 <= x * m <= 9007199254740992.0
  {
    assert x * m <= 360.0 * m;
    assert -(360.0 * m) <= x * m;
  }

  lemma Pow2UpTo(k: nat)
    requires k <= 44
    ensures 0.0 < Pow2(k) <= 17592186044416.0
  {
    Pow2Times(k, 44 - k);
    Pow2AtLeast(44 - k);
    Pow2AtLeast(k);
    Pow2FortyFour();
    var a, b := Pow2(k), Pow2(44 - k);
    assert a * b >= a * 1.0;
  }

  lemma Pow2FortyFour()
    ensures Pow2(44) == 17592186044416.0
  {
    Pow2Thirty();
    Pow2Times(7, 7);
    Pow2Times(14, 30);
    assert Pow2(7) == 128.0;
  }

  lemma SpanIsExact(s: Span, k: nat)
    requires DyadicSpan(s, k) && k <= 43
    ensures ExactSpan(s)
  {
    HalfIsDyadic(s, k, k + 1, true);
    DyadicSum(s.lo, s.hi, k);
    DyadicIsExact(s.lo, k);
    DyadicIsExact(s.hi, k);
    DyadicIsExact(s.lo + s.hi, k);
    DyadicIsExact(Mid(s), k + 1);
  }

  /** Whatever box up to 85 bits of bisection lead to, its bounds and middles are exact: 85 bits are 17 characters. */
  lemma BisectionIsExact(bits: seq<bool>)
    requires |bits| <= 85
    ensures ExactSpan(Narrowed(WORLD, true, bits).lon) && ExactSpan(Narrowed(WORLD, true, bits).lat)
  {
    WorldIsDyadic();
    NarrowedIsDyadic(WORLD, true, bits, 0, 0);
    SpanIsExact(Narrowed(WORLD, true, bits).lon, LonBits(true, |bits|));
    SpanIsExact(Narrowed(WORLD, true, bits).lat, LonBits(false, |bits|));
  }

  lemma WorldIsDyadic()
    ensures DyadicSpan(WORLD.lon, 0) && DyadicSpan(WORLD.lat, 0)
  {
    assert IsOver(-180.0, 0, -180) && IsOver(180.0, 0, 180) && IsOver(-90.0, 0, -90) && IsOver(90.0, 0, 90);
  }

  /**
   * Up to the twelve characters a geohash may have, and in floats that round nowhere on the way: encoding the centre of
   * a text's cell gives the text back in lower case exactly if it has no foreign character.
   */
  lemma CenterUpToTwelve(geohash: string)
    requires |geohash| <= 12
    ensures Encoded(Center(CellOf(geohash)), |geohash|) == Lower(geohash) <==> AllValid(geohash)
    ensures forall bits: seq<bool> :: |bits| <= 5 * |geohash|
              ==> ExactSpan(Narrowed(WORLD, true, bits).lon) && ExactSpan(Narrowed(WORLD, true, bits).lat)
  {
    CenterExactlyWhen(geohash);
    forall bits: seq<bool> | |bits| <= 5 * |geohash|
      ensures ExactSpan(Narrowed(WORLD, true, bits).lon) && ExactSpan(Narrowed(WORLD, true, bits).lat)
    {
      BisectionIsExact(bits);
    }
  }
}
