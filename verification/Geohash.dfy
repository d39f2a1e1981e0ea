/**
 * Geohash cells by bisection, over the reals: every midpoint within twelve characters is exact in the source's floats.
 */
module Geohash {
  import opened Prelude
  import opened Texts

  const BASE32 := "0123456789bcdefghjkmnpqrstuvwxyz"

  type Digit = d: int | 0 <= d < 32

  /** The alphabet by ranges: digits, and letters without a, i, l and o. */
  function CharOf(d: Digit): char {
    if d < 10 then '0' + d as char
    else if d < 17 then 'b' + (d - 10) as char
    else if d < 19 then 'j' + (d - 17) as char
    else if d < 21 then 'm' + (d - 19) as char
    else 'p' + (d - 21) as char
  }

  function DigitOf(c: char): Option<Digit> {
    if '0' <= c <= '9' then Some((c - '0') as int)
    else if 'b' <= c <= 'h' then Some((c - 'b') as int + 10)
    else if 'j' <= c <= 'k' then Some((c - 'j') as int + 17)
    else if 'm' <= c <= 'n' then Some((c - 'm') as int + 19)
    else if 'p' <= c <= 'z' then Some((c - 'p') as int + 21)
    else None
  }

  lemma TableIs(d: Digit)
    ensures BASE32[d] == CharOf(d)
  {
  }

  lemma DigitChar32(c: char)
    requires DigitOf(c).Some?
    ensures CharOf(DigitOf(c).value) == c
  {
  }

  /** Where a character stands in the alphabet. */
  method Position(c: char) returns (r: Option<Digit>)
    ensures r == DigitOf(c)
  {
    for i := 0 to |BASE32|
      invariant forall j: Digit :: j < i ==> CharOf(j) != c
    {
      TableIs(i);
      if BASE32[i] == c {
        return Some(i);
      }
    }
    if DigitOf(c).Some? {
      DigitChar32(c);
      assert false;
    }
    return None;
  }

  datatype Point = Point(lat: real, lon: real)
  datatype Span = Span(lo: real, hi: real)
  datatype Box = Box(lat: Span, lon: Span)

  const WORLD := Box(Span(-90.0, 90.0), Span(-180.0, 180.0))

  function Mid(s: Span): real {
    (s.lo + s.hi) / 2.0
  }

  function Half(s: Span, upper: bool): Span {
    if upper then Span(Mid(s), s.hi) else Span(s.lo, Mid(s))
  }

  function Center(b: Box): Point {
    Point(Mid(b.lat), Mid(b.lon))
  }

  /** One bit narrows the longitude or the latitude, in turn. */
  function Halved(b: Box, even: bool, bit: bool): Box {
    if even then b.(lon := Half(b.lon, bit)) else b.(lat := Half(b.lat, bit))
  }

  function Narrowed(b: Box, even: bool, bits: seq<bool>): Box
    decreases |bits|
  {
    if bits == [] then b else Narrowed(Halved(b, even, bits[0]), !even, bits[1..])
  }

  /** Which axis the next bit is for after `n` more. */
  function Turned(even: bool, n: nat): bool
    decreases n
  {
    if n == 0 then even else Turned(!even, n - 1)
  }

  // ---------- Digits ----------

  function BitOf(d: Digit, place: nat): bool
    requires place <= 4
  {
    (match place case 0 => d / 16 case 1 => d / 8 case 2 => d / 4 case 3 => d / 2 case _ => d) % 2 == 1
  }

  /** The five bits of a digit, highest first. */
  function Bits(d: Digit): (bits: seq<bool>)
    ensures |bits| == 5
  {
    [BitOf(d, 0), BitOf(d, 1), BitOf(d, 2), BitOf(d, 3), BitOf(d, 4)]
  }

  function Place(i: nat): nat
    requires i <= 4
  {
    match i case 0 => 16 case 1 => 8 case 2 => 4 case 3 => 2 case _ => 1
  }

  /** The digit whose first bits these are, the rest being zero. */
  function Packed(bits: seq<bool>): (d: nat)
    requires |bits| <= 5
    ensures d <= 31
  {
    (if |bits| > 0 && bits[0] then 16 else 0) + (if |bits| > 1 && bits[1] then 8 else 0)
    + (if |bits| > 2 && bits[2] then 4 else 0) + (if |bits| > 3 && bits[3] then 2 else 0)
    + (if |bits| > 4 && bits[4] then 1 else 0)
  }

  lemma BitsPacked(bits: seq<bool>)
    requires |bits| == 5
    ensures Bits(Packed(bits)) == bits
  {
    var d := Packed(bits);
    assert BitOf(d, 0) == bits[0];
    assert BitOf(d, 1) == bits[1];
    assert BitOf(d, 2) == bits[2];
    assert BitOf(d, 3) == bits[3];
    assert BitOf(d, 4) == bits[4];
  }

  lemma PackedBits(d: Digit)
    ensures Packed(Bits(d)) == d
  {
    var half, quarter := d / 2, d / 4;
    assert d / 8 == quarter / 2 && d / 16 == quarter / 4;
  }

  // ---------- Cells ----------

  function CellFrom(b: Box, even: bool, ds: seq<Digit>): Box
    decreases |ds|
  {
    if ds == [] then b else CellFrom(Narrowed(b, even, Bits(ds[0])), !even, ds[1..])
  }

  function Cell(ds: seq<Digit>): Box {
    CellFrom(WORLD, true, ds)
  }

  /** `n` digits for a point within a box, of the first of which `bits` have been chosen. */
  function Encoding(bits: seq<bool>, b: Box, even: bool, p: Point, n: nat): (ds: seq<Digit>)
    requires |bits| < 5
    ensures |ds| == n
    decreases n, 5 - |bits|
  {
    if n == 0 then []
    else
      var bit := if even then p.lon >= Mid(b.lon) else p.lat >= Mid(b.lat);
      var more := bits + [bit];
      if |more| < 5 then Encoding(more, Halved(b, even, bit), !even, p, n)
      else [Packed(more)] + Encoding([], Halved(b, even, bit), !even, p, n - 1)
  }

  function Clamp(x: real, lo: real, hi: real): real {
    if x < lo then lo else if x > hi then hi else x
  }

  function Clamped(p: Point): Point {
    Point(Clamp(p.lat, -90.0, 90.0), Clamp(p.lon, -180.0, 180.0))
  }

  function Chars(ds: seq<Digit>): (s: string)
    ensures |s| == |ds|
  {
    if ds == [] then "" else [CharOf(ds[0])] + Chars(ds[1..])
  }

  /** The digits a text stands for; characters outside the alphabet are passed over. */
  function DigitsOf(s: string): seq<Digit> {
    if s == "" then []
    else (if DigitOf(s[0]).Some? then [DigitOf(s[0]).value] else []) + DigitsOf(s[1..])
  }

  /** The cell of any text, whatever its case. */
  function CellOf(geohash: string): Box {
    Cell(DigitsOf(Lower(geohash)))
  }

  /** The 32 cells one character deeper. */
  function Children(prefix: string): (cells: seq<string>)
    ensures |cells| == 32
  {
    seq(32, i requires 0 <= i < 32 => prefix + [CharOf(i)])
  }

  // ---------- The loops ----------

  method Bisect(s: Span, x: real) returns (narrowed: Span, upper: bool)
    ensures upper <==> x >= Mid(s)
    ensures narrowed == Half(s, upper)
  {
    var mid := (s.lo + s.hi) / 2.0;
    upper := x >= mid;
    if upper {
      narrowed := s.(lo := mid);
    } else {
      narrowed := s.(hi := mid);
    }
  }

  lemma CharsOfPushed(ds: seq<Digit>, d: Digit)
    ensures Chars(ds + [d]) == Chars(ds) + [CharOf(d)]
  {
    if ds == [] {
      assert ds + [d] == [d] && [d][1..] == [];
    } else {
      CharsOfPushed(ds[1..], d);
      assert (ds + [d])[1..] == ds[1..] + [d];
    }
  }

  /** The source ors a bit into `ch` that is clear until then, which is adding it. */
  method Encode(latitude: real, longitude: real, precision: nat) returns (out: string)
    ensures out == Chars(Encoding([], WORLD, true, Clamped(Point(latitude, longitude)), precision))
  {
    var lat, lon := WORLD.lat, WORLD.lon;
    var p := Clamped(Point(latitude, longitude));
    var isEven, bit, ch := true, 0, 0;
    out := "";
    ghost var bits, ds: seq<Digit> := [], [];
    while |out| < precision
      invariant |ds| == |out| <= precision && out == Chars(ds)
      invariant |bits| == bit <= 4 && ch == Packed(bits)
      invariant Encoding([], WORLD, true, p, precision)
             == ds + Encoding(bits, Box(lat, lon), isEven, p, precision - |out|)
      decreases precision - |out|, 5 - bit
    {
      var upper: bool;
      if isEven {
        lon, upper := Bisect(lon, p.lon);
      } else {
        lat, upper := Bisect(lat, p.lat);
      }
      if upper {
        ch := ch + Place(bit);
      }
      isEven := !isEven;
      bits := bits + [upper];
      if bit < 4 {
        bit := bit + 1;
      } else {
        CharsOfPushed(ds, ch);
        TableIs(ch);
        Appended(ds, ch, Encoding([], Box(lat, lon), isEven, p, precision - |out| - 1));
        out := out + [BASE32[ch]];
        ds := ds + [ch];
        bit, ch, bits := 0, 0, [];
      }
    }
    assert Encoding(bits, Box(lat, lon), isEven, p, 0) == [] && ds + [] == ds;
  }

  lemma Appended(ds: seq<Digit>, d: Digit, rest: seq<Digit>)
    ensures ds + ([d] + rest) == ds + [d] + rest
  {
  }

  /** Five bits of one digit, highest first. */
  method Narrow(box: Box, even: bool, d: Digit) returns (narrowed: Box)
    ensures narrowed == Narrowed(box, even, Bits(d))
  {
    narrowed := box;
    var isEven := even;
    var place := 0;
    while place < 5
      invariant 0 <= place <= 5
      invariant Narrowed(narrowed, isEven, Bits(d)[place..]) == Narrowed(box, even, Bits(d))
      decreases 5 - place
    {
      assert Bits(d)[place..][1..] == Bits(d)[place + 1..];
      var bit := BitOf(d, place);
      if isEven {
        narrowed := narrowed.(lon := Half(narrowed.lon, bit));
      } else {
        narrowed := narrowed.(lat := Half(narrowed.lat, bit));
      }
      isEven := !isEven;
      place := place + 1;
    }
  }

  method BoundingBox(geohash: string) returns (box: Box)
    ensures box == CellOf(geohash)
  {
    box := WORLD;
    var isEven := true;
    var s := Lower(geohash);
    assert s[0..] == s;
    for i := 0 to |s|
      invariant CellFrom(box, isEven, DigitsOf(s[i..])) == Cell(DigitsOf(s))
    {
      DigitsOfRest(s, i);
      var index := Position(s[i]);
      if index.None? {
        continue;
      }
      CellStep(box, isEven, index.value, DigitsOf(s[i + 1..]));
      box := Narrow(box, isEven, index.value);
      isEven := !isEven;
    }
  }

  lemma DigitsOfRest(s: string, i: nat)
    requires i < |s|
    ensures DigitsOf(s[i..])
         == if DigitOf(s[i]).Some? then [DigitOf(s[i]).value] + DigitsOf(s[i + 1..]) else DigitsOf(s[i + 1..])
  {
    assert s[i..][0] == s[i] && s[i..][1..] == s[i + 1..];
    assert [] + DigitsOf(s[i + 1..]) == DigitsOf(s[i + 1..]);
  }

  lemma CellStep(b: Box, even: bool, d: Digit, rest: seq<Digit>)
    ensures CellFrom(b, even, [d] + rest) == CellFrom(Narrowed(b, even, Bits(d)), !even, rest)
  {
    assert ([d] + rest)[1..] == rest;
  }

  method DecodeCenter(geohash: string) returns (lat: real, lon: real)
    ensures Point(lat, lon) == Center(CellOf(geohash))
  {
    var box := BoundingBox(geohash);
    lat := (box.lat.lo + box.lat.hi) / 2.0;
    lon := (box.lon.lo + box.lon.hi) / 2.0;
  }
}
