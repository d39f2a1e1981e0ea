/** The 32 children of a cell laid out on the grid the eye sees. */
module GeohashGrid {
  import opened Texts
  import opened Geohash
  import opened GeohashLaws

  /** 2 to the power of -52, the spacing of the source's floats at one. */
  const EPSILON := 1.0 / 4503599627370496.0

  datatype GridCell = GridCell(geohash: string, row: nat, col: nat, box: Box)

  // ---------- Sorting, merging, finding ----------

  function Apart(a: real, b: real): real {
    if a < b then b - a else a - b
  }

  predicate Ahead(a: real, b: real, down: bool) {
    if down then a > b else a < b
  }

  function Inserted(x: real, s: seq<real>, down: bool): seq<real> {
    if s == [] || !Ahead(s[0], x, down) then [x] + s else [s[0]] + Inserted(x, s[1..], down)
  }

  function Sorted(s: seq<real>, down: bool): seq<real> {
    if s == [] then [] else Inserted(s[0], Sorted(s[1..], down), down)
  }

  /** Rust's `dedup_by`: an element too near the last one kept is dropped. */
  function MergedAfter(last: real, s: seq<real>): seq<real>
    decreases |s|
  {
    if s == [] then []
    else if Apart(s[0], last) < EPSILON then MergedAfter(last, s[1..])
    else [s[0]] + MergedAfter(s[0], s[1..])
  }

  function Merged(s: seq<real>): seq<real> {
    if s == [] then [] else [s[0]] + MergedAfter(s[0], s[1..])
  }

  /** The first place near `x`, or zero. */
  function Near(s: seq<real>, x: real): (i: nat)
    ensures i <= |s|
  {
    if s == [] then 0
    else if Apart(s[0], x) < EPSILON then 0
    else if Near(s[1..], x) == |s[1..]| then |s|
    else 1 + Near(s[1..], x)
  }

  function Place(s: seq<real>, x: real): nat {
    if Near(s, x) == |s| then 0 else Near(s, x)
  }

  function Centers(prefix: string): (cs: seq<Point>)
    ensures |cs| == 32
  {
    seq(32, i requires 0 <= i < 32 => Center(CellOf(Children(prefix)[i])))
  }

  function Lats(cs: seq<Point>): (s: seq<real>)
    ensures |s| == |cs|
  {
    seq(|cs|, i requires 0 <= i < |cs| => cs[i].lat)
  }

  function Lons(cs: seq<Point>): (s: seq<real>)
    ensures |s| == |cs|
  {
    seq(|cs|, i requires 0 <= i < |cs| => cs[i].lon)
  }

  function Rows(prefix: string): seq<real> {
    Merged(Sorted(Lats(Centers(prefix)), true))
  }

  function Cols(prefix: string): seq<real> {
    Merged(Sorted(Lons(Centers(prefix)), false))
  }

  function CellAt(prefix: string, d: Digit): GridCell {
    var geohash := Children(prefix)[d];
    GridCell(geohash, Place(Rows(prefix), Centers(prefix)[d].lat), Place(Cols(prefix), Centers(prefix)[d].lon),
             CellOf(geohash))
  }

  function Layout(prefix: string): (layout: seq<GridCell>)
    ensures |layout| == 32
  {
    seq(32, d requires 0 <= d < 32 => CellAt(prefix, d))
  }

  method GridLayout(prefix: string) returns (layout: seq<GridCell>)
    ensures layout == Layout(prefix)
  {
    var children, boxes := Children(prefix), [];
    for i := 0 to 32
      invariant |boxes| == i && forall j: Digit :: j < i ==> boxes[j] == CellOf(children[j])
    {
      var box := BoundingBox(children[i]);
      boxes := boxes + [box];
    }
    var centers := seq(32, i requires 0 <= i < 32 => Center(boxes[i]));
    assert centers == Centers(prefix);
    var lats, lons := Sorted(Lats(centers), true), Sorted(Lons(centers), false);
    lats, lons := Merged(lats), Merged(lons);
    layout := [];
    for i := 0 to 32
      invariant |layout| == i && forall j: Digit :: j < i ==> layout[j] == CellAt(prefix, j)
    {
      layout := layout + [GridCell(children[i], Place(lats, centers[i].lat), Place(lons, centers[i].lon), boxes[i])];
    }
  }

  // ---------- Ladders ----------

  /** Evenly spaced values. */
  function Rung(first: real, step: real, i: nat): real {
    if i == 0 then first else Rung(first, step, i - 1) + step
  }

  predicate Leads(step: real, down: bool) {
    if down then step < 0.0 else step > 0.0
  }

  lemma {:induction false} RungsApart(first: real, step: real, i: nat, j: nat, down: bool)
    requires Leads(step, down) && i < j
    ensures Ahead(Rung(first, step, i), Rung(first, step, j), down)
    ensures Apart(Rung(first, step, i), Rung(first, step, j)) >= Apart(step, 0.0)
    decreases j
  {
    if i < j - 1 {
      RungsApart(first, step, i, j - 1, down);
    }
  }

  predicate IsRung(x: real, first: real, step: real, i: nat) {
    x == Rung(first, step, i)
  }

  /** Nothing but rungs from the `k`-th on. */
  ghost predicate OnRungs(s: seq<real>, first: real, step: real, k: nat, n: nat) {
    forall x :: x in s ==> exists i :: k <= i < n && IsRung(x, first, step, i)
  }

  /** Each rung from the `k`-th on. */
  ghost predicate HasRungs(s: seq<real>, first: real, step: real, k: nat, n: nat) {
    forall i :: k <= i < n ==> Rung(first, step, i) in s
  }

  /** Values that are the first `n` rungs, each at least once. */
  ghost predicate Fills(s: seq<real>, first: real, step: real, n: nat) {
    OnRungs(s, first, step, 0, n) && HasRungs(s, first, step, 0, n)
  }

  ghost predicate InOrder(s: seq<real>, down: bool) {
    forall i, j :: 0 <= i < j < |s| ==> !Ahead(s[j], s[i], down)
  }

  lemma {:induction false} InsertedKeeps(x: real, s: seq<real>, down: bool)
    requires InOrder(s, down)
    ensures InOrder(Inserted(x, s, down), down)
    ensures forall y :: y in Inserted(x, s, down) <==> y == x || y in s
  {
    if s != [] && Ahead(s[0], x, down) {
      InsertedKeeps(x, s[1..], down);
      var rest := Inserted(x, s[1..], down);
      forall j | 0 <= j < |rest| ensures !Ahead(rest[j], s[0], down) {
        assert rest[j] in rest;
        assert rest[j] == x || rest[j] in s[1..];
      }
    }
  }

  lemma {:induction false} SortedKeeps(s: seq<real>, down: bool)
    ensures InOrder(Sorted(s, down), down)
    ensures forall y :: y in Sorted(s, down) <==> y in s
  {
    if s != [] {
      SortedKeeps(s[1..], down);
      InsertedKeeps(s[0], Sorted(s[1..], down), down);
    }
  }

  function Ladder(first: real, step: real, from: nat, n: nat): (s: seq<real>)
    requires from <= n
    ensures |s| == n - from
    decreases n - from
  {
    if from == n then [] else [Rung(first, step, from)] + Ladder(first, step, from + 1, n)
  }

  lemma WhichRung(s: seq<real>, first: real, step: real, k: nat, n: nat) returns (i: nat)
    requires s != [] && OnRungs(s, first, step, k, n)
    ensures k <= i < n && s[0] == Rung(first, step, i)
  {
    assert s[0] in s;
    i :| k <= i < n && IsRung(s[0], first, step, i);
  }

  /** What follows the `k`-th rung, sorted, merges into the rungs above it. */
  lemma {:induction false} MergesAbove(s: seq<real>, first: real, step: real, k: nat, n: nat, down: bool)
    requires Leads(step, down) && Apart(step, 0.0) >= EPSILON && InOrder(s, down) && k < n
    requires OnRungs(s, first, step, k, n) && HasRungs(s, first, step, k + 1, n)
    ensures MergedAfter(Rung(first, step, k), s) == Ladder(first, step, k + 1, n)
    decreases |s|
  {
    assert k + 1 < n ==> Rung(first, step, k + 1) in s;
    if s != [] {
      var i := WhichRung(s, first, step, k, n);
      if i == k {
        StillAbove(s, first, step, k, n, down);
        MergesAbove(s[1..], first, step, k, n, down);
        DroppedAgain(s, Rung(first, step, k));
      } else {
        FirstIsNext(s, first, step, k, i, n, down);
        StillAbove(s, first, step, i, n, down);
        MergesAbove(s[1..], first, step, i, n, down);
        KeptAsNext(s, first, step, k, n, down);
      }
    }
  }

  lemma DroppedAgain(s: seq<real>, last: real)
    requires s != [] && s[0] == last
    ensures MergedAfter(last, s) == MergedAfter(last, s[1..])
  {
  }

  lemma KeptAsNext(s: seq<real>, first: real, step: real, k: nat, n: nat, down: bool)
    requires Leads(step, down) && Apart(step, 0.0) >= EPSILON && k + 1 < n && s != []
    requires s[0] == Rung(first, step, k + 1)
    requires MergedAfter(s[0], s[1..]) == Ladder(first, step, k + 2, n)
    ensures MergedAfter(Rung(first, step, k), s) == Ladder(first, step, k + 1, n)
  {
    RungsApart(first, step, k, k + 1, down);
  }

  lemma FirstIsNext(s: seq<real>, first: real, step: real, k: nat, i: nat, n: nat, down: bool)
    requires Leads(step, down) && s != [] && InOrder(s, down) && k < i < n && s[0] == Rung(first, step, i)
    requires OnRungs(s, first, step, k, n) && HasRungs(s, first, step, k + 1, n)
    ensures i == k + 1 && OnRungs(s, first, step, k + 1, n)
  {
    assert Rung(first, step, k + 1) in s;
    if k + 1 < i {
      RungsApart(first, step, k + 1, i, down);
    }
    RungsApart(first, step, k, k + 1, down);
    forall x | x in s ensures exists j :: k + 1 <= j < n && IsRung(x, first, step, j) {
      var j :| k <= j < n && IsRung(x, first, step, j);
      assert j != k;
    }
  }

  lemma StillAbove(s: seq<real>, first: real, step: real, k: nat, n: nat, down: bool)
    requires Leads(step, down) && s != [] && s[0] == Rung(first, step, k) && k < n
    requires OnRungs(s, first, step, k, n) && HasRungs(s, first, step, k + 1, n)
    ensures OnRungs(s[1..], first, step, k, n) && HasRungs(s[1..], first, step, k + 1, n)
  {
    assert forall x :: x in s <==> x == s[0] || x in s[1..];
    forall i | k + 1 <= i < n ensures Rung(first, step, i) in s[1..] {
      RungsApart(first, step, k, i, down);
    }
  }

  lemma StartsAtFirst(s: seq<real>, first: real, step: real, n: nat, down: bool)
    requires Leads(step, down) && n > 0 && Fills(s, first, step, n)
    ensures var t := Sorted(s, down);
            && t != [] && t[0] == first && InOrder(t, down)
            && OnRungs(t, first, step, 0, n) && HasRungs(t, first, step, 0, n)
  {
    SortedKeeps(s, down);
    var t := Sorted(s, down);
    assert Rung(first, step, 0) in t;
    var i := WhichRung(t, first, step, 0, n);
    if i > 0 {
      RungsApart(first, step, 0, i, down);
    }
  }

  lemma MergesFrom(t: seq<real>, first: real, step: real, n: nat, down: bool)
    requires Leads(step, down) && Apart(step, 0.0) >= EPSILON && n > 0 && t != [] && t[0] == first && InOrder(t, down)
    requires OnRungs(t[1..], first, step, 0, n) && HasRungs(t[1..], first, step, 1, n)
    ensures Merged(t) == Ladder(first, step, 0, n)
  {
    MergesAbove(t[1..], first, step, 0, n, down);
  }

  /** Sorting and merging values that fill a ladder, its rungs no nearer than the tolerance, gives the ladder. */
  lemma MergesToLadder(s: seq<real>, first: real, step: real, n: nat, down: bool)
    requires Leads(step, down) && Apart(step, 0.0) >= EPSILON && n > 0 && Fills(s, first, step, n)
    ensures Merged(Sorted(s, down)) == Ladder(first, step, 0, n)
  {
    StartsAtFirst(s, first, step, n, down);
    var t := Sorted(s, down);
    StillAbove(t, first, step, 0, n, down);
    MergesFrom(t, first, step, n, down);
  }

  lemma {:induction false} PlaceOnLadder(first: real, step: real, from: nat, n: nat, i: nat, down: bool)
    requires Leads(step, down) && Apart(step, 0.0) >= EPSILON && from <= i < n
    ensures Near(Ladder(first, step, from, n), Rung(first, step, i)) == i - from
    decreases n - from
  {
    var s := Ladder(first, step, from, n);
    if from < i {
      RungsApart(first, step, from, i, down);
      assert s[1..] == Ladder(first, step, from + 1, n);
      PlaceOnLadder(first, step, from + 1, n, i, down);
    }
  }

  /** With rungs nearer than the tolerance the first two fall together. */
  lemma FirstTwoMeet(s: seq<real>, first: real, step: real, n: nat, down: bool)
    requires Leads(step, down) && Apart(step, 0.0) < EPSILON && n > 1 && Fills(s, first, step, n)
    ensures Place(Merged(Sorted(s, down)), Rung(first, step, 0)) == 0
    ensures Place(Merged(Sorted(s, down)), Rung(first, step, 1)) == 0
  {
    StartsAtFirst(s, first, step, n, down);
    assert Rung(first, step, 1) == first + step;
  }

  // ---------- Where the children are ----------

  function Bit(b: bool): nat {
    if b then 1 else 0
  }

  /** The half, quarter or eighth of its parent that a child takes on an axis, by its bits of that axis. */
  function Step3(x: bool, y: bool, z: bool): nat {
    4 * Bit(x) + 2 * Bit(y) + Bit(z)
  }

  function Step2(x: bool, y: bool): nat {
    2 * Bit(x) + Bit(y)
  }

  lemma Mid3(s: Span, x: bool, y: bool, z: bool)
    ensures var m, h := Mid(Half(Half(Half(s, x), y), z)), Size(s) / 8.0;
            m == Rung(s.lo + h / 2.0, h, Step3(x, y, z)) && m == Rung(s.hi - h / 2.0, -h, 7 - Step3(x, y, z))
  {
    RungIs(s.lo + Size(s) / 16.0, Size(s) / 8.0, Step3(x, y, z));
    RungIs(s.hi - Size(s) / 16.0, -Size(s) / 8.0, 7 - Step3(x, y, z));
  }

  lemma Mid2(s: Span, x: bool, y: bool)
    ensures var m, h := Mid(Half(Half(s, x), y)), Size(s) / 4.0;
            m == Rung(s.lo + h / 2.0, h, Step2(x, y)) && m == Rung(s.hi - h / 2.0, -h, 3 - Step2(x, y))
  {
    RungIs(s.lo + Size(s) / 8.0, Size(s) / 4.0, Step2(x, y));
    RungIs(s.hi - Size(s) / 8.0, -Size(s) / 4.0, 3 - Step2(x, y));
  }

  lemma RungIs(first: real, step: real, i: nat)
    requires i < 8
    ensures Rung(first, step, i)
         == first + (if i == 0 then 0.0 else if i == 1 then step else if i == 2 then 2.0 * step
                     else if i == 3 then 3.0 * step else if i == 4 then 4.0 * step
                     else if i == 5 then 5.0 * step else if i == 6 then 6.0 * step else 7.0 * step)
  {
    if i > 0 {
      RungIs(first, step, i - 1);
    }
  }

  function RowCount(even: bool): nat {
    if even then 4 else 8
  }

  function ColCount(even: bool): nat {
    if even then 8 else 4
  }

  /** How far north, and how far east, a child is within its parent. */
  function North(even: bool, d: Digit): nat {
    if even then Step2(BitOf(d, 1), BitOf(d, 3)) else Step3(BitOf(d, 0), BitOf(d, 2), BitOf(d, 4))
  }

  function East(even: bool, d: Digit): nat {
    if even then Step3(BitOf(d, 0), BitOf(d, 2), BitOf(d, 4)) else Step2(BitOf(d, 1), BitOf(d, 3))
  }

  lemma FiveBits(b: Box, even: bool, v: bool, w: bool, x: bool, y: bool, z: bool)
    ensures Narrowed(b, even, [v, w, x, y, z])
         == if even then Box(Half(Half(b.lat, w), y), Half(Half(Half(b.lon, v), x), z))
            else Box(Half(Half(Half(b.lat, v), x), z), Half(Half(b.lon, w), y))
  {
    assert [v, w, x, y, z][1..] == [w, x, y, z] && [w, x, y, z][1..] == [x, y, z];
    assert [x, y, z][1..] == [y, z] && [y, z][1..] == [z];
    TwoBits(Halved(Halved(Halved(b, even, v), !even, w), even, x), !even, y, z);
    var c := Halved(Halved(Halved(b, even, v), !even, w), even, x);
    assert Narrowed(b, even, [v, w, x, y, z]) == Narrowed(Halved(b, even, v), !even, [w, x, y, z]);
    assert Narrowed(Halved(b, even, v), !even, [w, x, y, z])
        == Narrowed(Halved(Halved(b, even, v), !even, w), even, [x, y, z]);
    assert Narrowed(Halved(Halved(b, even, v), !even, w), even, [x, y, z]) == Narrowed(c, !even, [y, z]);
  }

  lemma TwoBits(b: Box, even: bool, y: bool, z: bool)
    ensures Narrowed(b, even, [y, z]) == Halved(Halved(b, even, y), !even, z)
  {
    assert [y, z][1..] == [z] && [z][1..] == [];
    assert Narrowed(b, even, [y, z]) == Narrowed(Halved(b, even, y), !even, [z]);
    assert Narrowed(Halved(b, even, y), !even, [z]) == Narrowed(Halved(Halved(b, even, y), !even, z), even, []);
  }

  function RowStep(b: Box, even: bool): real {
    Size(b.lat) / RowCount(even) as real
  }

  function ColStep(b: Box, even: bool): real {
    Size(b.lon) / ColCount(even) as real
  }

  /** The northernmost and the westernmost centre. */
  function Top(b: Box, even: bool): real {
    b.lat.hi - RowStep(b, even) / 2.0
  }

  function Left(b: Box, even: bool): real {
    b.lon.lo + ColStep(b, even) / 2.0
  }

  /** Counted from the north. */
  function South(even: bool, d: Digit): nat {
    if even then 3 - North(even, d) else 7 - North(even, d)
  }

  lemma CenterEven(b: Box, bits: seq<bool>)
    requires |bits| == 5
    ensures Center(Narrowed(b, true, bits)).lat == Rung(Top(b, true), -RowStep(b, true), 3 - Step2(bits[1], bits[3]))
    ensures Center(Narrowed(b, true, bits)).lon
         == Rung(Left(b, true), ColStep(b, true), Step3(bits[0], bits[2], bits[4]))
  {
    FiveBits(b, true, bits[0], bits[1], bits[2], bits[3], bits[4]);
    assert bits == [bits[0], bits[1], bits[2], bits[3], bits[4]];
    Mid3(b.lon, bits[0], bits[2], bits[4]);
    Mid2(b.lat, bits[1], bits[3]);
    assert RowStep(b, true) == Size(b.lat) / 4.0 && ColStep(b, true) == Size(b.lon) / 8.0;
  }

  lemma CenterOdd(b: Box, bits: seq<bool>)
    requires |bits| == 5
    ensures Center(Narrowed(b, false, bits)).lat
         == Rung(Top(b, false), -RowStep(b, false), 7 - Step3(bits[0], bits[2], bits[4]))
    ensures Center(Narrowed(b, false, bits)).lon == Rung(Left(b, false), ColStep(b, false), Step2(bits[1], bits[3]))
  {
    FiveBits(b, false, bits[0], bits[1], bits[2], bits[3], bits[4]);
    assert bits == [bits[0], bits[1], bits[2], bits[3], bits[4]];
    Mid3(b.lat, bits[0], bits[2], bits[4]);
    Mid2(b.lon, bits[1], bits[3]);
    assert RowStep(b, false) == Size(b.lat) / 8.0 && ColStep(b, false) == Size(b.lon) / 4.0;
  }

  lemma ChildCenter(b: Box, even: bool, d: Digit)
    ensures Center(Narrowed(b, even, Bits(d))).lat == Rung(Top(b, even), -RowStep(b, even), South(even, d))
    ensures Center(Narrowed(b, even, Bits(d))).lon == Rung(Left(b, even), ColStep(b, even), East(even, d))
  {
    if even {
      CenterEven(b, Bits(d));
    } else {
      CenterOdd(b, Bits(d));
    }
  }

  /** The child at a place, north and east counted from the south-west corner. */
  function ChildAt(even: bool, north: nat, east: nat): Digit
    requires north < RowCount(even) && east < ColCount(even)
  {
    var (long, short) := if even then (east, north) else (north, east);
    Packed([long >= 4, short >= 2, long % 4 >= 2, short % 2 == 1, long % 2 == 1])
  }

  lemma ChildAtIs(even: bool, north: nat, east: nat)
    requires north < RowCount(even) && east < ColCount(even)
    ensures North(even, ChildAt(even, north, east)) == north && East(even, ChildAt(even, north, east)) == east
  {
    var (long, short) := if even then (east, north) else (north, east);
    BitsPacked([long >= 4, short >= 2, long % 4 >= 2, short % 2 == 1, long % 2 == 1]);
    var bits := Bits(ChildAt(even, north, east));
    assert bits == [long >= 4, short >= 2, long % 4 >= 2, short % 2 == 1, long % 2 == 1];
    Steps(long, short);
  }

  lemma Steps(long: nat, short: nat)
    requires long < 8 && short < 4
    ensures Step3(long >= 4, long % 4 >= 2, long % 2 == 1) == long && Step2(short >= 2, short % 2 == 1) == short
  {
  }

  lemma ChildIsAt(even: bool, d: Digit)
    ensures ChildAt(even, North(even, d), East(even, d)) == d
  {
    PackedBits(d);
    StepsBack(BitOf(d, 0), BitOf(d, 2), BitOf(d, 4), BitOf(d, 1), BitOf(d, 3));
  }

  lemma StepsBack(v: bool, x: bool, z: bool, w: bool, y: bool)
    ensures var long, short := Step3(v, x, z), Step2(w, y);
            && v == (long >= 4) && x == (long % 4 >= 2) && z == (long % 2 == 1)
            && w == (short >= 2) && y == (short % 2 == 1)
  {
  }

  // ---------- One axis of the grid ----------

  /** Values along an axis, each the rung its index says, and every rung among them. */
  ghost predicate OnAxis(s: seq<real>, places: seq<nat>, first: real, step: real, n: nat) {
    && |s| == |places|
    && (forall d :: 0 <= d < |s| ==> places[d] < n && s[d] == Rung(first, step, places[d]))
    && (forall i :: 0 <= i < n ==> i in places)
  }

  lemma AxisFills(s: seq<real>, places: seq<nat>, first: real, step: real, n: nat)
    requires OnAxis(s, places, first, step, n)
    ensures Fills(s, first, step, n)
  {
    forall x | x in s ensures exists i :: 0 <= i < n && IsRung(x, first, step, i) {
      var d :| 0 <= d < |s| && s[d] == x;
      assert IsRung(x, first, step, places[d]);
    }
    forall i | 0 <= i < n ensures Rung(first, step, i) in s {
      assert i in places;
      var d :| 0 <= d < |places| && places[d] == i;
      assert s[d] in s;
    }
  }

  /** Each value is found at its index if the rungs are far enough apart, and the first two both at zero if not. */
  lemma AxisPlaces(s: seq<real>, places: seq<nat>, first: real, step: real, n: nat, down: bool, d: nat)
    requires OnAxis(s, places, first, step, n) && Leads(step, down) && n > 1 && d < |s|
    ensures Apart(step, 0.0) >= EPSILON ==> Place(Merged(Sorted(s, down)), s[d]) == places[d]
    ensures Apart(step, 0.0) < EPSILON && places[d] <= 1 ==> Place(Merged(Sorted(s, down)), s[d]) == 0
  {
    AxisFills(s, places, first, step, n);
    if Apart(step, 0.0) >= EPSILON {
      MergesToLadder(s, first, step, n, down);
      PlaceOnLadder(first, step, 0, n, places[d], down);
    } else {
      FirstTwoMeet(s, first, step, n, down);
    }
  }

  // ---------- The grid ----------

  function Parity(prefix: string): bool {
    Turned(true, |DigitsOf(Lower(prefix))|)
  }

  function Souths(even: bool): seq<nat> {
    seq(32, d requires 0 <= d < 32 => South(even, d))
  }

  function Easts(even: bool): seq<nat> {
    seq(32, d requires 0 <= d < 32 => East(even, d))
  }

  /** Rows, and columns, far enough apart for the tolerance. */
  predicate RowsSpaced(prefix: string) {
    RowStep(CellOf(prefix), Parity(prefix)) >= 1.0 / 4503599627370496.0
  }

  predicate ColsSpaced(prefix: string) {
    ColStep(CellOf(prefix), Parity(prefix)) >= 1.0 / 4503599627370496.0
  }

  /** The layout lists every child, in the order of the alphabet, with the box it stands for. */
  lemma LayoutLists(prefix: string, d: Digit)
    ensures var cell := Layout(prefix)[d];
            cell.geohash == prefix + ["0123456789bcdefghjkmnpqrstuvwxyz"[d]] && cell.box == CellOf(cell.geohash)
  {
    TableIs(d);
  }

  lemma StepsPositive(prefix: string)
    ensures RowStep(CellOf(prefix), Parity(prefix)) > 0.0 && ColStep(CellOf(prefix), Parity(prefix)) > 0.0
  {
    CellWithin(WORLD, true, DigitsOf(Lower(prefix)), Point(0.0, 0.0));
  }

  lemma EveryRow(even: bool, i: nat)
    requires i < RowCount(even)
    ensures i in Souths(even)
  {
    var north := RowCount(even) - 1 - i;
    ChildAtIs(even, north, 0);
    assert Souths(even)[ChildAt(even, north, 0)] == i;
  }

  lemma EveryCol(even: bool, i: nat)
    requires i < ColCount(even)
    ensures i in Easts(even)
  {
    ChildAtIs(even, 0, i);
    assert Easts(even)[ChildAt(even, 0, i)] == i;
  }

  lemma LatsOnAxis(prefix: string)
    ensures var b, even := CellOf(prefix), Parity(prefix);
            OnAxis(Lats(Centers(prefix)), Souths(even), Top(b, even), -RowStep(b, even), RowCount(even))
  {
    var b, even := CellOf(prefix), Parity(prefix);
    var s := Lats(Centers(prefix));
    forall d | 0 <= d < 32
      ensures Souths(even)[d] < RowCount(even) && s[d] == Rung(Top(b, even), -RowStep(b, even), Souths(even)[d])
    {
      CenterOnRungs(prefix, d);
    }
    forall i | 0 <= i < RowCount(even) ensures i in Souths(even) {
      EveryRow(even, i);
    }
  }

  lemma LonsOnAxis(prefix: string)
    ensures var b, even := CellOf(prefix), Parity(prefix);
            OnAxis(Lons(Centers(prefix)), Easts(even), Left(b, even), ColStep(b, even), ColCount(even))
  {
    var b, even := CellOf(prefix), Parity(prefix);
    var s := Lons(Centers(prefix));
    forall d | 0 <= d < 32
      ensures Easts(even)[d] < ColCount(even) && s[d] == Rung(Left(b, even), ColStep(b, even), Easts(even)[d])
    {
      CenterOnRungs(prefix, d);
    }
    forall i | 0 <= i < ColCount(even) ensures i in Easts(even) {
      EveryCol(even, i);
    }
  }

  lemma AxesAt(even: bool, d: Digit)
    ensures Souths(even)[d] == South(even, d) && Easts(even)[d] == East(even, d)
  {
  }

  lemma RowAlong(prefix: string, d: Digit, places: seq<nat>, first: real, step: real, n: nat)
    requires OnAxis(Lats(Centers(prefix)), places, first, -step, n) && step > 0.0 && n > 1
    ensures step >= EPSILON ==> Layout(prefix)[d].row == places[d]
    ensures step < EPSILON && places[d] <= 1 ==> Layout(prefix)[d].row == 0
  {
    AxisPlaces(Lats(Centers(prefix)), places, first, -step, n, true, d);
  }

  lemma ColAlong(prefix: string, d: Digit, places: seq<nat>, first: real, step: real, n: nat)
    requires OnAxis(Lons(Centers(prefix)), places, first, step, n) && step > 0.0 && n > 1
    ensures step >= EPSILON ==> Layout(prefix)[d].col == places[d]
    ensures step < EPSILON && places[d] <= 1 ==> Layout(prefix)[d].col == 0
  {
    AxisPlaces(Lons(Centers(prefix)), places, first, step, n, false, d);
  }

  /** Row by row from the north; with rows too close, the first two are one. */
  lemma RowIs(prefix: string, d: Digit)
    ensures RowsSpaced(prefix) ==> Layout(prefix)[d].row == South(Parity(prefix), d)
    ensures !RowsSpaced(prefix) && South(Parity(prefix), d) <= 1 ==> Layout(prefix)[d].row == 0
  {
    var b, even := CellOf(prefix), Parity(prefix);
    StepsPositive(prefix);
    LatsOnAxis(prefix);
    RowAlong(prefix, d, Souths(even), Top(b, even), RowStep(b, even), RowCount(even));
    AxesAt(even, d);
  }

  /** Column by column from the west; with columns too close, the first two are one. */
  lemma ColIs(prefix: string, d: Digit)
    ensures ColsSpaced(prefix) ==> Layout(prefix)[d].col == East(Parity(prefix), d)
    ensures !ColsSpaced(prefix) && East(Parity(prefix), d) <= 1 ==> Layout(prefix)[d].col == 0
  {
    var b, even := CellOf(prefix), Parity(prefix);
    StepsPositive(prefix);
    LonsOnAxis(prefix);
    ColAlong(prefix, d, Easts(even), Left(b, even), ColStep(b, even), ColCount(even));
    AxesAt(even, d);
  }

  /** The one child at this place of the layout. */
  ghost predicate IsOnlyAt(layout: seq<GridCell>, d: Digit, row: nat, col: nat)
    requires |layout| == 32
  {
    forall e: Digit :: layout[e].row == row && layout[e].col == col <==> e == d
  }

  predicate OnGrid(even: bool, row: nat, col: nat) {
    row < RowCount(even) && col < ColCount(even)
  }

  /** Every place of the four by eight or eight by four grid is taken by exactly one child. */
  ghost predicate IsGrid(even: bool, layout: seq<GridCell>)
    requires |layout| == 32
  {
    forall row: nat, col: nat :: OnGrid(even, row, col) ==> exists d: Digit :: IsOnlyAt(layout, d, row, col)
  }

  /**
   * For any prefix, the layout is one to one onto its grid exactly if its cells are not too small for the tolerance.
   */
  lemma GridExactlyWhen(prefix: string)
    ensures IsGrid(Parity(prefix), Layout(prefix)) <==> RowsSpaced(prefix) && ColsSpaced(prefix)
  {
    var even := Parity(prefix);
    if RowsSpaced(prefix) && ColsSpaced(prefix) {
      forall d: Digit ensures Layout(prefix)[d].row == South(even, d) && Layout(prefix)[d].col == East(even, d) {
        RowIs(prefix, d);
        ColIs(prefix, d);
      }
      PlacedIsGrid(even, Layout(prefix));
    } else {
      var d, e := Neighbours(even, RowsSpaced(prefix));
      RowIs(prefix, d);
      RowIs(prefix, e);
      ColIs(prefix, d);
      ColIs(prefix, e);
      MeetIsNoGrid(even, Layout(prefix), d, e);
    }
  }

  lemma OnlyChildAt(even: bool, row: nat, col: nat, d: Digit)
    requires OnGrid(even, row, col)
    ensures South(even, d) == row && East(even, d) == col <==> d == ChildAt(even, RowCount(even) - 1 - row, col)
  {
    ChildAtIs(even, RowCount(even) - 1 - row, col);
    ChildIsAt(even, d);
  }

  lemma PlacedIsGrid(even: bool, layout: seq<GridCell>)
    requires |layout| == 32
    requires forall d: Digit :: layout[d].row == South(even, d) && layout[d].col == East(even, d)
    ensures IsGrid(even, layout)
  {
    forall row: nat, col: nat | OnGrid(even, row, col) ensures exists d: Digit :: IsOnlyAt(layout, d, row, col) {
      var d := ChildAt(even, RowCount(even) - 1 - row, col);
      forall e: Digit ensures layout[e].row == row && layout[e].col == col <==> e == d {
        OnlyChildAt(even, row, col, e);
      }
      assert IsOnlyAt(layout, d, row, col);
    }
  }

  /** Two children that share the first place once rows, or else columns, are too close. */
  lemma Neighbours(even: bool, rowsSpaced: bool) returns (d: Digit, e: Digit)
    ensures d != e && South(even, d) == 0 && East(even, d) == 0
    ensures if rowsSpaced then South(even, e) == 0 && East(even, e) == 1 else South(even, e) == 1 && East(even, e) == 0
  {
    var n := RowCount(even);
    d := ChildAt(even, n - 1, 0);
    ChildAtIs(even, n - 1, 0);
    if rowsSpaced {
      e := ChildAt(even, n - 1, 1);
      ChildAtIs(even, n - 1, 1);
    } else {
      e := ChildAt(even, n - 2, 0);
      ChildAtIs(even, n - 2, 0);
    }
  }

  lemma MeetIsNoGrid(even: bool, layout: seq<GridCell>, d: Digit, e: Digit)
    requires |layout| == 32 && d != e
    requires layout[d].row == layout[e].row == 0 && layout[d].col == layout[e].col == 0
    ensures !IsGrid(even, layout)
  {
    assert OnGrid(even, 0, 0);
    forall x: Digit ensures !IsOnlyAt(layout, x, 0, 0) {
      assert layout[d].row == 0 && layout[e].row == 0;
    }
  }

  /** Later rows are further south, and later columns further east. */
  lemma NorthAndWestFirst(prefix: string, d: Digit, e: Digit)
    requires RowsSpaced(prefix) && ColsSpaced(prefix)
    ensures Layout(prefix)[d].row < Layout(prefix)[e].row <==> Centers(prefix)[d].lat > Centers(prefix)[e].lat
    ensures Layout(prefix)[d].col < Layout(prefix)[e].col <==> Centers(prefix)[d].lon < Centers(prefix)[e].lon
  {
    RowIs(prefix, d);
    RowIs(prefix, e);
    ColIs(prefix, d);
    ColIs(prefix, e);
    CentersInOrder(prefix, d, e);
  }

  lemma CentersInOrder(prefix: string, d: Digit, e: Digit)
    ensures South(Parity(prefix), d) < South(Parity(prefix), e) <==> Centers(prefix)[d].lat > Centers(prefix)[e].lat
    ensures East(Parity(prefix), d) < East(Parity(prefix), e) <==> Centers(prefix)[d].lon < Centers(prefix)[e].lon
  {
    LatsInOrder(prefix, d, e);
    LonsInOrder(prefix, d, e);
  }

  lemma LatsInOrder(prefix: string, d: Digit, e: Digit)
    ensures South(Parity(prefix), d) < South(Parity(prefix), e) <==> Centers(prefix)[d].lat > Centers(prefix)[e].lat
  {
    var b, even := CellOf(prefix), Parity(prefix);
    StepsPositive(prefix);
    CenterOnRungs(prefix, d);
    CenterOnRungs(prefix, e);
    RungOrder(Top(b, even), -RowStep(b, even), South(even, d), South(even, e), true);
  }

  lemma LonsInOrder(prefix: string, d: Digit, e: Digit)
    ensures East(Parity(prefix), d) < East(Parity(prefix), e) <==> Centers(prefix)[d].lon < Centers(prefix)[e].lon
  {
    var b, even := CellOf(prefix), Parity(prefix);
    StepsPositive(prefix);
    CenterOnRungs(prefix, d);
    CenterOnRungs(prefix, e);
    RungOrder(Left(b, even), ColStep(b, even), East(even, d), East(even, e), false);
  }

  lemma CenterOnRungs(prefix: string, d: Digit)
    ensures var b, even := CellOf(prefix), Parity(prefix);
            && Centers(prefix)[d].lat == Rung(Top(b, even), -RowStep(b, even), South(even, d))
            && Centers(prefix)[d].lon == Rung(Left(b, even), ColStep(b, even), East(even, d))
  {
    ChildCell(prefix, d);
    ChildCenter(CellOf(prefix), Parity(prefix), d);
  }

  lemma RungOrder(first: real, step: real, i: nat, j: nat, down: bool)
    requires Leads(step, down)
    ensures i < j <==> Ahead(Rung(first, step, i), Rung(first, step, j), down)
  {
    if i < j {
      RungsApart(first, step, i, j, down);
    } else if j < i {
      RungsApart(first, step, j, i, down);
    }
  }

  /** Up to the twelve characters a geohash may have, the cells are never too small. */
  lemma TwelveIsAGrid(prefix: string)
    requires |DigitsOf(Lower(prefix))| <= 12
    ensures IsGrid(Parity(prefix), Layout(prefix))
  {
    var ds := DigitsOf(Lower(prefix));
    CellSize(ds);
    NotTooSmall(180.0, 5 * |ds| / 2);
    NotTooSmall(360.0, (5 * |ds| + 1) / 2);
    WideIsSpaced(prefix);
    GridExactlyWhen(prefix);
  }

  lemma WideIsSpaced(prefix: string)
    requires Size(CellOf(prefix).lat) >= 8.0 * EPSILON && Size(CellOf(prefix).lon) >= 8.0 * EPSILON
    ensures RowsSpaced(prefix) && ColsSpaced(prefix)
  {
  }

  lemma NotTooSmall(x: real, k: nat)
    requires x >= 1.0 && k <= 30
    ensures Halves(x, k) >= 8.0 * EPSILON
  {
    HalvesTimesPow2(Halves(x, k), x, k);
    Pow2Bound(k);
    var h, m := Halves(x, k), Pow2(k);
    assert h * m == x;
    if h < 8.0 * EPSILON {
      Product(h, m);
      assert false;
    }
  }

  lemma Product(h: real, m: real)
    requires h < 8.0 * EPSILON && 0.0 < m <= 1073741824.0
    ensures h * m < 1.0
  {
    if h > 0.0 {
      assert h * m <= h * 1073741824.0;
    } else {
      assert h * m <= 0.0;
    }
  }

  lemma {:induction false} Pow2Bound(k: nat)
    requires k <= 30
    ensures 0.0 < Pow2(k) <= 1073741824.0
  {
    Pow2Times(k, 30 - k);
    Pow2AtLeast(30 - k);
    Pow2AtLeast(k);
    Pow2Thirty();
    var a, b := Pow2(k), Pow2(30 - k);
    assert a * b >= a * 1.0;
  }

  lemma {:induction false} Pow2AtLeast(k: nat)
    ensures Pow2(k) >= 1.0
  {
    if k > 0 {
      Pow2AtLeast(k - 1);
    }
  }

  lemma {:induction false} Pow2Times(a: nat, b: nat)
    ensures Pow2(a + b) == Pow2(a) * Pow2(b)
    decreases a
  {
    if a > 0 {
      Pow2Times(a - 1, b);
      var x, y := Pow2(a - 1), Pow2(b);
      assert 2.0 * (x * y) == (2.0 * x) * y;
    }
  }

  lemma Pow2Thirty()
    ensures Pow2(30) == 1073741824.0
  {
    Pow2Times(5, 5);
    Pow2Times(10, 10);
    Pow2Times(20, 10);
    assert Pow2(5) == 32.0;
  }
}
