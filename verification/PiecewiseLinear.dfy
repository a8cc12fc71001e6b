/** What the tone tables share. */
module ToneTable {
  /** The C conversion from double to int drops the fraction. */
  function Truncated(x: real): int {
    if x >= 0.0 then x.Floor else -(-x).Floor
  }

  /** v is x moved less than one towards zero, to a whole number. */
  predicate DropsFraction(x: real, v: int) {
    if x >= 0.0 then v as real <= x < v as real + 1.0 else v as real - 1.0 < x <= v as real
  }

  lemma TruncatedDropsFraction(x: real)
    ensures DropsFraction(x, Truncated(x))
  {
  }
}

/** The piecewise-linear tone table: n segments over 0..255, over exact reals. */
module PiecewiseLinear {
  import opened ToneTable

  /** How far index j has moved through segment i, from 0 at its left end to 1 at its right end. */
  function Progress(j: int, i: int, n: nat): real {
    (j * n - 255 * i) as real / 255.0
  }

  /** The knots joined by straight lines, at j/255. */
  function Interpolant(rn: seq<real>, n: nat, j: int, i: nat): real
    requires i < n && |rn| == n + 1
  {
    Lerp(rn[i], rn[i + 1], Progress(j, i, n))
  }

  /** The point a fraction u of the way from a to b. */
  function Lerp(a: real, b: real, u: real): real {
    a + (b - a) * u
  }

  /** The first index at or past the left end of segment i: 255*i/n rounded up. */
  function Start(i: int, n: nat): int
    requires n >= 1
  {
    (255 * i + n - 1) / n
  }

  /** Segment i covers index j. */
  predicate Covers(n: nat, j: int, i: nat)
    requires n >= 1
  {
    i < n && Start(i, n) <= j < Start(i + 1, n)
  }

  /** Entry j of the table: the truncated interpolant of the covering segment, and the last knot at 255. */
  ghost predicate EntryIs(rn: seq<real>, n: nat, j: int, v: int)
    requires n >= 1 && |rn| == n + 1
  {
    if j == 255 then v == Truncated(255.0 * rn[n])
    else exists i :: Covers(n, j, i) && v == Truncated(Interpolant(rn, n, j, i) * 255.0)
  }

  lemma StartIsCeiling(j: int, i: int, n: nat)
    requires n >= 1
    ensures j >= Start(i, n) <==> j * n >= 255 * i
  {
    var m := 255 * i + n - 1;
    var s := m / n;
    assert m == s * n + m % n;
    if j >= s {
      assert j * n >= s * n;
    } else {
      assert j * n <= (s - 1) * n == s * n - n;
    }
  }

  /** Where knot i lies between 0 and 1. */
  function DotX(i: int, n: nat): real
    requires n >= 1
  {
    i as real / n as real
  }

  /** The rise of segment i over the unit interval. */
  function SlopeOf(rn: seq<real>, n: nat, i: nat): real
    requires i < n && |rn| == n + 1
  {
    (rn[i + 1] - rn[i]) * n as real
  }

  /** Left end of segment i on the 0..255 scale. */
  function Edge(i: int, n: nat): real
    requires n >= 1
  {
    DotX(i, n) * 255.0
  }

  /** The loop's comparison of an index with a real boundary. */
  lemma Boundary(j: int, i: int, n: nat)
    requires n >= 1
    ensures j as real >= Edge(i, n) <==> j >= Start(i, n)
  {
    StartIsCeiling(j, i, n);
    var q := i as real / n as real;
    assert q * n as real == i as real;
    assert (q * 255.0) * n as real == 255.0 * i as real;
    assert (j * n) as real == j as real * n as real;
    if j as real >= q * 255.0 {
      assert j as real * n as real >= (q * 255.0) * n as real;
    } else {
      assert j as real * n as real < (q * 255.0) * n as real;
    }
  }

  lemma StartRange(i: int, n: nat)
    requires n >= 1 && 0 <= i <= n
    ensures 0 <= Start(i, n) <= 255 && Start(0, n) == 0 && Start(n, n) == 255
    ensures i < n ==> Start(i, n) <= Start(i + 1, n)
  {
    StartIsCeiling(-1, i, n);
    StartIsCeiling(255, i, n);
    StartIsCeiling(0, 0, n);
    StartIsCeiling(-1, 0, n);
    StartIsCeiling(254, n, n);
    StartIsCeiling(255, n, n);
    if i < n {
      StartIsCeiling(Start(i + 1, n), i + 1, n);
      StartIsCeiling(Start(i + 1, n), i, n);
    }
  }

  lemma Associate(d: real, n: real, z: real, u: real)
    requires n * z == u
    ensures (d * n) * z == d * u
  {
    assert (d * n) * z == d * (n * z);
  }

  /** The expression of the source is the interpolant. */
  lemma SlopeForm(a: real, b: real, j: int, i: int, n: nat)
    requires n >= 1
    ensures ((b - a) * n as real) * (j as real / 255.0 - DotX(i, n)) + a == Lerp(a, b, Progress(j, i, n))
  {
    var q := i as real / n as real;
    assert q * n as real == i as real;
    assert (j * n) as real == j as real * n as real;
    var u := Progress(j, i, n);
    assert u == (j as real * n as real - 255.0 * i as real) / 255.0;
    assert n as real * (j as real / 255.0 - q) == (j as real * n as real) / 255.0 - i as real == u;
    Associate(b - a, n as real, j as real / 255.0 - q, u);
  }

  /** The value the inner loop stores at index j. */
  function Stored(slope: real, x: real, y: real, j: int): int {
    Truncated((slope * (j as real / 255.0 - x) + y) * 255.0)
  }

  lemma StoredIsInterpolant(a: real, b: real, slope: real, j: int, i: int, n: nat)
    requires n >= 1 && slope == (b - a) * n as real
    ensures Stored(slope, DotX(i, n), a, j) == Truncated(Lerp(a, b, Progress(j, i, n)) * 255.0)
  {
    SlopeForm(a, b, j, i, n);
  }

  lemma EntryStored(rn: seq<real>, n: nat, j: int, i: nat)
    requires n >= 1 && |rn| == n + 1 && Covers(n, j, i) && j != 255
    ensures EntryIs(rn, n, j, Stored(SlopeOf(rn, n, i), DotX(i, n), rn[i], j))
  {
    StoredIsInterpolant(rn[i], rn[i + 1], SlopeOf(rn, n, i), j, i, n);
  }

  /** The inner loop: fills the indices of one segment, whose first index and boundaries are given, and stops at the
      first index the right boundary excludes. */
  method FillSegment(colorMap: array<int>, first: nat, left: real, right: real, slope: real, x: real, y: real,
                     ghost last: nat)
    returns (next: nat)
    requires colorMap.Length == 256 && first <= last <= 255
    requires first as real >= left && last as real >= right && (first < last ==> (last - 1) as real < right)
    modifies colorMap
    ensures next == last
    ensures forall j :: first <= j < last ==> colorMap[j] == Stored(slope, x, y, j)
    ensures forall j :: 0 <= j < first || last <= j < 256 ==> colorMap[j] == old(colorMap[j])
  {
    next := first;
    while next as real >= left && (next as real) < right
      invariant first <= next <= last
      invariant forall j :: first <= j < next ==> colorMap[j] == Stored(slope, x, y, j)
      invariant forall j :: 0 <= j < first || next <= j < 256 ==> colorMap[j] == old(colorMap[j])
      decreases last - next
    {
      colorMap[next] := Stored(slope, x, y, next);
      next := next + 1;
    }
  }

  /** The boundaries of segment i, as the inner loop sees them. */
  lemma SegmentBoundaries(i: nat, n: nat)
    requires i < n
    ensures 0 <= Start(i, n) <= Start(i + 1, n) <= 255
    ensures Start(i, n) as real >= Edge(i, n) && Start(i + 1, n) as real >= Edge(i + 1, n)
    ensures (Start(i + 1, n) - 1) as real < Edge(i + 1, n)
  {
    StartRange(i, n);
    StartRange(i + 1, n);
    Boundary(Start(i, n), i, n);
    Boundary(Start(i + 1, n), i + 1, n);
    Boundary(Start(i + 1, n) - 1, i + 1, n);
  }

  /** A filled segment holds the interpolant. */
  lemma SegmentEntries(rn: seq<real>, n: nat, i: nat, table: seq<int>)
    requires n >= 1 && |rn| == n + 1 && i < n && |table| == 256 && 0 <= Start(i, n) <= Start(i + 1, n) <= 255
    requires forall j :: Start(i, n) <= j < Start(i + 1, n) ==>
               table[j] == Stored(SlopeOf(rn, n, i), DotX(i, n), rn[i], j)
    ensures forall j :: Start(i, n) <= j < Start(i + 1, n) ==> EntryIs(rn, n, j, table[j])
  {
    forall j | Start(i, n) <= j < Start(i + 1, n) ensures EntryIs(rn, n, j, table[j]) {
      EntryStored(rn, n, j, i);
    }
  }

  ghost predicate EntriesBelow(rn: seq<real>, n: nat, table: seq<int>, k: int)
    requires n >= 1 && |rn| == n + 1
  {
    k <= |table| && forall j :: 0 <= j < k ==> EntryIs(rn, n, j, table[j])
  }

  /** The whole table: every entry 0..255 is written and holds the interpolant at its index. */
  method PiecewiseLinearSingle(colorMap: array<int>, n: nat, rn: seq<real>)
    requires colorMap.Length == 256 && n >= 1 && |rn| == n + 1
    modifies colorMap
    ensures EntriesBelow(rn, n, colorMap[..], 256)
  {
    var rgbIndex: nat := 0;
    StartRange(0, n);
    for i := 0 to n
      invariant rgbIndex == Start(i, n) <= 255
      invariant EntriesBelow(rn, n, colorMap[..], rgbIndex)
    {
      SegmentBoundaries(i, n);
      ghost var before := colorMap[..];
      rgbIndex := FillSegment(colorMap, rgbIndex, Edge(i, n), Edge(i + 1, n), SlopeOf(rn, n, i), DotX(i, n), rn[i],
                              Start(i + 1, n));
      SegmentEntries(rn, n, i, colorMap[..]);
      Extend(rn, n, before, colorMap[..], Start(i, n), rgbIndex);
    }
    StartRange(n, n);
    colorMap[rgbIndex] := Truncated(255.0 * rn[n]);
  }

  lemma Extend(rn: seq<real>, n: nat, before: seq<int>, after: seq<int>, k: int, l: int)
    requires n >= 1 && |rn| == n + 1 && 0 <= k <= l <= |before| == |after| && EntriesBelow(rn, n, before, k)
    requires forall j :: 0 <= j < k ==> after[j] == before[j]
    requires forall j :: k <= j < l ==> EntryIs(rn, n, j, after[j])
    ensures EntriesBelow(rn, n, after, l)
  {
    forall j | 0 <= j < l ensures EntryIs(rn, n, j, after[j]) {
      if j < k {
        assert EntryIs(rn, n, j, before[j]);
      }
    }
  }

  // ----- monotone knots give a monotone table

  predicate Monotone(rn: seq<real>) {
    && (forall i :: 0 <= i < |rn| ==> 0.0 <= rn[i] <= 1.0)
    && (forall i, j :: 0 <= i <= j < |rn| ==> rn[i] <= rn[j])
  }

  lemma ProgressInUnit(n: nat, j: int, i: nat)
    requires n >= 1 && Covers(n, j, i)
    ensures 0.0 <= Progress(j, i, n) < 1.0
  {
    StartIsCeiling(j, i, n);
    StartIsCeiling(j, i + 1, n);
  }

  lemma NonNegative(x: real, y: real)
    requires x >= 0.0 && y >= 0.0
    ensures x * y >= 0.0
  {
  }

  lemma Between(a: real, b: real, u: real, v: real)
    requires a <= b && 0.0 <= u <= v <= 1.0
    ensures a <= Lerp(a, b, u) <= Lerp(a, b, v) <= b
  {
    var d := b - a;
    NonNegative(d, u);
    NonNegative(d, v - u);
    NonNegative(d, 1.0 - v);
    assert d * v == d * u + d * (v - u) && d == d * v + d * (1.0 - v);
  }

  /** The value before truncation. */
  ghost predicate LevelIs(rn: seq<real>, n: nat, j: int, x: real)
    requires n >= 1 && |rn| == n + 1
  {
    if j == 255 then x == rn[n] else exists i :: Covers(n, j, i) && x == Interpolant(rn, n, j, i)
  }

  lemma EntryLevel(rn: seq<real>, n: nat, j: int, v: int) returns (x: real)
    requires n >= 1 && |rn| == n + 1 && EntryIs(rn, n, j, v)
    ensures LevelIs(rn, n, j, x) && v == Truncated(x * 255.0)
  {
    if j == 255 {
      x := rn[n];
    } else {
      var i: nat :| Covers(n, j, i) && v == Truncated(Interpolant(rn, n, j, i) * 255.0);
      x := Interpolant(rn, n, j, i);
    }
  }

  lemma SegmentsOrdered(n: nat, j: int, i: nat, k: int, l: nat)
    requires n >= 1 && j <= k && Covers(n, j, i) && Covers(n, k, l)
    ensures i <= l
  {
    StartIsCeiling(j, i, n);
    StartIsCeiling(k, l + 1, n);
    MulOrder(j, k, n);
  }

  lemma MulOrder(j: int, k: int, n: nat)
    requires j <= k
    ensures j * n <= k * n
  {
    assert k * n == j * n + (k - j) * n;
    assert (k - j) * n >= 0;
  }

  lemma ProgressOrder(j: int, k: int, i: int, n: nat)
    requires j <= k
    ensures Progress(j, i, n) <= Progress(k, i, n)
  {
    MulOrder(j, k, n);
  }

  lemma InterpolantBetween(rn: seq<real>, n: nat, j: int, i: nat)
    requires n >= 1 && |rn| == n + 1 && Covers(n, j, i) && rn[i] <= rn[i + 1]
    ensures rn[i] <= Interpolant(rn, n, j, i) <= rn[i + 1]
  {
    ProgressInUnit(n, j, i);
    var u := Progress(j, i, n);
    Between(rn[i], rn[i + 1], u, u);
  }

  lemma InterpolantOrdered(rn: seq<real>, n: nat, j: int, k: int, i: nat)
    requires n >= 1 && |rn| == n + 1 && j <= k && Covers(n, j, i) && Covers(n, k, i) && rn[i] <= rn[i + 1]
    ensures Interpolant(rn, n, j, i) <= Interpolant(rn, n, k, i)
  {
    ProgressInUnit(n, j, i);
    ProgressInUnit(n, k, i);
    ProgressOrder(j, k, i, n);
    Between(rn[i], rn[i + 1], Progress(j, i, n), Progress(k, i, n));
  }

  lemma LevelInUnit(rn: seq<real>, n: nat, j: int, x: real)
    requires n >= 1 && |rn| == n + 1 && Monotone(rn) && LevelIs(rn, n, j, x)
    ensures 0.0 <= x <= 1.0 && x <= rn[n]
  {
    if j != 255 {
      var i: nat :| Covers(n, j, i) && x == Interpolant(rn, n, j, i);
      InterpolantBetween(rn, n, j, i);
    }
  }

  lemma LevelsOrdered(rn: seq<real>, n: nat, j: int, x: real, k: int, y: real)
    requires n >= 1 && |rn| == n + 1 && Monotone(rn) && j <= k <= 255
    requires LevelIs(rn, n, j, x) && LevelIs(rn, n, k, y)
    ensures x <= y
  {
    LevelInUnit(rn, n, j, x);
    if k != 255 {
      var i: nat :| Covers(n, j, i) && x == Interpolant(rn, n, j, i);
      var l: nat :| Covers(n, k, l) && y == Interpolant(rn, n, k, l);
      SegmentsOrdered(n, j, i, k, l);
      if i == l {
        InterpolantOrdered(rn, n, j, k, i);
      } else {
        InterpolantBetween(rn, n, j, i);
        InterpolantBetween(rn, n, k, l);
        assert rn[i + 1] <= rn[l];
      }
    }
  }

  /** Nondecreasing knots in [0, 1] give a nondecreasing table of values in 0..255. */
  lemma TableMonotone(rn: seq<real>, n: nat, table: seq<int>, j: nat, k: nat)
    requires |rn| == n + 1 && n >= 1 && Monotone(rn) && |table| == 256 && j <= k < 256
    requires EntriesBelow(rn, n, table, 256)
    ensures 0 <= table[j] <= table[k] <= 255
  {
    assert EntryIs(rn, n, j, table[j]) && EntryIs(rn, n, k, table[k]);
    var x := EntryLevel(rn, n, j, table[j]);
    var y := EntryLevel(rn, n, k, table[k]);
    LevelInUnit(rn, n, j, x);
    LevelInUnit(rn, n, k, y);
    LevelsOrdered(rn, n, j, x, k, y);
  }

  // ----- the table in numbers

  /** The segment that covers an index is the one the index falls in, or the next one at the boundary. */
  lemma CoveringSegment(n: nat, j: int, i: nat, k: nat)
    requires n >= 1 && Covers(n, j, k) && i < n && 255 * i <= j * n <= 255 * (i + 1)
    ensures k == i || (k == i + 1 && j * n == 255 * (i + 1))
  {
    StartIsCeiling(j, k, n);
    StartIsCeiling(j, k + 1, n);
  }

  lemma ProgressAt(j: int, i: int, n: nat)
    ensures j * n == 255 * i ==> Progress(j, i, n) == 0.0
    ensures j * n == 255 * (i + 1) ==> Progress(j, i, n) == 1.0
  {
  }

  lemma CoveringLevel(rn: seq<real>, n: nat, j: int, i: nat, k: nat)
    requires n >= 1 && |rn| == n + 1 && Covers(n, j, k) && i < n && 255 * i <= j * n <= 255 * (i + 1)
    ensures Interpolant(rn, n, j, k) == Lerp(rn[i], rn[i + 1], Progress(j, i, n))
  {
    CoveringSegment(n, j, i, k);
    if k == i + 1 {
      ProgressAt(j, i, n);
      ProgressAt(j, k, n);
      LerpIsLine(rn[i], rn[i + 1], 0.0);
      LerpIsLine(rn[k], rn[k + 1], 0.0);
    }
  }

  lemma LevelExactly(rn: seq<real>, n: nat, j: nat, i: nat, x: real)
    requires n >= 1 && |rn| == n + 1 && j < 256 && i < n && 255 * i <= j * n <= 255 * (i + 1) && LevelIs(rn, n, j, x)
    ensures x == Lerp(rn[i], rn[i + 1], Progress(j, i, n))
  {
    if j == 255 {
      assert i + 1 == n;
      ProgressAt(j, i, n);
      LerpIsLine(rn[i], rn[i + 1], 0.0);
    } else {
      var k: nat :| Covers(n, j, k) && x == Interpolant(rn, n, j, k);
      CoveringLevel(rn, n, j, i, k);
    }
  }

  lemma EntryDropsFraction(rn: seq<real>, n: nat, table: seq<int>, j: nat) returns (x: real)
    requires n >= 1 && |rn| == n + 1 && |table| == 256 && EntriesBelow(rn, n, table, 256) && j < 256
    ensures LevelIs(rn, n, j, x) && DropsFraction(x * 255.0, table[j])
  {
    assert EntryIs(rn, n, j, table[j]);
    x := EntryLevel(rn, n, j, table[j]);
    TruncatedDropsFraction(x * 255.0);
  }

  /** The straight line: its ends, and in between the rise in proportion. */
  lemma LerpIsLine(a: real, b: real, u: real)
    ensures Lerp(a, b, 0.0) == a && Lerp(a, b, 1.0) == b && Lerp(a, b, u) - a == u * (b - a)
  {
  }

  /** Entry j, for every segment i the index falls in, boundaries included: with u how far j/255 lies along the segment,
      255 times the straight line from knot i to knot i + 1 at u, its fraction dropped. */
  lemma EntryExactly(rn: seq<real>, n: nat, table: seq<int>, j: nat, i: nat, u: real)
    requires n >= 1 && |rn| == n + 1 && |table| == 256 && EntriesBelow(rn, n, table, 256)
    requires j < 256 && i < n && 255 * i <= j * n <= 255 * (i + 1) && u == (j * n - 255 * i) as real / 255.0
    ensures DropsFraction(Lerp(rn[i], rn[i + 1], u) * 255.0, table[j])
  {
    var x := EntryDropsFraction(rn, n, table, j);
    LevelExactly(rn, n, j, i, x);
  }

  /** At a knot the entry is 255 times the knot's level, its fraction dropped. */
  lemma KnotEntry(rn: seq<real>, n: nat, table: seq<int>, j: nat, i: nat)
    requires n >= 1 && |rn| == n + 1 && |table| == 256 && EntriesBelow(rn, n, table, 256)
    requires j < 256 && i <= n && j * n == 255 * i
    ensures DropsFraction(rn[i] * 255.0, table[j])
  {
    var x := EntryDropsFraction(rn, n, table, j);
    var k := if i < n then i else n - 1;
    LevelExactly(rn, n, j, k, x);
    ProgressAt(j, k, n);
    LerpIsLine(rn[k], rn[k + 1], 0.0);
  }
}
