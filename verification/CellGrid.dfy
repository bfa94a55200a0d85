/**
 scripts/paint-diff.py: pixel edges of a terminal grid, rounded once per boundary,
 and the ink found in the pixels of each cell.
 */
module CellGrid {

  // ------------------------------------------------------------------ edges

  /** Python's `round`: to the nearest integer, ties to the even one. */
  function Round(x: real): (n: int) {
    var f := x.Floor;
    var d := x - f as real;
    if d < 0.5 then f else if d > 0.5 then f + 1 else if f % 2 == 0 then f else f + 1
  }

  function Clamp(n: int, limit: nat): (m: nat)
    ensures m <= limit
  {
    var low := if n > 0 then n else 0;
    if low < limit then low else limit
  }

  /** Where boundary `i` lies before it is rounded and clamped. */
  function Ideal(start: real, size: real, scale: real, i: nat): (px: real) {
    (start + size * i as real) * scale
  }

  function Edge(start: real, size: real, scale: real, limit: nat, i: nat): (edge: nat) {
    Clamp(Round(Ideal(start, size, scale, i)), limit)
  }

  method CellEdges(start: real, size: real, count: int, scale: real, limit: nat) returns (edges: seq<nat>)
    ensures |edges| == if count < 0 then 0 else count + 1
    ensures forall i :: 0 <= i < |edges| ==> edges[i] == Edge(start, size, scale, limit, i)
  {
    edges := [];
    var i := 0;
    while i < count + 1
      invariant 0 <= i && (i <= count + 1 || (count < 0 && i == 0)) && |edges| == i
      invariant forall k :: 0 <= k < i ==> edges[k] == Edge(start, size, scale, limit, k)
    {
      var px := (start + size * i as real) * scale;
      assert px == Ideal(start, size, scale, i);
      edges := edges + [Clamp(Round(px), limit)];
      i := i + 1;
    }
  }

  lemma RoundIsNear(x: real)
    ensures -0.5 <= Round(x) as real - x <= 0.5
  {
  }

  /** The nearest integer, and on a tie the even one of the two: nothing else is within half a pixel. */
  lemma RoundIsNearestEven(x: real, n: int)
    ensures Round(x) == n <==> -0.5 <= n as real - x <= 0.5 && (n as real - x == 0.5 || n as real - x == -0.5 ==> n % 2 == 0)
  {
    var f := x.Floor;
    assert f as real <= x < (f + 1) as real;
    if -0.5 <= n as real - x <= 0.5 {
      assert n == f || n == f + 1;
    }
  }

  lemma RoundIsMonotone(x: real, y: real)
    requires x <= y
    ensures Round(x) <= Round(y)
  {
    if x.Floor < y.Floor {
      assert Round(x) <= x.Floor + 1 <= y.Floor <= Round(y);
    }
  }

  /** More than one pixel apart, two positions round apart. */
  lemma RoundSeparates(x: real, y: real)
    requires y - x > 1.0
    ensures Round(x) < Round(y)
  {
    RoundIsNear(x);
    RoundIsNear(y);
  }

  lemma MulMonotone(x: real, y: real, c: real)
    requires x <= y && c >= 0.0
    ensures x * c <= y * c
  {
    assert (y - x) * c >= 0.0;
  }

  lemma IdealStep(start: real, size: real, scale: real, i: nat)
    ensures Ideal(start, size, scale, i + 1) == Ideal(start, size, scale, i) + size * scale
  {
    var x := start + size * i as real;
    assert start + size * (i + 1) as real == x + size;
    assert (x + size) * scale == x * scale + size * scale;
  }

  lemma {:induction false} EdgesAreMonotone(start: real, size: real, scale: real, limit: nat, i: nat, j: nat)
    requires size >= 0.0 && scale >= 0.0 && i <= j
    ensures Edge(start, size, scale, limit, i) <= Edge(start, size, scale, limit, j)
    decreases j
  {
    if i < j {
      EdgesAreMonotone(start, size, scale, limit, i, j - 1);
      IdealStep(start, size, scale, j - 1);
      MulMonotone(0.0, size, scale);
      RoundIsMonotone(Ideal(start, size, scale, j - 1), Ideal(start, size, scale, j));
    }
  }

  predicate InCell(start: real, size: real, scale: real, limit: nat, c: nat, p: int) {
    Edge(start, size, scale, limit, c) <= p < Edge(start, size, scale, limit, c + 1)
  }

  /** Cells tile: every pixel between the first and the last edge is in exactly one of them. */
  lemma {:induction false} CellsTile(start: real, size: real, scale: real, limit: nat, count: nat, p: int) returns (c: nat)
    requires size >= 0.0 && scale >= 0.0
    requires Edge(start, size, scale, limit, 0) <= p < Edge(start, size, scale, limit, count)
    ensures c < count && InCell(start, size, scale, limit, c, p)
    ensures forall d: nat :: InCell(start, size, scale, limit, d, p) ==> d == c
  {
    if Edge(start, size, scale, limit, count - 1) <= p {
      c := count - 1;
      forall d: nat | InCell(start, size, scale, limit, d, p)
        ensures d == c
      {
        if d < c {
          EdgesAreMonotone(start, size, scale, limit, d + 1, c);
        } else if d > c {
          EdgesAreMonotone(start, size, scale, limit, c + 1, d);
        }
      }
    } else {
      c := CellsTile(start, size, scale, limit, count - 1, p);
    }
  }

  function ClampReal(x: real, limit: nat): (y: real) {
    if x < 0.0 then 0.0 else if x > limit as real then limit as real else x
  }

  lemma EdgeIsNear(start: real, size: real, scale: real, limit: nat, i: nat)
    ensures var ideal := ClampReal(Ideal(start, size, scale, i), limit);
      -0.5 <= Edge(start, size, scale, limit, i) as real - ideal <= 0.5
  {
    RoundIsNear(Ideal(start, size, scale, i));
  }

  lemma IdealSpan(start: real, size: real, scale: real, i: nat, j: nat)
    ensures Ideal(start, size, scale, j) - Ideal(start, size, scale, i) == (j as real - i as real) * (size * scale)
  {
    var x, y := size * i as real, size * j as real;
    assert (start + y) * scale - (start + x) * scale == (y - x) * scale;
    assert y - x == size * (j as real - i as real);
  }

  /**
   No drift: every edge is within half a pixel of its ideal place in the image, and any span of
   cells between unclamped edges within one pixel of its ideal width, however many cells it has.
   */
  lemma EdgesDoNotDrift(start: real, size: real, scale: real, limit: nat, i: nat, j: nat)
    ensures var ideal := ClampReal((start + size * i as real) * scale, limit);
      -0.5 <= Edge(start, size, scale, limit, i) as real - ideal <= 0.5
    ensures Unclamped(start, size, scale, limit, i) && Unclamped(start, size, scale, limit, j) ==>
      var width := (Edge(start, size, scale, limit, j) - Edge(start, size, scale, limit, i)) as real;
      -1.0 <= width - (j as real - i as real) * (size * scale) <= 1.0
  {
    EdgeIsNear(start, size, scale, limit, i);
    IdealSpan(start, size, scale, i, j);
    RoundIsNear(Ideal(start, size, scale, i));
    RoundIsNear(Ideal(start, size, scale, j));
  }

  predicate Unclamped(start: real, size: real, scale: real, limit: nat, i: nat) {
    0 <= Round(Ideal(start, size, scale, i)) <= limit
  }

  /** A cell wider than one pixel whose edges lie in the image owns at least one pixel. */
  lemma WideCellsAreNotEmpty(start: real, size: real, scale: real, limit: nat, c: nat)
    requires size * scale > 1.0
    requires Unclamped(start, size, scale, limit, c) && Unclamped(start, size, scale, limit, c + 1)
    ensures Edge(start, size, scale, limit, c) < Edge(start, size, scale, limit, c + 1)
  {
    IdealStep(start, size, scale, c);
    RoundSeparates(Ideal(start, size, scale, c), Ideal(start, size, scale, c + 1));
  }

  /** A cell of exactly one pixel may be empty: 1.5 and 2.5 both round to 2. */
  lemma OnePixelCellMayBeEmpty(limit: nat)
    requires limit >= 2
    ensures Unclamped(1.5, 1.0, 1.0, limit, 0) && Unclamped(1.5, 1.0, 1.0, limit, 1)
    ensures Edge(1.5, 1.0, 1.0, limit, 0) == Edge(1.5, 1.0, 1.0, limit, 1)
  {
    assert Ideal(1.5, 1.0, 1.0, 0) == 1.5 && Ideal(1.5, 1.0, 1.0, 1) == 2.5;
    assert (1.5).Floor == 1 && (2.5).Floor == 2;
  }

  // -------------------------------------------------------------------- ink

  const INK_CONTRAST := 18.0

  /** The luminances of the pixels of a box, row after row. */
  function Box(lum: seq<seq<real>>, y0: nat, y1: nat, x0: nat, x1: nat): (box: seq<real>)
    requires y1 <= |lum| && forall y :: 0 <= y < |lum| ==> x1 <= |lum[y]|
    decreases y1
  {
    if y1 <= y0 || x1 <= x0 then []
    else Box(lum, y0, y1 - 1, x0, x1) + lum[y1 - 1][x0..x1]
  }

  function Lowest(box: seq<real>): (m: real)
    requires box != []
    ensures m in box && forall k :: 0 <= k < |box| ==> m <= box[k]
  {
    if |box| == 1 then box[0]
    else
      var m := Lowest(box[1..]);
      assert forall k :: 1 <= k < |box| ==> box[k] == box[1..][k - 1];
      if box[0] < m then box[0] else m
  }

  function Highest(box: seq<real>): (m: real)
    requires box != []
    ensures m in box && forall k :: 0 <= k < |box| ==> box[k] <= m
  {
    if |box| == 1 then box[0]
    else
      var m := Highest(box[1..]);
      assert forall k :: 1 <= k < |box| ==> box[k] == box[1..][k - 1];
      if box[0] > m then box[0] else m
  }

  function CountAbove(box: seq<real>, floor: real): (n: nat) {
    if box == [] then 0 else CountAbove(box[1..], floor) + if box[0] - floor >= INK_CONTRAST then 1 else 0
  }

  function BoxContrast(box: seq<real>): (c: real) {
    if box == [] then 0.0 else Highest(box) - Lowest(box)
  }

  /** How many pixels of a box stand out from its darkest one. */
  function InkPixels(box: seq<real>): (n: nat) {
    if BoxContrast(box) >= INK_CONTRAST then CountAbove(box, Lowest(box)) else 0
  }

  /** The image is rectangular and the edges lie in it. */
  predicate InImage(lum: seq<seq<real>>, xEdges: seq<nat>, yEdges: seq<nat>) {
    && (forall i :: 0 <= i < |yEdges| ==> yEdges[i] <= |lum|)
    && (forall j, y :: 0 <= j < |xEdges| && 0 <= y < |lum| ==> xEdges[j] <= |lum[y]|)
  }

  function CellBox(lum: seq<seq<real>>, xEdges: seq<nat>, yEdges: seq<nat>, r: nat, c: nat): (box: seq<real>)
    requires InImage(lum, xEdges, yEdges) && r + 1 < |yEdges| && c + 1 < |xEdges|
  {
    Box(lum, yEdges[r], yEdges[r + 1], xEdges[c], xEdges[c + 1])
  }

  /** Row `r` holds the readings of its first `n` cells, and zeros after them. */
  ghost predicate RowInked(lum: seq<seq<real>>, xEdges: seq<nat>, yEdges: seq<nat>,
                           contrast: array2<real>, pixels: array2<nat>, r: nat, n: nat)
    requires InImage(lum, xEdges, yEdges) && r + 1 < |yEdges|
    requires contrast.Length0 == pixels.Length0 && contrast.Length1 == pixels.Length1 < |xEdges|
    requires r < contrast.Length0
    reads contrast, pixels
  {
    forall c :: 0 <= c < contrast.Length1 ==>
      if c < n then
        && contrast[r, c] == BoxContrast(CellBox(lum, xEdges, yEdges, r, c))
        && pixels[r, c] == InkPixels(CellBox(lum, xEdges, yEdges, r, c))
      else contrast[r, c] == 0.0 && pixels[r, c] == 0
  }

  method InkRow(lum: seq<seq<real>>, xEdges: seq<nat>, yEdges: seq<nat>,
                contrast: array2<real>, pixels: array2<nat>, r: nat)
    requires InImage(lum, xEdges, yEdges) && r + 1 < |yEdges|
    requires contrast.Length0 == pixels.Length0 && contrast.Length1 == pixels.Length1 < |xEdges|
    requires r < contrast.Length0 && RowInked(lum, xEdges, yEdges, contrast, pixels, r, 0)
    modifies contrast, pixels
    ensures RowInked(lum, xEdges, yEdges, contrast, pixels, r, contrast.Length1)
    ensures forall i, c :: 0 <= i < contrast.Length0 && 0 <= c < contrast.Length1 && i != r ==>
      contrast[i, c] == old(contrast[i, c]) && pixels[i, c] == old(pixels[i, c])
  {
    var y0, y1 := yEdges[r], yEdges[r + 1];
    if y1 <= y0 {
      return;
    }
    for c := 0 to contrast.Length1
      invariant RowInked(lum, xEdges, yEdges, contrast, pixels, r, c)
      invariant forall i, k :: 0 <= i < contrast.Length0 && 0 <= k < contrast.Length1 && i != r ==>
        contrast[i, k] == old(contrast[i, k]) && pixels[i, k] == old(pixels[i, k])
    {
      var x0, x1 := xEdges[c], xEdges[c + 1];
      if x1 > x0 {
        var box := Box(lum, y0, y1, x0, x1);
        if box != [] {
          var lo, hi := Lowest(box), Highest(box);
          contrast[r, c] := hi - lo;
          if hi - lo >= INK_CONTRAST {
            pixels[r, c] := CountAbove(box, lo);
          }
        }
      }
    }
  }

  // ------------------------------------------ which pixels a cell reads

  lemma RowOffset(y: int, width: int)
    ensures y * width + width == (y + 1) * width
    ensures y >= 0 && width >= 0 ==> y * width >= 0
  {
  }

  lemma {:induction false} BoxLength(lum: seq<seq<real>>, y0: nat, y1: nat, x0: nat, x1: nat)
    requires y0 <= y1 <= |lum| && x0 <= x1 && forall y :: 0 <= y < |lum| ==> x1 <= |lum[y]|
    ensures |Box(lum, y0, y1, x0, x1)| == (y1 - y0) * (x1 - x0)
    decreases y1
  {
    if y0 < y1 {
      BoxLength(lum, y0, y1 - 1, x0, x1);
      RowOffset(y1 - 1 - y0, x1 - x0);
    }
  }

  lemma AppendAt<T>(a: seq<T>, b: seq<T>, n: int, i: nat)
    requires n == |a| && i < |b|
    ensures n + i < |a + b| && (a + b)[n + i] == b[i]
  {
  }

  /** A box holds the pixels between its edges, every row after the one before. */
  lemma {:induction false} BoxAt(lum: seq<seq<real>>, y0: nat, y1: nat, x0: nat, x1: nat, y: nat, x: nat)
    requires y1 <= |lum| && forall v :: 0 <= v < |lum| ==> x1 <= |lum[v]|
    requires y0 <= y < y1 && x0 <= x < x1
    ensures var k := (y - y0) * (x1 - x0) + (x - x0);
      0 <= k < |Box(lum, y0, y1, x0, x1)| && Box(lum, y0, y1, x0, x1)[k] == lum[y][x]
    decreases y1
  {
    var above, row := Box(lum, y0, y1 - 1, x0, x1), lum[y1 - 1][x0..x1];
    BoxLength(lum, y0, y1 - 1, x0, x1);
    if y == y1 - 1 {
      AppendAt(above, row, (y - y0) * (x1 - x0), x - x0);
    } else {
      BoxAt(lum, y0, y1 - 1, x0, x1, y, x);
    }
  }

  /** The pixel of that row and column is one of the cell's. */
  predicate InBox(y0: nat, y1: nat, x0: nat, x1: nat, y: int, x: int) {
    y0 <= y < y1 && x0 <= x < x1
  }

  lemma {:induction false} BoxMembers(lum: seq<seq<real>>, y0: nat, y1: nat, x0: nat, x1: nat, v: real)
    requires y1 <= |lum| && forall y :: 0 <= y < |lum| ==> x1 <= |lum[y]|
    ensures v in Box(lum, y0, y1, x0, x1) <==> exists y, x :: InBox(y0, y1, x0, x1, y, x) && lum[y][x] == v
    decreases y1
  {
    if y0 < y1 && x0 < x1 {
      BoxMembers(lum, y0, y1 - 1, x0, x1, v);
      var row := lum[y1 - 1][x0..x1];
      if v in row {
        var k :| 0 <= k < |row| && row[k] == v;
        assert InBox(y0, y1, x0, x1, y1 - 1, x0 + k) && lum[y1 - 1][x0 + k] == v;
      }
      if y, x :| InBox(y0, y1, x0, x1, y, x) && lum[y][x] == v {
        if y == y1 - 1 {
          assert row[x - x0] == v;
        } else {
          assert InBox(y0, y1 - 1, x0, x1, y, x);
        }
      }
      if y, x :| InBox(y0, y1 - 1, x0, x1, y, x) && lum[y][x] == v {
        assert InBox(y0, y1, x0, x1, y, x);
      }
    }
  }

  /** The pixels of a box that are lighter than `floor` by the threshold. */
  ghost function Standing(lum: seq<seq<real>>, y0: nat, y1: nat, x0: nat, x1: nat, floor: real): (pixels: set<(int, int)>)
    requires y1 <= |lum| && forall y :: 0 <= y < |lum| ==> x1 <= |lum[y]|
  {
    set y, x | y0 <= y < y1 && x0 <= x < x1 && lum[y][x] - floor >= 18.0 :: (y, x)
  }

  lemma {:induction false} CountAboveConcat(a: seq<real>, b: seq<real>, floor: real)
    ensures CountAbove(a + b, floor) == CountAbove(a, floor) + CountAbove(b, floor)
  {
    if a == [] {
      assert a + b == b;
    } else {
      CountAboveConcat(a[1..], b, floor);
      assert (a + b)[1..] == a[1..] + b;
    }
  }

  lemma StandingHas(lum: seq<seq<real>>, y0: nat, y1: nat, x0: nat, x1: nat, floor: real, p: (int, int))
    requires y1 <= |lum| && forall y :: 0 <= y < |lum| ==> x1 <= |lum[y]|
    ensures p in Standing(lum, y0, y1, x0, x1, floor) <==> InBox(y0, y1, x0, x1, p.0, p.1) && lum[p.0][p.1] - floor >= 18.0
  {
  }

  lemma StandingNext(lum: seq<seq<real>>, y: nat, x0: nat, x1: nat, floor: real)
    requires y < |lum| && x0 < x1 && forall v :: 0 <= v < |lum| ==> x1 <= |lum[v]|
    ensures |Standing(lum, y, y + 1, x0, x1, floor)|
      == |Standing(lum, y, y + 1, x0, x1 - 1, floor)| + if lum[y][x1 - 1] - floor >= 18.0 then 1 else 0
  {
    var last: (int, int) := (y, x1 - 1);
    var added := if lum[y][x1 - 1] - floor >= 18.0 then {last} else {};
    var before, after := Standing(lum, y, y + 1, x0, x1 - 1, floor), Standing(lum, y, y + 1, x0, x1, floor);
    forall p: (int, int)
      ensures p in after <==> p in before + added
    {
      StandingHas(lum, y, y + 1, x0, x1, floor, p);
      StandingHas(lum, y, y + 1, x0, x1 - 1, floor, p);
      assert p.0 == y && p.1 == x1 - 1 ==> p == last;
    }
    StandingHas(lum, y, y + 1, x0, x1 - 1, floor, last);
    OneMore(before, added, after);
  }

  lemma OneMore(before: set<(int, int)>, added: set<(int, int)>, after: set<(int, int)>)
    requires before !! added && forall p :: p in after <==> p in before + added
    ensures |after| == |before| + |added|
  {
    assert after == before + added;
  }

  lemma CountAboveNext(a: seq<real>, v: real, floor: real)
    ensures CountAbove(a + [v], floor) == CountAbove(a, floor) + if v - floor >= 18.0 then 1 else 0
  {
    CountAboveConcat(a, [v], floor);
  }

  lemma {:induction false} RowStands(lum: seq<seq<real>>, y: nat, x0: nat, x1: nat, floor: real)
    requires y < |lum| && x0 <= x1 && forall v :: 0 <= v < |lum| ==> x1 <= |lum[v]|
    ensures |Standing(lum, y, y + 1, x0, x1, floor)| == CountAbove(lum[y][x0..x1], floor)
    decreases x1
  {
    if x0 == x1 {
      assert Standing(lum, y, y + 1, x0, x1, floor) == {};
    } else {
      RowStands(lum, y, x0, x1 - 1, floor);
      StandingNext(lum, y, x0, x1, floor);
      assert lum[y][x0..x1] == lum[y][x0..x1 - 1] + [lum[y][x1 - 1]];
      CountAboveNext(lum[y][x0..x1 - 1], lum[y][x1 - 1], floor);
    }
  }

  lemma {:induction false} BoxStands(lum: seq<seq<real>>, y0: nat, y1: nat, x0: nat, x1: nat, floor: real)
    requires y1 <= |lum| && forall y :: 0 <= y < |lum| ==> x1 <= |lum[y]|
    ensures |Standing(lum, y0, y1, x0, x1, floor)| == CountAbove(Box(lum, y0, y1, x0, x1), floor)
    decreases y1
  {
    if y1 <= y0 || x1 <= x0 {
      assert Standing(lum, y0, y1, x0, x1, floor) == {};
    } else {
      var above, row := Standing(lum, y0, y1 - 1, x0, x1, floor), Standing(lum, y1 - 1, y1, x0, x1, floor);
      BoxStands(lum, y0, y1 - 1, x0, x1, floor);
      RowStands(lum, y1 - 1, x0, x1, floor);
      CountAboveConcat(Box(lum, y0, y1 - 1, x0, x1), lum[y1 - 1][x0..x1], floor);
      assert Standing(lum, y0, y1, x0, x1, floor) == above + row && above !! row;
    }
  }

  /** The pixel is in the cell and none of the cell is darker. */
  ghost predicate IsDarkest(lum: seq<seq<real>>, y0: nat, y1: nat, x0: nat, x1: nat, y: int, x: int)
    requires y1 <= |lum| && forall y :: 0 <= y < |lum| ==> x1 <= |lum[y]|
  {
    InBox(y0, y1, x0, x1, y, x) && forall v, u :: InBox(y0, y1, x0, x1, v, u) ==> lum[y][x] <= lum[v][u]
  }

  ghost predicate IsLightest(lum: seq<seq<real>>, y0: nat, y1: nat, x0: nat, x1: nat, y: int, x: int)
    requires y1 <= |lum| && forall y :: 0 <= y < |lum| ==> x1 <= |lum[y]|
  {
    InBox(y0, y1, x0, x1, y, x) && forall v, u :: InBox(y0, y1, x0, x1, v, u) ==> lum[v][u] <= lum[y][x]
  }

  /**
   What is read of a cell, told by its own pixels: the lightest less the darkest, and how many are
   lighter than the darkest by the threshold; zeros when it has no pixels.
   */
  ghost predicate IsRead(lum: seq<seq<real>>, y0: nat, y1: nat, x0: nat, x1: nat, contrast: real, pixels: nat)
    requires y1 <= |lum| && forall y :: 0 <= y < |lum| ==> x1 <= |lum[y]|
  {
    if y1 <= y0 || x1 <= x0 then contrast == 0.0 && pixels == 0
    else exists y, x, v, u ::
      && IsDarkest(lum, y0, y1, x0, x1, y, x) && IsLightest(lum, y0, y1, x0, x1, v, u)
      && contrast == lum[v][u] - lum[y][x] && pixels == |Standing(lum, y0, y1, x0, x1, lum[y][x])|
  }

  /** The two readings of a box are what its pixels say. */
  lemma BoxIsRead(lum: seq<seq<real>>, y0: nat, y1: nat, x0: nat, x1: nat)
    requires y1 <= |lum| && forall y :: 0 <= y < |lum| ==> x1 <= |lum[y]|
    ensures var box := Box(lum, y0, y1, x0, x1); IsRead(lum, y0, y1, x0, x1, BoxContrast(box), InkPixels(box))
  {
    var box := Box(lum, y0, y1, x0, x1);
    if y0 < y1 && x0 < x1 {
      BoxLength(lum, y0, y1, x0, x1);
      BoxAt(lum, y0, y1, x0, x1, y0, x0);
      var y, x := BoxHas(lum, y0, y1, x0, x1, Lowest(box));
      var v, u := BoxHas(lum, y0, y1, x0, x1, Highest(box));
      forall b, a | InBox(y0, y1, x0, x1, b, a)
        ensures lum[y][x] <= lum[b][a] <= lum[v][u]
      {
        BoxMembers(lum, y0, y1, x0, x1, lum[b][a]);
      }
      BoxStands(lum, y0, y1, x0, x1, lum[y][x]);
      FlatBoxHasNone(box);
    }
  }

  lemma BoxHas(lum: seq<seq<real>>, y0: nat, y1: nat, x0: nat, x1: nat, value: real) returns (y: int, x: int)
    requires y1 <= |lum| && forall v :: 0 <= v < |lum| ==> x1 <= |lum[v]|
    requires value in Box(lum, y0, y1, x0, x1)
    ensures InBox(y0, y1, x0, x1, y, x) && lum[y][x] == value
  {
    BoxMembers(lum, y0, y1, x0, x1, value);
    y, x :| InBox(y0, y1, x0, x1, y, x) && lum[y][x] == value;
  }

  lemma FlatBoxHasNone(box: seq<real>)
    requires box != []
    ensures InkPixels(box) == CountAbove(box, Lowest(box))
  {
    CountAboveIsPositive(box, Lowest(box));
  }

  /** A cell has ink exactly when two of its own pixels differ by the threshold. */
  lemma InkIsOwn(lum: seq<seq<real>>, y0: nat, y1: nat, x0: nat, x1: nat, contrast: real, pixels: nat)
    requires y1 <= |lum| && forall y :: 0 <= y < |lum| ==> x1 <= |lum[y]|
    requires IsRead(lum, y0, y1, x0, x1, contrast, pixels)
    ensures pixels > 0 <==> exists y, x, v, u ::
      InBox(y0, y1, x0, x1, y, x) && InBox(y0, y1, x0, x1, v, u) && lum[v][u] - lum[y][x] >= 18.0
  {
    if y0 < y1 && x0 < x1 {
      var y, x, v, u :| IsDarkest(lum, y0, y1, x0, x1, y, x) && IsLightest(lum, y0, y1, x0, x1, v, u)
        && contrast == lum[v][u] - lum[y][x] && pixels == |Standing(lum, y0, y1, x0, x1, lum[y][x])|;
      var standing := Standing(lum, y0, y1, x0, x1, lum[y][x]);
      if standing != {} {
        var p :| p in standing;
        assert InBox(y0, y1, x0, x1, p.0, p.1) && lum[p.0][p.1] - lum[y][x] >= 18.0;
      }
      if b, a, d, c :| InBox(y0, y1, x0, x1, b, a) && InBox(y0, y1, x0, x1, d, c) && lum[d][c] - lum[b][a] >= 18.0 {
        assert (d, c) in standing;
      }
    }
  }

  method InkGrid(lum: seq<seq<real>>, rows: nat, cols: nat, xEdges: seq<nat>, yEdges: seq<nat>)
    returns (contrast: array2<real>, pixels: array2<nat>)
    requires rows < |yEdges| && cols < |xEdges| && InImage(lum, xEdges, yEdges)
    ensures contrast.Length0 == pixels.Length0 == rows && contrast.Length1 == pixels.Length1 == cols
    ensures forall r :: 0 <= r < rows ==> RowInked(lum, xEdges, yEdges, contrast, pixels, r, cols)
    ensures forall r, c :: 0 <= r < rows && 0 <= c < cols ==>
      IsRead(lum, yEdges[r], yEdges[r + 1], xEdges[c], xEdges[c + 1], contrast[r, c], pixels[r, c])
  {
    contrast := new real[rows, cols]((_, _) => 0.0);
    pixels := new nat[rows, cols]((_, _) => 0);
    for r := 0 to rows
      invariant forall i :: 0 <= i < r ==> RowInked(lum, xEdges, yEdges, contrast, pixels, i, cols)
      invariant forall i :: r <= i < rows ==> RowInked(lum, xEdges, yEdges, contrast, pixels, i, 0)
    {
      label before:
      InkRow(lum, xEdges, yEdges, contrast, pixels, r);
      forall i | 0 <= i < r
        ensures RowInked(lum, xEdges, yEdges, contrast, pixels, i, cols)
      {
        assert old@before(RowInked(lum, xEdges, yEdges, contrast, pixels, i, cols));
      }
      forall i | r < i < rows
        ensures RowInked(lum, xEdges, yEdges, contrast, pixels, i, 0)
      {
        assert old@before(RowInked(lum, xEdges, yEdges, contrast, pixels, i, 0));
      }
    }
    forall r, c | 0 <= r < rows && 0 <= c < cols
      ensures IsRead(lum, yEdges[r], yEdges[r + 1], xEdges[c], xEdges[c + 1], contrast[r, c], pixels[r, c])
    {
      assert RowInked(lum, xEdges, yEdges, contrast, pixels, r, cols);
      BoxIsRead(lum, yEdges[r], yEdges[r + 1], xEdges[c], xEdges[c + 1]);
    }
  }

  lemma {:induction false} CountAboveIsPositive(box: seq<real>, floor: real)
    ensures CountAbove(box, floor) > 0 <==> exists k :: 0 <= k < |box| && box[k] - floor >= INK_CONTRAST
  {
    if box != [] {
      CountAboveIsPositive(box[1..], floor);
      assert forall k :: 1 <= k < |box| ==> box[k] == box[1..][k - 1];
    }
  }

  /** A cell has ink exactly when some pixel in it is lighter than another by the threshold. */
  lemma InkIsContrast(box: seq<real>)
    ensures InkPixels(box) > 0 <==>
      exists i, j :: 0 <= i < |box| && 0 <= j < |box| && box[i] - box[j] >= INK_CONTRAST
  {
    if box != [] {
      CountAboveIsPositive(box, Lowest(box));
      if i, j :| 0 <= i < |box| && 0 <= j < |box| && box[i] - box[j] >= INK_CONTRAST {
        assert box[i] - Lowest(box) >= INK_CONTRAST && Highest(box) >= box[i];
      }
    }
  }

  function Tint(box: seq<real>, c: real): (t: seq<real>)
    ensures |t| == |box| && forall k :: 0 <= k < |box| ==> t[k] == box[k] + c
  {
    seq(|box|, k requires 0 <= k < |box| => box[k] + c)
  }

  lemma {:induction false} CountAboveTint(box: seq<real>, c: real, floor: real, tintedFloor: real)
    requires tintedFloor == floor + c
    ensures CountAbove(Tint(box, c), tintedFloor) == CountAbove(box, floor)
  {
    if box != [] {
      CountAboveTint(box[1..], c, floor, tintedFloor);
      assert Tint(box, c)[1..] == Tint(box[1..], c);
    }
  }

  lemma ContrastIgnoresTint(box: seq<real>, c: real)
    ensures BoxContrast(Tint(box, c)) == BoxContrast(box)
  {
    if box != [] {
      ExtremesTint(box, c);
    }
  }

  /** The test is blind to the colour a cell was painted: a uniform change of luminance changes nothing. */
  lemma InkIgnoresTint(box: seq<real>, c: real)
    ensures BoxContrast(Tint(box, c)) == BoxContrast(box) && InkPixels(Tint(box, c)) == InkPixels(box)
  {
    ContrastIgnoresTint(box, c);
    if BoxContrast(box) >= INK_CONTRAST {
      ExtremesTint(box, c);
      CountAboveTint(box, c, Lowest(box), Lowest(Tint(box, c)));
    }
  }

  lemma ExtremesTint(box: seq<real>, c: real)
    requires box != []
    ensures Tint(box, c) != [] && Lowest(Tint(box, c)) == Lowest(box) + c && Highest(Tint(box, c)) == Highest(box) + c
  {
    var tinted := Tint(box, c);
    var i :| 0 <= i < |box| && box[i] == Lowest(box);
    var j :| 0 <= j < |tinted| && tinted[j] == Lowest(tinted);
    var k :| 0 <= k < |box| && box[k] == Highest(box);
    var l :| 0 <= l < |tinted| && tinted[l] == Highest(tinted);
    assert tinted[i] == box[i] + c && tinted[j] == box[j] + c && tinted[k] == box[k] + c && tinted[l] == box[l] + c;
  }
}
