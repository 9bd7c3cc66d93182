/** Covering the difference of two images with disjoint boxes
    (aperturec-graphics/src/rectangle_cover.rs). */
module RectangleCovers {
  import opened Common
  import opened Geometry
  import opened Painting
  import opened BoxSets
  import opened PixelCompare

  const SAMPLE_GRID_SIZE: nat := 64

  // ----- Sampling -----

  /** The pixels of the sample tile (x, y). */
  function Tile(a: View, x: nat, y: nat): View
    requires x * SAMPLE_GRID_SIZE <= a.width && y * SAMPLE_GRID_SIZE <= |a.rows|
  {
    var minX, minY := x * SAMPLE_GRID_SIZE, y * SAMPLE_GRID_SIZE;
    var maxX, maxY := Min(minX + SAMPLE_GRID_SIZE, a.width), Min(minY + SAMPLE_GRID_SIZE, |a.rows|);
    RawView(maxX - minX, seq(maxY - minY, j requires 0 <= j < maxY - minY => a.rows[minY + j][minX..maxX]))
  }

  predicate SameSize(a: View, b: View) { a.width == b.width && |a.rows| == |b.rows| }

  predicate DiffersAt(a: View, b: View, x: nat, y: nat)
    requires SameSize(a, b) && x < a.width && y < |a.rows|
  {
    a.rows[y][x] != b.rows[y][x]
  }

  predicate TileDiffers(a: View, b: View, x: nat, y: nat)
    requires SameSize(a, b)
    requires x * SAMPLE_GRID_SIZE <= a.width && y * SAMPLE_GRID_SIZE <= |a.rows|
  {
    Tile(a, x, y) != Tile(b, x, y)
  }

  lemma TileIndex(n: nat, k: nat)
    requires k < DivCeil(n, SAMPLE_GRID_SIZE)
    ensures k * SAMPLE_GRID_SIZE < n
  {}

  /** One row of samples: 0 for a tile that is the same in both images, 255 for one that differs. */
  predicate IsSampleLine(line: seq<Byte>, a: View, b: View, y: nat)
    requires SameSize(a, b)
  {
    y * SAMPLE_GRID_SIZE < |a.rows| && |line| == DivCeil(a.width, SAMPLE_GRID_SIZE) &&
    forall x: nat | x < |line| ::
      x * SAMPLE_GRID_SIZE < a.width && line[x] == if TileDiffers(a, b, x, y) then 255 else 0
  }

  method SampleLine(a: View, b: View, y: nat) returns (line: seq<Byte>)
    requires SameSize(a, b) && y * SAMPLE_GRID_SIZE < |a.rows|
    ensures IsSampleLine(line, a, b, y)
  {
    var tilesX := DivCeil(a.width, SAMPLE_GRID_SIZE);
    line := [];
    for x := 0 to tilesX
      invariant |line| == x
      invariant forall i: nat | i < x ::
        i * SAMPLE_GRID_SIZE < a.width && line[i] == if TileDiffers(a, b, i, y) then 255 else 0
    {
      TileIndex(a.width, x);
      var same := SimdEq(Tile(a, x, y), Tile(b, x, y), _ => true);
      line := line + [if same then 0 else 255];
    }
  }

  predicate IsDiffImage(diff: seq<seq<Byte>>, a: View, b: View)
    requires SameSize(a, b)
  {
    |diff| == DivCeil(|a.rows|, SAMPLE_GRID_SIZE) && forall y: nat | y < |diff| :: IsSampleLine(diff[y], a, b, y)
  }

  method SampledDiffImage(a: View, b: View) returns (diff: seq<seq<Byte>>)
    requires SameSize(a, b)
    ensures IsDiffImage(diff, a, b)
  {
    var tilesY := DivCeil(|a.rows|, SAMPLE_GRID_SIZE);
    diff := [];
    for y := 0 to tilesY
      invariant |diff| == y
      invariant forall j: nat | j < y :: IsSampleLine(diff[j], a, b, j)
    {
      TileIndex(|a.rows|, y);
      var line := SampleLine(a, b, y);
      diff := diff + [line];
    }
  }

  /** A pixel that differs makes its tile differ. */
  lemma PixelTileDiffers(a: View, b: View, x: nat, y: nat)
    requires SameSize(a, b) && x < a.width && y < |a.rows| && DiffersAt(a, b, x, y)
    ensures
      var tx, ty := x / SAMPLE_GRID_SIZE, y / SAMPLE_GRID_SIZE;
      tx < DivCeil(a.width, SAMPLE_GRID_SIZE) && ty < DivCeil(|a.rows|, SAMPLE_GRID_SIZE) &&
      tx * SAMPLE_GRID_SIZE <= x && ty * SAMPLE_GRID_SIZE <= y && TileDiffers(a, b, tx, ty)
  {
    var tx, ty := x / SAMPLE_GRID_SIZE, y / SAMPLE_GRID_SIZE;
    var i, j := x - tx * SAMPLE_GRID_SIZE, y - ty * SAMPLE_GRID_SIZE;
    assert Tile(a, tx, ty).rows[j][i] == a.rows[y][x];
    assert Tile(b, tx, ty).rows[j][i] == b.rows[y][x];
  }

  lemma TileAt(a: View, x: nat, y: nat, u: nat, v: nat)
    requires x * SAMPLE_GRID_SIZE <= a.width && y * SAMPLE_GRID_SIZE <= |a.rows|
    requires v < |Tile(a, x, y).rows| && u < Tile(a, x, y).width
    ensures x * SAMPLE_GRID_SIZE + u < a.width && y * SAMPLE_GRID_SIZE + v < |a.rows|
    ensures (x * SAMPLE_GRID_SIZE + u) / 64 == x && (y * SAMPLE_GRID_SIZE + v) / 64 == y
    ensures Tile(a, x, y).rows[v][u] == a.rows[y * SAMPLE_GRID_SIZE + v][x * SAMPLE_GRID_SIZE + u]
  {}

  lemma DifferingPixel(a: View, b: View, x: nat, y: nat) returns (i: nat, j: nat)
    requires SameSize(a, b) && x * SAMPLE_GRID_SIZE <= a.width && y * SAMPLE_GRID_SIZE <= |a.rows|
    requires TileDiffers(a, b, x, y)
    ensures i < a.width && j < |a.rows| && i / 64 == x && j / 64 == y && DiffersAt(a, b, i, j)
  {
    var s, t := Tile(a, x, y), Tile(b, x, y);
    var v :| 0 <= v < |s.rows| && s.rows[v] != t.rows[v];
    var u :| 0 <= u < s.width && s.rows[v][u] != t.rows[v][u];
    TileAt(a, x, y, u, v);
    TileAt(b, x, y, u, v);
    i, j := x * SAMPLE_GRID_SIZE + u, y * SAMPLE_GRID_SIZE + v;
  }

  predicate DiffersIn(a: View, b: View, x: nat, y: nat, i: nat, j: nat)
    requires SameSize(a, b)
  {
    i < a.width && j < |a.rows| && i / 64 == x && j / 64 == y && DiffersAt(a, b, i, j)
  }

  /** A tile differs exactly if a pixel of it does. */
  lemma TileDiffersIff(a: View, b: View, x: nat, y: nat)
    requires SameSize(a, b) && x * SAMPLE_GRID_SIZE <= a.width && y * SAMPLE_GRID_SIZE <= |a.rows|
    ensures TileDiffers(a, b, x, y) <==> exists i, j :: DiffersIn(a, b, x, y, i, j)
  {
    if i, j :| DiffersIn(a, b, x, y, i, j) {
      PixelTileDiffers(a, b, i, j);
    }
    if TileDiffers(a, b, x, y) {
      var i, j := DifferingPixel(a, b, x, y);
      assert DiffersIn(a, b, x, y, i, j);
    }
  }

  lemma EqualImagesEqualTiles(a: View, b: View)
    requires SameSize(a, b)
    requires forall x: nat, y: nat | x < a.width && y < |a.rows| :: !DiffersAt(a, b, x, y)
    ensures a == b
  {
    forall y | 0 <= y < |a.rows| ensures a.rows[y] == b.rows[y] {
      forall x | 0 <= x < a.width ensures a.rows[y][x] == b.rows[y][x] {
        assert !DiffersAt(a, b, x, y);
      }
    }
  }

  // ----- Bounds of labelled regions -----

  type Interval = (nat, nat)

  /** `bounds` gives each non-zero label that occurs the least half-open interval that holds
      its positions. */
  ghost predicate ExactBounds(bounds: map<nat, Interval>, occurs: (nat, nat) -> bool) {
    (forall r :: r in bounds ==> IsLeastInterval(bounds[r], occurs, r)) &&
    (forall r: nat, k: nat :: r != 0 && occurs(r, k) ==> r in bounds)
  }

  ghost predicate IsLeastInterval(b: Interval, occurs: (nat, nat) -> bool, r: nat) {
    r != 0 && b.0 < b.1 && occurs(r, b.0) && occurs(r, b.1 - 1) &&
    forall k: nat :: occurs(r, k) ==> b.0 <= k < b.1
  }

  function Hull(a: Interval, b: Interval): Interval { (Min(a.0, b.0), Max(a.1, b.1)) }

  /** Adds the bounds `b` to the bounds `a`. */
  function Merged(a: map<nat, Interval>, b: map<nat, Interval>): map<nat, Interval> {
    a + (map r | r in b :: if r in a then Hull(a[r], b[r]) else b[r])
  }

  ghost predicate Either(either: (nat, nat) -> bool, inA: (nat, nat) -> bool, inB: (nat, nat) -> bool) {
    forall r: nat, k: nat | r != 0 :: either(r, k) <==> inA(r, k) || inB(r, k)
  }

  lemma LeastHull(a: Interval, b: Interval, inA: (nat, nat) -> bool, inB: (nat, nat) -> bool,
                  either: (nat, nat) -> bool, r: nat)
    requires Either(either, inA, inB) && IsLeastInterval(a, inA, r) && IsLeastInterval(b, inB, r)
    ensures IsLeastInterval(Hull(a, b), either, r)
  {
    assert either(r, a.0) && either(r, b.0) && either(r, a.1 - 1) && either(r, b.1 - 1);
  }

  lemma LeastOfOne(a: Interval, inA: (nat, nat) -> bool, inB: (nat, nat) -> bool,
                   either: (nat, nat) -> bool, r: nat)
    requires forall q: nat, k: nat | q != 0 :: either(q, k) <==> inA(q, k) || inB(q, k)
    requires IsLeastInterval(a, inA, r) && forall k: nat :: !inB(r, k)
    ensures IsLeastInterval(a, either, r)
  {
    assert either(r, a.0) && either(r, a.1 - 1);
  }

  lemma MergedExact(a: map<nat, Interval>, b: map<nat, Interval>, inA: (nat, nat) -> bool, inB: (nat, nat) -> bool,
                    either: (nat, nat) -> bool)
    requires ExactBounds(a, inA) && ExactBounds(b, inB) && Either(either, inA, inB)
    ensures ExactBounds(Merged(a, b), either)
  {
    var m := Merged(a, b);
    forall r | r in m ensures IsLeastInterval(m[r], either, r) {
      if r in a && r in b {
        LeastHull(a[r], b[r], inA, inB, either, r);
      } else if r in a {
        LeastOfOne(a[r], inA, inB, either, r);
      } else {
        LeastOfOne(b[r], inB, inA, either, r);
      }
    }
    forall r: nat, k: nat | r != 0 && either(r, k) ensures r in m {
      assert inA(r, k) || inB(r, k);
    }
  }

  /** Label r is at position k of the first n positions of a line. */
  function InLine(regions: seq<nat>, n: nat): (nat, nat) -> bool
    requires n <= |regions|
  {
    (r: nat, k: nat) => k < n && regions[k] == r
  }

  function OnlyAt(q: nat, i: nat): (nat, nat) -> bool {
    (r: nat, k: nat) => r == q && k == i
  }

  /** The non-zero labels of one line, with the bounds of their positions. */
  method IdentifyBounds1d(regions: seq<nat>) returns (bounds: map<nat, Interval>)
    ensures ExactBounds(bounds, InLine(regions, |regions|))
  {
    bounds := map[];
    for k := 0 to |regions|
      invariant ExactBounds(bounds, InLine(regions, k))
    {
      var r := regions[k];
      ghost var before := bounds;
      if r != 0 {
        bounds := bounds[r := if r in bounds then (Min(bounds[r].0, k), Max(bounds[r].1, k + 1)) else (k, k + 1)];
      }
      NextPosition(before, regions, k);
    }
  }

  lemma OneExact(r: nat, k: nat)
    requires r != 0
    ensures ExactBounds(map[r := (k, k + 1)], OnlyAt(r, k))
  {}

  lemma MergedOne(a: map<nat, Interval>, r: nat, b: Interval)
    ensures Merged(a, map[r := b]) == a[r := if r in a then Hull(a[r], b) else b]
  {}

  lemma NextPosition(before: map<nat, Interval>, regions: seq<nat>, k: nat)
    requires k < |regions| && ExactBounds(before, InLine(regions, k))
    ensures
      var r := regions[k];
      ExactBounds(if r == 0 then before
                  else before[r := if r in before then (Min(before[r].0, k), Max(before[r].1, k + 1)) else (k, k + 1)],
                  InLine(regions, k + 1))
  {
    var r := regions[k];
    if r == 0 {
      assert Merged(before, map[]) == before;
      MergedExact(before, map[], InLine(regions, k), (q: nat, i: nat) => false, InLine(regions, k + 1));
    } else {
      var one := map[r := (k, k + 1)];
      OneExact(r, k);
      assert Either(InLine(regions, k + 1), InLine(regions, k), OnlyAt(r, k));
      MergedOne(before, r, (k, k + 1));
      MergedExact(before, one, InLine(regions, k), OnlyAt(r, k), InLine(regions, k + 1));
    }
  }

  /** Merges two maps of bounds, entry by entry. */
  method MergeAxisBounds(a: map<nat, Interval>, b: map<nat, Interval>) returns (m: map<nat, Interval>)
    ensures m == Merged(a, b)
  {
    if a == map[] {
      assert Merged(a, b) == b;
      return b;
    }
    if b == map[] {
      assert Merged(a, b) == a;
      return a;
    }
    m := a;
    var rest := b.Keys;
    while rest != {}
      invariant rest <= b.Keys && m.Keys == a.Keys + (b.Keys - rest)
      invariant forall r :: r in m ==>
        m[r] == if r in b && r !in rest then Merged(a, b)[r] else a[r]
    {
      var r :| r in rest;
      rest := rest - {r};
      m := m[r := if r in m then Hull(m[r], b[r]) else b[r]];
    }
    assert m.Keys == Merged(a, b).Keys;
  }

  /** Some line has label r at position k. */
  predicate Occurs(lines: seq<seq<nat>>, r: nat, k: nat) {
    exists j :: 0 <= j < |lines| && k < |lines[j]| && lines[j][k] == r
  }

  function InLines(lines: seq<seq<nat>>): (nat, nat) -> bool {
    (r: nat, k: nat) => Occurs(lines, r, k)
  }

  /** The bounds of the labels over all lines. */
  method IdentifyAxisBounds(lines: seq<seq<nat>>) returns (bounds: map<nat, Interval>)
    ensures ExactBounds(bounds, InLines(lines))
  {
    bounds := map[];
    for j := 0 to |lines|
      invariant ExactBounds(bounds, InLines(lines[..j]))
    {
      var line := IdentifyBounds1d(lines[j]);
      forall r: nat, k: nat
        ensures Occurs(lines[..j + 1], r, k) <==> Occurs(lines[..j], r, k) || (k < |lines[j]| && lines[j][k] == r)
      {
        OccursOneMore(lines, j, r, k);
      }
      MergedExact(bounds, line, InLines(lines[..j]), InLine(lines[j], |lines[j]|), InLines(lines[..j + 1]));
      bounds := MergeAxisBounds(bounds, line);
    }
    assert lines[..|lines|] == lines;
  }

  lemma OccursOneMore(lines: seq<seq<nat>>, j: nat, r: nat, k: nat)
    requires j < |lines|
    ensures Occurs(lines[..j + 1], r, k) <==> Occurs(lines[..j], r, k) || (k < |lines[j]| && lines[j][k] == r)
  {
    if Occurs(lines[..j], r, k) {
      var i :| 0 <= i < j && k < |lines[..j][i]| && lines[..j][i][k] == r;
      assert lines[..j + 1][i] == lines[i];
    }
    assert lines[..j + 1][j] == lines[j];
  }

  // ----- Boxes of labelled regions -----

  predicate IsGrid(g: seq<seq<nat>>, width: nat) {
    forall y :: 0 <= y < |g| ==> |g[y]| == width
  }

  predicate Labelled(labels: seq<seq<nat>>, r: nat, p: Point) {
    p.y < |labels| && p.x < |labels[p.y]| && labels[p.y][p.x] == r
  }

  /** The least box that holds every cell of a region that has cells. */
  ghost predicate IsLeastBox(b: Box, labels: seq<seq<nat>>, r: nat) {
    !IsEmpty(b) && (exists p :: Labelled(labels, r, p)) && (forall p :: Labelled(labels, r, p) ==> In(b, p)) &&
    forall c: Box :: (forall p :: Labelled(labels, r, p) ==> In(c, p)) ==> ContainsBox(c, b)
  }

  function Column(labels: seq<seq<nat>>, width: nat, x: nat): seq<nat>
    requires IsGrid(labels, width) && x < width
  {
    seq(|labels|, y requires 0 <= y < |labels| => labels[y][x])
  }

  function Columns(labels: seq<seq<nat>>, width: nat): seq<seq<nat>>
    requires IsGrid(labels, width)
  {
    seq(width, x requires 0 <= x < width => Column(labels, width, x))
  }

  lemma RowOccurrence(labels: seq<seq<nat>>, r: nat, x: nat) returns (p: Point)
    requires Occurs(labels, r, x)
    ensures Labelled(labels, r, p) && p.x == x
  {
    var y :| 0 <= y < |labels| && x < |labels[y]| && labels[y][x] == r;
    p := Point(x, y);
  }

  lemma ColumnOccurrence(labels: seq<seq<nat>>, width: nat, r: nat, y: nat) returns (p: Point)
    requires IsGrid(labels, width) && Occurs(Columns(labels, width), r, y)
    ensures Labelled(labels, r, p) && p.y == y
  {
    var x :| 0 <= x < width && y < |Columns(labels, width)[x]| && Columns(labels, width)[x][y] == r;
    p := Point(x, y);
  }

  lemma LabelledOccurs(labels: seq<seq<nat>>, width: nat, r: nat, p: Point)
    requires IsGrid(labels, width) && Labelled(labels, r, p)
    ensures Occurs(labels, r, p.x) && Occurs(Columns(labels, width), r, p.y)
  {
    assert Columns(labels, width)[p.x][p.y] == r;
  }

  lemma SameRegions(labels: seq<seq<nat>>, width: nat, across: map<nat, Interval>, down: map<nat, Interval>)
    requires IsGrid(labels, width)
    requires ExactBounds(across, InLines(labels)) && ExactBounds(down, InLines(Columns(labels, width)))
    ensures across.Keys == down.Keys
  {
    forall r | r in across ensures r in down {
      var p := RowOccurrence(labels, r, across[r].0);
      LabelledOccurs(labels, width, r, p);
      assert InLines(Columns(labels, width))(r, p.y);
    }
    forall r | r in down ensures r in across {
      var p := ColumnOccurrence(labels, width, r, down[r].0);
      LabelledOccurs(labels, width, r, p);
      assert InLines(labels)(r, p.x);
    }
  }

  lemma IntervalsMakeLeastBox(labels: seq<seq<nat>>, width: nat, across: Interval, down: Interval, r: nat)
    requires IsGrid(labels, width)
    requires IsLeastInterval(across, InLines(labels), r) && IsLeastInterval(down, InLines(Columns(labels, width)), r)
    ensures IsLeastBox(Box(Point(across.0, down.0), Point(across.1, down.1)), labels, r)
  {
    var b := Box(Point(across.0, down.0), Point(across.1, down.1));
    var left := RowOccurrence(labels, r, across.0);
    var right := RowOccurrence(labels, r, across.1 - 1);
    var top := ColumnOccurrence(labels, width, r, down.0);
    var bottom := ColumnOccurrence(labels, width, r, down.1 - 1);
    forall p | Labelled(labels, r, p) ensures In(b, p) {
      LabelledOccurs(labels, width, r, p);
      assert InLines(labels)(r, p.x) && InLines(Columns(labels, width))(r, p.y);
    }
    forall c: Box | forall p :: Labelled(labels, r, p) ==> In(c, p) ensures ContainsBox(c, b) {
      assert In(c, left) && In(c, right) && In(c, top) && In(c, bottom);
    }
  }

  /** The least box of every region, for any labelling; both assertions hold. */
  method RegionBounds(labels: seq<seq<nat>>, width: nat) returns (boxes: map<nat, Box>)
    requires IsGrid(labels, width)
    ensures forall r :: r in boxes ==> r != 0 && IsLeastBox(boxes[r], labels, r)
    ensures forall p, r | Labelled(labels, r, p) && r != 0 :: r in boxes
  {
    var across := IdentifyAxisBounds(labels);
    var down := IdentifyAxisBounds(Columns(labels, width));
    SameRegions(labels, width, across, down);
    assert |down| == |across| by {
      assert |down.Keys| == |across.Keys|;
    }
    assert down.Keys == across.Keys;
    boxes := map r | r in down && r in across ::
      Box(Point(across[r].0, down[r].0), Point(across[r].1, down[r].1));
    forall r | r in boxes ensures r != 0 && IsLeastBox(boxes[r], labels, r) {
      IntervalsMakeLeastBox(labels, width, across[r], down[r], r);
    }
    forall p, r | Labelled(labels, r, p) && r != 0 ensures r in boxes {
      LabelledOccurs(labels, width, r, p);
      assert InLines(labels)(r, p.x);
    }
  }

  // ----- The cover -----

  /** A box of tiles in pixels, clamped to the image. */
  function Scaled(b: Box, width: nat, height: nat): Box {
    Box(Point(b.min.x * SAMPLE_GRID_SIZE, b.min.y * SAMPLE_GRID_SIZE),
        Point(Min(b.max.x * SAMPLE_GRID_SIZE, width), Min(b.max.y * SAMPLE_GRID_SIZE, height)))
  }

  /** A multiple of the sample size, or the edge `n`. */
  predicate IsGridCoordinate(k: nat, n: nat) { k <= n && (k % SAMPLE_GRID_SIZE == 0 || k == n) }

  function GridCoordinates(n: nat): set<nat> {
    set k: nat | k <= n && IsGridCoordinate(k, n)
  }

  predicate InImage(p: Point, a: View) { p.x < a.width && p.y < |a.rows| }

  /** What `diff_rectangle_cover` promises of its boxes. */
  ghost predicate IsDiffCover(boxes: seq<Box>, a: View, b: View)
    requires SameSize(a, b)
  {
    PairwiseDisjoint(boxes) &&
    (forall p :: Covered(boxes, p) ==> InImage(p, a)) &&
    (forall p: Point | InImage(p, a) && DiffersAt(a, b, p.x, p.y) :: Covered(boxes, p)) &&
    (boxes == [] <==> a == b) &&
    OnGrid(boxes, GridCoordinates(a.width), GridCoordinates(|a.rows|))
  }

  /** A labelling of the sampled image marks exactly the background with 0. */
  ghost predicate LabelsBackground(labels: seq<seq<nat>>, diff: seq<seq<Byte>>) {
    |labels| == |diff| && forall y: nat | y < |diff| :: LineLabelsBackground(labels[y], diff[y])
  }

  ghost predicate LineLabelsBackground(labels: seq<nat>, diff: seq<Byte>) {
    |labels| == |diff| && forall x: nat | x < |diff| :: labels[x] == 0 <==> diff[x] == 0
  }

  predicate IsScaledRegion(b: Box, regions: map<nat, Box>, width: nat, height: nat) {
    exists r :: r in regions && b == Scaled(regions[r], width, height)
  }

  /** `boxes` holds exactly the scaled boxes of the regions. */
  predicate AreScaled(boxes: seq<Box>, regions: map<nat, Box>, width: nat, height: nat) {
    |boxes| == |regions.Keys| &&
    (forall b :: b in boxes ==> IsScaledRegion(b, regions, width, height)) &&
    (forall r :: r in regions ==> Scaled(regions[r], width, height) in boxes)
  }

  /** Everything the region boxes must satisfy, tile by tile, for a difference image. */
  ghost predicate AreRegionBoxes(regions: map<nat, Box>, labels: seq<seq<nat>>) {
    (forall r :: r in regions ==> r != 0 && IsLeastBox(regions[r], labels, r)) &&
    (forall p, r | Labelled(labels, r, p) && r != 0 :: r in regions)
  }

  lemma RegionInTiles(b: Box, labels: seq<seq<nat>>, width: nat, r: nat)
    requires IsLeastBox(b, labels, r) && IsGrid(labels, width)
    ensures b.max.x <= width && b.max.y <= |labels|
  {
    assert ContainsBox(Box(Point(0, 0), Point(width, |labels|)), b);
  }

  lemma ScaledInImage(b: Box, width: nat, height: nat)
    requires !IsEmpty(b)
    requires b.max.x <= DivCeil(width, SAMPLE_GRID_SIZE) && b.max.y <= DivCeil(height, SAMPLE_GRID_SIZE)
    ensures OnGrid([Scaled(b, width, height)], GridCoordinates(width), GridCoordinates(height))
    ensures forall p :: In(Scaled(b, width, height), p) ==> p.x < width && p.y < height
  {
    var s := Scaled(b, width, height);
    assert b.min.x * SAMPLE_GRID_SIZE <= width && b.min.y * SAMPLE_GRID_SIZE <= height by {
      TileIndex(width, b.min.x);
      TileIndex(height, b.min.y);
    }
    assert IsGridCoordinate(s.min.x, width) && IsGridCoordinate(s.max.x, width);
    assert IsGridCoordinate(s.min.y, height) && IsGridCoordinate(s.max.y, height);
  }

  /** A pixel that differs lies in the scaled box of its tile's region. */
  lemma PixelInScaled(a: View, b: View, diff: seq<seq<Byte>>, labels: seq<seq<nat>>, regions: map<nat, Box>, p: Point)
    returns (r: nat)
    requires SameSize(a, b) && IsDiffImage(diff, a, b) && LabelsBackground(labels, diff)
    requires AreRegionBoxes(regions, labels) && InImage(p, a) && DiffersAt(a, b, p.x, p.y)
    ensures r in regions && In(Scaled(regions[r], a.width, |a.rows|), p)
  {
    PixelTileDiffers(a, b, p.x, p.y);
    var t := Point(p.x / SAMPLE_GRID_SIZE, p.y / SAMPLE_GRID_SIZE);
    assert IsSampleLine(diff[t.y], a, b, t.y);
    assert LineLabelsBackground(labels[t.y], diff[t.y]);
    r := labels[t.y][t.x];
    assert Labelled(labels, r, t);
    assert In(regions[r], t);
  }

  lemma EqualImagesHaveNoRegions(a: View, b: View, diff: seq<seq<Byte>>, labels: seq<seq<nat>>, regions: map<nat, Box>)
    requires a == b && IsDiffImage(diff, a, b) && LabelsBackground(labels, diff) && AreRegionBoxes(regions, labels)
    ensures regions == map[]
  {
    forall p, r | Labelled(labels, r, p) ensures r == 0 {
      assert IsSampleLine(diff[p.y], a, b, p.y);
      assert LineLabelsBackground(labels[p.y], diff[p.y]);
    }
    assert forall r :: r !in regions;
  }

  lemma DifferentImagesDifferSomewhere(a: View, b: View) returns (p: Point)
    requires SameSize(a, b) && a != b
    ensures InImage(p, a) && DiffersAt(a, b, p.x, p.y)
  {
    if forall x: nat, y: nat | x < a.width && y < |a.rows| :: !DiffersAt(a, b, x, y) {
      EqualImagesEqualTiles(a, b);
      assert false;
    }
    var x: nat, y: nat :| x < a.width && y < |a.rows| && DiffersAt(a, b, x, y);
    p := Point(x, y);
  }

  lemma ScaledOnGrid(width: nat, height: nat, labels: seq<seq<nat>>, regions: map<nat, Box>, boxes: seq<Box>)
    requires IsGrid(labels, DivCeil(width, SAMPLE_GRID_SIZE)) && |labels| == DivCeil(height, SAMPLE_GRID_SIZE)
    requires AreRegionBoxes(regions, labels) && AreScaled(boxes, regions, width, height)
    ensures OnGrid(boxes, GridCoordinates(width), GridCoordinates(height))
    ensures forall p :: Covered(boxes, p) ==> p.x < width && p.y < height
  {
    forall k: nat | k < |boxes|
      ensures OnGrid([boxes[k]], GridCoordinates(width), GridCoordinates(height))
      ensures forall p :: In(boxes[k], p) ==> p.x < width && p.y < height
    {
      assert IsScaledRegion(boxes[k], regions, width, height);
      var r :| r in regions && boxes[k] == Scaled(regions[r], width, height);
      RegionInTiles(regions[r], labels, DivCeil(width, SAMPLE_GRID_SIZE), r);
      ScaledInImage(regions[r], width, height);
    }
    OnGridOneByOne(boxes, GridCoordinates(width), GridCoordinates(height));
  }

  lemma OnGridOneByOne(boxes: seq<Box>, xs: set<nat>, ys: set<nat>)
    requires forall k: nat | k < |boxes| :: OnGrid([boxes[k]], xs, ys)
    ensures OnGrid(boxes, xs, ys)
  {
    forall k | 0 <= k < |boxes|
      ensures boxes[k].min.x in xs && boxes[k].max.x in xs && boxes[k].min.y in ys && boxes[k].max.y in ys
    {
      assert [boxes[k]][0] == boxes[k];
    }
  }

  lemma PixelCovered(a: View, b: View, diff: seq<seq<Byte>>, labels: seq<seq<nat>>, regions: map<nat, Box>,
                     boxes: seq<Box>, p: Point)
    requires SameSize(a, b) && IsDiffImage(diff, a, b) && LabelsBackground(labels, diff)
    requires AreRegionBoxes(regions, labels) && AreScaled(boxes, regions, a.width, |a.rows|)
    requires InImage(p, a) && DiffersAt(a, b, p.x, p.y)
    ensures Covered(boxes, p)
  {
    var r := PixelInScaled(a, b, diff, labels, regions, p);
    var k :| 0 <= k < |boxes| && boxes[k] == Scaled(regions[r], a.width, |a.rows|);
  }

  lemma CoversDifferences(a: View, b: View, diff: seq<seq<Byte>>, labels: seq<seq<nat>>, regions: map<nat, Box>,
                          boxes: seq<Box>)
    requires SameSize(a, b) && IsDiffImage(diff, a, b) && LabelsBackground(labels, diff)
    requires AreRegionBoxes(regions, labels) && AreScaled(boxes, regions, a.width, |a.rows|)
    ensures forall p: Point | InImage(p, a) && DiffersAt(a, b, p.x, p.y) :: Covered(boxes, p)
  {
    forall p: Point | InImage(p, a) && DiffersAt(a, b, p.x, p.y) ensures Covered(boxes, p) {
      PixelCovered(a, b, diff, labels, regions, boxes, p);
    }
  }

  lemma EmptyIffEqual(a: View, b: View, diff: seq<seq<Byte>>, labels: seq<seq<nat>>, regions: map<nat, Box>,
                      boxes: seq<Box>)
    requires SameSize(a, b) && IsDiffImage(diff, a, b) && LabelsBackground(labels, diff)
    requires AreRegionBoxes(regions, labels) && AreScaled(boxes, regions, a.width, |a.rows|)
    ensures AddAll([], boxes) == [] <==> a == b
  {
    if a == b {
      EqualImagesHaveNoRegions(a, b, diff, labels, regions);
      assert |boxes| == |regions.Keys| == 0;
    } else {
      var p := DifferentImagesDifferSomewhere(a, b);
      PixelCovered(a, b, diff, labels, regions, boxes, p);
      AddAllMeaning([], boxes);
      assert Covered(AddAll([], boxes), p);
    }
  }

  /** The set collected from the scaled region boxes is a cover of the difference. */
  lemma ScaledIsCover(a: View, b: View, diff: seq<seq<Byte>>, labels: seq<seq<nat>>, regions: map<nat, Box>,
                      boxes: seq<Box>)
    requires SameSize(a, b) && IsDiffImage(diff, a, b) && LabelsBackground(labels, diff)
    requires IsGrid(labels, DivCeil(a.width, SAMPLE_GRID_SIZE))
    requires AreRegionBoxes(regions, labels) && AreScaled(boxes, regions, a.width, |a.rows|)
    ensures IsDiffCover(AddAll([], boxes), a, b)
  {
    ScaledOnGrid(a.width, |a.rows|, labels, regions, boxes);
    AddAllMeaning([], boxes);
    AddAllOnGrid(boxes, GridCoordinates(a.width), GridCoordinates(|a.rows|));
    CoversDifferences(a, b, diff, labels, regions, boxes);
    EmptyIffEqual(a, b, diff, labels, regions, boxes);
  }

  // ----- Exactly which pixels are covered -----

  /** Cell (x, y) lies between cells labelled r on the left and on the right, above and below. */
  ghost predicate Spans(labels: seq<seq<nat>>, r: nat, x: nat, y: nat) {
    r != 0 &&
    (exists p :: Labelled(labels, r, p) && p.x <= x) && (exists p :: Labelled(labels, r, p) && x <= p.x) &&
    (exists p :: Labelled(labels, r, p) && p.y <= y) && (exists p :: Labelled(labels, r, p) && y <= p.y)
  }

  /** The covered pixels of the image are those in a tile spanned by some region. */
  ghost predicate CoversSpans(boxes: seq<Box>, labels: seq<seq<nat>>, width: nat, height: nat) {
    forall p: Point | p.x < width && p.y < height ::
      Covered(boxes, p) <==> exists r :: Spans(labels, r, p.x / 64, p.y / 64)
  }

  lemma LeastBoxSpans(b: Box, labels: seq<seq<nat>>, r: nat, x: nat, y: nat)
    requires r != 0 && IsLeastBox(b, labels, r)
    ensures In(b, Point(x, y)) <==> Spans(labels, r, x, y)
  {
    if In(b, Point(x, y)) {
      LeastBoxReaches(b, labels, r, Box(Point(x + 1, b.min.y), b.max));
      LeastBoxReaches(b, labels, r, Box(Point(b.min.x, y + 1), b.max));
      LeastBoxReaches(b, labels, r, Box(b.min, Point(x, b.max.y)));
      LeastBoxReaches(b, labels, r, Box(b.min, Point(b.max.x, y)));
    }
  }

  /** A box that does not contain the least one misses a cell of the region. */
  lemma LeastBoxReaches(b: Box, labels: seq<seq<nat>>, r: nat, c: Box)
    requires IsLeastBox(b, labels, r)
    ensures ContainsBox(c, b) || exists p :: Labelled(labels, r, p) && In(b, p) && !In(c, p)
  {
    if forall p :: Labelled(labels, r, p) ==> In(c, p) {
      assert ContainsBox(c, b);
    }
  }

  lemma InScaled(b: Box, width: nat, height: nat, p: Point)
    requires p.x < width && p.y < height
    ensures In(Scaled(b, width, height), p) <==> In(b, Point(p.x / 64, p.y / 64))
  {}

  /** The boxes collected from the scaled regions cover exactly the spanned tiles. */
  lemma ScaledCoversSpans(labels: seq<seq<nat>>, regions: map<nat, Box>, boxes: seq<Box>, width: nat, height: nat)
    requires AreRegionBoxes(regions, labels) && AreScaled(boxes, regions, width, height)
    ensures CoversSpans(AddAll([], boxes), labels, width, height)
  {
    AddAllMeaning([], boxes);
    forall p: Point | p.x < width && p.y < height
      ensures Covered(boxes, p) <==> exists r :: Spans(labels, r, p.x / 64, p.y / 64)
    {
      ScaledCoversPixel(labels, regions, boxes, width, height, p);
    }
  }

  lemma ScaledCoversPixel(labels: seq<seq<nat>>, regions: map<nat, Box>, boxes: seq<Box>, width: nat, height: nat,
                          p: Point)
    requires AreRegionBoxes(regions, labels) && AreScaled(boxes, regions, width, height)
    requires p.x < width && p.y < height
    ensures Covered(boxes, p) <==> exists r :: Spans(labels, r, p.x / 64, p.y / 64)
  {
    if Covered(boxes, p) {
      var k :| 0 <= k < |boxes| && In(boxes[k], p);
      assert IsScaledRegion(boxes[k], regions, width, height);
      var r :| r in regions && boxes[k] == Scaled(regions[r], width, height);
      InScaled(regions[r], width, height, p);
      LeastBoxSpans(regions[r], labels, r, p.x / 64, p.y / 64);
    }
    if r :| Spans(labels, r, p.x / 64, p.y / 64) {
      assert r in regions;
      InScaled(regions[r], width, height, p);
      LeastBoxSpans(regions[r], labels, r, p.x / 64, p.y / 64);
      assert Scaled(regions[r], width, height) in boxes;
    }
  }

  /** A labelled tile differs. */
  lemma LabelledDiffers(a: View, b: View, diff: seq<seq<Byte>>, labels: seq<seq<nat>>, r: nat, p: Point)
    requires SameSize(a, b) && IsDiffImage(diff, a, b) && LabelsBackground(labels, diff)
    requires r != 0 && Labelled(labels, r, p)
    ensures p.x * SAMPLE_GRID_SIZE < a.width && p.y * SAMPLE_GRID_SIZE < |a.rows| && TileDiffers(a, b, p.x, p.y)
  {
    assert LineLabelsBackground(labels[p.y], diff[p.y]);
    assert IsSampleLine(diff[p.y], a, b, p.y);
  }

  /** So a spanned tile shares its region with a tile that differs. */
  lemma SpannedByDifference(a: View, b: View, diff: seq<seq<Byte>>, labels: seq<seq<nat>>, r: nat, x: nat, y: nat)
    returns (p: Point)
    requires SameSize(a, b) && IsDiffImage(diff, a, b) && LabelsBackground(labels, diff) && Spans(labels, r, x, y)
    ensures Labelled(labels, r, p) && p.x * SAMPLE_GRID_SIZE < a.width && p.y * SAMPLE_GRID_SIZE < |a.rows|
    ensures TileDiffers(a, b, p.x, p.y)
  {
    p :| Labelled(labels, r, p) && p.x <= x;
    LabelledDiffers(a, b, diff, labels, r, p);
  }

  /** The whole image as one box covers any difference of a thin image. */
  lemma WholeImageIsCover(a: View, b: View)
    requires SameSize(a, b) && a != b
    ensures IsDiffCover([Box(Point(0, 0), Point(a.width, |a.rows|))], a, b)
  {
    var whole := Box(Point(0, 0), Point(a.width, |a.rows|));
    forall p ensures Covered([whole], p) <==> In(whole, p) {
      assert In([whole][0], p) == In(whole, p);
    }
    assert IsGridCoordinate(0, a.width) && IsGridCoordinate(a.width, a.width);
    assert IsGridCoordinate(0, |a.rows|) && IsGridCoordinate(|a.rows|, |a.rows|);
  }

  lemma AllZeroMeansEqual(a: View, b: View, diff: seq<seq<Byte>>)
    requires SameSize(a, b) && IsDiffImage(diff, a, b)
    ensures (forall y: nat, x: nat | y < |diff| && x < |diff[y]| :: diff[y][x] == 0) <==> a == b
  {
    if a == b {
      forall y: nat, x: nat | y < |diff| && x < |diff[y]| ensures diff[y][x] == 0 {
        assert IsSampleLine(diff[y], a, b, y);
      }
    } else {
      var p := DifferentImagesDifferSomewhere(a, b);
      PixelTileDiffers(a, b, p.x, p.y);
      var ty := p.y / SAMPLE_GRID_SIZE;
      assert IsSampleLine(diff[ty], a, b, ty);
      assert diff[ty][p.x / SAMPLE_GRID_SIZE] != 0;
    }
  }

  method ScaleAll(regions: map<nat, Box>, width: nat, height: nat) returns (boxes: seq<Box>)
    ensures AreScaled(boxes, regions, width, height)
  {
    boxes := [];
    var rest := regions.Keys;
    while rest != {}
      invariant rest <= regions.Keys && |boxes| + |rest| == |regions.Keys|
      invariant forall b :: b in boxes ==> IsScaledRegion(b, regions, width, height)
      invariant forall r :: r in regions && r !in rest ==> Scaled(regions[r], width, height) in boxes
    {
      var r :| r in rest;
      rest := rest - {r};
      boxes := boxes + [Scaled(regions[r], width, height)];
    }
  }

  /** Covers the difference of two images of the same size.  `connectedComponents` labels the
      sampled image; only its background label is relied on. */
  method DiffRectangleCover(a: View, b: View, connectedComponents: seq<seq<Byte>> -> seq<seq<nat>>)
    returns (cover: BoxSet)
    requires SameSize(a, b)
    requires forall diff :: LabelsBackground(connectedComponents(diff), diff)
    ensures fresh(cover) && cover.Valid() && IsDiffCover(cover.inner, a, b)
    ensures a.width <= 64 || |a.rows| <= 64 ==>
      a != b ==> 0 < a.width && 0 < |a.rows| && cover.inner == [Box(Point(0, 0), Point(a.width, |a.rows|))]
    ensures 64 < a.width && 64 < |a.rows| ==>
      exists diff :: IsDiffImage(diff, a, b) && CoversSpans(cover.inner, connectedComponents(diff), a.width, |a.rows|)
  {
    var diff := SampledDiffImage(a, b);
    var tilesX, tilesY := DivCeil(a.width, SAMPLE_GRID_SIZE), |diff|;
    if tilesX == 1 || tilesY == 1 {
      AllZeroMeansEqual(a, b, diff);
      if forall y, x | 0 <= y < |diff| && 0 <= x < |diff[y]| :: diff[y][x] == 0 {
        cover := new BoxSet();
      } else {
        WholeImageIsCover(a, b);
        cover := new BoxSet.WithInitialBox(Box(Point(0, 0), Point(a.width, |a.rows|)));
      }
      return;
    }
    var labels := connectedComponents(diff);
    forall y | 0 <= y < |labels| ensures |labels[y]| == tilesX {
      assert LineLabelsBackground(labels[y], diff[y]) && IsSampleLine(diff[y], a, b, y);
    }
    var regions := RegionBounds(labels, tilesX);
    var boxes := ScaleAll(regions, a.width, |a.rows|);
    ScaledIsCover(a, b, diff, labels, regions, boxes);
    ScaledCoversSpans(labels, regions, boxes, a.width, |a.rows|);
    cover := BoxSet.FromIter(boxes);
  }
}
