/** Splitting displays into decoder areas (aperturec-graphics/src/partition.rs). */
module Partitions {
  import opened Common
  import opened Geometry
  import opened BoxSets

  // ----- Division -----

  lemma {:induction false} MulStep(d: nat, a: nat, b: nat)
    ensures a < b ==> d * a + d <= d * b
    ensures a <= b ==> d * a <= d * b
  {
    if a < b {
      MulStep(d, a, b - 1);
      assert d * b == d * (b - 1) + d;
    }
  }

  lemma DivUnique(a: nat, d: nat, q: nat)
    requires d > 0 && d * q <= a < d * q + d
    ensures a / d == q && a % d == a - d * q
  {
    var p := a / d;
    assert a == d * p + a % d;
    MulStep(d, p, q);
    MulStep(d, q, p);
  }

  lemma DivMonotone(a: nat, b: nat, d: nat)
    requires d > 0 && a <= b
    ensures a / d <= b / d
    ensures a + d <= b ==> a / d + 1 <= b / d
  {
    var p, q := a / d, b / d;
    assert a == d * p + a % d && b == d * q + b % d;
    MulStep(d, q, p);
    if a + d <= b {
      MulStep(d, q, p + 1);
      assert d * (p + 1) == d * p + d;
    }
  }

  // ----- Layouts -----

  datatype Layout = Layout(rows: nat, cols: nat, unused: nat, squareness: nat) {
    /** Ten for each unused cell, one for each step away from a square. */
    function Score(): nat { unused * 10 + squareness }
  }

  /** The layout with the given number of rows. */
  function LayoutOf(n: nat, rows: nat): Layout
    requires rows > 0
  {
    var cols := DivCeil(n, rows);
    Layout(rows, cols, rows * cols - n, if rows < cols then cols - rows else rows - cols)
  }

  lemma ColumnsArePositive(n: nat, rows: nat)
    requires n > 0 && rows > 0
    ensures DivCeil(n, rows) > 0 && n <= rows * DivCeil(n, rows)
  {
    assert rows * DivCeil(n, rows) == DivCeil(n, rows) * rows;
  }

  ghost predicate IsBestLayout(n: nat, best: Layout) {
    1 <= best.rows <= n && best == LayoutOf(n, best.rows) &&
    forall r :: 1 <= r <= n ==>
      best.Score() <= LayoutOf(n, r).Score() && (r < best.rows ==> best.Score() < LayoutOf(n, r).Score())
  }

  /** The first layout with the least score. */
  method ChooseLayout(n: nat) returns (layout: Layout)
    requires n > 0
    ensures IsBestLayout(n, layout)
  {
    var best: Option<Layout> := None;
    for rows := 1 to n + 1
      invariant best == None <==> rows == 1
      invariant best.Some? ==> 1 <= best.value.rows < rows && best.value == LayoutOf(n, best.value.rows)
      invariant best.Some? ==> forall r :: 1 <= r < rows ==> best.value.Score() <= LayoutOf(n, r).Score()
      invariant best.Some? ==> forall r :: 1 <= r < best.value.rows ==> best.value.Score() < LayoutOf(n, r).Score()
    {
      var layout := LayoutOf(n, rows);
      if best == None || layout.Score() < best.value.Score() {
        best := Some(layout);
      }
    }
    layout := best.value;
  }

  function Distance(a: nat, b: nat): nat { if a < b then b - a else a - b }

  /** `cols` is the least number of columns that makes room for n cells in `rows` rows. */
  predicate IsLeastColumns(n: nat, rows: nat, cols: nat) {
    n <= rows * cols && (cols > 0 ==> rows * (cols - 1) < n)
  }

  lemma LeastColumns(n: nat, rows: nat, cols: nat)
    requires rows > 0 && IsLeastColumns(n, rows, cols)
    ensures LayoutOf(n, rows).cols == cols
  {
    var least := LayoutOf(n, rows).cols;
    assert n <= least * rows && least * rows == rows * least;
    if least > 0 {
      assert (least - 1) * rows < n && (least - 1) * rows == rows * (least - 1);
    }
    if least < cols {
      MulStep(rows, least, cols - 1);
    } else if cols < least {
      MulStep(rows, cols, least - 1);
    }
  }

  /** What the best layout minimises, over every number of rows with the columns it needs: ten
      for each unused cell and one for each step away from a square; the fewest rows win ties. */
  lemma BestLayoutIsMinimal(n: nat, layout: Layout, rows: nat, cols: nat)
    requires n > 0 && IsBestLayout(n, layout) && 1 <= rows <= n && IsLeastColumns(n, rows, cols)
    ensures IsLeastColumns(n, layout.rows, layout.cols) && 1 <= layout.rows <= n
    ensures
      var best := 10 * (layout.rows * layout.cols - n) + Distance(layout.rows, layout.cols);
      var other := 10 * (rows * cols - n) + Distance(rows, cols);
      best <= other && (rows < layout.rows ==> best < other)
  {
    LeastColumns(n, rows, cols);
    var least := layout.cols;
    assert n <= least * layout.rows && least * layout.rows == layout.rows * least;
    assert (least - 1) * layout.rows < n && (least - 1) * layout.rows == layout.rows * (least - 1);
    assert layout.Score() <= LayoutOf(n, rows).Score();
  }

  /** For 17 decoders the least score is that of 3 rows of 6, which leaves a cell unused,
      although one row of 17 would leave none. */
  lemma SeventeenLeavesACell()
    ensures LayoutOf(17, 3) == Layout(3, 6, 1, 3) && LayoutOf(17, 1) == Layout(1, 17, 0, 16)
    ensures forall best :: IsBestLayout(17, best) ==> best == LayoutOf(17, 3)
  {
    forall best | IsBestLayout(17, best) ensures best == LayoutOf(17, 3) {
      assert best.Score() <= LayoutOf(17, 3).Score() == 13;
      if best.rows != 3 && best.rows != 6 {
        SeventeenByRows(best.rows);
      }
    }
  }

  lemma SeventeenByRows(rows: nat)
    requires 1 <= rows <= 17 && rows != 3 && rows != 6
    ensures LayoutOf(17, rows).Score() > 13
  {
    match rows {
      case 1 => assert LayoutOf(17, 1).Score() == 16;
      case 2 => assert LayoutOf(17, 2).Score() == 17;
      case 4 => assert LayoutOf(17, 4).Score() == 31;
      case 5 => assert LayoutOf(17, 5).Score() == 31;
      case 7 => assert LayoutOf(17, 7).Score() == 44;
      case 8 => assert LayoutOf(17, 8).Score() == 75;
      case 17 => assert LayoutOf(17, 17).Score() == 16;
      case _ => DivUnique(17, rows, 1); assert LayoutOf(17, rows).cols == 2;
    }
  }

  // ----- Grid cells -----

  /** Where part `i` of `parts` begins. */
  function Edge(len: nat, parts: nat, i: nat): nat
    requires parts > 0
  {
    len * i / parts
  }

  lemma EdgeMonotone(len: nat, parts: nat, i: nat, j: nat)
    requires parts > 0 && i <= j
    ensures Edge(len, parts, i) <= Edge(len, parts, j)
    ensures len >= parts && i < j ==> Edge(len, parts, i) < Edge(len, parts, j)
  {
    MulStep(len, i, j);
    DivMonotone(len * i, len * j, parts);
  }

  lemma EdgeEnds(len: nat, parts: nat)
    requires parts > 0
    ensures Edge(len, parts, 0) == 0 && Edge(len, parts, parts) == len
  {
    assert len * parts == parts * len;
    DivUnique(len * parts, parts, len);
    DivUnique(len * 0, parts, 0);
  }

  /** An edge is its exact share of the length, rounded down. */
  lemma EdgeIsShare(len: nat, parts: nat, i: nat)
    requires parts > 0
    ensures parts * Edge(len, parts, i) <= len * i < parts * (Edge(len, parts, i) + 1)
  {
    var a := len * i;
    assert a == parts * (a / parts) + a % parts;
  }

  lemma Distribute(d: nat, p: nat, q: nat)
    ensures d * (p + q) == d * p + d * q
  {}

  lemma QuotientAndRest(a: nat, d: nat) returns (q: nat, r: nat)
    requires d > 0
    ensures a == d * q + r && r < d && q == a / d
  {
    q, r := a / d, a % d;
  }

  lemma DivOfSum(a: nat, b: nat, d: nat)
    requires d > 0
    ensures a / d + b / d <= (a + b) / d <= a / d + b / d + 1
  {
    var p, r := QuotientAndRest(a, d);
    var q, t := QuotientAndRest(b, d);
    var k, u := QuotientAndRest(a + b, d);
    Distribute(d, p, q);
    Distribute(d, p + q, 1);
    Distribute(d, p + q, 2);
    MulStep(d, k, p + q);
    MulStep(d, p + q + 1, k);
  }

  /** So the parts of a length differ by at most one. */
  lemma PartsAreEven(len: nat, parts: nat, i: nat)
    requires parts > 0
    ensures len / parts <= Edge(len, parts, i + 1) - Edge(len, parts, i) <= len / parts + 1
  {
    assert len * (i + 1) == len * i + len;
    DivOfSum(len * i, len, parts);
  }

  /** The part that holds position `v`, searched downwards. */
  lemma {:induction false} PartOf(len: nat, parts: nat, v: nat, hi: nat) returns (i: nat)
    requires 0 < hi <= parts && v < Edge(len, parts, hi)
    ensures i < hi && Edge(len, parts, i) <= v < Edge(len, parts, i + 1)
  {
    EdgeEnds(len, parts);
    if Edge(len, parts, hi - 1) <= v {
      i := hi - 1;
    } else {
      i := PartOf(len, parts, v, hi - 1);
    }
  }

  lemma PartIsUnique(len: nat, parts: nat, v: nat, i: nat, j: nat)
    requires parts > 0
    requires Edge(len, parts, i) <= v < Edge(len, parts, i + 1)
    requires Edge(len, parts, j) <= v < Edge(len, parts, j + 1)
    ensures i == j
  {
    if i < j {
      EdgeMonotone(len, parts, i + 1, j);
    } else if j < i {
      EdgeMonotone(len, parts, j + 1, i);
    }
  }

  function CellBox(res: Size, rows: nat, cols: nat, row: nat, col: nat): Box
    requires rows > 0 && cols > 0
  {
    Box(Point(Edge(res.width, cols, col), Edge(res.height, rows, row)),
        Point(Edge(res.width, cols, col + 1), Edge(res.height, rows, row + 1)))
  }

  lemma CellIndex(cols: nat, row: nat, col: nat)
    requires col < cols
    ensures (row * cols + col) / cols == row && (row * cols + col) % cols == col
  {
    assert row * cols == cols * row;
    DivUnique(row * cols + col, cols, row);
  }

  // ----- Partitioning a display -----

  /** `n` boxes, the cells of the grid in reading order. */
  predicate AreCells(boxes: seq<Box>, res: Size, layout: Layout, n: nat) {
    |boxes| == n && layout.rows > 0 && layout.cols > 0 &&
    forall k: nat | k < n :: boxes[k] == CellBox(res, layout.rows, layout.cols, k / layout.cols, k % layout.cols)
  }

  /** The cells of a layout that is best for their number. */
  ghost predicate IsPartition(boxes: seq<Box>, res: Size) {
    exists layout :: IsBestLayout(|boxes|, layout) && AreCells(boxes, res, layout, |boxes|)
  }

  /** The sides of a cell are an even share of the display's. */
  lemma CellsAreEven(res: Size, rows: nat, cols: nat, row: nat, col: nat)
    requires rows > 0 && cols > 0
    ensures
      var b := CellBox(res, rows, cols, row, col);
      res.width / cols <= b.max.x - b.min.x <= res.width / cols + 1 &&
      res.height / rows <= b.max.y - b.min.y <= res.height / rows + 1
  {
    PartsAreEven(res.width, cols, col);
    PartsAreEven(res.height, rows, row);
  }

  method Partition(res: Size, n: nat) returns (partitions: seq<Box>)
    requires n > 0
    ensures |partitions| == n && IsPartition(partitions, res)
  {
    var best := ChooseLayout(n);
    ColumnsArePositive(n, best.rows);
    partitions := [];
    for row := 0 to best.rows
      invariant |partitions| == row * best.cols && |partitions| < n
      invariant AreCells(partitions, res, best, |partitions|)
    {
      for col := 0 to best.cols
        invariant |partitions| == row * best.cols + col && |partitions| < n
        invariant AreCells(partitions, res, best, |partitions|)
      {
        CellIndex(best.cols, row, col);
        partitions := partitions + [CellBox(res, best.rows, best.cols, row, col)];
        if |partitions| == n { return; }
      }
      assert (row + 1) * best.cols == row * best.cols + best.cols;
    }
  }

  lemma CellRow(k: nat, layout: Layout)
    requires layout.cols > 0 && k < layout.rows * layout.cols
    ensures k / layout.cols < layout.rows && k % layout.cols < layout.cols
  {
    var row := k / layout.cols;
    assert k == layout.cols * row + k % layout.cols;
    MulStep(layout.cols, layout.rows, row);
    assert layout.rows * layout.cols == layout.cols * layout.rows;
  }

  /** The grid cell that holds a pixel. */
  lemma CellOf(res: Size, layout: Layout, p: Point) returns (row: nat, col: nat)
    requires layout.rows > 0 && layout.cols > 0 && p.x < res.width && p.y < res.height
    ensures row < layout.rows && col < layout.cols && In(CellBox(res, layout.rows, layout.cols, row, col), p)
  {
    EdgeEnds(res.width, layout.cols);
    EdgeEnds(res.height, layout.rows);
    row := PartOf(res.height, layout.rows, p.y, layout.rows);
    col := PartOf(res.width, layout.cols, p.x, layout.cols);
  }

  /** No other cell holds it. */
  lemma CellIsUnique(res: Size, rows: nat, cols: nat, row: nat, col: nat, row': nat, col': nat, p: Point)
    requires rows > 0 && cols > 0
    requires In(CellBox(res, rows, cols, row, col), p) && In(CellBox(res, rows, cols, row', col'), p)
    ensures row == row' && col == col'
  {
    PartIsUnique(res.width, cols, p.x, col, col');
    PartIsUnique(res.height, rows, p.y, row, row');
  }

  /** Every pixel lies in exactly one grid cell, and it is covered exactly when that cell comes
      before the n-th in reading order. */
  lemma CoveredExactly(boxes: seq<Box>, res: Size, layout: Layout, n: nat, p: Point, row: nat, col: nat)
    requires AreCells(boxes, res, layout, n)
    requires col < layout.cols && In(CellBox(res, layout.rows, layout.cols, row, col), p)
    ensures Covered(boxes, p) <==> row * layout.cols + col < n
  {
    var k := row * layout.cols + col;
    CellIndex(layout.cols, row, col);
    if k < n {
      assert In(boxes[k], p);
    }
    if Covered(boxes, p) {
      var j: nat :| j < |boxes| && In(boxes[j], p);
      var row', col' := Divided(j, layout.cols);
      CellIsUnique(res, layout.rows, layout.cols, row', col', row, col, p);
      SameDivision(j, k, layout.cols);
    }
  }

  lemma Divided(k: nat, d: nat) returns (q: nat, r: nat)
    requires d > 0
    ensures q == k / d && r == k % d
  {
    q, r := k / d, k % d;
  }

  lemma CellsDisjoint(boxes: seq<Box>, res: Size, layout: Layout, n: nat)
    requires AreCells(boxes, res, layout, n)
    ensures PairwiseDisjoint(boxes)
  {
    forall j: nat, k: nat, p | j < k < n && In(boxes[j], p) ensures !In(boxes[k], p) {
      if In(boxes[k], p) {
        var row, col := Divided(j, layout.cols);
        var row', col' := Divided(k, layout.cols);
        CellIsUnique(res, layout.rows, layout.cols, row, col, row', col', p);
        SameDivision(j, k, layout.cols);
      }
    }
  }

  lemma SameDivision(j: nat, k: nat, d: nat)
    requires d > 0 && j / d == k / d && j % d == k % d
    ensures j == k
  {
    assert j == d * (j / d) + j % d && k == d * (k / d) + k % d;
  }

  lemma EdgeAtMost(len: nat, parts: nat, i: nat)
    requires 0 < parts && i <= parts
    ensures Edge(len, parts, i) <= len
  {
    EdgeMonotone(len, parts, i, parts);
    EdgeEnds(len, parts);
  }

  lemma CellAt(k: nat, layout: Layout) returns (row: nat, col: nat)
    requires layout.cols > 0 && k < layout.rows * layout.cols
    ensures row == k / layout.cols && col == k % layout.cols && row < layout.rows && col < layout.cols
  {
    CellRow(k, layout);
    row, col := k / layout.cols, k % layout.cols;
  }

  lemma CellInside(res: Size, rows: nat, cols: nat, row: nat, col: nat, p: Point)
    requires row < rows && col < cols && In(CellBox(res, rows, cols, row, col), p)
    ensures p.x < res.width && p.y < res.height
  {
    EdgeAtMost(res.width, cols, col + 1);
    EdgeAtMost(res.height, rows, row + 1);
  }

  lemma CellsInside(boxes: seq<Box>, res: Size, layout: Layout, n: nat, p: Point)
    requires AreCells(boxes, res, layout, n) && n <= layout.rows * layout.cols && Covered(boxes, p)
    ensures p.x < res.width && p.y < res.height
  {
    var k: nat :| k < |boxes| && In(boxes[k], p);
    var row, col := CellAt(k, layout);
    CellInside(res, layout.rows, layout.cols, row, col, p);
  }

  lemma CellBeforeEnd(layout: Layout, row: nat, col: nat)
    requires row < layout.rows && col < layout.cols
    ensures row * layout.cols + col < layout.rows * layout.cols
  {
    MulStep(layout.cols, row, layout.rows);
    assert row * layout.cols == layout.cols * row && layout.rows * layout.cols == layout.cols * layout.rows;
  }

  lemma AllCellsCover(boxes: seq<Box>, res: Size, layout: Layout, n: nat, p: Point)
    requires AreCells(boxes, res, layout, n) && layout.rows * layout.cols == n
    ensures Covered(boxes, p) <==> p.x < res.width && p.y < res.height
  {
    if p.x < res.width && p.y < res.height {
      var row, col := CellOf(res, layout, p);
      CellBeforeEnd(layout, row, col);
      CoveredExactly(boxes, res, layout, n, p, row, col);
    }
    if Covered(boxes, p) {
      CellsInside(boxes, res, layout, n, p);
    }
  }

  lemma CoverArea(boxes: seq<Box>, res: Size)
    requires PairwiseDisjoint(boxes) && forall p :: Covered(boxes, p) <==> p.x < res.width && p.y < res.height
    ensures TotalArea(boxes) == res.width * res.height
  {
    DisjointArea(boxes);
    var whole := Box(Point(0, 0), Point(res.width, res.height));
    forall p ensures p in AllPoints(boxes) <==> p in Points(whole) {
      AllPointsMeaning(boxes, p);
    }
    assert AllPoints(boxes) == Points(whole);
    PointsSize(whole);
  }

  /** A layout without unused cells tiles the display: disjoint boxes that cover every pixel,
      nothing else, and whose areas add up to the display's. */
  lemma NoUnusedCellTiles(boxes: seq<Box>, res: Size, layout: Layout, n: nat)
    requires AreCells(boxes, res, layout, n) && layout.rows * layout.cols == n
    ensures PairwiseDisjoint(boxes)
    ensures forall p :: Covered(boxes, p) <==> p.x < res.width && p.y < res.height
    ensures TotalArea(boxes) == res.width * res.height
  {
    CellsDisjoint(boxes, res, layout, n);
    forall p ensures Covered(boxes, p) <==> p.x < res.width && p.y < res.height {
      AllCellsCover(boxes, res, layout, n, p);
    }
    CoverArea(boxes, res);
  }

  lemma BestLayoutCells(n: nat, layout: Layout)
    requires IsBestLayout(n, layout)
    ensures layout.rows > 0 && n <= layout.rows * layout.cols && layout.unused == layout.rows * layout.cols - n
  {}

  /** The last part of a length that is not zero holds its last position. */
  lemma LastPart(len: nat, parts: nat)
    requires len > 0 && parts > 0
    ensures Edge(len, parts, parts - 1) <= len - 1 < Edge(len, parts, parts)
  {
    EdgeEnds(len, parts);
    assert len * (parts - 1) + len == len * parts == parts * len;
    var q := len * (parts - 1) / parts;
    assert parts * q <= len * (parts - 1) < parts * len;
    if q >= len {
      MulStep(parts, len, q);
      assert false;
    }
  }

  /** The last pixel lies in the last cell, which no box covers when a cell is unused. */
  lemma LastPixelUncovered(boxes: seq<Box>, res: Size, layout: Layout, n: nat)
    requires AreCells(boxes, res, layout, n) && n < layout.rows * layout.cols
    requires res.width > 0 && res.height > 0
    ensures !Covered(boxes, Point(res.width - 1, res.height - 1))
  {
    var row, col := layout.rows - 1, layout.cols - 1;
    LastPart(res.width, layout.cols);
    LastPart(res.height, layout.rows);
    CoveredExactly(boxes, res, layout, n, Point(res.width - 1, res.height - 1), row, col);
    assert row * layout.cols + layout.cols == layout.rows * layout.cols;
  }

  ghost predicate CoversAll(boxes: seq<Box>, res: Size) {
    forall p: Point :: p.x < res.width && p.y < res.height ==> Covered(boxes, p)
  }

  /** The partition leaves no pixel out if and only if the layout has no unused cell or there
      is no pixel. */
  lemma TilesIffNoUnusedCell(boxes: seq<Box>, res: Size, layout: Layout, n: nat)
    requires IsBestLayout(n, layout) && AreCells(boxes, res, layout, n)
    ensures CoversAll(boxes, res) <==> layout.unused == 0 || res.width == 0 || res.height == 0
  {
    BestLayoutCells(n, layout);
    if layout.rows * layout.cols == n {
      NoUnusedCellTiles(boxes, res, layout, n);
    } else if res.width > 0 && res.height > 0 {
      LastPixelUncovered(boxes, res, layout, n);
    }
  }

  /** So no partition of a display into 17 boxes covers it, unless it has no pixel. */
  lemma SeventeenLeavesPixels(boxes: seq<Box>, res: Size)
    requires |boxes| == 17 && IsPartition(boxes, res)
    ensures CoversAll(boxes, res) <==> res.width == 0 || res.height == 0
  {
    var layout :| IsBestLayout(17, layout) && AreCells(boxes, res, layout, 17);
    SeventeenLeavesACell();
    assert layout == LayoutOf(17, 3);
    TilesIffNoUnusedCell(boxes, res, layout, 17);
  }

  // ----- Sharing decoders between displays -----

  datatype Display = Display(size: Size, isEnabled: bool)

  datatype Error =
    | MoreDisplaysThanDecoders(displayCount: nat, maxDecoders: nat)
    | NoEnabledDisplays
    | MaxDecoderCountZero

  datatype Result = Ok(areas: seq<seq<Box>>) | Err(error: Error)

  function EnabledCount(displays: seq<Display>): nat {
    if displays == [] then 0
    else EnabledCount(displays[..|displays| - 1]) + if displays[|displays| - 1].isEnabled then 1 else 0
  }

  function TotalCount(areas: seq<seq<Box>>): nat {
    if areas == [] then 0 else TotalCount(areas[..|areas| - 1]) + |areas[|areas| - 1]|
  }

  /** A disabled display gets no area; an enabled one gets the cells of a best layout. */
  ghost predicate IsShare(d: Display, areas: seq<Box>, base: nat) {
    (!d.isEnabled ==> areas == []) &&
    (d.isEnabled ==>
      0 < |areas| && base <= |areas| <= base + 1 && IsPartition(areas, d.size))
  }

  /** The decoders of the first displays: `base` for each enabled one, and one more while the
      remainder lasts. */
  function Shared(base: nat, rem: nat, enabled: nat): nat {
    base * enabled + if enabled < rem then enabled else rem
  }

  lemma SharedStep(base: nat, rem: nat, enabled: nat)
    ensures Shared(base, rem, enabled + 1) == Shared(base, rem, enabled) + base + if enabled < rem then 1 else 0
  {
    assert base * (enabled + 1) == base * enabled + base;
  }

  predicate PartitionFails(displays: seq<Display>, maxDecoderCount: nat, error: Error) {
    var enabled := EnabledCount(displays);
    match error
    case NoEnabledDisplays => enabled == 0
    case MaxDecoderCountZero => enabled > 0 && maxDecoderCount == 0
    case MoreDisplaysThanDecoders(count, max) => count == enabled > maxDecoderCount == max > 0
  }

  /** The first `remainder` enabled displays have one decoder more than the others. */
  predicate FirstGetMore(displays: seq<Display>, areas: seq<seq<Box>>, base: nat, remainder: nat) {
    |areas| == |displays| &&
    forall i :: 0 <= i < |displays| && displays[i].isEnabled ==>
      |areas[i]| == base + if EnabledCount(displays[..i]) < remainder then 1 else 0
  }

  /** Fails exactly when no display is enabled, no decoder is allowed, or there are more enabled
      displays than decoders; otherwise the counts add up to exactly the decoder limit, and
      those of enabled displays are positive and differ by at most one. */
  method PartitionDisplays(displays: seq<Display>, maxDecoderCount: nat) returns (r: Result)
    ensures r.Ok? <==> 0 < EnabledCount(displays) <= maxDecoderCount
    ensures r.Err? ==> PartitionFails(displays, maxDecoderCount, r.error)
    ensures r.Ok? ==> |r.areas| == |displays| && TotalCount(r.areas) == maxDecoderCount
    ensures r.Ok? ==> forall i :: 0 <= i < |displays| ==>
      IsShare(displays[i], r.areas[i], maxDecoderCount / EnabledCount(displays))
    ensures r.Ok? ==>
      FirstGetMore(displays, r.areas, maxDecoderCount / EnabledCount(displays),
                   maxDecoderCount % EnabledCount(displays))
  {
    var enabled := CountEnabled(displays);
    if enabled == 0 { return Err(NoEnabledDisplays); }
    if maxDecoderCount == 0 { return Err(MaxDecoderCountZero); }
    if enabled > maxDecoderCount { return Err(MoreDisplaysThanDecoders(enabled, maxDecoderCount)); }
    var areas := ShareOut(displays, maxDecoderCount / enabled, maxDecoderCount % enabled);
    BaseIsPositive(maxDecoderCount, enabled);
    r := Ok(areas);
  }

  lemma BaseIsPositive(max: nat, enabled: nat)
    requires 0 < enabled <= max
    ensures max / enabled > 0 && Shared(max / enabled, max % enabled, enabled) == max
  {
    assert max == enabled * (max / enabled) + max % enabled;
    DivMonotone(enabled, max, enabled);
    DivUnique(enabled, enabled, 1);
  }

  /** The share of one display, and what is left of the remainder. */
  method ShareOf(d: Display, base: nat, rem: nat) returns (share: seq<Box>, left: nat)
    requires base > 0
    ensures IsShare(d, share, base)
    ensures left == if d.isEnabled && rem > 0 then rem - 1 else rem
    ensures |share| == if !d.isEnabled then 0 else if rem > 0 then base + 1 else base
  {
    share, left := [], rem;
    if d.isEnabled {
      var extra := 0;
      if rem > 0 {
        left := rem - 1;
        extra := 1;
      }
      share := Partition(d.size, base + extra);
    }
  }

  /** The areas are a share for each display, the first ones getting more, and add up. */
  ghost predicate SharedOut(displays: seq<Display>, areas: seq<seq<Box>>, base: nat, remainder: nat) {
    FirstGetMore(displays, areas, base, remainder) &&
    TotalCount(areas) == Shared(base, remainder, EnabledCount(displays)) &&
    forall i :: 0 <= i < |displays| ==> IsShare(displays[i], areas[i], base)
  }

  lemma MoreForOneMore(displays: seq<Display>, areas: seq<seq<Box>>, base: nat, remainder: nat, share: seq<Box>)
    requires displays != [] && FirstGetMore(displays[..|displays| - 1], areas, base, remainder)
    requires
      displays[|displays| - 1].isEnabled ==>
        |share| == base + if EnabledCount(displays[..|displays| - 1]) < remainder then 1 else 0
    ensures FirstGetMore(displays, areas + [share], base, remainder)
  {
    var n := |displays| - 1;
    forall i | 0 <= i < |displays| && displays[i].isEnabled
      ensures |(areas + [share])[i]| == base + if EnabledCount(displays[..i]) < remainder then 1 else 0
    {
      if i < n {
        assert displays[..n][..i] == displays[..i];
      }
    }
  }

  lemma CountOneMore(displays: seq<Display>, areas: seq<seq<Box>>, base: nat, remainder: nat, share: seq<Box>)
    requires displays != []
    requires TotalCount(areas) == Shared(base, remainder, EnabledCount(displays[..|displays| - 1]))
    requires
      |share| == if !displays[|displays| - 1].isEnabled then 0
                 else base + if EnabledCount(displays[..|displays| - 1]) < remainder then 1 else 0
    ensures TotalCount(areas + [share]) == Shared(base, remainder, EnabledCount(displays))
  {
    SharedStep(base, remainder, EnabledCount(displays[..|displays| - 1]));
    assert (areas + [share])[..|areas|] == areas;
  }

  lemma ShareOneMore(displays: seq<Display>, areas: seq<seq<Box>>, base: nat, remainder: nat, share: seq<Box>)
    requires displays != [] && SharedOut(displays[..|displays| - 1], areas, base, remainder)
    requires IsShare(displays[|displays| - 1], share, base)
    requires
      |share| == if !displays[|displays| - 1].isEnabled then 0
                 else base + if EnabledCount(displays[..|displays| - 1]) < remainder then 1 else 0
    ensures SharedOut(displays, areas + [share], base, remainder)
  {
    MoreForOneMore(displays, areas, base, remainder, share);
    CountOneMore(displays, areas, base, remainder, share);
  }

  method ShareOut(displays: seq<Display>, base: nat, remainder: nat) returns (areas: seq<seq<Box>>)
    requires base > 0
    ensures SharedOut(displays, areas, base, remainder)
  {
    var rem := remainder;
    areas := [];
    for i := 0 to |displays|
      invariant rem == if EnabledCount(displays[..i]) < remainder then remainder - EnabledCount(displays[..i]) else 0
      invariant SharedOut(displays[..i], areas, base, remainder)
    {
      assert displays[..i + 1][..i] == displays[..i];
      var share, left := ShareOf(displays[i], base, rem);
      ShareOneMore(displays[..i + 1], areas, base, remainder, share);
      areas, rem := areas + [share], left;
    }
    assert displays[..|displays|] == displays;
  }

  method CountEnabled(displays: seq<Display>) returns (n: nat)
    ensures n == EnabledCount(displays)
  {
    n := 0;
    for i := 0 to |displays|
      invariant n == EnabledCount(displays[..i])
    {
      assert displays[..i + 1][..i] == displays[..i];
      n := n + if displays[i].isEnabled then 1 else 0;
    }
    assert displays[..|displays|] == displays;
  }
}
