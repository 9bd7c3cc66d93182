/** Sets of disjoint boxes (aperturec-graphics/src/boxset.rs). Boxes are half open; a box with
    no point, negative ones included, is empty. */
module BoxSets {
  import opened Common
  import opened Geometry

  datatype Box = Box(min: Point, max: Point)

  predicate In(b: Box, p: Point) {
    b.min.x <= p.x < b.max.x && b.min.y <= p.y < b.max.y
  }

  predicate IsEmpty(b: Box) {
    !(b.max.x > b.min.x && b.max.y > b.min.y)
  }

  predicate ContainsBox(a: Box, b: Box) {
    IsEmpty(b) || (a.min.x <= b.min.x && b.max.x <= a.max.x && a.min.y <= b.min.y && b.max.y <= a.max.y)
  }

  function Min(a: nat, b: nat): nat { if a < b then a else b }
  function Max(a: nat, b: nat): nat { if a < b then b else a }

  function Intersection(a: Box, b: Box): Option<Box> {
    var i := Box(Point(Max(a.min.x, b.min.x), Max(a.min.y, b.min.y)),
                 Point(Min(a.max.x, b.max.x), Min(a.max.y, b.max.y)));
    if IsEmpty(i) then None else Some(i)
  }

  // ----- Meaning of a list of boxes -----

  predicate Covered(bs: seq<Box>, p: Point) {
    exists k :: 0 <= k < |bs| && In(bs[k], p)
  }

  ghost predicate Apart(a: Box, b: Box) {
    forall p :: In(a, p) ==> !In(b, p)
  }

  ghost predicate PairwiseDisjoint(bs: seq<Box>) {
    forall j, k :: 0 <= j < k < |bs| ==> Apart(bs[j], bs[k])
  }

  // ----- What `add` computes -----

  /** The region in column `c` and row `r` of `b` cut along the edges of `i`. */
  function Region(b: Box, i: Box, c: nat, r: nat): Box
    requires c < 3 && r < 3
  {
    Box(Point(if c == 0 then b.min.x else if c == 1 then i.min.x else i.max.x,
              if r == 0 then b.min.y else if r == 1 then i.min.y else i.max.y),
        Point(if c == 0 then i.min.x else if c == 1 then i.max.x else b.max.x,
              if r == 0 then i.min.y else if r == 1 then i.max.y else b.max.y))
  }

  /** The eight regions around `i`. */
  function Regions(b: Box, i: Box): seq<Box> {
    [Region(b, i, 0, 0), Region(b, i, 1, 0), Region(b, i, 2, 0),
     Region(b, i, 0, 1), Region(b, i, 2, 1),
     Region(b, i, 0, 2), Region(b, i, 1, 2), Region(b, i, 2, 2)]
  }

  function NonEmpty(bs: seq<Box>): seq<Box> {
    if bs == [] then []
    else (if IsEmpty(bs[0]) then [] else [bs[0]]) + NonEmpty(bs[1..])
  }

  /** What is left of `b` outside `e`. */
  function Cut(b: Box, e: Box): seq<Box> {
    match Intersection(b, e)
    case None => [b]
    case Some(i) => NonEmpty(Regions(b, i))
  }

  /** The boxes are cut from the last to the first, as a stack is emptied. */
  function CutAll(bs: seq<Box>, e: Box): seq<Box> {
    if bs == [] then [] else Cut(bs[|bs| - 1], e) + CutAll(bs[..|bs| - 1], e)
  }

  function CutByEach(bs: seq<Box>, es: seq<Box>): seq<Box> {
    if es == [] then bs else CutAll(CutByEach(bs, es[..|es| - 1]), es[|es| - 1])
  }

  function AddBox(inner: seq<Box>, b: Box): seq<Box> {
    if inner == [] then [b]
    else if exists k :: 0 <= k < |inner| && ContainsBox(inner[k], b) then inner
    else if forall k :: 0 <= k < |inner| ==> ContainsBox(b, inner[k]) then [b]
    else inner + CutByEach([b], inner)
  }

  function AddAll(inner: seq<Box>, added: seq<Box>): seq<Box> {
    if added == [] then inner else AddBox(AddAll(inner, added[..|added| - 1]), added[|added| - 1])
  }

  // ----- Cutting one box by another -----

  predicate Within(i: Box, b: Box) {
    b.min.x <= i.min.x < i.max.x <= b.max.x && b.min.y <= i.min.y < i.max.y <= b.max.y
  }

  function Third(v: nat, lo: nat, hi: nat): nat { if v < lo then 0 else if v < hi then 1 else 2 }

  lemma RegionMeaning(b: Box, i: Box, c: nat, r: nat, p: Point)
    requires Within(i, b) && c < 3 && r < 3
    ensures In(Region(b, i, c, r), p)
        <==> In(b, p) && Third(p.x, i.min.x, i.max.x) == c && Third(p.y, i.min.y, i.max.y) == r
  {}

  function ColumnOf(k: nat): nat requires k < 8 { [0, 1, 2, 0, 2, 0, 1, 2][k] }
  function RowOf(k: nat): nat requires k < 8 { [0, 0, 0, 1, 1, 2, 2, 2][k] }

  lemma RegionsMeaning(b: Box, i: Box, p: Point)
    requires Within(i, b)
    ensures Covered(Regions(b, i), p) <==> In(b, p) && !In(i, p)
  {
    forall k: nat | k < 8
      ensures In(Regions(b, i)[k], p) <==>
        (In(b, p) && Third(p.x, i.min.x, i.max.x) == ColumnOf(k) && Third(p.y, i.min.y, i.max.y) == RowOf(k))
    {
      RegionMeaning(b, i, ColumnOf(k), RowOf(k), p);
    }
    if In(b, p) && !In(i, p) {
      var c, r := Third(p.x, i.min.x, i.max.x), Third(p.y, i.min.y, i.max.y);
      var k := if r == 0 then c else if r == 1 then (if c == 0 then 3 else 4) else 5 + c;
      assert In(Regions(b, i)[k], p);
    }
  }

  lemma RegionsDisjoint(b: Box, i: Box)
    requires Within(i, b)
    ensures PairwiseDisjoint(Regions(b, i))
  {
    forall j: nat, k: nat, p | j < k < 8 && In(Regions(b, i)[j], p) ensures !In(Regions(b, i)[k], p) {
      RegionMeaning(b, i, ColumnOf(j), RowOf(j), p);
      RegionMeaning(b, i, ColumnOf(k), RowOf(k), p);
    }
  }

  lemma {:induction false} NonEmptyMeaning(bs: seq<Box>)
    requires PairwiseDisjoint(bs)
    ensures PairwiseDisjoint(NonEmpty(bs))
    ensures forall p :: Covered(NonEmpty(bs), p) <==> Covered(bs, p)
  {
    if bs != [] {
      var head := if IsEmpty(bs[0]) then [] else [bs[0]];
      NonEmptyMeaning(bs[1..]);
      forall p ensures Covered(NonEmpty(bs), p) <==> Covered(bs, p) {
        CoveredConcat(head, NonEmpty(bs[1..]), p);
        CoveredConcat([bs[0]], bs[1..], p);
        assert bs == [bs[0]] + bs[1..];
      }
      forall p | In(bs[0], p) ensures !Covered(bs[1..], p) {}
      DisjointConcat(head, NonEmpty(bs[1..]));
    }
  }

  lemma CoveredConcat(a: seq<Box>, b: seq<Box>, p: Point)
    ensures Covered(a + b, p) <==> Covered(a, p) || Covered(b, p)
  {
    if Covered(a, p) {
      var k :| 0 <= k < |a| && In(a[k], p);
      assert In((a + b)[k], p);
    }
    if Covered(b, p) {
      var k :| 0 <= k < |b| && In(b[k], p);
      assert In((a + b)[|a| + k], p);
    }
  }

  lemma CoveredSnoc(bs: seq<Box>, p: Point)
    requires bs != []
    ensures Covered(bs, p) <==> Covered(bs[..|bs| - 1], p) || In(bs[|bs| - 1], p)
  {
    var n := |bs| - 1;
    assert bs == bs[..n] + [bs[n]];
    CoveredConcat(bs[..n], [bs[n]], p);
    assert In([bs[n]][0], p) == In(bs[n], p);
  }

  lemma DisjointConcat(a: seq<Box>, b: seq<Box>)
    requires PairwiseDisjoint(a) && PairwiseDisjoint(b)
    requires forall p :: Covered(a, p) ==> !Covered(b, p)
    ensures PairwiseDisjoint(a + b)
  {
    forall j: nat, k: nat, p | j < |a| <= k < |a + b| && In((a + b)[j], p) ensures !In((a + b)[k], p) {
      assert Covered(a, p);
      assert (a + b)[k] == b[k - |a|];
    }
  }

  lemma CutMeaning(b: Box, e: Box)
    ensures PairwiseDisjoint(Cut(b, e))
    ensures forall p :: Covered(Cut(b, e), p) <==> In(b, p) && !In(e, p)
  {
    match Intersection(b, e)
    case None =>
      forall p ensures Covered([b], p) <==> In(b, p) && !In(e, p) {
        assert In([b][0], p) == In(b, p);
      }
    case Some(i) =>
      RegionsDisjoint(b, i);
      NonEmptyMeaning(Regions(b, i));
      forall p ensures Covered(Regions(b, i), p) <==> In(b, p) && !In(e, p) {
        RegionsMeaning(b, i, p);
      }
  }

  lemma {:induction false} CutAllMeaning(bs: seq<Box>, e: Box)
    requires PairwiseDisjoint(bs)
    ensures PairwiseDisjoint(CutAll(bs, e))
    ensures forall p :: Covered(CutAll(bs, e), p) <==> Covered(bs, p) && !In(e, p)
  {
    if bs != [] {
      var n := |bs| - 1;
      CutMeaning(bs[n], e);
      CutAllMeaning(bs[..n], e);
      forall p ensures Covered(CutAll(bs, e), p) <==> Covered(bs, p) && !In(e, p) {
        CoveredConcat(Cut(bs[n], e), CutAll(bs[..n], e), p);
        CoveredSnoc(bs, p);
      }
      DisjointConcat(Cut(bs[n], e), CutAll(bs[..n], e));
    }
  }

  lemma {:induction false} CutByEachMeaning(bs: seq<Box>, es: seq<Box>)
    requires PairwiseDisjoint(bs)
    ensures PairwiseDisjoint(CutByEach(bs, es))
    ensures forall p :: Covered(CutByEach(bs, es), p) <==> Covered(bs, p) && !Covered(es, p)
  {
    if es != [] {
      var n := |es| - 1;
      CutByEachMeaning(bs, es[..n]);
      CutAllMeaning(CutByEach(bs, es[..n]), es[n]);
      forall p ensures Covered(CutByEach(bs, es), p) <==> Covered(bs, p) && !Covered(es, p) {
        CoveredSnoc(es, p);
      }
    }
  }

  // ----- Adding boxes -----

  /** Adding a box keeps the boxes disjoint and adds exactly its points. */
  lemma AddBoxMeaning(inner: seq<Box>, b: Box)
    requires PairwiseDisjoint(inner)
    ensures PairwiseDisjoint(AddBox(inner, b))
    ensures forall p :: Covered(AddBox(inner, b), p) <==> Covered(inner, p) || In(b, p)
  {
    var result := AddBox(inner, b);
    forall p ensures Covered([b], p) <==> In(b, p) {
      assert In([b][0], p) == In(b, p);
    }
    if inner == [] {
    } else if k :| 0 <= k < |inner| && ContainsBox(inner[k], b) {
      forall p | In(b, p) ensures Covered(inner, p) {
        assert In(inner[k], p);
      }
    } else if forall k :: 0 <= k < |inner| ==> ContainsBox(b, inner[k]) {
      forall p | Covered(inner, p) ensures In(b, p) {}
    } else {
      CutByEachMeaning([b], inner);
      forall p ensures Covered(result, p) <==> Covered(inner, p) || In(b, p) {
        CoveredConcat(inner, CutByEach([b], inner), p);
      }
      DisjointConcat(inner, CutByEach([b], inner));
    }
  }

  /** For every sequence of additions: the boxes stay disjoint and cover exactly the points
      covered at the start or by an added box, whatever the order of the additions. */
  lemma {:induction false} AddAllMeaning(inner: seq<Box>, added: seq<Box>)
    requires PairwiseDisjoint(inner)
    ensures PairwiseDisjoint(AddAll(inner, added))
    ensures forall p :: Covered(AddAll(inner, added), p) <==> Covered(inner, p) || Covered(added, p)
  {
    if added != [] {
      var n := |added| - 1;
      AddAllMeaning(inner, added[..n]);
      AddBoxMeaning(AddAll(inner, added[..n]), added[n]);
      forall p ensures Covered(AddAll(inner, added), p) <==> Covered(inner, p) || Covered(added, p) {
        CoveredSnoc(added, p);
      }
    }
  }

  /** Insertion order does not change the covered points. */
  lemma InsertionOrderIrrelevant(a: seq<Box>, b: seq<Box>, p: Point)
    requires multiset(a) == multiset(b)
    ensures Covered(AddAll([], a), p) <==> Covered(AddAll([], b), p)
  {
    AddAllMeaning([], a);
    AddAllMeaning([], b);
    if Covered(a, p) {
      CoveredPermuted(a, b, p);
    }
    if Covered(b, p) {
      CoveredPermuted(b, a, p);
    }
  }

  lemma CoveredPermuted(a: seq<Box>, b: seq<Box>, p: Point)
    requires multiset(a) == multiset(b) && Covered(a, p)
    ensures Covered(b, p)
  {
    var k :| 0 <= k < |a| && In(a[k], p);
    assert a[k] in multiset(b);
  }

  // ----- The boxes themselves -----

  /** `ContainsBox` is containment of points. */
  lemma ContainsBoxMeaning(a: Box, b: Box)
    ensures ContainsBox(a, b) <==> forall p :: In(b, p) ==> In(a, p)
  {
    if !IsEmpty(b) && forall p :: In(b, p) ==> In(a, p) {
      assert In(b, b.min) && In(b, Point(b.max.x - 1, b.max.y - 1));
      assert In(a, b.min) && In(a, Point(b.max.x - 1, b.max.y - 1));
    }
  }

  /** The boxes have a point in common exactly if they have an intersection, which is the box of
      their common points. */
  lemma IntersectionMeaning(a: Box, b: Box)
    ensures Intersection(a, b) == None <==> Apart(a, b)
    ensures Intersection(a, b).Some? ==>
      forall p :: In(Intersection(a, b).value, p) <==> In(a, p) && In(b, p)
  {
    if Intersection(a, b).Some? {
      assert In(a, Intersection(a, b).value.min) && In(b, Intersection(a, b).value.min);
    }
  }

  /** Two points lie in the same piece of a cut exactly if the edges of the intersection do not
      separate them, in either direction. */
  lemma SamePiece(b: Box, i: Box, p: Point, q: Point)
    requires Within(i, b) && In(b, p) && !In(i, p) && In(b, q) && !In(i, q)
    ensures (exists k: nat :: k < 8 && In(Regions(b, i)[k], p) && In(Regions(b, i)[k], q))
      <==> Third(p.x, i.min.x, i.max.x) == Third(q.x, i.min.x, i.max.x) &&
           Third(p.y, i.min.y, i.max.y) == Third(q.y, i.min.y, i.max.y)
  {
    forall k: nat, z: Point | k < 8 && (z == p || z == q)
      ensures In(Regions(b, i)[k], z) <==>
        (Third(z.x, i.min.x, i.max.x) == ColumnOf(k) && Third(z.y, i.min.y, i.max.y) == RowOf(k))
    {
      RegionMeaning(b, i, ColumnOf(k), RowOf(k), z);
    }
    RegionsMeaning(b, i, p);
    var k :| 0 <= k < |Regions(b, i)| && In(Regions(b, i)[k], p);
  }

  predicate NoneEmpty(bs: seq<Box>) { forall k :: 0 <= k < |bs| ==> !IsEmpty(bs[k]) }

  lemma {:induction false} NonEmptyIsNonEmpty(bs: seq<Box>)
    ensures NoneEmpty(NonEmpty(bs))
  {
    if bs != [] {
      NonEmptyIsNonEmpty(bs[1..]);
    }
  }

  lemma {:induction false} CutAllNoneEmpty(bs: seq<Box>, e: Box)
    requires NoneEmpty(bs)
    ensures NoneEmpty(CutAll(bs, e))
  {
    if bs != [] {
      var b := bs[|bs| - 1];
      CutAllNoneEmpty(bs[..|bs| - 1], e);
      if Intersection(b, e).Some? {
        NonEmptyIsNonEmpty(Regions(b, Intersection(b, e).value));
      }
    }
  }

  lemma {:induction false} CutByEachNoneEmpty(bs: seq<Box>, es: seq<Box>)
    requires NoneEmpty(bs)
    ensures NoneEmpty(CutByEach(bs, es))
  {
    if es != [] {
      CutByEachNoneEmpty(bs, es[..|es| - 1]);
      CutAllNoneEmpty(CutByEach(bs, es[..|es| - 1]), es[|es| - 1]);
    }
  }

  /** Adding leaves the boxes as they are when one of them contains the new one, replaces them
      all when the new one contains all of them, and otherwise puts boxes that are not empty
      behind them. */
  lemma AddBoxCases(inner: seq<Box>, b: Box)
    ensures
      var result := AddBox(inner, b);
      if inner == [] then result == [b]
      else if exists k :: 0 <= k < |inner| && forall p :: In(b, p) ==> In(inner[k], p) then result == inner
      else if forall p :: Covered(inner, p) ==> In(b, p) then result == [b]
      else inner <= result && NoneEmpty(result[|inner|..])
  {
    forall k | 0 <= k < |inner| ensures ContainsBox(inner[k], b) <==> forall p :: In(b, p) ==> In(inner[k], p) {
      ContainsBoxMeaning(inner[k], b);
    }
    forall k | 0 <= k < |inner| ensures ContainsBox(b, inner[k]) <==> forall p :: In(inner[k], p) ==> In(b, p) {
      ContainsBoxMeaning(b, inner[k]);
    }
    if inner != [] && !(exists k :: 0 <= k < |inner| && ContainsBox(inner[k], b)) {
      assert !ContainsBox(inner[0], b);
      CutByEachNoneEmpty([b], inner);
    }
  }

  lemma CutApart(b: Box, e: Box)
    requires Apart(b, e)
    ensures CutAll([b], e) == [b]
  {
    IntersectionMeaning(b, e);
    assert [b][..0] == [];
    assert CutAll([b], e) == Cut(b, e) + CutAll([], e);
  }

  lemma {:induction false} CutByApart(b: Box, es: seq<Box>)
    requires forall k :: 0 <= k < |es| ==> Apart(b, es[k])
    ensures CutByEach([b], es) == [b]
  {
    if es != [] {
      CutByApart(b, es[..|es| - 1]);
      CutApart(b, es[|es| - 1]);
    }
  }

  lemma ApartDoNotContain(a: Box, b: Box)
    requires Apart(a, b) && !IsEmpty(a) && !IsEmpty(b)
    ensures !ContainsBox(a, b) && !ContainsBox(b, a) && Apart(b, a)
  {
    assert In(a, a.min) && In(b, b.min);
  }

  lemma ApartIsAppended(inner: seq<Box>, b: Box)
    requires NoneEmpty(inner) && !IsEmpty(b) && forall k :: 0 <= k < |inner| ==> Apart(inner[k], b)
    ensures AddBox(inner, b) == inner + [b]
  {
    forall k | 0 <= k < |inner| ensures !ContainsBox(inner[k], b) && !ContainsBox(b, inner[k]) && Apart(b, inner[k]) {
      ApartDoNotContain(inner[k], b);
    }
    CutByApart(b, inner);
    if inner != [] {
      assert !ContainsBox(b, inner[0]);
    }
  }

  /** Boxes that are disjoint anyway are kept as they are. */
  lemma {:induction false} DisjointAreKept(added: seq<Box>)
    requires PairwiseDisjoint(added) && NoneEmpty(added)
    ensures AddAll([], added) == added
  {
    if added != [] {
      var n := |added| - 1;
      DisjointAreKept(added[..n]);
      ApartIsAppended(added[..n], added[n]);
      assert added == added[..n] + [added[n]];
    }
  }

  // ----- Coordinates -----

  predicate OnGrid(bs: seq<Box>, xs: set<nat>, ys: set<nat>) {
    forall k :: 0 <= k < |bs| ==>
      bs[k].min.x in xs && bs[k].max.x in xs && bs[k].min.y in ys && bs[k].max.y in ys
  }

  lemma {:induction false} NonEmptyOnGrid(bs: seq<Box>, xs: set<nat>, ys: set<nat>)
    requires OnGrid(bs, xs, ys)
    ensures OnGrid(NonEmpty(bs), xs, ys)
  {
    if bs != [] {
      NonEmptyOnGrid(bs[1..], xs, ys);
    }
  }

  lemma CutOnGrid(b: Box, e: Box, xs: set<nat>, ys: set<nat>)
    requires OnGrid([b], xs, ys) && OnGrid([e], xs, ys)
    ensures OnGrid(Cut(b, e), xs, ys)
  {
    assert [b][0] == b && [e][0] == e;
    if Intersection(b, e).Some? {
      NonEmptyOnGrid(Regions(b, Intersection(b, e).value), xs, ys);
    }
  }

  lemma {:induction false} CutAllOnGrid(bs: seq<Box>, e: Box, xs: set<nat>, ys: set<nat>)
    requires OnGrid(bs, xs, ys) && OnGrid([e], xs, ys)
    ensures OnGrid(CutAll(bs, e), xs, ys)
  {
    if bs != [] {
      CutOnGrid(bs[|bs| - 1], e, xs, ys);
      CutAllOnGrid(bs[..|bs| - 1], e, xs, ys);
    }
  }

  lemma {:induction false} CutByEachOnGrid(bs: seq<Box>, es: seq<Box>, xs: set<nat>, ys: set<nat>)
    requires OnGrid(bs, xs, ys) && OnGrid(es, xs, ys)
    ensures OnGrid(CutByEach(bs, es), xs, ys)
  {
    if es != [] {
      CutByEachOnGrid(bs, es[..|es| - 1], xs, ys);
      CutAllOnGrid(CutByEach(bs, es[..|es| - 1]), es[|es| - 1], xs, ys);
    }
  }

  /** Additions create no new coordinates: boxes on a grid stay on it. */
  lemma {:induction false} AddAllOnGrid(added: seq<Box>, xs: set<nat>, ys: set<nat>)
    requires OnGrid(added, xs, ys)
    ensures OnGrid(AddAll([], added), xs, ys)
  {
    if added != [] {
      var n := |added| - 1;
      AddAllOnGrid(added[..n], xs, ys);
      CutByEachOnGrid([added[n]], AddAll([], added[..n]), xs, ys);
    }
  }

  // ----- Area -----

  function Area(b: Box): nat {
    if IsEmpty(b) then 0 else (b.max.x - b.min.x) * (b.max.y - b.min.y)
  }

  function TotalArea(bs: seq<Box>): nat {
    if bs == [] then 0 else TotalArea(bs[..|bs| - 1]) + Area(bs[|bs| - 1])
  }

  function Points(b: Box): set<Point> {
    set x: nat, y: nat | b.min.x <= x < b.max.x && b.min.y <= y < b.max.y :: Point(x, y)
  }

  function AllPoints(bs: seq<Box>): set<Point> {
    if bs == [] then {} else AllPoints(bs[..|bs| - 1]) + Points(bs[|bs| - 1])
  }

  lemma {:induction false} AllPointsMeaning(bs: seq<Box>, p: Point)
    ensures p in AllPoints(bs) <==> Covered(bs, p)
  {
    if bs != [] {
      var n := |bs| - 1;
      AllPointsMeaning(bs[..n], p);
      CoveredSnoc(bs, p);
    }
  }

  lemma {:induction false} ColumnSize(x: nat, lo: nat, hi: nat)
    requires lo <= hi
    ensures |Points(Box(Point(x, lo), Point(x + 1, hi)))| == hi - lo
  {
    var b := Box(Point(x, lo), Point(x + 1, hi));
    if lo == hi {
      assert Points(b) == {};
    } else {
      ColumnSize(x, lo, hi - 1);
      assert Points(b) == Points(Box(Point(x, lo), Point(x + 1, hi - 1))) + {Point(x, hi - 1)};
    }
  }

  /** The last column of a box, and the rest. */
  lemma PeelColumn(b: Box, rest: Box)
    requires !IsEmpty(b) && rest == Box(b.min, Point(b.max.x - 1, b.max.y))
    ensures |Points(b)| == |Points(rest)| + (b.max.y - b.min.y)
  {
    var column := Box(Point(b.max.x - 1, b.min.y), b.max);
    ColumnSize(b.max.x - 1, b.min.y, b.max.y);
    assert Points(b) == Points(rest) + Points(column);
    assert Points(rest) * Points(column) == {};
  }

  lemma PeelArea(b: Box, rest: Box)
    requires !IsEmpty(b) && rest == Box(b.min, Point(b.max.x - 1, b.max.y))
    ensures Area(b) == Area(rest) + (b.max.y - b.min.y)
  {
    var w, h := b.max.x - b.min.x, b.max.y - b.min.y;
    assert (w - 1) * h + h == w * h;
  }

  lemma {:induction false} PointsSize(b: Box)
    ensures |Points(b)| == Area(b)
    decreases if IsEmpty(b) then 0 else b.max.x - b.min.x
  {
    if IsEmpty(b) {
      assert Points(b) == {};
    } else {
      var rest := Box(b.min, Point(b.max.x - 1, b.max.y));
      PointsSize(rest);
      PeelColumn(b, rest);
      PeelArea(b, rest);
    }
  }

  lemma {:induction false} DisjointArea(bs: seq<Box>)
    requires PairwiseDisjoint(bs)
    ensures TotalArea(bs) == |AllPoints(bs)|
  {
    if bs != [] {
      var n := |bs| - 1;
      DisjointArea(bs[..n]);
      PointsSize(bs[n]);
      forall p | p in AllPoints(bs[..n]) ensures p !in Points(bs[n]) {
        AllPointsMeaning(bs[..n], p);
      }
      assert AllPoints(bs[..n]) * Points(bs[n]) == {};
    }
  }

  /** The total area of the boxes of a set built from `added` is the number of distinct points
      of the added boxes. */
  lemma AreaIsUnionSize(added: seq<Box>)
    ensures TotalArea(AddAll([], added)) == |AllPoints(added)|
  {
    AddAllMeaning([], added);
    DisjointArea(AddAll([], added));
    forall p ensures p in AllPoints(AddAll([], added)) <==> p in AllPoints(added) {
      AllPointsMeaning(AddAll([], added), p);
      AllPointsMeaning(added, p);
    }
    assert AllPoints(AddAll([], added)) == AllPoints(added);
  }

  // ----- The set itself -----

  class BoxSet {
    var inner: seq<Box>

    ghost predicate Valid()
      reads this
    {
      PairwiseDisjoint(inner)
    }

    constructor ()
      ensures Valid() && inner == []
    {
      inner := [];
    }

    constructor WithInitialBox(b: Box)
      ensures Valid() && inner == [b]
    {
      inner := [b];
    }

    /** The pieces of one box outside another: itself, or the regions around the intersection
        that are not empty. */
    static method OutsideOf(b: Box, e: Box) returns (kept: seq<Box>)
      ensures kept == Cut(b, e)
    {
      var i := Intersection(b, e);
      if i == None { return [b]; }
      var batch := Regions(b, i.value);
      kept := NonEmpty(batch);
    }

    /** Empties the stack of pieces, keeping what lies outside `e`. */
    static method CutEveryPiece(stack: seq<Box>, e: Box) returns (nonOverlapping: seq<Box>)
      ensures nonOverlapping == CutAll(stack, e)
    {
      var pieces := stack;
      nonOverlapping := [];
      while pieces != []
        invariant nonOverlapping + CutAll(pieces, e) == CutAll(stack, e)
        decreases |pieces|
      {
        var b := pieces[|pieces| - 1];
        var rest := pieces[..|pieces| - 1];
        assert CutAll(pieces, e) == Cut(b, e) + CutAll(rest, e);
        var kept := OutsideOf(b, e);
        assert nonOverlapping + (Cut(b, e) + CutAll(rest, e)) == (nonOverlapping + Cut(b, e)) + CutAll(rest, e);
        nonOverlapping := nonOverlapping + kept;
        pieces := rest;
      }
    }

    method Add(b: Box)
      requires Valid()
      modifies this
      ensures Valid() && inner == AddBox(old(inner), b)
      ensures forall p :: Covered(inner, p) <==> Covered(old(inner), p) || In(b, p)
    {
      AddBoxMeaning(inner, b);
      if inner == [] {
        inner := [b];
        return;
      }
      if exists k :: 0 <= k < |inner| && ContainsBox(inner[k], b) { return; }
      if forall k :: 0 <= k < |inner| ==> ContainsBox(b, inner[k]) {
        inner := [b];
        return;
      }
      var pieces := OutsideOfAll(b);
      inner := inner + pieces;
    }

    /** Cuts a box by every box of the set in turn. */
    method OutsideOfAll(b: Box) returns (pieces: seq<Box>)
      ensures pieces == CutByEach([b], inner)
    {
      pieces := [b];
      for k := 0 to |inner|
        invariant pieces == CutByEach([b], inner[..k])
      {
        pieces := CutEveryPiece(pieces, inner[k]);
        assert inner[..k + 1][..k] == inner[..k];
      }
      assert inner[..|inner|] == inner;
    }

    /** Adds every box of `others`, in order, to a copy. */
    method Union(others: seq<Box>) returns (r: BoxSet)
      requires Valid()
      ensures fresh(r) && r.Valid() && r.inner == AddAll(inner, others)
    {
      r := new BoxSet();
      r.inner := inner;
      for k := 0 to |others|
        invariant fresh(r) && r.Valid() && r.inner == AddAll(inner, others[..k])
      {
        r.Add(others[k]);
        assert others[..k + 1][..k] == others[..k];
      }
      assert others[..|others|] == others;
    }

    /** Collects boxes into a set. */
    static method FromIter(boxes: seq<Box>) returns (r: BoxSet)
      ensures fresh(r) && r.Valid() && r.inner == AddAll([], boxes)
    {
      r := new BoxSet();
      r := r.Union(boxes);
    }
  }
}
