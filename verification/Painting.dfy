/** Painting draws onto an image whose every pixel remembers the frame responsible for it
    (`Image::draw` in aperturec-client-gtk4/src/image.rs, without the draw-debug feature). */
module Painting {
  import opened Common
  import opened Geometry

  datatype Pixel24 = Pixel24(blue: Byte, green: Byte, red: Byte)
  datatype Pixel32 = Pixel32(blue: Byte, green: Byte, red: Byte, alpha: Byte)

  function Widen(p: Pixel24): Pixel32 { Pixel32(p.blue, p.green, p.red, 255) }

  /** A two-dimensional array of pixels, row by row. */
  datatype RawPixmap = RawPixmap(width: nat, rows: seq<seq<Pixel24>>)
  type Pixmap = p: RawPixmap | forall i :: 0 <= i < |p.rows| ==> |p.rows[i]| == p.width
    witness RawPixmap(0, [])

  datatype Draw = NewDraw(frame: nat, origin: Point, pixels: Pixmap)

  predicate Covers(d: Draw, x: nat, y: nat) {
    d.origin.x <= x < d.origin.x + d.pixels.width && d.origin.y <= y < d.origin.y + |d.pixels.rows|
  }

  function ColourAt(d: Draw, x: nat, y: nat): Pixel32
    requires Covers(d, x, y)
  {
    Widen(d.pixels.rows[y - d.origin.y][x - d.origin.x])
  }

  /** One pixel of the image. */
  datatype Cell = Cell(colour: Pixel32, responsible: nat)

  function PaintCell(c: Cell, d: Draw, x: nat, y: nat): Cell {
    if Covers(d, x, y) && c.responsible <= d.frame then Cell(ColourAt(d, x, y), d.frame) else c
  }

  function PaintAll(c: Cell, draws: seq<Draw>, x: nat, y: nat): Cell {
    if draws == [] then c
    else PaintCell(PaintAll(c, draws[..|draws| - 1], x, y), draws[|draws| - 1], x, y)
  }

  /** draws[k] covers the pixel, no covering draw has a larger frame, and no later covering
      draw has the same frame. */
  ghost predicate LastNewest(draws: seq<Draw>, k: nat, x: nat, y: nat) {
    k < |draws| && Covers(draws[k], x, y) &&
    forall i :: 0 <= i < |draws| && Covers(draws[i], x, y) ==>
      draws[i].frame <= draws[k].frame && (k < i ==> draws[i].frame < draws[k].frame)
  }

  /** After any sequence of draws, a pixel that no draw covers is untouched, and any other
      pixel shows the last draw among those of the largest covering frame. */
  lemma {:induction false} NewestFrameWins(c: Cell, draws: seq<Draw>, x: nat, y: nat) returns (k: nat)
    requires c.responsible == 0
    ensures k <= |draws|
    ensures k == |draws| ==>
      PaintAll(c, draws, x, y) == c && forall i :: 0 <= i < |draws| ==> !Covers(draws[i], x, y)
    ensures k < |draws| ==>
      LastNewest(draws, k, x, y) && PaintAll(c, draws, x, y) == Cell(ColourAt(draws[k], x, y), draws[k].frame)
  {
    if draws == [] {
      k := 0;
    } else {
      var n := |draws| - 1;
      var before := draws[..n];
      var k' := NewestFrameWins(c, before, x, y);
      assert forall i :: 0 <= i < n ==> before[i] == draws[i];
      if Covers(draws[n], x, y) && (k' == n || draws[k'].frame <= draws[n].frame) {
        k := n;
      } else {
        k := if k' == n then n + 1 else k';
      }
    }
  }

  predicate Overlap(a: Draw, b: Draw) {
    var x0 := if a.origin.x < b.origin.x then b.origin.x else a.origin.x;
    var y0 := if a.origin.y < b.origin.y then b.origin.y else a.origin.y;
    Covers(a, x0, y0) && Covers(b, x0, y0)
  }

  lemma OverlapIsSharedPixel(a: Draw, b: Draw, x: nat, y: nat)
    requires Covers(a, x, y) && Covers(b, x, y)
    ensures Overlap(a, b) && Overlap(b, a)
  {}

  /** Different draws of one frame never overlap. */
  predicate SameFrameDisjoint(draws: seq<Draw>) {
    forall a, b :: a in draws && b in draws && a != b && a.frame == b.frame ==> !Overlap(a, b)
  }

  lemma SameNewest(a: seq<Draw>, b: seq<Draw>, k: nat, l: nat, x: nat, y: nat)
    requires k < |a| && forall d :: d in b ==> d in a
    requires LastNewest(a, k, x, y) && LastNewest(b, l, x, y) && a[k] in b && SameFrameDisjoint(a)
    ensures a[k] == b[l]
  {
    assert b[l] in a;
    if a[k] != b[l] {
      OverlapIsSharedPixel(a[k], b[l], x, y);
    }
  }

  lemma SomeCovers(a: seq<Draw>, b: seq<Draw>, k: nat, x: nat, y: nat)
    requires k < |a| && Covers(a[k], x, y) && a[k] in b
    ensures exists i :: 0 <= i < |b| && Covers(b[i], x, y)
  {
    var i :| 0 <= i < |b| && b[i] == a[k];
    assert Covers(b[i], x, y);
  }

  /** When the draws of one frame are disjoint, the order in which draws are painted does not
      matter: any two sequences of the same draws, permutations in particular, produce the
      same pixel. */
  lemma OrderIrrelevant(c: Cell, a: seq<Draw>, b: seq<Draw>, x: nat, y: nat)
    requires c.responsible == 0
    requires (forall d :: d in a <==> d in b) && SameFrameDisjoint(a)
    ensures PaintAll(c, a, x, y) == PaintAll(c, b, x, y)
  {
    var k := NewestFrameWins(c, a, x, y);
    var l := NewestFrameWins(c, b, x, y);
    if k < |a| {
      SomeCovers(a, b, k, x, y);
      SameNewest(a, b, k, l, x, y);
    } else if l < |b| {
      SomeCovers(b, a, l, x, y);
    }
  }

  /** The client's image. */
  class Image {
    const width: nat
    const height: nat
    const pixels: array2<Pixel32>
    const responsibleFrames: array2<nat>

    ghost predicate Valid() {
      pixels.Length0 == height && pixels.Length1 == width &&
      responsibleFrames.Length0 == height && responsibleFrames.Length1 == width
    }

    ghost function At(x: nat, y: nat): Cell
      requires Valid() && x < width && y < height
      reads pixels, responsibleFrames
    {
      Cell(pixels[y, x], responsibleFrames[y, x])
    }

    constructor (size: Size, colour: Pixel32)
      ensures Valid() && fresh(pixels) && fresh(responsibleFrames)
      ensures width == size.width && height == size.height
      ensures forall x, y :: 0 <= x < width && 0 <= y < height ==> At(x, y) == Cell(colour, 0)
    {
      width, height := size.width, size.height;
      pixels := new Pixel32[size.height, size.width]((_, _) => colour);
      responsibleFrames := new nat[size.height, size.width]((_, _) => 0);
    }

    method Draw(src: Pixmap, origin: Point, frame: nat)
      requires Valid()
      requires origin.x + src.width <= width && origin.y + |src.rows| <= height
      modifies pixels, responsibleFrames
      ensures forall x, y :: 0 <= x < width && 0 <= y < height ==>
        At(x, y) == PaintCell(old(At(x, y)), NewDraw(frame, origin, src), x, y)
    {
      ghost var d := NewDraw(frame, origin, src);
      for row := 0 to |src.rows|
        invariant forall x, y :: 0 <= x < width && 0 <= y < height ==>
          At(x, y) == if y < origin.y + row then PaintCell(old(At(x, y)), d, x, y) else old(At(x, y))
      {
        for col := 0 to src.width
          invariant forall x, y :: 0 <= x < width && 0 <= y < height ==>
            At(x, y) == if y < origin.y + row || (y == origin.y + row && x < origin.x + col)
                        then PaintCell(old(At(x, y)), d, x, y) else old(At(x, y))
        {
          var y, x := origin.y + row, origin.x + col;
          if responsibleFrames[y, x] <= frame {
            pixels[y, x] := Widen(src.rows[row][col]);
            responsibleFrames[y, x] := frame;
          }
        }
      }
    }

    /** Paints a sequence of draws in order. */
    method Paint(draws: seq<Draw>)
      requires Valid()
      requires forall i :: 0 <= i < |draws| ==> InBounds(draws[i], width, height)
      modifies pixels, responsibleFrames
      ensures forall x, y :: 0 <= x < width && 0 <= y < height ==>
        At(x, y) == PaintAll(old(At(x, y)), draws, x, y)
    {
      for i := 0 to |draws|
        invariant forall x, y :: 0 <= x < width && 0 <= y < height ==>
          At(x, y) == PaintAll(old(At(x, y)), draws[..i], x, y)
      {
        Draw(draws[i].pixels, draws[i].origin, draws[i].frame);
        assert draws[..i + 1][..i] == draws[..i];
        assert draws[i] == NewDraw(draws[i].frame, draws[i].origin, draws[i].pixels);
      }
      assert draws[..|draws|] == draws;
    }
  }

  predicate InBounds(d: Draw, width: nat, height: nat) {
    d.origin.x + d.pixels.width <= width && d.origin.y + |d.pixels.rows| <= height
  }
}
