/** From the screen back to a window: where the client's user interface paints a draw
    (`draw` and `window_at` in aperturec-client-gtk4/src/main.rs). */
module Windows {
  import opened Common
  import opened Geometry
  import opened Painting
  import opened Framing
  import opened Pipeline
  import opened MediaRuns
  import opened MediaLoop

  predicate Contains(area: Rect, p: Point) {
    area.origin.x <= p.x < area.origin.x + area.size.width &&
    area.origin.y <= p.y < area.origin.y + area.size.height
  }

  /** The points of an area are the pixels of an image of its size, moved to its origin. */
  lemma ContainsIsPixel(area: Rect, p: Point)
    ensures Contains(area, p)
      <==> exists q: Point :: q.x < area.size.width && q.y < area.size.height && area.origin.Plus(q) == p
  {
    if Contains(area, p) {
      var q := Point(p.x - area.origin.x, p.y - area.origin.y);
      assert area.origin.Plus(q) == p;
    }
  }

  /** The first window whose area contains the point. */
  function WindowAt(areas: seq<Rect>, p: Point): Option<nat> {
    if areas == [] then None
    else if Contains(areas[0], p) then Some(0)
    else match WindowAt(areas[1..], p)
      case None => None
      case Some(k) => Some(k + 1)
  }

  lemma {:induction false} WindowAtIsFirst(areas: seq<Rect>, p: Point)
    ensures match WindowAt(areas, p)
      case None => forall k :: 0 <= k < |areas| ==> !Contains(areas[k], p)
      case Some(w) =>
        w < |areas| && Contains(areas[w], p) && forall k :: 0 <= k < w ==> !Contains(areas[k], p)
  {
    if areas != [] && !Contains(areas[0], p) {
      WindowAtIsFirst(areas[1..], p);
    }
  }

  ghost predicate NoSharedPoint(areas: seq<Rect>) {
    forall j, k, p :: 0 <= j < k < |areas| && Contains(areas[j], p) ==> !Contains(areas[k], p)
  }

  /** A draw moved from the screen to the window with the given origin. */
  function ToWindow(d: Draw, origin: Point): Draw
    requires origin.x <= d.origin.x && origin.y <= d.origin.y
  {
    NewDraw(d.frame, Point(d.origin.x - origin.x, d.origin.y - origin.y), d.pixels)
  }

  /** The fragment has pixels, and fits into its display once drawn. */
  predicate Visible(info: DisplayInfo, x: Fragment) {
    x.decoder < |info.decoderAreas| && x.pixmap.width > 0 && x.pixmap.rows != [] &&
    InBounds(ToDraw(info.decoderAreas, x), info.area.size.width, info.area.size.height)
  }

  /** The way to the screen and back: when each display has a window of its own area, a draw
      reaches the window of its display, at the place it has within the display. */
  lemma ScreenDrawComesHome(c: Config, areas: seq<Rect>, i: nat, w: nat, x: Fragment)
    requires i < |c.displays| && w < |areas| && areas[w] == c.displays[i].area && NoSharedPoint(areas)
    requires Visible(c.displays[i], x)
    ensures
      var d := ScreenDraw(c, i, x);
      WindowAt(areas, d.origin) == Some(w) && Contains(areas[w], d.origin) &&
      ToWindow(d, areas[w].origin) == ToDraw(c.displays[i].decoderAreas, x)
  {
    var d := ScreenDraw(c, i, x);
    WindowAtIsFirst(areas, d.origin);
    assert Contains(areas[w], d.origin);
  }

  /** The images of the windows, none of whose arrays belong to two of them. */
  ghost predicate AreWindows(areas: seq<Rect>, images: seq<Image>) {
    |areas| == |images| &&
    (forall k :: 0 <= k < |images| ==>
      images[k].Valid() && images[k].width == areas[k].size.width && images[k].height == areas[k].size.height) &&
    forall j, k :: 0 <= j < k < |images| ==>
      images[j].pixels != images[k].pixels && images[j].responsibleFrames != images[k].responsibleFrames
  }

  /** Paints a draw in the window it belongs to, if any, and in no other. */
  method DrawInWindow(areas: seq<Rect>, images: seq<Image>, d: Draw)
    requires AreWindows(areas, images)
    requires forall w :: WindowAt(areas, d.origin) == Some(w) && w < |areas| ==>
      d.origin.x + d.pixels.width <= areas[w].origin.x + areas[w].size.width &&
      d.origin.y + |d.pixels.rows| <= areas[w].origin.y + areas[w].size.height
    modifies set image | image in images :: image.pixels
    modifies set image | image in images :: image.responsibleFrames
    ensures forall k, x, y :: 0 <= k < |images| && 0 <= x < images[k].width && 0 <= y < images[k].height ==>
      images[k].At(x, y)
        == if WindowAt(areas, d.origin) == Some(k) && Contains(areas[k], d.origin)
           then PaintCell(old(images[k].At(x, y)), ToWindow(d, areas[k].origin), x, y)
           else old(images[k].At(x, y))
  {
    WindowAtIsFirst(areas, d.origin);
    var found := WindowAt(areas, d.origin);
    if found != None {
      var w := found.value;
      var moved := ToWindow(d, areas[w].origin);
      images[w].Draw(moved.pixels, moved.origin, moved.frame);
    }
  }
}
