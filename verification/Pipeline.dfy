/** From messages to pixels: whatever the delivery order, the image is the same. */
module Pipeline {
  import opened Common
  import opened Geometry
  import opened Painting
  import opened Framing
  import opened FramingInvariants
  import opened FramingTheorems
  import opened FramingRelease
  import opened FramingOrder

  /** The draw a fragment becomes, in display coordinates (`get_draws_and_reset`). */
  function ToDraw(areas: seq<Rect>, x: Fragment): Draw
    requires x.decoder < |areas|
  {
    NewDraw(x.frame, x.origin.Plus(areas[x.decoder].origin), x.pixmap)
  }

  predicate Drawable(areas: seq<Rect>, frags: seq<Fragment>) {
    forall x :: x in frags ==> x.decoder < |areas|
  }

  function ToDraws(areas: seq<Rect>, frags: seq<Fragment>): seq<Draw>
    requires Drawable(areas, frags)
  {
    seq(|frags|, i requires 0 <= i < |frags| => ToDraw(areas, frags[i]))
  }

  lemma ToDrawsElements(areas: seq<Rect>, a: seq<Fragment>, b: seq<Fragment>)
    requires Drawable(areas, a) && Drawable(areas, b)
    requires forall x :: x in a <==> x in b
    ensures forall d :: d in ToDraws(areas, a) <==> d in ToDraws(areas, b)
  {
    ToDrawsSubset(areas, a, b);
    ToDrawsSubset(areas, b, a);
  }

  lemma ToDrawsSubset(areas: seq<Rect>, a: seq<Fragment>, b: seq<Fragment>)
    requires Drawable(areas, a) && Drawable(areas, b)
    requires forall x :: x in a ==> x in b
    ensures forall d :: d in ToDraws(areas, a) ==> d in ToDraws(areas, b)
  {
    forall d | d in ToDraws(areas, a) ensures d in ToDraws(areas, b) {
      var i :| 0 <= i < |a| && d == ToDraw(areas, a[i]);
      assert a[i] in b;
      var j :| 0 <= j < |b| && b[j] == a[i];
      assert ToDraws(areas, b)[j] == d;
    }
  }

  // ----- Painting told on fragments -----

  /** Pixel (x, y) of the display lies in the fragment, placed within its decoder's area. */
  predicate FragmentCovers(areas: seq<Rect>, f: Fragment, x: nat, y: nat) {
    f.decoder < |areas| &&
    var left, top := areas[f.decoder].origin.x + f.origin.x, areas[f.decoder].origin.y + f.origin.y;
    left <= x < left + f.pixmap.width && top <= y < top + |f.pixmap.rows|
  }

  /** The fragment's own pixel there, opaque. */
  function FragmentColour(areas: seq<Rect>, f: Fragment, x: nat, y: nat): Pixel32
    requires FragmentCovers(areas, f, x, y)
  {
    var p := f.pixmap.rows[y - areas[f.decoder].origin.y - f.origin.y][x - areas[f.decoder].origin.x - f.origin.x];
    Pixel32(p.blue, p.green, p.red, 255)
  }

  /** A pixel after fragments have been painted in order, none over a newer frame. */
  function PaintFragments(c: Cell, areas: seq<Rect>, frags: seq<Fragment>, x: nat, y: nat): Cell {
    if frags == [] then c
    else
      var before, f := PaintFragments(c, areas, frags[..|frags| - 1], x, y), frags[|frags| - 1];
      if FragmentCovers(areas, f, x, y) && before.responsible <= f.frame
      then Cell(FragmentColour(areas, f, x, y), f.frame) else before
  }

  /** A draw says what its fragment says. */
  lemma DrawIsFragment(areas: seq<Rect>, f: Fragment, x: nat, y: nat)
    requires f.decoder < |areas|
    ensures ToDraw(areas, f).frame == f.frame
    ensures Covers(ToDraw(areas, f), x, y) <==> FragmentCovers(areas, f, x, y)
    ensures Covers(ToDraw(areas, f), x, y) ==>
      ColourAt(ToDraw(areas, f), x, y) == FragmentColour(areas, f, x, y)
  {}

  lemma {:induction false} PaintIsFragments(c: Cell, areas: seq<Rect>, frags: seq<Fragment>, x: nat, y: nat)
    requires Drawable(areas, frags)
    ensures PaintAll(c, ToDraws(areas, frags), x, y) == PaintFragments(c, areas, frags, x, y)
  {
    if frags != [] {
      var n := |frags| - 1;
      assert ToDraws(areas, frags)[..n] == ToDraws(areas, frags[..n]);
      PaintIsFragments(c, areas, frags[..n], x, y);
      DrawIsFragment(areas, frags[n], x, y);
    }
  }

  /** Different fragments of one frame never share a pixel. */
  ghost predicate DisjointOnScreen(areas: seq<Rect>, frags: seq<Fragment>) {
    forall a, b, x, y ::
      a in frags && b in frags && a != b && a.frame == b.frame && FragmentCovers(areas, a, x, y) ==>
        !FragmentCovers(areas, b, x, y)
  }

  lemma DisjointDraws(areas: seq<Rect>, frags: seq<Fragment>)
    requires Drawable(areas, frags) && DisjointOnScreen(areas, frags)
    ensures SameFrameDisjoint(ToDraws(areas, frags))
  {
    var draws := ToDraws(areas, frags);
    forall d, e | d in draws && e in draws && d != e && d.frame == e.frame ensures !Overlap(d, e) {
      var i :| 0 <= i < |frags| && d == ToDraw(areas, frags[i]);
      var j :| 0 <= j < |frags| && e == ToDraw(areas, frags[j]);
      if Overlap(d, e) {
        var x := if d.origin.x < e.origin.x then e.origin.x else d.origin.x;
        var y := if d.origin.y < e.origin.y then e.origin.y else d.origin.y;
        DrawIsFragment(areas, frags[i], x, y);
        DrawIsFragment(areas, frags[j], x, y);
        assert false;
      }
    }
  }

  // ----- The last arrival of the newest frame is what one sees -----

  /** The last fragment of frame f that covers the pixel. */
  function LastOf(areas: seq<Rect>, frags: seq<Fragment>, f: nat, x: nat, y: nat): Option<Fragment> {
    if frags == [] then None
    else
      var last := frags[|frags| - 1];
      if last.frame == f && FragmentCovers(areas, last, x, y) then Some(last)
      else LastOf(areas, frags[..|frags| - 1], f, x, y)
  }

  lemma {:induction false} LastOfOwnFrame(areas: seq<Rect>, frags: seq<Fragment>, f: nat, x: nat, y: nat)
    ensures LastOf(areas, OfFrame(frags, f), f, x, y) == LastOf(areas, frags, f, x, y)
  {
    if frags != [] {
      var n := |frags| - 1;
      LastOfOwnFrame(areas, frags[..n], f, x, y);
      var own := OfFrame(frags[..n], f);
      if frags[n].frame == f {
        assert (own + [frags[n]])[..|own|] == own;
      } else {
        assert OfFrame(frags, f) == own;
      }
    }
  }

  lemma {:induction false} LastOfIsThere(areas: seq<Rect>, frags: seq<Fragment>, f: nat, x: nat, y: nat)
    ensures match LastOf(areas, frags, f, x, y)
      case None => forall g :: g in frags && g.frame == f ==> !FragmentCovers(areas, g, x, y)
      case Some(g) => g in frags && g.frame == f && FragmentCovers(areas, g, x, y)
  {
    if frags != [] {
      LastOfIsThere(areas, frags[..|frags| - 1], f, x, y);
      assert frags == frags[..|frags| - 1] + [frags[|frags| - 1]];
    }
  }

  lemma LastOfLonger(areas: seq<Rect>, frags: seq<Fragment>, x: nat, y: nat)
    requires frags != []
    ensures forall f: nat ::
      LastOf(areas, frags, f, x, y)
        == if frags[|frags| - 1].frame == f && FragmentCovers(areas, frags[|frags| - 1], x, y)
           then Some(frags[|frags| - 1]) else LastOf(areas, frags[..|frags| - 1], f, x, y)
  {}

  /** What a pixel shows: nothing new, or the last fragment of the newest frame. */
  ghost predicate ShowsLast(c: Cell, c': Cell, areas: seq<Rect>, frags: seq<Fragment>, x: nat, y: nat) {
    if forall f: nat :: LastOf(areas, frags, f, x, y) == None then c' == c
    else
      var last := LastOf(areas, frags, c'.responsible, x, y);
      last.Some? && FragmentCovers(areas, last.value, x, y) && c'.colour == FragmentColour(areas, last.value, x, y) &&
      forall f: nat :: LastOf(areas, frags, f, x, y).Some? ==> f <= c'.responsible
  }

  lemma {:induction false} PaintShowsLast(c: Cell, areas: seq<Rect>, frags: seq<Fragment>, x: nat, y: nat)
    requires c.responsible == 0
    ensures ShowsLast(c, PaintFragments(c, areas, frags, x, y), areas, frags, x, y)
  {
    if frags != [] {
      PaintShowsLast(c, areas, frags[..|frags| - 1], x, y);
      LastOfLonger(areas, frags, x, y);
    }
  }

  // ----- The newest frame is what one sees -----

  /** No fragment that covers the pixel has a newer frame. */
  predicate IsNewest(areas: seq<Rect>, frags: seq<Fragment>, f: Fragment, x: nat, y: nat) {
    f in frags && FragmentCovers(areas, f, x, y) &&
    forall g :: g in frags && FragmentCovers(areas, g, x, y) ==> g.frame <= f.frame
  }

  /** The pixel is as it was if no fragment covers it, and otherwise shows a fragment of the
      newest frame that covers it. */
  ghost predicate ShowsNewest(c: Cell, c': Cell, areas: seq<Rect>, frags: seq<Fragment>, x: nat, y: nat) {
    ((forall f :: f in frags ==> !FragmentCovers(areas, f, x, y)) ==> c' == c) &&
    (forall f :: IsNewest(areas, frags, f, x, y) ==> c' == Cell(FragmentColour(areas, f, x, y), f.frame))
  }

  /** In particular, when the fragments of one frame are disjoint, the newest one. */
  lemma PaintShowsNewest(c: Cell, areas: seq<Rect>, frags: seq<Fragment>, x: nat, y: nat)
    requires c.responsible == 0 && DisjointOnScreen(areas, frags)
    ensures ShowsNewest(c, PaintFragments(c, areas, frags, x, y), areas, frags, x, y)
  {
    var shown := PaintFragments(c, areas, frags, x, y);
    PaintShowsLast(c, areas, frags, x, y);
    forall f: nat
      ensures match LastOf(areas, frags, f, x, y)
        case None => forall g :: g in frags && g.frame == f ==> !FragmentCovers(areas, g, x, y)
        case Some(g) => g in frags && g.frame == f && FragmentCovers(areas, g, x, y)
    {
      LastOfIsThere(areas, frags, f, x, y);
    }
    forall f | IsNewest(areas, frags, f, x, y) ensures shown == Cell(FragmentColour(areas, f, x, y), f.frame) {
      assert LastOf(areas, frags, f.frame, x, y).Some?;
    }
  }

  /** What shows is determined by the last fragments of the frames. */
  lemma LastDetermines(c: Cell, p: Cell, q: Cell, areas: seq<Rect>, a: seq<Fragment>, b: seq<Fragment>, x: nat, y: nat)
    requires ShowsLast(c, p, areas, a, x, y) && ShowsLast(c, q, areas, b, x, y)
    requires forall f: nat :: LastOf(areas, a, f, x, y) == LastOf(areas, b, f, x, y)
    ensures p == q
  {
    if f: nat :| LastOf(areas, a, f, x, y).Some? {
      assert LastOf(areas, b, f, x, y).Some?;
      assert LastOf(areas, b, p.responsible, x, y).Some? && LastOf(areas, a, q.responsible, x, y).Some?;
    }
  }

  /** If two lists have the fragments of each frame in the same order, they paint the same. */
  lemma SameFramesSamePicture(c: Cell, areas: seq<Rect>, a: seq<Fragment>, b: seq<Fragment>, x: nat, y: nat)
    requires c.responsible == 0 && forall f :: OfFrame(a, f) == OfFrame(b, f)
    ensures PaintFragments(c, areas, a, x, y) == PaintFragments(c, areas, b, x, y)
  {
    PaintShowsLast(c, areas, a, x, y);
    PaintShowsLast(c, areas, b, x, y);
    forall f: nat ensures LastOf(areas, a, f, x, y) == LastOf(areas, b, f, x, y) {
      assert OfFrame(a, f) == OfFrame(b, f);
      LastOfOwnFrame(areas, a, f, x, y);
      LastOfOwnFrame(areas, b, f, x, y);
    }
    LastDetermines(c, PaintFragments(c, areas, a, x, y), PaintFragments(c, areas, b, x, y), areas, a, b, x, y);
  }

  // ----- The reference: fragments drawn frame by frame, in increasing frame order -----

  function FrameByFrame(frags: seq<Fragment>, hi: nat): seq<Fragment> {
    if hi == 0 then [] else FrameByFrame(frags, hi - 1) + OfFrame(frags, hi - 1)
  }

  lemma InEither<T>(a: seq<T>, b: seq<T>, x: T)
    ensures x in a + b <==> x in a || x in b
  {}

  lemma {:induction false} FrameByFrameElements(frags: seq<Fragment>, hi: nat, x: Fragment)
    ensures x in FrameByFrame(frags, hi) <==> x in frags && x.frame < hi
  {
    if hi > 0 {
      FrameByFrameElements(frags, hi - 1, x);
      OfFrameElements(frags, hi - 1, x);
      InEither(FrameByFrame(frags, hi - 1), OfFrame(frags, hi - 1), x);
    }
  }

  lemma {:induction false} SentIsFragments(ms: seq<Message>)
    ensures multiset(Sent(ms)) == FragmentsOf(ms)
  {
    if ms != [] {
      var n := |ms| - 1;
      SentIsFragments(ms[..n]);
      assert ms == ms[..n] + [ms[n]];
      BroughtConserved(ms[..n], ms[n]);
    }
  }

  lemma {:induction false} SentElements(ms: seq<Message>, x: Fragment)
    ensures x in Sent(ms) <==> exists m :: m in ms && x in Brought(m)
  {
    if ms != [] {
      var n := |ms| - 1;
      SentElements(ms[..n], x);
      assert forall m :: m in ms <==> m in ms[..n] || m == ms[n];
    }
  }

  lemma {:induction false} WellFormedFits(plan: Plan, decoders: nat, ms: seq<Message>, m: Message)
    requires WellFormed(plan, decoders, ms) && m in ms
    ensures Fits(plan, decoders, m)
  {
    var n := |ms| - 1;
    if m != ms[n] {
      assert m in ms[..n];
      WellFormedFits(plan, decoders, ms[..n], m);
    }
  }

  lemma SentDrawable(plan: Plan, areas: seq<Rect>, ms: seq<Message>)
    requires WellFormed(plan, |areas|, ms)
    ensures Drawable(areas, Sent(ms))
  {
    forall x | x in Sent(ms) ensures x.decoder < |areas| {
      SentElements(ms, x);
      var m :| m in ms && x in Brought(m);
      WellFormedFits(plan, |areas|, ms, m);
    }
  }

  // ----- Main results -----

  /** Everything handed out as draws, then everything still queued. */
  function Painted(t: Trace): seq<Fragment> { t.drawn + t.d.queue }

  predicate NothingHeld(d: Display) { forall f :: f in d.inFlight ==> !Holds(d, f) }

  /** With nothing held back, what a display paints is exactly what was sent to it. */
  lemma PaintedIsSent(plan: Plan, decoders: nat, evs: seq<Event>)
    requires WellFormed(plan, decoders, Messages(evs)) && NothingHeld(Run(decoders, evs).d)
    ensures multiset(Painted(Run(decoders, evs))) == multiset(Sent(Messages(evs)))
  {
    var t := Run(decoders, evs);
    WellFormedAccepted(plan, decoders, evs);
    SentIsFragments(Messages(evs));
    forall x: Fragment ensures multiset(Painted(t))[x] == FragmentsOf(t.accepted)[x] {
      Conservation(decoders, evs, x);
      assert HeldCount(t.d, x) == 0;
    }
  }

  lemma SameElements<T>(a: seq<T>, b: seq<T>)
    requires multiset(a) == multiset(b)
    ensures forall x :: x in a <==> x in b
  {
    assert forall x :: x in a <==> x in multiset(a);
  }

  lemma SamePainting(areas: seq<Rect>, a: seq<Fragment>, b: seq<Fragment>, c: Cell, x: nat, y: nat)
    requires Drawable(areas, a) && DisjointOnScreen(areas, a) && c.responsible == 0
    requires forall z :: z in a <==> z in b
    ensures PaintFragments(c, areas, a, x, y) == PaintFragments(c, areas, b, x, y)
  {
    DisjointDraws(areas, a);
    ToDrawsElements(areas, a, b);
    OrderIrrelevant(c, ToDraws(areas, a), ToDraws(areas, b), x, y);
    PaintIsFragments(c, areas, a, x, y);
    PaintIsFragments(c, areas, b, x, y);
  }

  lemma ReferenceElements(ms: seq<Message>, hi: nat)
    requires forall m :: m in ms ==> m.Frame() < hi
    ensures forall z :: z in Sent(ms) <==> z in FrameByFrame(Sent(ms), hi)
  {
    forall z ensures z in FrameByFrame(Sent(ms), hi) <==> z in Sent(ms) {
      FrameByFrameElements(Sent(ms), hi, z);
      SentElements(ms, z);
    }
  }

  lemma PermutedSent(ms: seq<Message>, ms': seq<Message>)
    requires multiset(ms) == multiset(ms')
    ensures forall z :: z in Sent(ms) <==> z in Sent(ms')
  {
    SameElements(ms, ms');
    forall z ensures z in Sent(ms) <==> z in Sent(ms') {
      SentElements(ms, z);
      SentElements(ms', z);
    }
  }

  /** End to end, for any messages at all: a display that holds nothing back shows what it would
      show had every accepted fragment been painted the moment it arrived. */
  lemma ImageIsByArrival(areas: seq<Rect>, evs: seq<Event>, c: Cell, x: nat, y: nat)
    requires NothingHeld(Run(|areas|, evs).d) && c.responsible == 0
    ensures
      var t := Run(|areas|, evs);
      PaintFragments(c, areas, Painted(t), x, y) == PaintFragments(c, areas, Sent(t.accepted), x, y)
  {
    var t := Run(|areas|, evs);
    forall f ensures OfFrame(Painted(t), f) == OfFrame(Sent(t.accepted), f) {
      OrderedConservation(|areas|, evs, f);
      OfFrameAppend(t.drawn, t.d.queue, f);
      assert Held(t.d, f) == [];
    }
    SameFramesSamePicture(c, areas, Painted(t), Sent(t.accepted), x, y);
  }

  /** End to end: for a well-formed sender whose fragments of one frame are disjoint on
      screen, every exactly-once delivery, in any order and with drains anywhere, that leaves
      nothing held back shows at each pixel the fragment of the newest frame that covers it. */
  lemma ImageShowsNewest(plan: Plan, areas: seq<Rect>, evs: seq<Event>, c: Cell, x: nat, y: nat)
    requires WellFormed(plan, |areas|, Messages(evs)) && NothingHeld(Run(|areas|, evs).d)
    requires DisjointOnScreen(areas, Sent(Messages(evs))) && c.responsible == 0
    ensures
      var shown := PaintFragments(c, areas, Painted(Run(|areas|, evs)), x, y);
      ShowsNewest(c, shown, areas, Sent(Messages(evs)), x, y)
  {
    WellFormedAccepted(plan, |areas|, evs);
    ImageIsByArrival(areas, evs, c, x, y);
    PaintShowsNewest(c, areas, Sent(Messages(evs)), x, y);
  }

  /** So the image is the one obtained by drawing the frames in increasing order. */
  lemma ImageIsFrameByFrame(plan: Plan, areas: seq<Rect>, evs: seq<Event>, hi: nat, c: Cell, x: nat, y: nat)
    requires WellFormed(plan, |areas|, Messages(evs)) && NothingHeld(Run(|areas|, evs).d)
    requires forall m :: m in Messages(evs) ==> m.Frame() < hi
    requires DisjointOnScreen(areas, Sent(Messages(evs))) && c.responsible == 0
    ensures PaintFragments(c, areas, Painted(Run(|areas|, evs)), x, y)
         == PaintFragments(c, areas, FrameByFrame(Sent(Messages(evs)), hi), x, y)
  {
    var sent := Sent(Messages(evs));
    SentDrawable(plan, areas, Messages(evs));
    WellFormedAccepted(plan, |areas|, evs);
    ImageIsByArrival(areas, evs, c, x, y);
    ReferenceElements(Messages(evs), hi);
    SamePainting(areas, sent, FrameByFrame(sent, hi), c, x, y);
  }

  /** Two deliveries of the same messages show the same image. */
  lemma DeliveryOrderIrrelevant(plan: Plan, areas: seq<Rect>, evs: seq<Event>, evs': seq<Event>,
                                c: Cell, x: nat, y: nat)
    requires WellFormed(plan, |areas|, Messages(evs)) && NothingHeld(Run(|areas|, evs).d)
    requires WellFormed(plan, |areas|, Messages(evs')) && NothingHeld(Run(|areas|, evs').d)
    requires multiset(Messages(evs)) == multiset(Messages(evs'))
    requires DisjointOnScreen(areas, Sent(Messages(evs))) && c.responsible == 0
    ensures PaintFragments(c, areas, Painted(Run(|areas|, evs)), x, y)
         == PaintFragments(c, areas, Painted(Run(|areas|, evs')), x, y)
  {
    SentDrawable(plan, areas, Messages(evs));
    WellFormedAccepted(plan, |areas|, evs);
    WellFormedAccepted(plan, |areas|, evs');
    ImageIsByArrival(areas, evs, c, x, y);
    ImageIsByArrival(areas, evs', c, x, y);
    PermutedSent(Messages(evs), Messages(evs'));
    SamePainting(areas, Sent(Messages(evs)), Sent(Messages(evs')), c, x, y);
  }

  /** Nothing is held back when every planned frame is fully delivered and the last arrival
      of each frame is a terminal, so such deliveries always paint the right image. */
  lemma TerminalLastHoldsNothing(plan: Plan, decoders: nat, evs: seq<Event>)
    requires WellFormed(plan, decoders, Messages(evs))
    requires forall f :: f in plan ==> |plan[f]| == decoders && FullyDelivered(plan, Messages(evs), f)
    requires forall f :: f in plan ==> EndsWithTerminal(Messages(evs), f)
    ensures NothingHeld(Run(decoders, evs).d)
  {
    var d := Run(decoders, evs).d;
    ReachableInv(decoders, evs);
    WellFormedAccepted(plan, decoders, evs);
    forall f | f in d.inFlight ensures !Holds(d, f) {
      if f in plan {
        TerminalLastIsNotHeld(plan, decoders, evs, f);
      } else if Holds(d, f) {
        HeldWasSent(decoders, evs, f);
        var m :| m in Messages(evs) && m.Frame() == f;
        WellFormedFits(plan, decoders, Messages(evs), m);
        assert false;
      }
    }
  }

  lemma HeldWasSent(decoders: nat, evs: seq<Event>, f: nat)
    requires Holds(Run(decoders, evs).d, f) && Run(decoders, evs).accepted == Messages(evs)
    ensures exists m :: m in Messages(evs) && m.Frame() == f
  {
    var t := Run(decoders, evs);
    var x := t.d.inFlight[f].fragments[0];
    assert x.frame == f && HeldCount(t.d, x) > 0 by {
      ReachableInv(decoders, evs);
      assert x in multiset(t.d.inFlight[f].fragments);
    }
    assert x in Sent(Messages(evs)) by {
      Conservation(decoders, evs, x);
      SentIsFragments(Messages(evs));
      assert x in multiset(Sent(Messages(evs)));
    }
    SentElements(Messages(evs), x);
  }

  // ----- Where queued fragments come from -----

  lemma {:induction false} AcceptedWasDelivered(decoders: nat, evs: seq<Event>, msg: Message)
    requires msg in Run(decoders, evs).accepted
    ensures Deliver(msg) in evs
  {
    if evs != [] {
      var n := |evs| - 1;
      if evs[n] != Deliver(msg) {
        AcceptedWasDelivered(decoders, evs[..n], msg);
      }
    }
  }

  lemma QueuedWasAccepted(decoders: nat, evs: seq<Event>, x: Fragment)
    requires x in Run(decoders, evs).d.queue
    ensures exists msg :: msg in Run(decoders, evs).accepted && x in Brought(msg)
  {
    var t := Run(decoders, evs);
    Conservation(decoders, evs, x);
    SentIsFragments(t.accepted);
    assert x in multiset(Sent(t.accepted));
    SentElements(t.accepted, x);
  }
}
