/** One display of the client, from messages to pixels: its framer and its image together. */
module ClientDisplays {
  import opened Common
  import opened Geometry
  import opened Painting
  import opened Framing
  import opened FramingInvariants
  import opened FramingTheorems
  import opened FramingOrder
  import opened Pipeline
  import opened DisplayFramers

  lemma {:induction false} PaintInTwoParts(c: Cell, areas: seq<Rect>, a: seq<Fragment>, b: seq<Fragment>,
                                           x: nat, y: nat)
    ensures PaintFragments(c, areas, a + b, x, y)
         == PaintFragments(PaintFragments(c, areas, a, x, y), areas, b, x, y)
  {
    if b == [] {
      assert a + b == a;
    } else {
      PaintInTwoParts(c, areas, a, b[..|b| - 1], x, y);
      assert (a + b)[..|a + b| - 1] == a + b[..|b| - 1];
    }
  }

  /** Every fragment of the messages fits into the image, placed within its decoder's area. */
  predicate AllInBounds(areas: seq<Rect>, ms: seq<Message>, width: nat, height: nat) {
    forall x :: x in Sent(ms) && x.decoder < |areas| ==>
      areas[x.decoder].origin.x + x.origin.x + x.pixmap.width <= width &&
      areas[x.decoder].origin.y + x.origin.y + |x.pixmap.rows| <= height
  }

  lemma QueueInBounds(areas: seq<Rect>, evs: seq<Event>, ms: seq<Message>, width: nat, height: nat)
    requires AllInBounds(areas, ms, width, height) && forall m :: Deliver(m) in evs ==> m in ms
    requires Drawable(areas, Run(|areas|, evs).d.queue)
    ensures forall d :: d in ToDraws(areas, Run(|areas|, evs).d.queue) ==> InBounds(d, width, height)
  {
    var queue := Run(|areas|, evs).d.queue;
    forall x | x in queue ensures InBounds(ToDraw(areas, x), width, height) {
      QueuedWasAccepted(|areas|, evs, x);
      var m :| m in Run(|areas|, evs).accepted && x in Brought(m);
      AcceptedWasDelivered(|areas|, evs, m);
      SentElements(ms, x);
    }
  }

  lemma {:induction false} DeliveredAreMessages(evs: seq<Event>, m: Message)
    requires Deliver(m) in evs
    ensures m in Messages(evs)
  {
    var n := |evs| - 1;
    if evs[n] != Deliver(m) {
      DeliveredAreMessages(evs[..n], m);
    }
  }

  /** Hands the framer's draws to the image. */
  method PaintQueue(framer: DisplayFramer, image: Image)
    requires framer.Valid() && image.Valid()
    requires forall d :: d in ToDraws(framer.decoderAreas, framer.undrawn) ==> InBounds(d, image.width, image.height)
    modifies framer, image.pixels, image.responsibleFrames
    ensures framer.Valid() && framer.events == old(framer.events) + [Drain]
    ensures forall x, y :: 0 <= x < image.width && 0 <= y < image.height ==>
      image.At(x, y) == PaintFragments(old(image.At(x, y)), framer.decoderAreas, old(framer.undrawn), x, y)
  {
    ghost var queue := framer.undrawn;
    var draws := framer.GetDrawsAndReset();
    image.Paint(draws);
    forall x, y | 0 <= x < image.width && 0 <= y < image.height
      ensures image.At(x, y) == PaintFragments(old(image.At(x, y)), framer.decoderAreas, queue, x, y)
    {
      PaintIsFragments(old(image.At(x, y)), framer.decoderAreas, queue, x, y);
    }
  }

  /** Shows everything a display is sent, draining wherever `evs` says: the image is the initial
      one with the drawn fragments painted in the order in which they were handed out. */
  method Show(areas: seq<Rect>, evs: seq<Event>, image: Image)
    requires image.Valid() && AllInBounds(areas, Messages(evs), image.width, image.height)
    modifies image.pixels, image.responsibleFrames
    ensures forall x, y :: 0 <= x < image.width && 0 <= y < image.height ==>
      image.At(x, y) == PaintFragments(old(image.At(x, y)), areas, Run(|areas|, evs).drawn, x, y)
  {
    var framer := new DisplayFramer(areas);
    for i := 0 to |evs|
      invariant framer.Valid() && fresh(framer) && framer.decoderAreas == areas && framer.events == evs[..i]
      invariant forall x, y :: 0 <= x < image.width && 0 <= y < image.height ==>
        image.At(x, y) == PaintFragments(old(image.At(x, y)), areas, Run(|areas|, evs[..i]).drawn, x, y)
    {
      assert evs[..i + 1] == evs[..i] + [evs[i]];
      assert evs[..i + 1][..i] == evs[..i];
      match evs[i] {
        case Deliver(FragmentMsg(e)) =>
          var _ := framer.ReportFragment(e);
        case Deliver(EmptyTerminal(frame, decoder)) =>
          var _ := framer.ReportEmptyTerminal(frame, decoder);
        case Drain =>
          forall m | Deliver(m) in evs[..i] ensures m in Messages(evs) {
            DeliveredAreMessages(evs, m);
          }
          QueueInBounds(areas, evs[..i], Messages(evs), image.width, image.height);
          var queue := framer.undrawn;
          PaintQueue(framer, image);
          PicturesAdd(areas, Run(|areas|, evs[..i]).drawn, queue);
      }
    }
    assert evs[..|evs|] == evs;
  }

  lemma PicturesAdd(areas: seq<Rect>, drawn: seq<Fragment>, queue: seq<Fragment>)
    ensures forall c, x, y ::
      PaintFragments(c, areas, drawn + queue, x, y)
        == PaintFragments(PaintFragments(c, areas, drawn, x, y), areas, queue, x, y)
  {
    forall c, x: nat, y: nat
      ensures PaintFragments(c, areas, drawn + queue, x, y)
        == PaintFragments(PaintFragments(c, areas, drawn, x, y), areas, queue, x, y)
    {
      PaintInTwoParts(c, areas, drawn, queue, x, y);
    }
  }

  /** No pixel of the image has been painted yet. */
  ghost predicate Unpainted(image: Image)
    requires image.Valid()
    reads image.pixels, image.responsibleFrames
  {
    forall x, y :: 0 <= x < image.width && 0 <= y < image.height ==> image.At(x, y).responsible == 0
  }

  /** End to end on the real image, for any messages at all: a fresh image, drained at the end
      with nothing held back, is as if every accepted fragment had been painted on arrival. */
  method ShowAll(areas: seq<Rect>, evs: seq<Event>, image: Image)
    requires image.Valid() && Unpainted(image)
    requires AllInBounds(areas, Messages(evs), image.width, image.height)
    requires NothingHeld(Run(|areas|, evs).d) && Run(|areas|, evs).d.queue == []
    modifies image.pixels, image.responsibleFrames
    ensures forall x, y :: 0 <= x < image.width && 0 <= y < image.height ==>
      image.At(x, y) == PaintFragments(old(image.At(x, y)), areas, Sent(Run(|areas|, evs).accepted), x, y)
  {
    assert Painted(Run(|areas|, evs)) == Run(|areas|, evs).drawn;
    forall c: Cell, x: nat, y: nat | c.responsible == 0
      ensures PaintFragments(c, areas, Run(|areas|, evs).drawn, x, y)
           == PaintFragments(c, areas, Sent(Run(|areas|, evs).accepted), x, y)
    {
      ImageIsByArrival(areas, evs, c, x, y);
    }
    Show(areas, evs, image);
  }

  /** End to end on the real image for a well-formed sender's messages, once each and in any
      order: every pixel shows the fragment of the newest frame that covers it, or what it
      showed before if there is none. */
  method ShowWellFormed(plan: Plan, areas: seq<Rect>, evs: seq<Event>, image: Image)
    requires image.Valid() && Unpainted(image)
    requires AllInBounds(areas, Messages(evs), image.width, image.height)
    requires WellFormed(plan, |areas|, Messages(evs)) && DisjointOnScreen(areas, Sent(Messages(evs)))
    requires NothingHeld(Run(|areas|, evs).d) && Run(|areas|, evs).d.queue == []
    modifies image.pixels, image.responsibleFrames
    ensures forall x, y :: 0 <= x < image.width && 0 <= y < image.height ==>
      ShowsNewest(old(image.At(x, y)), image.At(x, y), areas, Sent(Messages(evs)), x, y)
  {
    assert Painted(Run(|areas|, evs)) == Run(|areas|, evs).drawn;
    forall c: Cell, x: nat, y: nat | c.responsible == 0
      ensures ShowsNewest(c, PaintFragments(c, areas, Run(|areas|, evs).drawn, x, y),
                          areas, Sent(Messages(evs)), x, y)
    {
      ImageShowsNewest(plan, areas, evs, c, x, y);
    }
    Show(areas, evs, image);
  }
}
