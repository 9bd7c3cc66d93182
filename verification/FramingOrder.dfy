/** In which order a framer hands fragments out. */
module FramingOrder {
  import opened Common
  import opened Painting
  import opened DecoderFrames
  import opened Framing
  import opened FramingInvariants

  /** The fragments of a list of messages, in that order. */
  function Sent(ms: seq<Message>): seq<Fragment> {
    if ms == [] then [] else Sent(ms[..|ms| - 1]) + Brought(ms[|ms| - 1])
  }

  /** The fragments of frame f, in their order. */
  function OfFrame(frags: seq<Fragment>, f: nat): seq<Fragment> {
    if frags == [] then []
    else
      var last := frags[|frags| - 1];
      OfFrame(frags[..|frags| - 1], f) + if last.frame == f then [last] else []
  }

  /** A fragment that a received message carries, field by field. */
  predicate CarriedBy(x: Fragment, m: Message) {
    m.FragmentMsg? && m.encoded.decoded == Some(x.pixmap) && m.encoded.frame == x.frame &&
    m.encoded.decoder == x.decoder && m.encoded.sequence == x.sequence && m.encoded.terminal == x.terminal &&
    m.encoded.origin == x.origin
  }

  /** What is sent is what the messages carry, unaltered. */
  lemma {:induction false} SentIsCarried(ms: seq<Message>, x: Fragment)
    ensures x in Sent(ms) <==> exists m :: m in ms && CarriedBy(x, m)
  {
    if ms != [] {
      var n := |ms| - 1;
      SentIsCarried(ms[..n], x);
      assert x in Brought(ms[n]) <==> CarriedBy(x, ms[n]);
      assert x in Sent(ms) <==> x in Sent(ms[..n]) || x in Brought(ms[n]);
      assert forall m :: m in ms <==> m in ms[..n] || m == ms[n];
    }
  }

  lemma {:induction false} OfFrameElements(frags: seq<Fragment>, f: nat, x: Fragment)
    ensures x in OfFrame(frags, f) <==> x in frags && x.frame == f
  {
    if frags != [] {
      var n := |frags| - 1;
      OfFrameElements(frags[..n], f, x);
      assert frags == frags[..n] + [frags[n]];
    }
  }

  lemma {:induction false} OfFrameAppend(a: seq<Fragment>, b: seq<Fragment>, f: nat)
    ensures OfFrame(a + b, f) == OfFrame(a, f) + OfFrame(b, f)
  {
    if b == [] {
      assert a + b == a;
    } else {
      var n := |b| - 1;
      OfFrameAppend(a, b[..n], f);
      assert (a + b)[..|a + b| - 1] == a + b[..n];
    }
  }

  lemma {:induction false} OfOwnFrame(frags: seq<Fragment>, own: nat, decoders: nat, f: nat)
    requires OwnFragments(frags, own, decoders)
    ensures OfFrame(frags, f) == if f == own then frags else []
  {
    if frags != [] {
      OfOwnFrame(frags[..|frags| - 1], own, decoders, f);
      assert frags == frags[..|frags| - 1] + [frags[|frags| - 1]];
    }
  }

  /** What is held back of frame f. */
  function Held(d: Display, f: nat): seq<Fragment> { FragmentsAt(d.inFlight, f) }

  function FragmentsAt(m: map<nat, InFlightFrame>, f: nat): seq<Fragment> {
    if f in m then m[f].fragments else []
  }

  lemma {:induction false} OfFrameBelow(m: map<nat, InFlightFrame>, decoders: nat, hi: nat, f: nat)
    requires forall k :: k in m ==> OwnFragments(m[k].fragments, k, decoders)
    ensures OfFrame(FragmentsBelow(m, hi), f) == if f < hi then FragmentsAt(m, f) else []
  {
    if hi > 0 {
      OfFrameBelow(m, decoders, hi - 1, f);
      assert FragmentsBelow(m, hi) == FragmentsBelow(m, hi - 1) + FragmentsAt(m, hi - 1);
      QueuedOne(FragmentsBelow(m, hi - 1), FragmentsAt(m, hi - 1), hi - 1, decoders, f);
      if f == hi - 1 {
        assert OfFrame(FragmentsBelow(m, hi - 1), f) == [];
      }
    }
  }

  /** Fragments of one frame at the end of a queue. */
  lemma QueuedOne(queue: seq<Fragment>, more: seq<Fragment>, own: nat, decoders: nat, f: nat)
    requires OwnFragments(more, own, decoders)
    ensures f == own ==> OfFrame(queue + more, f) == OfFrame(queue, f) + more
    ensures f != own ==> OfFrame(queue + more, f) == OfFrame(queue, f)
  {
    OfFrameAppend(queue, more, f);
    OfOwnFrame(more, own, decoders, f);
  }

  // ----- Within a frame, fragments leave in the order in which they came -----

  /** What is queued of frame f, then what is held back of it. */
  function Undrawn(d: Display, f: nat): seq<Fragment> { OfFrame(d.queue, f) + Held(d, f) }

  predicate InOrderOf(t: Trace, f: nat) {
    OfFrame(t.drawn, f) + Undrawn(t.d, f) == OfFrame(Sent(t.accepted), f)
  }

  lemma BroughtOfFrame(acc: seq<Message>, m: Message, f: nat)
    ensures OfFrame(Sent(acc + [m]), f) == OfFrame(Sent(acc), f) + if m.Frame() == f then Brought(m) else []
  {
    assert (acc + [m])[..|acc|] == acc;
    OfFrameAppend(Sent(acc), Brought(m), f);
    var b := Brought(m);
    if b != [] {
      assert b[..0] == [];
    }
  }

  lemma MarkEarlyUndrawn(d: Display, m: Message, f: nat)
    requires Shape(d) && OverlapIsFresh(d) && CanMarkEarly(d, m)
    ensures Undrawn(EarlyMarked(d, m), f) == Undrawn(d, f) + if m.Frame() == f then Brought(m) else []
  {
    QueuedOne(d.queue, Brought(m), m.Frame(), d.decoders, f);
    assert Held(EarlyMarked(d, m), f) == Held(d, f);
    if m.Frame() == f {
      assert Held(d, f) == [];
    } else {
      assert Undrawn(EarlyMarked(d, m), f) == Undrawn(d, f);
    }
  }

  lemma MarkInFlightUndrawn(d: Display, m: Message, f: nat)
    requires CanMarkInFlight(d, m)
    ensures Undrawn(InFlightMarked(d, m), f) == Undrawn(d, f) + if m.Frame() == f then Brought(m) else []
  {
    if m.Frame() == f {
      assert Held(InFlightMarked(d, m), f) == Held(d, f) + Brought(m);
    }
  }

  lemma PreparedUndrawn(d: Display, m: Message, f: nat)
    ensures Undrawn(d.(inFlight := Prepared(d, m)), f) == Undrawn(d, f)
  {
    PreparedEntries(d, m);
  }

  lemma PlaceUndrawn(d: Display, m: Message, f: nat)
    requires Shape(d) && OverlapIsFresh(d)
    ensures Undrawn(Place(d, m).0, f)
         == Undrawn(d, f) + if Place(d, m).1 && m.Frame() == f then Brought(m) else []
  {
    PlaceIsMark(d, m);
    PreparedUndrawn(d, m, f);
    if Place(d, m).1 {
      if m.Frame() in d.early {
        MarkEarlyUndrawn(d, m, f);
      } else {
        MarkInFlightUndrawn(d.(inFlight := Prepared(d, m)), m, f);
      }
    }
  }

  lemma ReleasedUndrawn(queue: seq<Fragment>, own: seq<Fragment>, rest: map<nat, InFlightFrame>,
                        decoders: nat, frame: nat, f: nat)
    requires OwnFragments(own, frame, decoders)
    requires forall k :: k in rest ==> OwnFragments(rest[k].fragments, k, decoders)
    ensures OfFrame(queue + own + FragmentsBelow(rest, frame), f)
         == OfFrame(queue, f) +
            (if f == frame then own else if f < frame then FragmentsAt(rest, f) else [])
  {
    OfFrameAppend(queue + own, FragmentsBelow(rest, frame), f);
    QueuedOne(queue, own, frame, decoders, f);
    OfFrameBelow(rest, decoders, frame, f);
  }

  lemma SettleUndrawn(d: Display, frame: nat, f: nat)
    requires Shape(d)
    ensures Undrawn(Settle(d, frame), f) == Undrawn(d, f)
  {
    if frame !in d.early && frame in d.inFlight && AllComplete(d.inFlight[frame].states) {
      ReleasedUndrawn(d.queue, d.inFlight[frame].fragments, d.inFlight - {frame}, d.decoders, frame, f);
      if f <= frame {
        assert Held(Settle(d, frame), f) == [];
      } else {
        assert Held(Settle(d, frame), f) == Held(d, f);
      }
    }
  }

  lemma ReportUndrawn(t: Trace, m: Message, f: nat)
    requires Inv(t)
    ensures
      var (d', outcome) := Report(t.d, m);
      Undrawn(d', f) == Undrawn(t.d, f) + if outcome == Ok && m.Frame() == f then Brought(m) else []
  {
    ReportIsPlaceThenSettle(t, m);
    PlaceUndrawn(t.d, m, f);
    assert Shape(Place(t.d, m).0) by {
      PlaceKeeps(t, m);
    }
    SettleUndrawn(Place(t.d, m).0, m.Frame(), f);
  }

  lemma Regroup<T>(a: seq<T>, b: seq<T>, c: seq<T>)
    ensures a + (b + c) == (a + b) + c
  {}

  lemma DeliverInOrder(t: Trace, m: Message, f: nat)
    requires Inv(t) && InOrderOf(t, f)
    ensures InOrderOf(Step(t, Deliver(m)), f)
  {
    var t' := Step(t, Deliver(m));
    ReportUndrawn(t, m, f);
    if Report(t.d, m).1 == Ok && m.Frame() == f {
      BroughtOfFrame(t.accepted, m, f);
      Regroup(OfFrame(t.drawn, f), Undrawn(t.d, f), Brought(m));
    } else {
      assert Undrawn(t'.d, f) == Undrawn(t.d, f);
      BroughtOfFrame(t.accepted, m, f);
      assert OfFrame(Sent(t'.accepted), f) == OfFrame(Sent(t.accepted), f);
    }
  }

  lemma DrainInOrder(t: Trace, f: nat)
    requires InOrderOf(t, f)
    ensures InOrderOf(Step(t, Drain), f)
  {
    OfFrameAppend(t.drawn, t.d.queue, f);
    Regroup(OfFrame(t.drawn, f), OfFrame(t.d.queue, f), Held(t.d, f));
    var t' := Step(t, Drain);
    assert Undrawn(t'.d, f) == Held(t.d, f);
  }

  /** Over every run and for each frame: what has been handed out, what is queued and what is
      held back are together exactly the accepted fragments, in the order of acceptance. */
  lemma {:induction false} OrderedConservation(decoders: nat, evs: seq<Event>, f: nat)
    ensures
      var t := Run(decoders, evs);
      OfFrame(t.drawn, f) + (OfFrame(t.d.queue, f) + Held(t.d, f)) == OfFrame(Sent(t.accepted), f)
  {
    if evs != [] {
      OrderedConservation(decoders, evs[..|evs| - 1], f);
      ReachableInv(decoders, evs[..|evs| - 1]);
      match evs[|evs| - 1]
      case Deliver(m) => DeliverInOrder(Run(decoders, evs[..|evs| - 1]), m, f);
      case Drain => DrainInOrder(Run(decoders, evs[..|evs| - 1]), f);
    }
  }

  // ----- Between frames, the completed one leaves first, the older ones in their order -----

  predicate FramesAscend(frags: seq<Fragment>) {
    forall i, j :: 0 <= i < j < |frags| ==> frags[i].frame <= frags[j].frame
  }

  lemma {:induction false} BelowAscends(m: map<nat, InFlightFrame>, decoders: nat, hi: nat)
    requires forall k :: k in m ==> OwnFragments(m[k].fragments, k, decoders)
    ensures FramesAscend(FragmentsBelow(m, hi))
    ensures forall x :: x in FragmentsBelow(m, hi) ==> x.frame < hi
  {
    if hi > 0 {
      BelowAscends(m, decoders, hi - 1);
      var below, all := FragmentsBelow(m, hi - 1), FragmentsBelow(m, hi);
      forall i, j | 0 <= i < j < |all| ensures all[i].frame <= all[j].frame {
        if i < |below| {
          assert all[i] in below;
        }
      }
    }
  }

  /** A completion queues the completed frame's fragments first and then those of older frames,
      the oldest frame first. */
  lemma ReleaseOrder(d: Display, frame: nat) returns (older: seq<Fragment>)
    requires Shape(d) && frame !in d.early && frame in d.inFlight && AllComplete(d.inFlight[frame].states)
    ensures Settle(d, frame).queue == d.queue + d.inFlight[frame].fragments + older
    ensures FramesAscend(older) && forall x :: x in older ==> x.frame < frame
    ensures forall f: nat | f < frame :: OfFrame(older, f) == Held(d, f)
  {
    var rest := d.inFlight - {frame};
    older := FragmentsBelow(rest, frame);
    BelowAscends(rest, d.decoders, frame);
    forall f: nat | f < frame ensures OfFrame(older, f) == Held(d, f) {
      OfFrameBelow(rest, d.decoders, frame, f);
    }
  }
}
