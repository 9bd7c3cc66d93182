/** The three frame collections of a framer are not disjoint: gap filling does not look at the
    frames that are early drawn or complete.  When exactly they overlap, and what an overlap
    can be. */
module FramingOverlaps {
  import opened Common
  import opened Geometry
  import opened Painting
  import opened DecoderFrames
  import opened Framing
  import opened FramingInvariants
  import opened FramingTheorems

  /** No frame is in two of the collections. */
  predicate Disjoint(d: Display) {
    d.inFlight.Keys !! d.early.Keys && d.inFlight.Keys !! d.complete && d.early.Keys !! d.complete
  }

  // ----- What an overlap can be -----

  /** A frame both early drawn and complete has states as good as new. */
  predicate EarlyCompleteIsFresh(d: Display) {
    forall f :: f in d.early && f in d.complete ==> d.early[f] == NewFrame(d.decoders).states
  }

  lemma PlaceKeepsFresh(d: Display, m: Message)
    requires Shape(d) && EarlyCompleteIsFresh(d)
    ensures EarlyCompleteIsFresh(Place(d, m).0)
  {
    PlaceIsMark(d, m);
  }

  lemma SettleKeepsFresh(d: Display, frame: nat)
    requires Shape(d) && OverlapIsFresh(d) && EarlyCompleteIsFresh(d)
    ensures EarlyCompleteIsFresh(Settle(d, frame))
  {
    var d' := Settle(d, frame);
    forall f | f in d'.early && f in d'.complete ensures d'.early[f] == NewFrame(d'.decoders).states {
      if f in d.inFlight && f in d.early {
        assert !NewFrame(d.decoders).states[0].Complete?;
      }
    }
  }

  lemma StepKeepsFresh(t: Trace, ev: Event)
    requires Inv(t) && EarlyCompleteIsFresh(t.d)
    ensures EarlyCompleteIsFresh(Step(t, ev).d)
  {
    if ev.Deliver? {
      PlaceKeeps(t, ev.msg);
      PlaceKeepsFresh(t.d, ev.msg);
      ReportIsPlaceThenSettle(t, ev.msg);
      SettleKeepsFresh(Place(t.d, ev.msg).0, ev.msg.Frame());
    }
  }

  /** Over every run a frame that is in two collections is as good as new in the earlier one:
      in flight, it holds no fragment and only fresh states; early drawn and complete, it has
      only fresh states. */
  lemma {:induction false} OverlapsAreFresh(decoders: nat, evs: seq<Event>)
    ensures OverlapIsFresh(Run(decoders, evs).d) && EarlyCompleteIsFresh(Run(decoders, evs).d)
  {
    ReachableInv(decoders, evs);
    if evs != [] {
      OverlapsAreFresh(decoders, evs[..|evs| - 1]);
      ReachableInv(decoders, evs[..|evs| - 1]);
      StepKeepsFresh(Run(decoders, evs[..|evs| - 1]), evs[|evs| - 1]);
    }
  }

  // ----- When they overlap -----

  /** Gap filling for the message skips frame f. */
  predicate Skips(d: Display, m: Message, f: nat) {
    d.inFlight != map[] && f < m.Frame() && AboveAll(d.inFlight, f)
  }

  /** The message is one for which gaps are filled. */
  predicate FillsGaps(d: Display, m: Message) {
    m.FragmentMsg? && m.encoded.decoded.Some? && m.Decoder() < d.decoders &&
    m.Frame() !in d.early && m.Frame() !in d.complete
  }

  /** Gap filling for the message meets a frame that is already early drawn or complete. */
  predicate GapMeets(d: Display, m: Message) {
    FillsGaps(d, m) && exists f: nat | f < m.Frame() :: Skips(d, m, f) && (f in d.early || f in d.complete)
  }

  /** Recording a message keeps the collections disjoint if and only if gap filling for it
      meets no frame that is early drawn or complete. */
  lemma PlaceDisjointIff(d: Display, m: Message)
    requires Shape(d) && Disjoint(d)
    ensures Disjoint(Place(d, m).0) <==> !GapMeets(d, m)
  {
    PlaceIsMark(d, m);
    PreparedEntries(d, m);
  }

  lemma SettleKeepsDisjoint(d: Display, frame: nat)
    requires Disjoint(d)
    ensures Disjoint(Settle(d, frame))
  {}

  /** The message makes a frame of its own, and completes it alone: one decoder, whose first
      fragment is its last. */
  predicate CompletesAtOnce(d: Display, m: Message) {
    m.FragmentMsg? && d.decoders == 1 && m.encoded.sequence == 0 && m.encoded.terminal
  }

  /** Gap filling meets a complete frame, or an early drawn one that is not written anew by the
      frame's completion. */
  predicate Breaks(d: Display, m: Message) {
    FillsGaps(d, m) &&
    exists f: nat | f < m.Frame() ::
      Skips(d, m, f) && (f in d.complete || (f in d.early && !CompletesAtOnce(d, m)))
  }

  lemma NewEntryMark(decoders: nat, m: Message)
    requires m.FragmentMsg? && m.encoded.decoded.Some? && m.Decoder() < decoders
    ensures
      var states := NewFrame(decoders).states;
      Mark(states[m.Decoder()], m).Some? &&
      (AllComplete(states[m.Decoder() := Mark(states[m.Decoder()], m).value]) <==>
        decoders == 1 && m.encoded.sequence == 0 && m.encoded.terminal)
  {
    var s, dec := m.encoded.sequence, m.Decoder();
    assert {} + {s} == {s};
    assert RangeStarts({s}) == {s};
    assert IsOneRangeFromZero({s}) <==> s == 0;
    var states := NewFrame(decoders).states;
    var marked := states[dec := Mark(states[dec], m).value];
    if decoders > 1 {
      assert !marked[if dec == 0 then 1 else 0].Complete?;
    } else {
      assert marked[0] == Mark(states[dec], m).value;
    }
  }

  /** What a display is after a message that skips frames: the message's frame is a new one,
      above everything in flight, and each skipped frame is there as new. */
  ghost predicate PlacedAbove(d: Display, placed: Display, m: Message) {
    m.Frame() in placed.inFlight && m.Frame() !in placed.early && m.Frame() !in placed.complete &&
    (forall k :: k in placed.inFlight ==> k <= m.Frame()) &&
    (forall f :: Skips(d, m, f) ==> f in placed.inFlight) &&
    (AllComplete(placed.inFlight[m.Frame()].states) <==> CompletesAtOnce(d, m)) &&
    placed.early == d.early && placed.complete == d.complete && placed.decoders == d.decoders
  }

  lemma SkippingIsPlaced(d: Display, m: Message)
    requires Shape(d) && FillsGaps(d, m) && m.Frame() !in d.inFlight
    ensures Place(d, m).1 && CanMarkInFlight(d.(inFlight := Prepared(d, m)), m)
    ensures Prepared(d, m)[m.Frame()] == NewFrame(d.decoders)
    ensures Place(d, m).0 == InFlightMarked(d.(inFlight := Prepared(d, m)), m)
  {
    NewEntryMark(d.decoders, m);
    PlaceIsMark(d, m);
    PreparedEntries(d, m);
  }

  lemma SkippingIsNew(d: Display, m: Message, f: nat)
    requires Shape(d) && FillsGaps(d, m) && Skips(d, m, f)
    ensures Place(d, m).1 && PlacedAbove(d, Place(d, m).0, m)
  {
    SkippingIsPlaced(d, m);
    NewEntryMark(d.decoders, m);
  }

  /** When the newest frame completes, all other frames in flight become early drawn or
      complete; the early drawn ones may have been so already. */
  lemma NewestFlushes(d: Display, frame: nat)
    requires frame in d.inFlight && frame !in d.early && frame !in d.complete
    requires (forall k :: k in d.inFlight ==> k <= frame) && AllComplete(d.inFlight[frame].states)
    ensures Settle(d, frame).inFlight == map[]
    ensures forall k: nat | k in d.inFlight && k != frame ::
      if AllComplete(d.inFlight[k].states) then k in Settle(d, frame).complete
      else k in Settle(d, frame).early && Settle(d, frame).early[k] == d.inFlight[k].states
    ensures d.complete <= Settle(d, frame).complete
    ensures
      (d.early.Keys !! d.complete && d.inFlight.Keys !! d.complete &&
       forall k :: k in d.inFlight && k in d.early ==> !AllComplete(d.inFlight[k].states)) ==>
      Disjoint(Settle(d, frame))
  {}

  lemma FreshIsNotComplete(d: Display, f: nat)
    requires Shape(d) && OverlapIsFresh(d) && f in d.inFlight && (f in d.early || f in d.complete)
    ensures !AllComplete(d.inFlight[f].states)
  {
    assert !NewFrame(d.decoders).states[0].Complete?;
  }

  lemma BreakingBreaks(t: Trace, m: Message)
    requires Inv(t) && Breaks(t.d, m)
    ensures !Disjoint(Step(t, Deliver(m)).d)
  {
    var f: nat :| f < m.Frame() && Skips(t.d, m, f) &&
      (f in t.d.complete || (f in t.d.early && !CompletesAtOnce(t.d, m)));
    var placed := Place(t.d, m).0;
    SkippingIsNew(t.d, m, f);
    ReportIsPlaceThenSettle(t, m);
    PlaceKeeps(t, m);
    if CompletesAtOnce(t.d, m) {
      FreshIsNotComplete(placed, f);
      NewestFlushes(placed, m.Frame());
    }
  }

  lemma RewritingRepairs(t: Trace, m: Message)
    requires Inv(t) && Disjoint(t.d) && GapMeets(t.d, m) && !Breaks(t.d, m)
    ensures Disjoint(Step(t, Deliver(m)).d)
  {
    var f: nat :| f < m.Frame() && Skips(t.d, m, f) && (f in t.d.early || f in t.d.complete);
    var placed := Place(t.d, m).0;
    SkippingIsNew(t.d, m, f);
    ReportIsPlaceThenSettle(t, m);
    PlaceKeeps(t, m);
    forall k | k in placed.inFlight && k in placed.early ensures !AllComplete(placed.inFlight[k].states) {
      FreshIsNotComplete(placed, k);
    }
    PlacedApart(t.d, m);
    NewestFlushes(placed, m.Frame());
  }

  /** What is in flight after recording is what was, the message's frame and skipped frames. */
  lemma PlacedApart(d: Display, m: Message)
    requires Shape(d) && Disjoint(d) && GapMeets(d, m) && !Breaks(d, m)
    ensures Place(d, m).0.inFlight.Keys !! d.complete
  {
    PlaceIsMark(d, m);
    PreparedEntries(d, m);
    forall k | k in Place(d, m).0.inFlight ensures k !in d.complete {
      if k !in d.inFlight && k != m.Frame() {
        assert Skips(d, m, k);
      }
    }
  }

  /** One whole event keeps the collections disjoint if and only if it does not break them. */
  lemma StepDisjointIff(t: Trace, ev: Event)
    requires Inv(t) && Disjoint(t.d)
    ensures Disjoint(Step(t, ev).d) <==> !(ev.Deliver? && Breaks(t.d, ev.msg))
  {
    if ev.Deliver? {
      PlaceDisjointIff(t.d, ev.msg);
      ReportIsPlaceThenSettle(t, ev.msg);
      if Breaks(t.d, ev.msg) {
        BreakingBreaks(t, ev.msg);
      } else if GapMeets(t.d, ev.msg) {
        RewritingRepairs(t, ev.msg);
      } else {
        SettleKeepsDisjoint(Place(t.d, ev.msg).0, ev.msg.Frame());
      }
    }
  }

  /** Some state of the run has a frame in two collections. */
  predicate EverOverlaps(decoders: nat, evs: seq<Event>) {
    !Disjoint(Run(decoders, evs).d) || (evs != [] && EverOverlaps(decoders, evs[..|evs| - 1]))
  }

  /** Some message of the run arrives when gap filling for it breaks disjointness. */
  predicate EverBreaks(decoders: nat, evs: seq<Event>) {
    evs != [] &&
    (EverBreaks(decoders, evs[..|evs| - 1]) ||
     (evs[|evs| - 1].Deliver? && Breaks(Run(decoders, evs[..|evs| - 1]).d, evs[|evs| - 1].msg)))
  }

  /** Over every run, the collections stay disjoint throughout if and only if no message ever
      arrives in a state where gap filling for it breaks them. */
  lemma {:induction false} OverlapIff(decoders: nat, evs: seq<Event>)
    ensures EverOverlaps(decoders, evs) <==> EverBreaks(decoders, evs)
  {
    if evs != [] {
      var n := |evs| - 1;
      OverlapIff(decoders, evs[..n]);
      ReachableInv(decoders, evs[..n]);
      if !EverOverlaps(decoders, evs[..n]) {
        StepDisjointIff(Run(decoders, evs[..n]), evs[n]);
      }
    }
  }

  // ----- A run whose collections overlap -----

  /** A fragment of the only decoder. */
  function Sole(frame: nat, sequence: nat, terminal: bool, p: Pixmap): Message {
    FragmentMsg(EncodedFragment(frame, 0, sequence, terminal, Point(0, 0), Some(p)))
  }

  /** One fragment of frame 5, all of frame 6, and one fragment of frame 3. */
  function Opening(p: Pixmap): seq<Event> {
    [Deliver(Sole(5, 0, false, p)), Deliver(Sole(6, 0, true, p)), Deliver(Sole(3, 0, false, p))]
  }

  lemma RunStep(decoders: nat, evs: seq<Event>, ev: Event)
    ensures Run(decoders, evs + [ev]) == Step(Run(decoders, evs), ev)
  {
    assert (evs + [ev])[..|evs|] == evs;
  }

  /** A fragment that is not terminal and skips nothing waits in a frame of its own. */
  lemma Waits(d: Display, frame: nat, p: Pixmap)
    requires d.decoders == 1 && d.inFlight == map[] && frame !in d.early && frame !in d.complete
    ensures
      var m := Sole(frame, 0, false, p);
      Report(d, m) == (d.(inFlight := map[frame := InFlightFrame([InFlight({0})], Brought(m))]), Ok)
  {
    var frag := Decode(Sole(frame, 0, false, p).encoded).value;
    var states := NewFrame(1).states;
    assert {} + {0} == {0};
    assert states[0 := InFlight({0})] == [InFlight({0})];
    assert NewFrame(1).fragments + [frag] == [frag];
    assert WithEntry(FillGaps(map[], 1, frame), 1, frame) == map[frame := NewFrame(1)];
    var entry := InFlightFrame([InFlight({0})], [frag]);
    assert map[frame := NewFrame(1)][frame := entry] == map[frame := entry];
  }

  /** The run so far: frame 5 is early drawn with its fragment, frame 6 is complete, and only
      frame 3 is in flight. */
  lemma OpeningRun(p: Pixmap)
    ensures
      var d := Run(1, Opening(p)).d;
      d.decoders == 1 && d.inFlight.Keys == {3} && d.early == map[5 := [InFlight({0})]] && d.complete == {6}
  {
    var m5, m6, m3 := Sole(5, 0, false, p), Sole(6, 0, true, p), Sole(3, 0, false, p);
    assert Opening(p) == ([Deliver(m5)] + [Deliver(m6)]) + [Deliver(m3)];
    assert [Deliver(m5)] == [] + [Deliver(m5)];
    RunStep(1, [], Deliver(m5));
    RunStep(1, [Deliver(m5)], Deliver(m6));
    RunStep(1, [Deliver(m5)] + [Deliver(m6)], Deliver(m3));
    Waits(NewDisplay(1), 5, p);
    var one := Run(1, [Deliver(m5)]);
    OvertakesFive(one.d, p);
    Waits(Run(1, [Deliver(m5)] + [Deliver(m6)]).d, 3, p);
  }

  lemma OvertakesFive(d: Display, p: Pixmap)
    requires d.decoders == 1 && d.inFlight.Keys == {5} && d.inFlight[5].states == [InFlight({0})]
    requires d.early == map[] && d.complete == {}
    ensures
      var d' := Report(d, Sole(6, 0, true, p)).0;
      d'.decoders == 1 && d'.inFlight == map[] && d'.early == map[5 := [InFlight({0})]] && d'.complete == {6}
  {
    var m := Sole(6, 0, true, p);
    var frag := Decode(m.encoded).value;
    assert forall f: nat | f < 6 :: !AboveAll(d.inFlight, f);
    assert FillGaps(d.inFlight, 1, 6) == d.inFlight;
    NewEntryMark(1, m);
    var placed := PlaceFragment(d, frag).0;
    assert placed.inFlight.Keys == {5, 6} && placed.inFlight[5] == d.inFlight[5];
    assert !placed.inFlight[5].states[0].Complete?;
    assert AllComplete(placed.inFlight[6].states);
    var settled := Settle(placed, 6);
    assert settled.early.Keys == {5};
  }

  /** Frame 8 arrives, incomplete: frames 5 and 6 are put in flight again although one is early
      drawn and the other complete. */
  lemma InFlightOverlaps(p: Pixmap)
    ensures
      var d := Run(1, Opening(p) + [Deliver(Sole(8, 0, false, p))]).d;
      5 in d.inFlight && 5 in d.early && 6 in d.inFlight && 6 in d.complete
  {
    var m := Sole(8, 0, false, p);
    var t := Run(1, Opening(p));
    OpeningRun(p);
    ReachableInv(1, Opening(p));
    RunStep(1, Opening(p), Deliver(m));
    SkippingIsNew(t.d, m, 5);
    assert Skips(t.d, m, 5) && Skips(t.d, m, 6);
    ReportIsPlaceThenSettle(t, m);
  }

  /** Frame 8 arrives, complete: frame 6 ends up both complete and early drawn, and frame 5,
      early drawn before with its fragment recorded, is early drawn as if nothing had come. */
  lemma EarlyOverlapsComplete(p: Pixmap)
    ensures
      var before, after := Run(1, Opening(p)).d, Run(1, Opening(p) + [Deliver(Sole(8, 0, true, p))]).d;
      6 in after.early && 6 in after.complete && 5 in before.early && 5 in after.early &&
      before.early[5] == [InFlight({0})] && after.early[5] == [InFlight({})] && 5 !in after.complete
  {
    var m := Sole(8, 0, true, p);
    var t := Run(1, Opening(p));
    OpeningRun(p);
    ReachableInv(1, Opening(p));
    RunStep(1, Opening(p), Deliver(m));
    SkippingIsNew(t.d, m, 5);
    assert Skips(t.d, m, 5) && Skips(t.d, m, 6);
    ReportIsPlaceThenSettle(t, m);
    PlaceKeeps(t, m);
    var placed := Place(t.d, m).0;
    SkippedIsEarly(placed, m.Frame(), 5);
    SkippedIsEarly(placed, m.Frame(), 6);
  }

  /** A frame in two collections is early drawn as good as new once the newest completes. */
  lemma SkippedIsEarly(d: Display, frame: nat, f: nat)
    requires Shape(d) && OverlapIsFresh(d) && d.decoders == 1
    requires f in d.inFlight && (f in d.early || f in d.complete)
    requires frame in d.inFlight && frame !in d.early && frame !in d.complete
    requires (forall k :: k in d.inFlight ==> k <= frame) && AllComplete(d.inFlight[frame].states)
    ensures f in Settle(d, frame).early && Settle(d, frame).early[f] == [InFlight({})]
    ensures d.complete <= Settle(d, frame).complete && (f !in d.complete ==> f !in Settle(d, frame).complete)
  {
    FreshIsNotComplete(d, f);
    NewestFlushes(d, frame);
    assert NewFrame(1).states == [InFlight({})];
  }
}
