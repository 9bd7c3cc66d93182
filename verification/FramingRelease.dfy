/** When the framer lets go of a fully delivered frame.  Completion is re-checked only on a
    terminal message, so this depends on which message of the frame arrives last. */
module FramingRelease {
  import opened Common
  import opened Painting
  import opened DecoderFrames
  import opened Framing
  import opened FramingInvariants
  import opened FramingTheorems

  // ----- The recorded states of an unreleased frame are exact -----

  predicate Released(d: Display, f: nat) { f in d.early || f in d.complete }

  function StateOf(d: Display, f: nat, dec: nat): DecoderState {
    if f in d.inFlight && dec < |d.inFlight[f].states| then d.inFlight[f].states[dec] else InFlight({})
  }

  function ExpectedOf(p: DecoderPlan, acc: seq<Message>, f: nat, dec: nat): DecoderState {
    match p
    case Nothing => if Emptied(acc, f, dec) then Complete else InFlight({})
    case Sequences(last) => Expected(Seqs(acc, f, dec), last)
  }

  predicate ExactFrame(plan: Plan, d: Display, acc: seq<Message>, f: nat) {
    f in plan && |plan[f]| == d.decoders && !Released(d, f) ==>
      forall dec :: 0 <= dec < d.decoders ==> StateOf(d, f, dec) == ExpectedOf(plan[f][dec], acc, f, dec)
  }

  lemma MarkIsExact(plan: Plan, d: Display, acc: seq<Message>, m: Message)
    requires WellFormed(plan, d.decoders, acc) && Fits(plan, d.decoders, m) && IsNew(acc, m)
    requires ExactFrame(plan, d, acc, m.Frame()) && CanMarkInFlight(d, m) && Shape(d)
    ensures ExactFrame(plan, InFlightMarked(d, m), acc + [m], m.Frame())
  {
    var f := m.Frame();
    forall dec | 0 <= dec < d.decoders
      ensures StateOf(InFlightMarked(d, m), f, dec) == ExpectedOf(plan[f][dec], acc + [m], f, dec)
    {
      Extend(acc, m, f, dec);
      WellFormedDecoder(plan, d.decoders, acc, f, dec);
      if dec == m.Decoder() && m.FragmentMsg? {
        MarkSequenceExact(Seqs(acc, f, dec), plan[f][dec].last, m.encoded.sequence);
      }
    }
  }

  lemma OtherFrameExact(plan: Plan, d: Display, d': Display, acc: seq<Message>, m: Message, f: nat)
    requires ExactFrame(plan, d, acc, f) && d'.decoders == d.decoders && f != m.Frame()
    requires Released(d, f) ==> Released(d', f)
    requires !Released(d', f) ==> forall dec :: 0 <= dec < d.decoders ==> StateOf(d', f, dec) == StateOf(d, f, dec)
    ensures ExactFrame(plan, d', acc + [m], f)
  {
    if f in plan && |plan[f]| == d.decoders && !Released(d', f) {
      forall dec | 0 <= dec < d.decoders
        ensures StateOf(d', f, dec) == ExpectedOf(plan[f][dec], acc + [m], f, dec)
      {
        Extend(acc, m, f, dec);
      }
    }
  }

  /** Preparing, marking and settling never touch the states of a frame they do not release. */
  lemma PlaceStates(d: Display, m: Message, f: nat)
    requires Shape(d)
    ensures Released(d, f) <==> Released(Place(d, m).0, f)
    ensures f != m.Frame() ==> forall dec :: StateOf(Place(d, m).0, f, dec) == StateOf(d, f, dec)
    ensures f != m.Frame() && f in d.inFlight ==>
      f in Place(d, m).0.inFlight && Place(d, m).0.inFlight[f] == d.inFlight[f]
  {
    PlaceIsMark(d, m);
    PreparedEntries(d, m);
  }

  lemma SettleStates(d: Display, frame: nat, f: nat)
    requires Shape(d)
    ensures Released(d, f) ==> Released(Settle(d, frame), f)
    ensures !Released(Settle(d, frame), f) ==> forall dec :: StateOf(Settle(d, frame), f, dec) == StateOf(d, f, dec)
    ensures Settle(d, frame).decoders == d.decoders
    ensures f in d.inFlight && f > frame ==>
      f in Settle(d, frame).inFlight && Settle(d, frame).inFlight[f] == d.inFlight[f]
  {}

  lemma PlaceExact(plan: Plan, t: Trace, m: Message, f: nat)
    requires Inv(t) && WellFormed(plan, t.d.decoders, t.accepted)
    requires Fits(plan, t.d.decoders, m) && IsNew(t.accepted, m)
    requires ExactFrame(plan, t.d, t.accepted, f)
    ensures ExactFrame(plan, Place(t.d, m).0, t.accepted + [m], f)
  {
    NewMessageIsPlaced(plan, t, m);
    PlaceStates(t.d, m, f);
    PlaceKeeps(t, m);
    if f != m.Frame() {
      OtherFrameExact(plan, t.d, Place(t.d, m).0, t.accepted, m, f);
    } else if f !in t.d.early {
      PlaceIsMark(t.d, m);
      PreparedEntries(t.d, m);
      PreparedKeeps(t, m);
      MarkIsExact(plan, t.d.(inFlight := Prepared(t.d, m)), t.accepted, m);
    }
  }

  /** Over every well-formed run, the states of an unreleased frame are the function of the
      arrived sequences that a well-formed sender would see. */
  lemma {:induction false} RunIsExact(plan: Plan, decoders: nat, evs: seq<Event>, f: nat)
    requires WellFormed(plan, decoders, Messages(evs))
    ensures ExactFrame(plan, Run(decoders, evs).d, Run(decoders, evs).accepted, f)
  {
    if evs == [] {
      if f in plan && |plan[f]| == decoders {
        forall dec | 0 <= dec < decoders
          ensures StateOf(NewDisplay(decoders), f, dec) == ExpectedOf(plan[f][dec], [], f, dec)
        {}
      }
    } else {
      var n := |evs| - 1;
      WellFormedPrefix(plan, decoders, evs);
      RunIsExact(plan, decoders, evs[..n], f);
      ReachableInv(decoders, evs[..n]);
      WellFormedAccepted(plan, decoders, evs[..n]);
      StepExact(plan, Run(decoders, evs[..n]), evs[n], f);
    }
  }

  lemma WellFormedPrefix(plan: Plan, decoders: nat, evs: seq<Event>)
    requires WellFormed(plan, decoders, Messages(evs)) && evs != []
    ensures WellFormed(plan, decoders, Messages(evs[..|evs| - 1]))
    ensures evs[|evs| - 1].Deliver? ==>
      Fits(plan, decoders, evs[|evs| - 1].msg) && IsNew(Messages(evs[..|evs| - 1]), evs[|evs| - 1].msg)
  {
    var n := |evs| - 1;
    if evs[n].Deliver? {
      assert Messages(evs)[..|Messages(evs)| - 1] == Messages(evs[..n]);
    }
  }

  lemma StepExact(plan: Plan, t: Trace, ev: Event, f: nat)
    requires Inv(t) && WellFormed(plan, t.d.decoders, t.accepted) && ExactFrame(plan, t.d, t.accepted, f)
    requires ev.Deliver? ==> Fits(plan, t.d.decoders, ev.msg) && IsNew(t.accepted, ev.msg)
    ensures ExactFrame(plan, Step(t, ev).d, Step(t, ev).accepted, f)
  {
    match ev
    case Deliver(m) =>
      NewMessageIsPlaced(plan, t, m);
      PlaceExact(plan, t, m, f);
      PlaceKeeps(t, m);
      ReportIsPlaceThenSettle(t, m);
      SettleStates(Place(t.d, m).0, m.Frame(), f);
    case Drain =>
      assert forall dec :: StateOf(Step(t, ev).d, f, dec) == StateOf(t.d, f, dec);
  }

  // ----- Which fully delivered frames are let go -----

  /** Everything planned for frame f is among `ms`. */
  predicate FullyDelivered(plan: Plan, ms: seq<Message>, f: nat) {
    f in plan && forall dec :: 0 <= dec < |plan[f]| ==>
      match plan[f][dec]
      case Nothing => Emptied(ms, f, dec)
      case Sequences(last) => Seqs(ms, f, dec) == UpTo(last)
  }

  lemma NothingDelivered(plan: Plan, f: nat)
    requires f in plan && plan[f] != []
    ensures !FullyDelivered(plan, [], f)
  {
    var p := plan[f][0];
    assert p.Sequences? ==> 0 in UpTo(p.last);
  }

  /** The last message of frame f, if any, was a terminal. */
  predicate EndsWithTerminal(ms: seq<Message>, f: nat) {
    ms == [] ||
    (var m := ms[|ms| - 1];
     if m.Frame() == f then m.IsTerminal() else EndsWithTerminal(ms[..|ms| - 1], f))
  }

  /** Some fragment of frame f is held back in `inFlight`. */
  predicate Holds(d: Display, f: nat) { f in d.inFlight && d.inFlight[f].fragments != [] }

  lemma ReleasedStays(t: Trace, ev: Event, f: nat)
    requires Inv(t) && Released(t.d, f)
    ensures Released(Step(t, ev).d, f)
  {
    if ev.Deliver? {
      PlaceStates(t.d, ev.msg, f);
      PlaceKeeps(t, ev.msg);
      ReportIsPlaceThenSettle(t, ev.msg);
      SettleStates(Place(t.d, ev.msg).0, ev.msg.Frame(), f);
    }
  }

  lemma DeliveredIsComplete(plan: Plan, d: Display, acc: seq<Message>, f: nat)
    requires Shape(d) && !Released(d, f) && f in d.inFlight
    requires FullyDelivered(plan, acc, f) && |plan[f]| == d.decoders && ExactFrame(plan, d, acc, f)
    ensures AllComplete(d.inFlight[f].states)
  {
    var states := d.inFlight[f].states;
    forall dec | 0 <= dec < |states| ensures states[dec].Complete? {
      assert StateOf(d, f, dec) == ExpectedOf(plan[f][dec], acc, f, dec);
    }
  }

  lemma TerminalSettles(plan: Plan, t: Trace, m: Message)
    requires Inv(t) && WellFormed(plan, t.d.decoders, t.accepted)
    requires Fits(plan, t.d.decoders, m) && IsNew(t.accepted, m) && m.IsTerminal()
    requires ExactFrame(plan, t.d, t.accepted, m.Frame())
    requires FullyDelivered(plan, t.accepted + [m], m.Frame())
    ensures Released(Report(t.d, m).0, m.Frame())
  {
    var f := m.Frame();
    var placed := Place(t.d, m).0;
    NewMessageIsPlaced(plan, t, m);
    ReportIsPlaceThenSettle(t, m);
    PlaceKeeps(t, m);
    if Released(placed, f) {
      SettleStates(placed, f, f);
    } else {
      PlaceExact(plan, t, m, f);
      DeliveredIsComplete(plan, placed, t.accepted + [m], f);
    }
  }

  lemma {:induction false} TerminalLastReleases(plan: Plan, decoders: nat, evs: seq<Event>, f: nat)
    requires WellFormed(plan, decoders, Messages(evs)) && 0 < decoders
    requires FullyDelivered(plan, Messages(evs), f) && |plan[f]| == decoders
    requires EndsWithTerminal(Messages(evs), f)
    ensures Released(Run(decoders, evs).d, f)
  {
    if evs == [] {
      NothingDelivered(plan, f);
      assert false;
    }
    var n := |evs| - 1;
    var t := Run(decoders, evs[..n]);
    WellFormedPrefix(plan, decoders, evs);
    WellFormedAccepted(plan, decoders, evs[..n]);
    ReachableInv(decoders, evs[..n]);
    if evs[n].Deliver? && evs[n].msg.Frame() == f {
      RunIsExact(plan, decoders, evs[..n], f);
      TerminalSettles(plan, t, evs[n].msg);
    } else {
      UnrelatedEvent(plan, evs, f);
      TerminalLastReleases(plan, decoders, evs[..n], f);
      ReleasedStays(t, evs[n], f);
    }
  }

  lemma UnrelatedEvent(plan: Plan, evs: seq<Event>, f: nat)
    requires evs != [] && (evs[|evs| - 1].Deliver? ==> evs[|evs| - 1].msg.Frame() != f)
    ensures FullyDelivered(plan, Messages(evs), f) <==> FullyDelivered(plan, Messages(evs[..|evs| - 1]), f)
    ensures EndsWithTerminal(Messages(evs), f) <==> EndsWithTerminal(Messages(evs[..|evs| - 1]), f)
  {
    var n := |evs| - 1;
    if evs[n].Deliver? {
      var before := Messages(evs[..n]);
      assert Messages(evs)[..|Messages(evs)| - 1] == before;
      if f in plan {
        forall dec | 0 <= dec < |plan[f]|
          ensures Emptied(before + [evs[n].msg], f, dec) == Emptied(before, f, dec)
          ensures Seqs(before + [evs[n].msg], f, dec) == Seqs(before, f, dec)
        {
          Extend(before, evs[n].msg, f, dec);
        }
      }
    }
  }

  /** A fully delivered frame whose last arrival is a terminal is not held back. */
  lemma TerminalLastIsNotHeld(plan: Plan, decoders: nat, evs: seq<Event>, f: nat)
    requires WellFormed(plan, decoders, Messages(evs))
    requires FullyDelivered(plan, Messages(evs), f) && |plan[f]| == decoders
    requires EndsWithTerminal(Messages(evs), f)
    ensures !Holds(Run(decoders, evs).d, f)
  {
    ReachableInv(decoders, evs);
    if decoders != 0 {
      TerminalLastReleases(plan, decoders, evs, f);
    }
  }

  // ----- Exactly when a fully delivered frame is held back -----

  /** The event completes a newer frame out of `inFlight` while frame f is, or is just being
      put, in flight. */
  predicate CompletesOver(t: Trace, ev: Event, f: nat) {
    ev.Deliver? && f < ev.msg.Frame() && f in Place(t.d, ev.msg).0.inFlight &&
    ev.msg.Frame() !in t.d.early && ev.msg.Frame() !in t.d.complete &&
    ev.msg.Frame() in Report(t.d, ev.msg).0.complete
  }

  predicate CompletedOver(decoders: nat, evs: seq<Event>, f: nat) {
    evs != [] &&
    (CompletedOver(decoders, evs[..|evs| - 1], f) || CompletesOver(Run(decoders, evs[..|evs| - 1]), evs[|evs| - 1], f))
  }

  lemma CompletionReleases(t: Trace, ev: Event, f: nat)
    requires Inv(t) && CompletesOver(t, ev, f)
    ensures Released(Step(t, ev).d, f)
  {
    ReportIsPlaceThenSettle(t, ev.msg);
    PlaceIsMark(t.d, ev.msg);
    CompletionReleasesOlder(Place(t.d, ev.msg).0, ev.msg.Frame(), f);
  }

  lemma {:induction false} OverIsReleased(decoders: nat, evs: seq<Event>, f: nat)
    requires CompletedOver(decoders, evs, f)
    ensures Released(Run(decoders, evs).d, f)
  {
    var n := |evs| - 1;
    var t := Run(decoders, evs[..n]);
    ReachableInv(decoders, evs[..n]);
    if CompletedOver(decoders, evs[..n], f) {
      OverIsReleased(decoders, evs[..n], f);
      ReleasedStays(t, evs[n], f);
    } else {
      CompletionReleases(t, evs[n], f);
    }
  }

  /** Settling another frame leaves a frame in flight alone, unless the other frame is newer
      and completes out of `inFlight`. */
  lemma SettleLeaves(d: Display, frame: nat, f: nat)
    requires f != frame && frame !in d.complete
    requires !(f < frame && frame !in d.early && frame in Settle(d, frame).complete)
    ensures f in Settle(d, frame).early ==> f in d.early
    ensures f in d.inFlight ==> f in Settle(d, frame).inFlight && Settle(d, frame).inFlight[f] == d.inFlight[f]
  {}

  /** One event that does not overtake frame f and does not belong to it. */
  lemma NotOverLeaves(t: Trace, ev: Event, f: nat)
    requires Inv(t) && !CompletesOver(t, ev, f) && (ev.Deliver? ==> ev.msg.Frame() != f)
    ensures f in Step(t, ev).d.early ==> f in t.d.early
    ensures Holds(t.d, f) ==> Holds(Step(t, ev).d, f)
  {
    if ev.Deliver? {
      var placed := Place(t.d, ev.msg).0;
      ReportIsPlaceThenSettle(t, ev.msg);
      PlaceIsMark(t.d, ev.msg);
      PlaceStates(t.d, ev.msg, f);
      if Place(t.d, ev.msg).1 && ev.msg.IsTerminal() && f in placed.inFlight {
        SettleLeaves(placed, ev.msg.Frame(), f);
      }
    }
  }

  /** A message of frame f itself does not make it early drawn. */
  lemma OwnMessageIsNotEarly(t: Trace, m: Message)
    requires Inv(t) && m.Frame() !in t.d.early
    ensures m.Frame() !in Report(t.d, m).0.early
  {
    ReportIsPlaceThenSettle(t, m);
    PlaceIsMark(t.d, m);
  }

  lemma {:induction false} EarlyWasOver(decoders: nat, evs: seq<Event>, f: nat)
    requires f in Run(decoders, evs).d.early
    ensures CompletedOver(decoders, evs, f)
  {
    var n := |evs| - 1;
    var t := Run(decoders, evs[..n]);
    ReachableInv(decoders, evs[..n]);
    if f in t.d.early {
      EarlyWasOver(decoders, evs[..n], f);
    } else if !CompletesOver(t, evs[n], f) {
      if evs[n].Deliver? && evs[n].msg.Frame() == f {
        OwnMessageIsNotEarly(t, evs[n].msg);
      } else {
        NotOverLeaves(t, evs[n], f);
      }
      assert false;
    }
  }

  lemma {:induction false} NotOverIsHeld(plan: Plan, decoders: nat, evs: seq<Event>, f: nat)
    requires WellFormed(plan, decoders, Messages(evs))
    requires FullyDelivered(plan, Messages(evs), f) && |plan[f]| == decoders
    requires !EndsWithTerminal(Messages(evs), f) && !CompletedOver(decoders, evs, f)
    ensures Holds(Run(decoders, evs).d, f)
  {
    var n := |evs| - 1;
    var t := Run(decoders, evs[..n]);
    WellFormedPrefix(plan, decoders, evs);
    WellFormedAccepted(plan, decoders, evs[..n]);
    ReachableInv(decoders, evs[..n]);
    if evs[n].Deliver? && evs[n].msg.Frame() == f {
      if f in t.d.early {
        EarlyWasOver(decoders, evs[..n], f);
        assert false;
      }
      NewMessageIsPlaced(plan, t, evs[n].msg);
      ReportIsPlaceThenSettle(t, evs[n].msg);
      PlaceIsMark(t.d, evs[n].msg);
    } else {
      UnrelatedEvent(plan, evs, f);
      NotOverIsHeld(plan, decoders, evs[..n], f);
      NotOverLeaves(t, evs[n], f);
    }
  }

  // ----- The same, told before the event -----

  /** Frame f is in flight, or the message's gap filling is about to put it there. */
  predicate InFlightOrSkipped(d: Display, m: Message, f: nat) {
    f in d.inFlight || (m.FragmentMsg? && d.inFlight != map[] && f < m.Frame() && AboveAll(d.inFlight, f))
  }

  /** The event brings the last message, a terminal, of a newer frame that is not early drawn,
      while frame f is, or is about to be put, in flight. */
  predicate Overtakes(plan: Plan, t: Trace, ev: Event, f: nat) {
    ev.Deliver? && f < ev.msg.Frame() && InFlightOrSkipped(t.d, ev.msg, f) &&
    ev.msg.Frame() !in t.d.early && ev.msg.IsTerminal() &&
    FullyDelivered(plan, t.accepted + [ev.msg], ev.msg.Frame())
  }

  /** Some event of the run overtakes frame f. */
  predicate Overtaken(plan: Plan, decoders: nat, evs: seq<Event>, f: nat) {
    evs != [] &&
    (Overtaken(plan, decoders, evs[..|evs| - 1], f) ||
     Overtakes(plan, Run(decoders, evs[..|evs| - 1]), evs[|evs| - 1], f))
  }

  lemma CompleteIsDelivered(plan: Plan, d: Display, acc: seq<Message>, f: nat)
    requires Shape(d) && !Released(d, f) && f in d.inFlight && AllComplete(d.inFlight[f].states)
    requires f in plan && |plan[f]| == d.decoders && ExactFrame(plan, d, acc, f)
    ensures FullyDelivered(plan, acc, f)
  {
    forall dec | 0 <= dec < |plan[f]|
      ensures match plan[f][dec]
        case Nothing => Emptied(acc, f, dec)
        case Sequences(last) => Seqs(acc, f, dec) == UpTo(last)
    {
      assert d.inFlight[f].states[dec].Complete?;
      assert StateOf(d, f, dec) == ExpectedOf(plan[f][dec], acc, f, dec);
    }
  }

  /** A message completes its frame out of `inFlight` if and only if it is a terminal and the
      frame's last message. */
  lemma CompletesIff(plan: Plan, t: Trace, m: Message)
    requires Inv(t) && WellFormed(plan, t.d.decoders, t.accepted)
    requires Fits(plan, t.d.decoders, m) && IsNew(t.accepted, m)
    requires ExactFrame(plan, t.d, t.accepted, m.Frame()) && m.Frame() !in t.d.early
    ensures m.Frame() !in t.d.complete
    ensures m.Frame() in Report(t.d, m).0.complete
      <==> m.IsTerminal() && FullyDelivered(plan, t.accepted + [m], m.Frame())
  {
    var f := m.Frame();
    var placed := Place(t.d, m).0;
    NewMessageIsPlaced(plan, t, m);
    ReportIsPlaceThenSettle(t, m);
    PlaceKeeps(t, m);
    PlaceIsMark(t.d, m);
    PlaceExact(plan, t, m, f);
    if AllComplete(placed.inFlight[f].states) {
      CompleteIsDelivered(plan, placed, t.accepted + [m], f);
    } else if FullyDelivered(plan, t.accepted + [m], f) {
      DeliveredIsComplete(plan, placed, t.accepted + [m], f);
      assert false;
    }
  }

  lemma PlacedOrSkipped(d: Display, m: Message, f: nat)
    requires Shape(d) && Place(d, m).1 && f < m.Frame() && m.Frame() !in d.early
    ensures f in Place(d, m).0.inFlight <==> InFlightOrSkipped(d, m, f)
  {
    PlaceIsMark(d, m);
    PreparedEntries(d, m);
  }

  lemma OvertakesIsOver(plan: Plan, t: Trace, ev: Event, f: nat)
    requires Inv(t) && WellFormed(plan, t.d.decoders, t.accepted)
    requires ev.Deliver? ==> Fits(plan, t.d.decoders, ev.msg) && IsNew(t.accepted, ev.msg)
    requires ev.Deliver? ==> ExactFrame(plan, t.d, t.accepted, ev.msg.Frame())
    ensures Overtakes(plan, t, ev, f) <==> CompletesOver(t, ev, f)
  {
    if ev.Deliver? && f < ev.msg.Frame() && ev.msg.Frame() !in t.d.early {
      NewMessageIsPlaced(plan, t, ev.msg);
      CompletesIff(plan, t, ev.msg);
      PlacedOrSkipped(t.d, ev.msg, f);
    }
  }

  lemma {:induction false} OvertakenIsOver(plan: Plan, decoders: nat, evs: seq<Event>, f: nat)
    requires WellFormed(plan, decoders, Messages(evs))
    ensures Overtaken(plan, decoders, evs, f) <==> CompletedOver(decoders, evs, f)
  {
    if evs != [] {
      var n := |evs| - 1;
      WellFormedPrefix(plan, decoders, evs);
      OvertakenIsOver(plan, decoders, evs[..n], f);
      WellFormedAccepted(plan, decoders, evs[..n]);
      ReachableInv(decoders, evs[..n]);
      if evs[n].Deliver? {
        RunIsExact(plan, decoders, evs[..n], evs[n].msg.Frame());
      }
      OvertakesIsOver(plan, Run(decoders, evs[..n]), evs[n], f);
    }
  }

  /** Any fully delivered frame is held back if and only if the last of its messages to arrive
      was not a terminal and no event has overtaken the frame. */
  lemma HeldIff(plan: Plan, decoders: nat, evs: seq<Event>, f: nat)
    requires WellFormed(plan, decoders, Messages(evs))
    requires FullyDelivered(plan, Messages(evs), f) && |plan[f]| == decoders
    ensures Holds(Run(decoders, evs).d, f)
      <==> !EndsWithTerminal(Messages(evs), f) && !Overtaken(plan, decoders, evs, f)
  {
    OvertakenIsOver(plan, decoders, evs, f);
    if EndsWithTerminal(Messages(evs), f) {
      TerminalLastIsNotHeld(plan, decoders, evs, f);
    } else if CompletedOver(decoders, evs, f) {
      OverIsReleased(decoders, evs, f);
      ReachableInv(decoders, evs);
    } else {
      NotOverIsHeld(plan, decoders, evs, f);
    }
  }

  lemma {:induction false} OvertakenByMessage(plan: Plan, decoders: nat, evs: seq<Event>, f: nat)
    requires Overtaken(plan, decoders, evs, f)
    ensures exists m :: m in Messages(evs) && m.Frame() > f
  {
    var n := |evs| - 1;
    if Overtaken(plan, decoders, evs[..n], f) {
      OvertakenByMessage(plan, decoders, evs[..n], f);
      var m :| m in Messages(evs[..n]) && m.Frame() > f;
      assert m in Messages(evs);
    } else {
      assert evs[n].msg in Messages(evs);
    }
  }

  /** The newest frame, fully delivered, is held back if and only if the last of its messages
      to arrive was not a terminal. */
  lemma NewestFrameHeldIff(plan: Plan, decoders: nat, evs: seq<Event>, f: nat)
    requires WellFormed(plan, decoders, Messages(evs))
    requires FullyDelivered(plan, Messages(evs), f) && |plan[f]| == decoders
    requires forall m :: m in Messages(evs) ==> m.Frame() <= f
    ensures Holds(Run(decoders, evs).d, f) <==> !EndsWithTerminal(Messages(evs), f)
  {
    HeldIff(plan, decoders, evs, f);
    if Overtaken(plan, decoders, evs, f) {
      OvertakenByMessage(plan, decoders, evs, f);
      assert false;
    }
  }

  /** For instance: one decoder sends a frame of two fragments, the terminal one arrives first,
      and the frame stays held back although all of it has arrived. */
  lemma LateFragmentIsHeld(first: EncodedFragment, second: EncodedFragment)
    requires first.frame == second.frame && first.decoder == second.decoder == 0
    requires first.sequence == 0 && !first.terminal && second.sequence == 1 && second.terminal
    requires first.decoded.Some? && second.decoded.Some?
    ensures
      var t := Run(1, [Deliver(FragmentMsg(second)), Deliver(FragmentMsg(first))]);
      |t.accepted| == 2 && t.d.queue == t.drawn == [] && Holds(t.d, first.frame)
  {
    var one, evs := [Deliver(FragmentMsg(second))], [Deliver(FragmentMsg(second)), Deliver(FragmentMsg(first))];
    assert one[..0] == [] && evs[..1] == one;
    assert Run(1, one) == Step(Run(1, one[..0]), one[0]);
    TerminalFirst(second);
    assert {0} - {0} == {};
  }

  lemma TerminalFirst(e: EncodedFragment)
    requires e.decoder == 0 && e.sequence == 1 && e.terminal && e.decoded.Some?
    ensures Step(Start(1), Deliver(FragmentMsg(e)))
         == Trace(Display(1, map[e.frame := InFlightFrame([TerminatedIncomplete({0})], [Decode(e).value])],
                          map[], {}, []),
                  [FragmentMsg(e)], [])
  {
    assert UpTo(1) == {0, 1};
    assert MarkSequence(InFlight({}), 1, true) == Some(TerminatedIncomplete({0})) by {
      assert {} + {1} == {1};
      assert {0, 1} - {1} == {0};
    }
    var states := NewFrame(1).states;
    assert states == [InFlight({})];
    var frag := Decode(e).value;
    var entry := InFlightFrame([TerminatedIncomplete({0})], [frag]);
    assert states[0 := TerminatedIncomplete({0})] == entry.states && NewFrame(1).fragments + [frag] == entry.fragments;
    assert FillGaps(map[], 1, e.frame) == map[];
    assert WithEntry(map[], 1, e.frame) == map[e.frame := NewFrame(1)];
    var (placed, ok) := PlaceFragment(NewDisplay(1), frag);
    assert ok && placed.inFlight == map[e.frame := entry];
    assert !entry.states[0].Complete?;
    assert Settle(placed, e.frame) == placed;
  }
}
