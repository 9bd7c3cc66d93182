/** When a frame becomes complete.  Completing a newer frame can write the entry of an early
    drawn frame anew, and what had arrived for it by then no longer counts. */
module FramingCompletion {
  import opened Common
  import opened Geometry
  import opened Painting
  import opened DecoderFrames
  import opened Framing
  import opened FramingInvariants
  import opened FramingTheorems
  import opened FramingRelease
  import opened FramingOverlaps

  // ----- What still counts for a frame -----

  /** The event writes anew the entry of a frame that was released before. */
  predicate Resets(plan: Plan, t: Trace, ev: Event, f: nat) {
    Released(t.d, f) && Overtakes(plan, t, ev, f)
  }

  /** The messages since the entry of frame f was last written anew; all, if it never was. */
  function Since(plan: Plan, decoders: nat, evs: seq<Event>, f: nat): seq<Message> {
    if evs == [] then []
    else
      var before, ev := evs[..|evs| - 1], evs[|evs| - 1];
      if Resets(plan, Run(decoders, before), ev, f) then []
      else if ev.Deliver? then Since(plan, decoders, before, f) + [ev.msg]
      else Since(plan, decoders, before, f)
  }

  /** What `part` says of a decoder is part of what `all` says. */
  predicate IsPart(part: seq<Message>, all: seq<Message>, f: nat, dec: nat) {
    Seqs(part, f, dec) <= Seqs(all, f, dec) && (Emptied(part, f, dec) ==> Emptied(all, f, dec))
  }

  lemma PartExtends(part: seq<Message>, all: seq<Message>, m: Message, f: nat, dec: nat)
    requires IsPart(part, all, f, dec)
    ensures IsPart(part + [m], all + [m], f, dec) && IsPart([], all + [m], f, dec)
  {
    Extend(part, m, f, dec);
    Extend(all, m, f, dec);
  }

  lemma {:induction false} SinceIsPartOfAll(plan: Plan, decoders: nat, evs: seq<Event>, f: nat, dec: nat)
    ensures IsPart(Since(plan, decoders, evs, f), Messages(evs), f, dec)
  {
    if evs != [] {
      var n := |evs| - 1;
      SinceIsPartOfAll(plan, decoders, evs[..n], f, dec);
      if evs[n].Deliver? {
        PartExtends(Since(plan, decoders, evs[..n], f), Messages(evs[..n]), evs[n].msg, f, dec);
      }
    }
  }

  /** Until a frame is released, everything counts. */
  lemma {:induction false} SinceIsAll(plan: Plan, decoders: nat, evs: seq<Event>, f: nat)
    requires !Released(Run(decoders, evs).d, f)
    ensures Since(plan, decoders, evs, f) == Messages(evs)
  {
    if evs != [] {
      var n := |evs| - 1;
      ReachableInv(decoders, evs[..n]);
      if Released(Run(decoders, evs[..n]).d, f) {
        ReleasedStays(Run(decoders, evs[..n]), evs[n], f);
      }
      SinceIsAll(plan, decoders, evs[..n], f);
    }
  }

  // ----- Early drawn entries are exact for what still counts -----

  predicate ExactStates(states: seq<DecoderState>, plans: seq<DecoderPlan>, since: seq<Message>, f: nat) {
    |states| == |plans| && forall dec :: 0 <= dec < |plans| ==> states[dec] == ExpectedOf(plans[dec], since, f, dec)
  }

  predicate ExactEarly(plan: Plan, d: Display, since: seq<Message>, f: nat) {
    f in plan && |plan[f]| == d.decoders && f in d.early ==> ExactStates(d.early[f], plan[f], since, f)
  }

  lemma OtherMessageExact(states: seq<DecoderState>, plans: seq<DecoderPlan>, since: seq<Message>, m: Message, f: nat)
    requires ExactStates(states, plans, since, f) && m.Frame() != f
    ensures ExactStates(states, plans, since + [m], f)
  {
    forall dec | 0 <= dec < |plans| ensures states[dec] == ExpectedOf(plans[dec], since + [m], f, dec) {
      Extend(since, m, f, dec);
    }
  }

  /** The states of a new entry are exact when nothing counts yet. */
  lemma NewIsExact(decoders: nat, plans: seq<DecoderPlan>, f: nat)
    requires |plans| == decoders
    ensures ExactStates(NewFrame(decoders).states, plans, [], f)
  {}

  lemma SettleResets(d: Display, frame: nat, f: nat)
    requires Shape(d) && OverlapIsFresh(d) && Released(d, f) && f in d.inFlight && f < frame
    requires frame !in d.early && frame !in d.complete && frame in Settle(d, frame).complete
    ensures f in Settle(d, frame).early && Settle(d, frame).early[f] == NewFrame(d.decoders).states
    ensures f in Settle(d, frame).complete <==> f in d.complete
  {
    FreshIsNotComplete(d, f);
  }

  lemma ResetIsExact(t: Trace, ev: Event, f: nat)
    requires Inv(t) && Released(t.d, f) && CompletesOver(t, ev, f)
    ensures f in Step(t, ev).d.early && Step(t, ev).d.early[f] == NewFrame(t.d.decoders).states
    ensures f in Step(t, ev).d.complete <==> f in t.d.complete
  {
    ReportIsPlaceThenSettle(t, ev.msg);
    PlaceKeeps(t, ev.msg);
    PlaceStates(t.d, ev.msg, f);
    PlaceStates(t.d, ev.msg, ev.msg.Frame());
    SettleResets(Place(t.d, ev.msg).0, ev.msg.Frame(), f);
  }

  /** A message of an early drawn frame marks its entry exactly. */
  lemma OwnMarkExact(plan: Plan, t: Trace, m: Message, since: seq<Message>)
    requires Inv(t) && WellFormed(plan, t.d.decoders, t.accepted)
    requires Fits(plan, t.d.decoders, m) && IsNew(t.accepted, m) && m.Frame() in t.d.early
    requires forall dec: nat :: Seqs(since, m.Frame(), dec) <= Seqs(t.accepted, m.Frame(), dec)
    requires ExactEarly(plan, t.d, since, m.Frame())
    ensures ExactEarly(plan, Place(t.d, m).0, since + [m], m.Frame())
  {
    var f := m.Frame();
    NewMessageIsPlaced(plan, t, m);
    PlaceIsMark(t.d, m);
    forall dec | 0 <= dec < t.d.decoders
      ensures Place(t.d, m).0.early[f][dec] == ExpectedOf(plan[f][dec], since + [m], f, dec)
    {
      Extend(since, m, f, dec);
      WellFormedDecoder(plan, t.d.decoders, t.accepted, f, dec);
      if dec == m.Decoder() && m.FragmentMsg? {
        MarkSequenceExact(Seqs(since, f, dec), plan[f][dec].last, m.encoded.sequence);
      }
    }
  }

  lemma SettleLeavesEarly(d: Display, frame: nat, f: nat)
    requires f in d.early && f != frame && frame !in d.complete
    requires !(f < frame && f in d.inFlight && frame !in d.early && frame in Settle(d, frame).complete)
    ensures f in Settle(d, frame).early && Settle(d, frame).early[f] == d.early[f]
    ensures f in Settle(d, frame).complete <==> f in d.complete
  {}

  lemma PlaceLeavesEarly(d: Display, m: Message, f: nat)
    requires Shape(d) && f in d.early && f != m.Frame()
    ensures f in Place(d, m).0.early && Place(d, m).0.early[f] == d.early[f]
    ensures Place(d, m).0.complete == d.complete && Place(d, m).0.early.Keys == d.early.Keys
    ensures Place(d, m).1 ==> m.Frame() !in d.complete
  {
    PlaceIsMark(d, m);
  }

  /** An early drawn entry changes only by its own messages and by resets. */
  lemma EarlyLeft(t: Trace, ev: Event, f: nat)
    requires Inv(t) && f in t.d.early && !CompletesOver(t, ev, f)
    requires ev.Deliver? ==> ev.msg.Frame() != f
    ensures f in Step(t, ev).d.early && Step(t, ev).d.early[f] == t.d.early[f]
    ensures f in Step(t, ev).d.complete <==> f in t.d.complete
  {
    if ev.Deliver? {
      ReportIsPlaceThenSettle(t, ev.msg);
      PlaceLeavesEarly(t.d, ev.msg, f);
      if Place(t.d, ev.msg).1 && ev.msg.IsTerminal() {
        SettleLeavesEarly(Place(t.d, ev.msg).0, ev.msg.Frame(), f);
      }
    }
  }

  /** A frame that becomes early drawn takes its states along. */
  lemma BecomesEarly(t: Trace, ev: Event, f: nat)
    requires Inv(t) && f !in t.d.early && f in Step(t, ev).d.early
    ensures CompletesOver(t, ev, f) && Step(t, ev).d.early[f] == Place(t.d, ev.msg).0.inFlight[f].states
  {
    if !CompletesOver(t, ev, f) {
      if ev.Deliver? && ev.msg.Frame() == f {
        OwnMessageIsNotEarly(t, ev.msg);
      } else {
        NotOverLeaves(t, ev, f);
      }
      assert false;
    }
    ReportIsPlaceThenSettle(t, ev.msg);
    PlaceIsMark(t.d, ev.msg);
  }

  lemma UnreleasedExact(plan: Plan, t: Trace, m: Message, f: nat)
    requires Inv(t) && WellFormed(plan, t.d.decoders, t.accepted)
    requires Fits(plan, t.d.decoders, m) && IsNew(t.accepted, m) && ExactFrame(plan, t.d, t.accepted, f)
    requires f in plan && |plan[f]| == t.d.decoders && !Released(t.d, f) && f in Place(t.d, m).0.inFlight
    ensures ExactStates(Place(t.d, m).0.inFlight[f].states, plan[f], t.accepted + [m], f)
  {
    PlaceExact(plan, t, m, f);
    PlaceStates(t.d, m, f);
    PlaceKeeps(t, m);
    var placed := Place(t.d, m).0;
    forall dec | 0 <= dec < t.d.decoders
      ensures placed.inFlight[f].states[dec] == ExpectedOf(plan[f][dec], t.accepted + [m], f, dec)
    {
      assert StateOf(placed, f, dec) == ExpectedOf(plan[f][dec], t.accepted + [m], f, dec);
    }
  }

  /** What one event of a well-formed run can rely on. */
  ghost predicate Ready(plan: Plan, t: Trace, ev: Event, since: seq<Message>, f: nat) {
    Inv(t) && WellFormed(plan, t.d.decoders, t.accepted) && f in plan && |plan[f]| == t.d.decoders &&
    (ev.Deliver? ==> Fits(plan, t.d.decoders, ev.msg) && IsNew(t.accepted, ev.msg)) &&
    (ev.Deliver? ==> ExactFrame(plan, t.d, t.accepted, ev.msg.Frame())) &&
    ExactFrame(plan, t.d, t.accepted, f) && ExactEarly(plan, t.d, since, f) &&
    (!Released(t.d, f) ==> since == t.accepted) &&
    forall dec: nat :: Seqs(since, f, dec) <= Seqs(t.accepted, f, dec)
  }

  function NextSince(plan: Plan, t: Trace, ev: Event, since: seq<Message>, f: nat): seq<Message> {
    if Resets(plan, t, ev, f) then [] else if ev.Deliver? then since + [ev.msg] else since
  }

  lemma StepExactEarly(plan: Plan, t: Trace, ev: Event, since: seq<Message>, f: nat)
    requires Ready(plan, t, ev, since, f)
    ensures ExactEarly(plan, Step(t, ev).d, NextSince(plan, t, ev, since, f), f)
  {
    OvertakesIsOver(plan, t, ev, f);
    if Resets(plan, t, ev, f) {
      ResetIsExact(t, ev, f);
      StepKeeps(t, ev);
      NewIsExact(t.d.decoders, plan[f], f);
    } else if f in t.d.early {
      if ev.Deliver? && ev.msg.Frame() == f {
        OwnMarkExact(plan, t, ev.msg, since);
        ReportIsPlaceThenSettle(t, ev.msg);
        PlaceKeeps(t, ev.msg);
        NewMessageIsPlaced(plan, t, ev.msg);
      } else {
        EarlyLeft(t, ev, f);
        if ev.Deliver? {
          OtherMessageExact(t.d.early[f], plan[f], since, ev.msg, f);
        }
      }
    } else if f in Step(t, ev).d.early {
      BecomesEarly(t, ev, f);
      UnreleasedExact(plan, t, ev.msg, f);
    }
  }

  lemma ReadyRun(plan: Plan, decoders: nat, evs: seq<Event>, f: nat)
    requires WellFormed(plan, decoders, Messages(evs)) && f in plan && |plan[f]| == decoders
    requires evs != []
    requires ExactEarly(plan, Run(decoders, evs[..|evs| - 1]).d, Since(plan, decoders, evs[..|evs| - 1], f), f)
    ensures
      var n := |evs| - 1;
      Ready(plan, Run(decoders, evs[..n]), evs[n], Since(plan, decoders, evs[..n], f), f)
  {
    var n := |evs| - 1;
    WellFormedPrefix(plan, decoders, evs);
    WellFormedAccepted(plan, decoders, evs[..n]);
    ReachableInv(decoders, evs[..n]);
    RunIsExact(plan, decoders, evs[..n], f);
    if evs[n].Deliver? {
      RunIsExact(plan, decoders, evs[..n], evs[n].msg.Frame());
    }
    if !Released(Run(decoders, evs[..n]).d, f) {
      SinceIsAll(plan, decoders, evs[..n], f);
    }
    forall dec: nat
      ensures Seqs(Since(plan, decoders, evs[..n], f), f, dec) <= Seqs(Messages(evs[..n]), f, dec)
    {
      SinceIsPartOfAll(plan, decoders, evs[..n], f, dec);
    }
  }

  /** Over every well-formed run, the states of an early drawn frame are those determined by
      what has arrived since its entry was last written anew. */
  lemma {:induction false} EarlyIsExact(plan: Plan, decoders: nat, evs: seq<Event>, f: nat)
    requires WellFormed(plan, decoders, Messages(evs)) && f in plan && |plan[f]| == decoders
    ensures ExactEarly(plan, Run(decoders, evs).d, Since(plan, decoders, evs, f), f)
  {
    if evs != [] {
      var n := |evs| - 1;
      WellFormedPrefix(plan, decoders, evs);
      EarlyIsExact(plan, decoders, evs[..n], f);
      ReadyRun(plan, decoders, evs, f);
      StepExactEarly(plan, Run(decoders, evs[..n]), evs[n], Since(plan, decoders, evs[..n], f), f);
      ReachableInv(decoders, evs[..n]);
    }
  }

  // ----- When a frame becomes complete -----

  /** The event makes frame f complete: it brings a terminal of f when that is the last message
      that was still missing from what counts, or it overtakes f in flight when nothing is
      missing. */
  predicate Finishes(plan: Plan, t: Trace, ev: Event, since: seq<Message>, f: nat) {
    ev.Deliver? &&
    if ev.msg.Frame() == f then ev.msg.IsTerminal() && FullyDelivered(plan, since + [ev.msg], f)
    else !Released(t.d, f) && Overtakes(plan, t, ev, f) && FullyDelivered(plan, since, f)
  }

  predicate Finished(plan: Plan, decoders: nat, evs: seq<Event>, f: nat) {
    evs != [] &&
    (Finished(plan, decoders, evs[..|evs| - 1], f) ||
     Finishes(plan, Run(decoders, evs[..|evs| - 1]), evs[|evs| - 1],
              Since(plan, decoders, evs[..|evs| - 1], f), f))
  }

  /** Exact states are all complete exactly when all that is planned has arrived. */
  lemma ExactAndComplete(plan: Plan, states: seq<DecoderState>, since: seq<Message>, f: nat)
    requires f in plan && ExactStates(states, plan[f], since, f)
    ensures AllComplete(states) <==> FullyDelivered(plan, since, f)
  {
    if AllComplete(states) {
      forall dec | 0 <= dec < |plan[f]|
        ensures match plan[f][dec]
          case Nothing => Emptied(since, f, dec)
          case Sequences(last) => Seqs(since, f, dec) == UpTo(last)
      {
        assert states[dec].Complete?;
      }
    } else {
      var dec :| 0 <= dec < |states| && !states[dec].Complete?;
      assert states[dec] == ExpectedOf(plan[f][dec], since, f, dec);
      if plan[f][dec].Sequences? {
        assert plan[f][dec].last in UpTo(plan[f][dec].last);
      }
    }
  }

  /** A message of an early drawn frame. */
  lemma EarlyFinishes(plan: Plan, t: Trace, m: Message, since: seq<Message>)
    requires Ready(plan, t, Deliver(m), since, m.Frame()) && m.Frame() in t.d.early
    ensures m.Frame() in Step(t, Deliver(m)).d.complete
      <==> m.IsTerminal() && FullyDelivered(plan, since + [m], m.Frame())
  {
    var f := m.Frame();
    NewMessageIsPlaced(plan, t, m);
    ReportIsPlaceThenSettle(t, m);
    PlaceIsMark(t.d, m);
    OwnMarkExact(plan, t, m, since);
    ExactAndComplete(plan, Place(t.d, m).0.early[f], since + [m], f);
  }

  /** An event of another frame makes f complete only by completing over it. */
  lemma OthersComplete(t: Trace, ev: Event, f: nat)
    requires Inv(t) && f !in t.d.complete && (ev.Deliver? ==> ev.msg.Frame() != f)
    ensures f in Step(t, ev).d.complete
      <==> CompletesOver(t, ev, f) && AllComplete(Place(t.d, ev.msg).0.inFlight[f].states)
  {
    if ev.Deliver? {
      ReportIsPlaceThenSettle(t, ev.msg);
      PlaceIsMark(t.d, ev.msg);
      PlaceKeeps(t, ev.msg);
    }
  }

  lemma FinishesIff(plan: Plan, t: Trace, ev: Event, since: seq<Message>, f: nat)
    requires Ready(plan, t, ev, since, f) && f !in t.d.complete
    ensures f in Step(t, ev).d.complete <==> Finishes(plan, t, ev, since, f)
  {
    OvertakesIsOver(plan, t, ev, f);
    if ev.Deliver? && ev.msg.Frame() == f {
      if f in t.d.early {
        EarlyFinishes(plan, t, ev.msg, since);
      } else {
        CompletesIff(plan, t, ev.msg);
      }
    } else {
      OthersComplete(t, ev, f);
      if CompletesOver(t, ev, f) {
        if Released(t.d, f) {
          ResetIsExact(t, ev, f);
        } else {
          var states := Place(t.d, ev.msg).0.inFlight[f].states;
          UnreleasedExact(plan, t, ev.msg, f);
          ExactAndComplete(plan, states, since + [ev.msg], f);
          OtherDelivered(plan, since, ev.msg, f);
        }
      }
    }
  }

  lemma OtherDelivered(plan: Plan, since: seq<Message>, m: Message, f: nat)
    requires m.Frame() != f
    ensures FullyDelivered(plan, since + [m], f) <==> FullyDelivered(plan, since, f)
  {
    if f in plan {
      forall dec | 0 <= dec < |plan[f]|
        ensures Emptied(since + [m], f, dec) == Emptied(since, f, dec)
        ensures Seqs(since + [m], f, dec) == Seqs(since, f, dec)
      {
        Extend(since, m, f, dec);
      }
    }
  }

  /** Over every well-formed run, a frame is complete if and only if some event finished it. */
  lemma {:induction false} CompleteIff(plan: Plan, decoders: nat, evs: seq<Event>, f: nat)
    requires WellFormed(plan, decoders, Messages(evs)) && f in plan && |plan[f]| == decoders
    ensures f in Run(decoders, evs).d.complete <==> Finished(plan, decoders, evs, f)
  {
    if evs != [] {
      var n := |evs| - 1;
      WellFormedPrefix(plan, decoders, evs);
      CompleteIff(plan, decoders, evs[..n], f);
      EarlyIsExact(plan, decoders, evs[..n], f);
      ReadyRun(plan, decoders, evs, f);
      if f in Run(decoders, evs[..n]).d.complete {
        CompleteStays(Run(decoders, evs[..n]), evs[n], f);
      } else {
        FinishesIff(plan, Run(decoders, evs[..n]), evs[n], Since(plan, decoders, evs[..n], f), f);
      }
    }
  }

  lemma CompleteStays(t: Trace, ev: Event, f: nat)
    requires Inv(t) && f in t.d.complete
    ensures f in Step(t, ev).d.complete
  {
    if ev.Deliver? {
      ReportIsPlaceThenSettle(t, ev.msg);
      PlaceKeeps(t, ev.msg);
    }
  }

  /** In particular a frame of which everything counts, the last arrival a terminal, is
      complete. */
  lemma {:induction false} TerminalLastCompletes(plan: Plan, decoders: nat, evs: seq<Event>, f: nat)
    requires WellFormed(plan, decoders, Messages(evs)) && f in plan && |plan[f]| == decoders && decoders > 0
    requires FullyDelivered(plan, Since(plan, decoders, evs, f), f) && EndsWithTerminal(Messages(evs), f)
    ensures f in Run(decoders, evs).d.complete
  {
    if evs == [] || Resets(plan, Run(decoders, evs[..|evs| - 1]), evs[|evs| - 1], f) {
      NothingDelivered(plan, f);
      assert false;
    }
    var n := |evs| - 1;
    var since := Since(plan, decoders, evs[..n], f);
    WellFormedPrefix(plan, decoders, evs);
    EarlyIsExact(plan, decoders, evs[..n], f);
    ReadyRun(plan, decoders, evs, f);
    if !(evs[n].Deliver? && evs[n].msg.Frame() == f) {
      UnrelatedEvent(plan, evs, f);
      if evs[n].Deliver? {
        OtherDelivered(plan, since, evs[n].msg, f);
      }
      TerminalLastCompletes(plan, decoders, evs[..n], f);
    }
    if f in Run(decoders, evs[..n]).d.complete {
      CompleteStays(Run(decoders, evs[..n]), evs[n], f);
    } else {
      FinishesIff(plan, Run(decoders, evs[..n]), evs[n], since, f);
    }
  }

  // ----- What a reset costs -----

  /** A message of the frame no longer counts. */
  predicate Lost(since: seq<Message>, all: seq<Message>, f: nat, dec: nat) {
    !(Seqs(all, f, dec) <= Seqs(since, f, dec)) || (Emptied(all, f, dec) && !Emptied(since, f, dec))
  }

  lemma LostIsMissing(plan: Plan, decoders: nat, since: seq<Message>, all: seq<Message>, f: nat, dec: nat)
    requires WellFormed(plan, decoders, all) && f in plan && |plan[f]| == decoders && dec < decoders
    requires Lost(since, all, f, dec)
    ensures !FullyDelivered(plan, since, f)
  {
    WellFormedDecoder(plan, decoders, all, f, dec);
  }

  lemma LostStaysLost(plan: Plan, decoders: nat, since: seq<Message>, all: seq<Message>, m: Message, f: nat, dec: nat)
    requires Lost(since, all, f, dec) && IsNew(all, m)
    ensures Lost(since + [m], all + [m], f, dec) && Lost([], all + [m], f, dec)
  {
    Extend(since, m, f, dec);
    Extend(all, m, f, dec);
    if !(Seqs(all, f, dec) <= Seqs(since, f, dec)) {
      var s :| s in Seqs(all, f, dec) && s !in Seqs(since, f, dec);
      assert s in Seqs(all + [m], f, dec) && s !in Seqs(since + [m], f, dec);
    }
  }

  /** Once a message of a frame no longer counts, the frame never becomes complete, whatever
      arrives later: every message comes once. */
  lemma {:induction false} LostForGood(plan: Plan, decoders: nat, evs: seq<Event>, more: seq<Event>, f: nat, dec: nat)
    requires WellFormed(plan, decoders, Messages(evs + more)) && f in plan && |plan[f]| == decoders && dec < decoders
    requires Lost(Since(plan, decoders, evs, f), Messages(evs), f, dec)
    requires f !in Run(decoders, evs).d.complete
    ensures Lost(Since(plan, decoders, evs + more, f), Messages(evs + more), f, dec)
    ensures f !in Run(decoders, evs + more).d.complete
  {
    if more == [] {
      assert evs + more == evs;
    } else {
      var all, n := evs + more, |evs + more| - 1;
      assert all[..n] == evs + more[..|more| - 1];
      WellFormedPrefix(plan, decoders, all);
      LostForGood(plan, decoders, evs, more[..|more| - 1], f, dec);
      EarlyIsExact(plan, decoders, all[..n], f);
      ReadyRun(plan, decoders, all, f);
      LostStepsOn(plan, decoders, all, f, dec);
    }
  }

  lemma LostStepsOn(plan: Plan, decoders: nat, all: seq<Event>, f: nat, dec: nat)
    requires all != [] && WellFormed(plan, decoders, Messages(all))
    requires f in plan && |plan[f]| == decoders && dec < decoders
    requires
      var before := all[..|all| - 1];
      Lost(Since(plan, decoders, before, f), Messages(before), f, dec) &&
      f !in Run(decoders, before).d.complete &&
      Ready(plan, Run(decoders, before), all[|all| - 1], Since(plan, decoders, before, f), f)
    ensures Lost(Since(plan, decoders, all, f), Messages(all), f, dec)
    ensures f !in Run(decoders, all).d.complete
  {
    var before, ev := all[..|all| - 1], all[|all| - 1];
    var t, since := Run(decoders, before), Since(plan, decoders, before, f);
    WellFormedPrefix(plan, decoders, all);
    WellFormedAccepted(plan, decoders, before);
    FinishesIff(plan, t, ev, since, f);
    LostIsMissing(plan, decoders, since, Messages(before), f, dec);
    if ev.Deliver? {
      LostStaysLost(plan, decoders, since, Messages(before), ev.msg, f, dec);
      LostIsMissing(plan, decoders, since + [ev.msg], Messages(all), f, dec);
    }
  }

  // ----- A frame that is delivered and never completes -----

  /** After the overlapping run of `FramingOverlaps`, the last fragment of frame 5 arrives, its
      terminal: both fragments of the frame have been accepted, but the entry was written anew
      in between and waits for the first one again. */
  lemma DeliveredButNotComplete(p: Pixmap)
    ensures
      var evs := Opening(p) + [Deliver(Sole(8, 0, true, p))] + [Deliver(Sole(5, 1, true, p))];
      var d := Run(1, evs).d;
      Sole(5, 0, false, p) in Messages(evs) && Sole(5, 1, true, p) in Messages(evs) &&
      5 in d.early && d.early[5] == [TerminatedIncomplete({0})] && 5 !in d.complete
  {
    var before := Opening(p) + [Deliver(Sole(8, 0, true, p))];
    var m := Sole(5, 1, true, p);
    var t := Run(1, before);
    EarlyOverlapsComplete(p);
    ReachableInv(1, before);
    RunStep(1, before, Deliver(m));
    WasDelivered(before + [Deliver(m)], Sole(5, 0, false, p), 0);
    WasDelivered(before + [Deliver(m)], m, |before|);
    SecondFragmentWaits(t.d, p);
  }

  lemma SecondFragmentWaits(d: Display, p: Pixmap)
    requires d.decoders == 1 && 5 in d.early && d.early[5] == [InFlight({})] && 5 !in d.complete
    ensures
      var d' := Report(d, Sole(5, 1, true, p)).0;
      5 in d'.early && d'.early[5] == [TerminatedIncomplete({0})] && 5 !in d'.complete
  {
    var m := Sole(5, 1, true, p);
    assert {} + {1} == {1};
    assert UpTo(1) == UpTo(0) + {1} == {0, 1};
    assert UpTo(1) - {1} == {0};
    assert MarkSequence(InFlight({}), 1, true) == Some(TerminatedIncomplete({0}));
    assert [InFlight({})][0 := TerminatedIncomplete({0})] == [TerminatedIncomplete({0})];
    var placed := PlaceFragment(d, Decode(m.encoded).value).0;
    assert placed.early[5] == [TerminatedIncomplete({0})];
    assert !placed.early[5][0].Complete?;
  }

  lemma {:induction false} WasDelivered(evs: seq<Event>, m: Message, k: nat)
    requires k < |evs| && evs[k] == Deliver(m)
    ensures m in Messages(evs)
  {
    if k < |evs| - 1 {
      WasDelivered(evs[..|evs| - 1], m, k);
    }
  }
}
