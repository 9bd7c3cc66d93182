/** What the framer guarantees over whole runs: for every sequence of messages, and more for
    the messages of a well-formed sender. */
module FramingTheorems {
  import opened Common
  import opened Painting
  import opened DecoderFrames
  import opened Framing
  import opened FramingInvariants

  // ----- Guarantees for arbitrary messages -----

  predicate IsSequence(m: Message, f: nat, dec: nat, s: nat) {
    m.FragmentMsg? && m.encoded.frame == f && m.encoded.decoder == dec && m.encoded.sequence == s
  }

  ghost predicate HasSequence(acc: seq<Message>, f: nat, dec: nat, s: nat) {
    exists m :: m in acc && IsSequence(m, f, dec, s)
  }

  ghost predicate HasTerminal(acc: seq<Message>, f: nat, dec: nat, s: nat) {
    exists m :: m in acc && IsSequence(m, f, dec, s) && m.encoded.terminal
  }

  lemma {:induction false} SeqsAreAccepted(acc: seq<Message>, f: nat, dec: nat, s: nat)
    ensures s in Seqs(acc, f, dec) <==> HasSequence(acc, f, dec, s)
    ensures s in Terms(acc, f, dec) <==> HasTerminal(acc, f, dec, s)
  {
    if acc != [] {
      var before, m := acc[..|acc| - 1], acc[|acc| - 1];
      SeqsAreAccepted(before, f, dec, s);
      assert acc == before + [m];
      assert forall x :: x in acc <==> x in before || x == m;
    }
  }

  lemma DoneMeans(acc: seq<Message>, f: nat, dec: nat)
    requires DecoderDone(acc, f, dec) && EmptyTerminal(f, dec) !in acc
    ensures exists t :: HasTerminal(acc, f, dec, t) && forall s: nat | s <= t :: HasSequence(acc, f, dec, s)
  {
    var t :| t in Terms(acc, f, dec) && UpTo(t) <= Seqs(acc, f, dec);
    SeqsAreAccepted(acc, f, dec, t);
    forall s: nat | s <= t ensures HasSequence(acc, f, dec, s) {
      assert s in UpTo(t);
      SeqsAreAccepted(acc, f, dec, s);
    }
  }

  /** A frame in `complete` has, on each decoder, an accepted empty terminal, or an accepted
      terminal fragment t and accepted fragments for every sequence 0..=t. */
  lemma CompletionIsSound(decoders: nat, evs: seq<Event>, f: nat, dec: nat)
    requires f in Run(decoders, evs).d.complete && dec < decoders
    ensures
      var acc := Run(decoders, evs).accepted;
      EmptyTerminal(f, dec) in acc ||
      exists t :: HasTerminal(acc, f, dec, t) && forall s: nat | s <= t :: HasSequence(acc, f, dec, s)
  {
    var acc := Run(decoders, evs).accepted;
    assert DecoderDone(acc, f, dec) by {
      ReachableInv(decoders, evs);
    }
    if EmptyTerminal(f, dec) !in acc {
      DoneMeans(acc, f, dec);
    }
  }

  /** How often a fragment has been handed out or queued. */
  function Emitted(t: Trace, x: Fragment): nat {
    multiset(t.drawn)[x] + multiset(t.d.queue)[x]
  }

  lemma CompleteHoldsNothing(t: Trace, x: Fragment)
    requires Inv(t) && (x.frame in t.d.complete || x.frame in t.d.early)
    ensures FragmentsOf(t.accepted)[x] == Emitted(t, x) && HeldCount(t.d, x) == 0
  {}

  lemma CompleteStepIsFinal(t: Trace, ev: Event, x: Fragment)
    requires Inv(t) && x.frame in t.d.complete
    ensures x.frame in Step(t, ev).d.complete && Emitted(Step(t, ev), x) == Emitted(t, x)
  {
    var t' := Step(t, ev);
    assert x.frame in t'.d.complete by {
      if ev.Deliver? {
        ReportIsPlaceThenSettle(t, ev.msg);
        PlaceKeeps(t, ev.msg);
      }
    }
    assert FragmentsOf(t'.accepted)[x] == FragmentsOf(t.accepted)[x] by {
      if ev.Deliver? {
        BroughtConserved(t.accepted, ev.msg);
        ReportIsPlaceThenSettle(t, ev.msg);
      }
    }
    CompleteHoldsNothing(t, x);
    StepKeeps(t, ev);
    CompleteHoldsNothing(t', x);
  }

  /** A run that continues from a given state. */
  function RunFrom(t: Trace, evs: seq<Event>): Trace {
    if evs == [] then t else Step(RunFrom(t, evs[..|evs| - 1]), evs[|evs| - 1])
  }

  lemma {:induction false} RunContinues(decoders: nat, evs: seq<Event>, more: seq<Event>)
    ensures Run(decoders, evs + more) == RunFrom(Run(decoders, evs), more)
  {
    if more == [] {
      assert evs + more == evs;
    } else {
      var n := |more| - 1;
      RunContinues(decoders, evs, more[..n]);
      assert (evs + more)[..|evs + more| - 1] == evs + more[..n];
    }
  }

  lemma {:induction false} CompleteStaysFinal(t: Trace, more: seq<Event>, x: Fragment)
    requires Inv(t) && x.frame in t.d.complete
    ensures Inv(RunFrom(t, more))
    ensures x.frame in RunFrom(t, more).d.complete && Emitted(RunFrom(t, more), x) == Emitted(t, x)
  {
    if more != [] {
      var n := |more| - 1;
      CompleteStaysFinal(t, more[..n], x);
      CompleteStepIsFinal(RunFrom(t, more[..n]), more[n], x);
      StepKeeps(RunFrom(t, more[..n]), more[n]);
    }
  }

  /** Once a frame is complete, no fragment of it is ever queued again, although gap filling
      may put the frame back in flight. */
  lemma CompleteFrameIsFinal(decoders: nat, evs: seq<Event>, more: seq<Event>, x: Fragment)
    requires x.frame in Run(decoders, evs).d.complete
    ensures x.frame in Run(decoders, evs + more).d.complete
    ensures Emitted(Run(decoders, evs + more), x) == Emitted(Run(decoders, evs), x)
  {
    ReachableInv(decoders, evs);
    CompleteStaysFinal(Run(decoders, evs), more, x);
    RunContinues(decoders, evs, more);
  }

  /** Over every run, accepted fragments are those drawn, queued or held, each counted once. */
  lemma Conservation(decoders: nat, evs: seq<Event>, x: Fragment)
    ensures
      var t := Run(decoders, evs);
      FragmentsOf(t.accepted)[x] == multiset(t.drawn)[x] + multiset(t.d.queue)[x] + HeldCount(t.d, x)
  {
    ReachableInv(decoders, evs);
  }

  lemma SettleFlushes(d: Display, frame: nat)
    requires frame !in d.early && frame !in d.complete && frame in Settle(d, frame).complete
    ensures forall f :: f in Settle(d, frame).inFlight ==> f > frame
  {}

  lemma FlushStep(t: Trace, m: Message)
    requires Inv(t) && m.Frame() !in t.d.early && m.Frame() !in t.d.complete
    requires m.Frame() in Report(t.d, m).0.complete
    ensures forall f :: f in Report(t.d, m).0.inFlight ==> f > m.Frame()
  {
    var placed := Place(t.d, m).0;
    assert placed.early == t.d.early && placed.complete == t.d.complete by {
      PlaceIsMark(t.d, m);
    }
    ReportIsPlaceThenSettle(t, m);
    assert Report(t.d, m).0 == Settle(placed, m.Frame());
    SettleFlushes(placed, m.Frame());
  }

  /** Right after a frame g completes out of `inFlight`, only larger frames are in flight, so
      every accepted fragment of a frame up to g has been queued or drawn. */
  lemma FlushBarrier(decoders: nat, evs: seq<Event>, m: Message)
    requires m.Frame() !in Run(decoders, evs).d.early && m.Frame() !in Run(decoders, evs).d.complete
    requires m.Frame() in Step(Run(decoders, evs), Deliver(m)).d.complete
    ensures
      var t := Step(Run(decoders, evs), Deliver(m));
      (forall f :: f in t.d.inFlight ==> f > m.Frame()) &&
      (forall x: Fragment :: x.frame <= m.Frame() ==> FragmentsOf(t.accepted)[x] == Emitted(t, x))
  {
    var before := Run(decoders, evs);
    ReachableInv(decoders, evs);
    FlushStep(before, m);
    StepKeeps(before, Deliver(m));
    var t := Step(before, Deliver(m));
    forall x: Fragment | x.frame <= m.Frame() ensures FragmentsOf(t.accepted)[x] == Emitted(t, x) {
      assert HeldCount(t.d, x) == 0;
    }
  }

  /** An early drawn frame has a larger complete frame, in every reachable state. */
  lemma EarlyDrawIsBehind(decoders: nat, evs: seq<Event>, f: nat) returns (g: nat)
    requires f in Run(decoders, evs).d.early
    ensures g in Run(decoders, evs).d.complete && g > f
  {
    ReachableInv(decoders, evs);
    g :| g in Run(decoders, evs).d.complete && g > f;
  }

  /** No message, well formed or not, makes the framer reach `unreachable!`; and a message is
      refused exactly when placing it is refused. */
  lemma NeverUnreachable(decoders: nat, evs: seq<Event>, m: Message)
    ensures
      var d := Run(decoders, evs).d;
      Report(d, m).1 == if Place(d, m).1 then Ok else Err
  {
    ReachableInv(decoders, evs);
    ReportIsPlaceThenSettle(Run(decoders, evs), m);
  }

  // ----- What a message touches -----

  /** The message gets as far as its frame's entry. */
  predicate Admitted(d: Display, m: Message) {
    m.Decoder() < d.decoders && m.Frame() !in d.complete && (m.FragmentMsg? ==> m.encoded.decoded.Some?)
  }

  /** A message for an unknown decoder or a complete frame, or one that does not decode, is
      refused without a trace. */
  lemma NotAdmitted(d: Display, m: Message)
    ensures !Admitted(d, m) ==> Report(d, m) == (d, Err)
  {}

  /** Recording creates an entry for the message's own frame, unless it is early drawn, and, for
      fragments only, for the frames that it skips; no other frame's entry is touched. */
  lemma EntriesAfter(d: Display, m: Message, f: nat)
    requires Shape(d) && Admitted(d, m)
    ensures f in Place(d, m).0.inFlight <==>
      f in d.inFlight ||
      (m.Frame() !in d.early &&
       (f == m.Frame() || (m.FragmentMsg? && d.inFlight != map[] && f < m.Frame() && AboveAll(d.inFlight, f))))
    ensures f != m.Frame() && f in d.inFlight ==> Place(d, m).0.inFlight[f] == d.inFlight[f]
    ensures f != m.Frame() && f in Place(d, m).0.inFlight && f !in d.inFlight ==>
      Place(d, m).0.inFlight[f] == NewFrame(d.decoders)
    ensures f in Place(d, m).0.early <==> f in d.early
    ensures f != m.Frame() && f in d.early ==> Place(d, m).0.early[f] == d.early[f]
  {}

  /** A refused message leaves queue, early drawn and complete frames as they were. */
  lemma RefusedTouchesNothing(t: Trace, m: Message)
    requires Inv(t) && Report(t.d, m).1 != Ok
    ensures
      var d' := Report(t.d, m).0;
      d'.queue == t.d.queue && d'.early == t.d.early && d'.complete == t.d.complete &&
      forall f :: f in d'.inFlight ==>
        d'.inFlight[f] == if f in t.d.inFlight then t.d.inFlight[f] else NewFrame(t.d.decoders)
  {
    ReportIsPlaceThenSettle(t, m);
    PlaceIsMark(t.d, m);
    PreparedEntries(t.d, m);
  }

  // ----- Early drawing -----

  /** A fragment of a frame ahead of everything in flight puts every frame it skips in flight. */
  lemma GapsAreFilled(t: Trace, m: Message, k: nat, f: nat)
    requires Inv(t) && m.FragmentMsg? && m.Frame() !in t.d.early && Place(t.d, m).1
    requires k in t.d.inFlight && AboveAll(t.d.inFlight, f) && f < m.Frame()
    ensures f in Place(t.d, m).0.inFlight && Place(t.d, m).0.inFlight[f] == NewFrame(t.d.decoders)
  {
    PlaceIsMark(t.d, m);
    PreparedEntries(t.d, m);
  }

  /** When a frame completes out of `inFlight`, every older frame in flight, skipped frames
      included, becomes early drawn or complete. */
  lemma CompletionReleasesOlder(d: Display, frame: nat, f: nat)
    requires frame !in d.early && frame in d.inFlight && AllComplete(d.inFlight[frame].states)
    requires f in d.inFlight && f < frame
    ensures f in Settle(d, frame).early || f in Settle(d, frame).complete
  {}

  /** From then on a fragment of an early drawn frame is queued the moment it arrives. */
  lemma EarlyDrawIsImmediate(t: Trace, m: Message)
    requires Inv(t) && m.Frame() in t.d.early && Report(t.d, m).1 == Ok
    ensures Report(t.d, m).0.queue == t.d.queue + Brought(m)
    ensures m.FragmentMsg? ==> Brought(m) == [Decode(m.encoded).value]
  {
    ReportIsPlaceThenSettle(t, m);
    PlaceIsMark(t.d, m);
  }

  // ----- A well-formed sender -----

  /** What a decoder sends for a frame: one empty terminal, or sequences 0..=last. */
  datatype DecoderPlan = Nothing | Sequences(last: nat)

  /** The plan of each decoder, frame by frame. */
  type Plan = map<nat, seq<DecoderPlan>>

  predicate Fits(plan: Plan, decoders: nat, m: Message) {
    m.Frame() in plan && |plan[m.Frame()]| == decoders && m.Decoder() < decoders &&
    match m
    case FragmentMsg(e) =>
      plan[e.frame][e.decoder].Sequences? && e.sequence <= plan[e.frame][e.decoder].last &&
      e.terminal == (e.sequence == plan[e.frame][e.decoder].last) && e.decoded.Some?
    case EmptyTerminal(f, dec) => plan[f][dec].Nothing?
  }

  /** The message has not been delivered before. */
  predicate IsNew(before: seq<Message>, m: Message) {
    match m
    case FragmentMsg(e) => e.sequence !in Seqs(before, e.frame, e.decoder)
    case EmptyTerminal(f, dec) => !Emptied(before, f, dec)
  }

  predicate WellFormed(plan: Plan, decoders: nat, ms: seq<Message>) {
    ms == [] ||
    (WellFormed(plan, decoders, ms[..|ms| - 1]) && Fits(plan, decoders, ms[|ms| - 1]) &&
     IsNew(ms[..|ms| - 1], ms[|ms| - 1]))
  }

  function Messages(evs: seq<Event>): seq<Message> {
    if evs == [] then []
    else
      var before := Messages(evs[..|evs| - 1]);
      if evs[|evs| - 1].Deliver? then before + [evs[|evs| - 1].msg] else before
  }

  /** What a well-formed history tells about one decoder of one frame. */
  lemma {:induction false} WellFormedDecoder(plan: Plan, decoders: nat, ms: seq<Message>, f: nat, dec: nat)
    requires WellFormed(plan, decoders, ms) && f in plan && |plan[f]| == decoders && dec < decoders
    ensures plan[f][dec].Nothing? ==> Seqs(ms, f, dec) == {} == Terms(ms, f, dec)
    ensures plan[f][dec].Sequences? ==>
      var last := plan[f][dec].last;
      !Emptied(ms, f, dec) && Seqs(ms, f, dec) <= UpTo(last) && Terms(ms, f, dec) == Seqs(ms, f, dec) * {last}
  {
    if ms != [] {
      var n := |ms| - 1;
      WellFormedDecoder(plan, decoders, ms[..n], f, dec);
      assert ms == ms[..n] + [ms[n]];
      Extend(ms[..n], ms[n], f, dec);
    }
  }

  /** A decoder that is done has sent everything, so nothing new can come from it. */
  lemma DoneMeansNothingNew(plan: Plan, decoders: nat, acc: seq<Message>, m: Message)
    requires WellFormed(plan, decoders, acc) && Fits(plan, decoders, m) && IsNew(acc, m)
    ensures !DecoderDone(acc, m.Frame(), m.Decoder())
  {
    var f, dec := m.Frame(), m.Decoder();
    WellFormedDecoder(plan, decoders, acc, f, dec);
    if m.FragmentMsg? {
      forall t | t in Terms(acc, f, dec) ensures !(UpTo(t) <= Seqs(acc, f, dec)) {
        assert m.encoded.sequence in UpTo(t);
      }
    }
  }

  lemma NewMessageMarks(plan: Plan, decoders: nat, acc: seq<Message>, m: Message, st: DecoderState)
    requires WellFormed(plan, decoders, acc) && Fits(plan, decoders, m) && IsNew(acc, m)
    requires Sound(st, Seqs(acc, m.Frame(), m.Decoder()), Terms(acc, m.Frame(), m.Decoder()),
                   Emptied(acc, m.Frame(), m.Decoder()))
    ensures Mark(st, m).Some?
  {
    WellFormedDecoder(plan, decoders, acc, m.Frame(), m.Decoder());
    DoneMeansNothingNew(plan, decoders, acc, m);
  }

  lemma NewMessageIsPlaced(plan: Plan, t: Trace, m: Message)
    requires Inv(t) && WellFormed(plan, t.d.decoders, t.accepted)
    requires Fits(plan, t.d.decoders, m) && IsNew(t.accepted, m)
    ensures Place(t.d, m).1
  {
    var f, dec := m.Frame(), m.Decoder();
    DoneMeansNothingNew(plan, t.d.decoders, t.accepted, m);
    assert f !in t.d.complete;
    if f in t.d.early {
      NewMessageMarks(plan, t.d.decoders, t.accepted, m, t.d.early[f][dec]);
    } else {
      PreparedKeeps(t, m);
      PreparedEntries(t.d, m);
      assert StatesSound(Prepared(t.d, m)[f].states, t.accepted, f);
      NewMessageMarks(plan, t.d.decoders, t.accepted, m, Prepared(t.d, m)[f].states[dec]);
    }
  }

  /** Every exactly-once interleaving of a well-formed sender's messages, across frames and
      decoders and with drains anywhere, is accepted without error. */
  lemma {:induction false} WellFormedAccepted(plan: Plan, decoders: nat, evs: seq<Event>)
    requires WellFormed(plan, decoders, Messages(evs))
    ensures Run(decoders, evs).accepted == Messages(evs)
  {
    if evs != [] {
      var n := |evs| - 1;
      var ms := Messages(evs);
      if evs[n].Deliver? {
        assert ms[..|ms| - 1] == Messages(evs[..n]);
      }
      WellFormedAccepted(plan, decoders, evs[..n]);
      var t := Run(decoders, evs[..n]);
      ReachableInv(decoders, evs[..n]);
      if evs[n].Deliver? {
        NewMessageIsPlaced(plan, t, evs[n].msg);
        ReportIsPlaceThenSettle(t, evs[n].msg);
      }
    }
  }
}
