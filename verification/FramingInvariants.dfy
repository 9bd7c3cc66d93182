/** What every step of a display's framer keeps, for any sequence of messages, well formed or
    not, and any placement of drains. */
module FramingInvariants {
  import opened Common
  import opened Painting
  import opened DecoderFrames
  import opened Framing

  // ----- What a history of accepted messages contains -----

  function Seqs(acc: seq<Message>, f: nat, dec: nat): set<nat> {
    if acc == [] then {}
    else
      var m := acc[|acc| - 1];
      var before := Seqs(acc[..|acc| - 1], f, dec);
      if m.FragmentMsg? && m.encoded.frame == f && m.encoded.decoder == dec
      then before + {m.encoded.sequence} else before
  }

  function Terms(acc: seq<Message>, f: nat, dec: nat): set<nat> {
    if acc == [] then {}
    else
      var m := acc[|acc| - 1];
      var before := Terms(acc[..|acc| - 1], f, dec);
      if m.FragmentMsg? && m.encoded.frame == f && m.encoded.decoder == dec && m.encoded.terminal
      then before + {m.encoded.sequence} else before
  }

  predicate Emptied(acc: seq<Message>, f: nat, dec: nat) {
    EmptyTerminal(f, dec) in acc
  }

  function FragmentsOf(acc: seq<Message>): multiset<Fragment> {
    if acc == [] then multiset{}
    else
      var m := acc[|acc| - 1];
      var before := FragmentsOf(acc[..|acc| - 1]);
      if m.FragmentMsg? && Decode(m.encoded).Some?
      then before + multiset{Decode(m.encoded).value} else before
  }

  // ----- The invariants -----

  predicate DecoderDone(acc: seq<Message>, f: nat, dec: nat) {
    Done(Seqs(acc, f, dec), Terms(acc, f, dec), Emptied(acc, f, dec))
  }

  predicate StatesSound(states: seq<DecoderState>, acc: seq<Message>, f: nat) {
    forall i :: 0 <= i < |states| ==>
      Sound(states[i], Seqs(acc, f, i), Terms(acc, f, i), Emptied(acc, f, i))
  }

  /** No recorded state claims more than the history holds, and every complete frame is
      really complete on every decoder. */
  predicate AllSound(d: Display, acc: seq<Message>) {
    (forall f :: f in d.inFlight ==> StatesSound(d.inFlight[f].states, acc, f)) &&
    (forall f :: f in d.early ==> StatesSound(d.early[f], acc, f)) &&
    (forall f, i: nat :: f in d.complete && i < d.decoders ==> DecoderDone(acc, f, i))
  }

  predicate OwnFragments(frags: seq<Fragment>, f: nat, decoders: nat) {
    forall i :: 0 <= i < |frags| ==> frags[i].frame == f && frags[i].decoder < decoders
  }

  predicate Shape(d: Display) {
    (forall f :: f in d.inFlight ==>
      0 < d.decoders == |d.inFlight[f].states| && OwnFragments(d.inFlight[f].fragments, f, d.decoders)) &&
    (forall f :: f in d.early ==> |d.early[f]| == d.decoders)
  }

  /** The collections are not disjoint, but a frame in flight that is also early drawn or
      complete is as good as new. */
  predicate OverlapIsFresh(d: Display) {
    forall f :: f in d.inFlight && (f in d.early || f in d.complete) ==> d.inFlight[f] == NewFrame(d.decoders)
  }

  function HeldCount(d: Display, x: Fragment): nat {
    if x.frame in d.inFlight then multiset(d.inFlight[x.frame].fragments)[x] else 0
  }

  /** Accepted fragments are exactly those drawn, queued or held in flight. */
  ghost predicate Conserved(t: Trace) {
    forall x: Fragment :: FragmentsOf(t.accepted)[x]
      == multiset(t.drawn)[x] + multiset(t.d.queue)[x] + HeldCount(t.d, x)
  }

  /** Every early drawn frame has a larger complete frame. */
  predicate Barrier(d: Display) {
    forall f :: f in d.early ==> exists g :: g in d.complete && g > f
  }

  ghost predicate Inv(t: Trace) {
    Shape(t.d) && OverlapIsFresh(t.d) && AllSound(t.d, t.accepted) && Conserved(t) && Barrier(t.d)
  }

  // ----- History extended by one message -----

  lemma Extend(acc: seq<Message>, m: Message, f: nat, dec: nat)
    ensures Seqs(acc + [m], f, dec) == Seqs(acc, f, dec) +
      (if m.FragmentMsg? && m.Frame() == f && m.Decoder() == dec then {m.encoded.sequence} else {})
    ensures Terms(acc + [m], f, dec) == Terms(acc, f, dec) +
      (if m.FragmentMsg? && m.Frame() == f && m.Decoder() == dec && m.encoded.terminal
       then {m.encoded.sequence} else {})
    ensures Emptied(acc + [m], f, dec) == (Emptied(acc, f, dec) || m == EmptyTerminal(f, dec))
    ensures FragmentsOf(acc + [m]) == FragmentsOf(acc) +
      (if m.FragmentMsg? && Decode(m.encoded).Some? then multiset{Decode(m.encoded).value} else multiset{})
  {
    assert (acc + [m])[..|acc|] == acc;
  }

  lemma StatesSoundExtend(states: seq<DecoderState>, acc: seq<Message>, m: Message, f: nat)
    requires StatesSound(states, acc, f)
    ensures StatesSound(states, acc + [m], f)
  {
    forall i | 0 <= i < |states|
      ensures Sound(states[i], Seqs(acc + [m], f, i), Terms(acc + [m], f, i), Emptied(acc + [m], f, i))
    {
      Extend(acc, m, f, i);
      SoundMonotone(states[i], Seqs(acc, f, i), Terms(acc, f, i), Emptied(acc, f, i),
                    Seqs(acc + [m], f, i), Terms(acc + [m], f, i), Emptied(acc + [m], f, i));
    }
  }

  lemma DoneExtend(acc: seq<Message>, m: Message, f: nat, dec: nat)
    requires DecoderDone(acc, f, dec)
    ensures DecoderDone(acc + [m], f, dec)
  {
    Extend(acc, m, f, dec);
    SoundMonotone(Complete, Seqs(acc, f, dec), Terms(acc, f, dec), Emptied(acc, f, dec),
                  Seqs(acc + [m], f, dec), Terms(acc + [m], f, dec), Emptied(acc + [m], f, dec));
  }

  lemma AllSoundExtend(d: Display, acc: seq<Message>, m: Message)
    requires AllSound(d, acc)
    ensures AllSound(d, acc + [m])
  {
    forall f | f in d.inFlight ensures StatesSound(d.inFlight[f].states, acc + [m], f) {
      StatesSoundExtend(d.inFlight[f].states, acc, m, f);
    }
    forall f | f in d.early ensures StatesSound(d.early[f], acc + [m], f) {
      StatesSoundExtend(d.early[f], acc, m, f);
    }
    forall f, i: nat | f in d.complete && i < d.decoders ensures DecoderDone(acc + [m], f, i) {
      DoneExtend(acc, m, f, i);
    }
  }

  /** One decoder's state marked, the others as they were. */
  lemma MarkedSound(states: seq<DecoderState>, acc: seq<Message>, m: Message, st: DecoderState)
    requires StatesSound(states, acc, m.Frame()) && m.Decoder() < |states|
    requires match m
      case FragmentMsg(e) => MarkSequence(states[m.Decoder()], e.sequence, e.terminal) == Some(st)
      case EmptyTerminal(_, _) => MarkEmpty(states[m.Decoder()]) == Some(st)
    ensures StatesSound(states[m.Decoder() := st], acc + [m], m.Frame())
  {
    var f, dec := m.Frame(), m.Decoder();
    StatesSoundExtend(states, acc, m, f);
    Extend(acc, m, f, dec);
    if m.FragmentMsg? {
      MarkSequenceSound(states[dec], m.encoded.sequence, m.encoded.terminal,
                        Seqs(acc, f, dec), Terms(acc, f, dec), Emptied(acc, f, dec));
    }
  }

  // ----- The placing stage -----

  /** `Report` up to, and without, the call of `report_terminal`. */
  function Place(d: Display, m: Message): (Display, bool) {
    if m.Decoder() >= d.decoders || m.Frame() in d.complete then (d, false)
    else match m
      case FragmentMsg(e) =>
        (match Decode(e) case None => (d, false) case Some(frag) => PlaceFragment(d, frag))
      case EmptyTerminal(f, dec) => PlaceEmpty(d, f, dec)
  }

  /** The frames of `inFlight` before the message is recorded: fresh entries are added. */
  function Prepared(d: Display, m: Message): map<nat, InFlightFrame> {
    if m.FragmentMsg? then WithEntry(FillGaps(d.inFlight, d.decoders, m.Frame()), d.decoders, m.Frame())
    else WithEntry(d.inFlight, d.decoders, m.Frame())
  }

  lemma PreparedEntries(d: Display, m: Message)
    ensures d.inFlight.Keys <= Prepared(d, m).Keys && m.Frame() in Prepared(d, m)
    ensures forall f :: f in Prepared(d, m) ==>
      Prepared(d, m)[f] == if f in d.inFlight then d.inFlight[f] else NewFrame(d.decoders)
  {}

  lemma PreparedKeeps(t: Trace, m: Message)
    requires Inv(t) && 0 < t.d.decoders
    ensures Inv(t.(d := t.d.(inFlight := Prepared(t.d, m))))
  {
    PreparedEntries(t.d, m);
    var d' := t.d.(inFlight := Prepared(t.d, m));
    forall f | f in d'.inFlight ensures StatesSound(d'.inFlight[f].states, t.accepted, f) {}
    forall x: Fragment ensures HeldCount(d', x) == HeldCount(t.d, x) {}
  }

  /** The fragment a message brings, if any. */
  function Brought(m: Message): seq<Fragment> {
    if m.FragmentMsg? && Decode(m.encoded).Some? then [Decode(m.encoded).value] else []
  }

  /** The mark the message puts on a decoder state. */
  function Mark(st: DecoderState, m: Message): Option<DecoderState> {
    match m
    case FragmentMsg(e) => if Decode(e).Some? then MarkSequence(st, e.sequence, e.terminal) else None
    case EmptyTerminal(_, _) => MarkEmpty(st)
  }

  function MarkEarly(d: Display, m: Message, st: DecoderState): Display
    requires m.Frame() in d.early && m.Decoder() < |d.early[m.Frame()]|
  {
    d.(early := d.early[m.Frame() := d.early[m.Frame()][m.Decoder() := st]], queue := d.queue + Brought(m))
  }

  function MarkInFlight(d: Display, m: Message, st: DecoderState): Display
    requires m.Frame() in d.inFlight && m.Decoder() < |d.inFlight[m.Frame()].states|
  {
    var entry := d.inFlight[m.Frame()];
    d.(inFlight := d.inFlight[m.Frame() :=
         InFlightFrame(entry.states[m.Decoder() := st], entry.fragments + Brought(m))])
  }

  /** Placing is marking, in the early drawn frame or in the prepared frame in flight. */
  lemma PlaceIsMark(d: Display, m: Message)
    requires Shape(d)
    ensures
      var (d', ok) := Place(d, m);
      var prepared := d.(inFlight := Prepared(d, m));
      (!ok ==> d' == d || (0 < d.decoders && d' == prepared)) &&
      (ok ==> m.Decoder() < d.decoders && m.Frame() !in d.complete) &&
      (ok && m.Frame() in d.early ==> CanMarkEarly(d, m) && d' == EarlyMarked(d, m)) &&
      (ok && m.Frame() !in d.early ==> CanMarkInFlight(prepared, m) && d' == InFlightMarked(prepared, m))
  {
    PreparedEntries(d, m);
    if m.EmptyTerminal? {
      assert d.queue + Brought(m) == d.queue;
      if m.Frame() !in d.early {
        var entry := Prepared(d, m)[m.Frame()];
        assert entry.fragments + Brought(m) == entry.fragments;
      }
    }
  }

  lemma BroughtConserved(acc: seq<Message>, m: Message)
    ensures FragmentsOf(acc + [m]) == FragmentsOf(acc) + multiset(Brought(m))
  {
    Extend(acc, m, 0, 0);
  }

  ghost predicate CanMarkEarly(d: Display, m: Message) {
    m.Frame() in d.early && m.Frame() !in d.complete && m.Decoder() < |d.early[m.Frame()]| &&
    Mark(d.early[m.Frame()][m.Decoder()], m).Some?
  }

  function EarlyMarked(d: Display, m: Message): Display
    requires CanMarkEarly(d, m)
  {
    MarkEarly(d, m, Mark(d.early[m.Frame()][m.Decoder()], m).value)
  }

  lemma MarkEarlySound(d: Display, acc: seq<Message>, m: Message)
    requires CanMarkEarly(d, m) && AllSound(d, acc)
    ensures AllSound(EarlyMarked(d, m), acc + [m])
  {
    AllSoundExtend(d, acc, m);
    MarkedSound(d.early[m.Frame()], acc, m, Mark(d.early[m.Frame()][m.Decoder()], m).value);
  }

  lemma MarkEarlyConserved(t: Trace, m: Message)
    requires CanMarkEarly(t.d, m) && Conserved(t)
    ensures Conserved(Trace(EarlyMarked(t.d, m), t.accepted + [m], t.drawn))
  {
    BroughtConserved(t.accepted, m);
    forall x: Fragment ensures HeldCount(EarlyMarked(t.d, m), x) == HeldCount(t.d, x) {}
  }

  lemma MarkEarlyKeeps(t: Trace, m: Message)
    requires Inv(t) && CanMarkEarly(t.d, m)
    ensures Inv(Trace(EarlyMarked(t.d, m), t.accepted + [m], t.drawn))
  {
    MarkEarlySound(t.d, t.accepted, m);
    MarkEarlyConserved(t, m);
  }

  ghost predicate CanMarkInFlight(d: Display, m: Message) {
    m.Frame() !in d.early && m.Frame() in d.inFlight && m.Frame() !in d.complete &&
    m.Decoder() < |d.inFlight[m.Frame()].states| &&
    Mark(d.inFlight[m.Frame()].states[m.Decoder()], m).Some?
  }

  function InFlightMarked(d: Display, m: Message): Display
    requires CanMarkInFlight(d, m)
  {
    MarkInFlight(d, m, Mark(d.inFlight[m.Frame()].states[m.Decoder()], m).value)
  }

  lemma MarkInFlightSound(d: Display, acc: seq<Message>, m: Message)
    requires CanMarkInFlight(d, m) && AllSound(d, acc)
    ensures AllSound(InFlightMarked(d, m), acc + [m])
  {
    AllSoundExtend(d, acc, m);
    MarkedSound(d.inFlight[m.Frame()].states, acc, m,
                Mark(d.inFlight[m.Frame()].states[m.Decoder()], m).value);
  }

  lemma HeldAfterMark(d: Display, m: Message, x: Fragment)
    requires CanMarkInFlight(d, m)
    ensures HeldCount(InFlightMarked(d, m), x) == HeldCount(d, x) + multiset(Brought(m))[x]
  {
    var entry := d.inFlight[m.Frame()];
    assert multiset(entry.fragments + Brought(m)) == multiset(entry.fragments) + multiset(Brought(m));
    if x.frame != m.Frame() {
      assert x !in Brought(m);
    }
  }

  lemma MarkInFlightConserved(t: Trace, m: Message)
    requires CanMarkInFlight(t.d, m) && Conserved(t)
    ensures Conserved(Trace(InFlightMarked(t.d, m), t.accepted + [m], t.drawn))
  {
    BroughtConserved(t.accepted, m);
    var t' := Trace(InFlightMarked(t.d, m), t.accepted + [m], t.drawn);
    forall x: Fragment
      ensures FragmentsOf(t'.accepted)[x] == multiset(t'.drawn)[x] + multiset(t'.d.queue)[x] + HeldCount(t'.d, x)
    {
      HeldAfterMark(t.d, m, x);
    }
  }

  lemma MarkInFlightKeeps(t: Trace, m: Message)
    requires Inv(t) && CanMarkInFlight(t.d, m)
    ensures Inv(Trace(InFlightMarked(t.d, m), t.accepted + [m], t.drawn))
  {
    MarkInFlightSound(t.d, t.accepted, m);
    MarkInFlightConserved(t, m);
  }

  /** A recorded message leaves every invariant intact, with the message added to the history;
      a refused one may only have created fresh frames. */
  lemma PlaceKeeps(t: Trace, m: Message)
    requires Inv(t)
    ensures Inv(Trace(Place(t.d, m).0, if Place(t.d, m).1 then t.accepted + [m] else t.accepted, t.drawn))
    ensures Place(t.d, m).1 ==>
      var d' := Place(t.d, m).0; m.Frame() in d'.early || m.Frame() in d'.inFlight
    ensures Place(t.d, m).0.complete == t.d.complete && Place(t.d, m).0.decoders == t.d.decoders
  {
    PlaceIsMark(t.d, m);
    var (d', ok) := Place(t.d, m);
    if d' != t.d || ok {
      if m.Frame() in t.d.early && ok {
        MarkEarlyKeeps(t, m);
      } else {
        PreparedKeeps(t, m);
        if ok {
          MarkInFlightKeeps(t.(d := t.d.(inFlight := Prepared(t.d, m))), m);
        }
      }
    }
  }

  // ----- The settling stage -----

  lemma {:induction false} FragmentsBelowCount(m: map<nat, InFlightFrame>, decoders: nat, hi: nat, x: Fragment)
    requires forall f :: f in m ==> OwnFragments(m[f].fragments, f, decoders)
    ensures multiset(FragmentsBelow(m, hi))[x]
         == if x.frame < hi && x.frame in m then multiset(m[x.frame].fragments)[x] else 0
  {
    if hi > 0 {
      FragmentsBelowCount(m, decoders, hi - 1, x);
      var top := if hi - 1 in m then m[hi - 1].fragments else [];
      assert multiset(FragmentsBelow(m, hi)) == multiset(FragmentsBelow(m, hi - 1)) + multiset(top);
      if x.frame != hi - 1 {
        assert x !in top;
      }
    }
  }

  lemma FlushConserved(t: Trace, frame: nat)
    requires Shape(t.d) && Conserved(t)
    ensures Conserved(t.(d := FlushBelow(t.d, frame)))
  {
    var t' := t.(d := FlushBelow(t.d, frame));
    forall x: Fragment
      ensures FragmentsOf(t'.accepted)[x] == multiset(t'.drawn)[x] + multiset(t'.d.queue)[x] + HeldCount(t'.d, x)
    {
      FragmentsBelowCount(t.d.inFlight, t.d.decoders, frame, x);
    }
  }

  lemma CompleteStatesDone(states: seq<DecoderState>, acc: seq<Message>, f: nat, dec: nat)
    requires StatesSound(states, acc, f) && AllComplete(states) && dec < |states|
    ensures DecoderDone(acc, f, dec)
  {
    assert states[dec].Complete?;
  }

  lemma FlushSound(d: Display, acc: seq<Message>, frame: nat)
    requires Shape(d) && AllSound(d, acc)
    ensures AllSound(FlushBelow(d, frame), acc)
  {
    var d' := FlushBelow(d, frame);
    forall f, i: nat | f in d'.complete && i < d'.decoders ensures DecoderDone(acc, f, i) {
      if f !in d.complete {
        CompleteStatesDone(d.inFlight[f].states, acc, f, i);
      }
    }
  }

  lemma FlushKeeps(t: Trace, frame: nat)
    requires Inv(t) && frame in t.d.complete
    ensures Inv(t.(d := FlushBelow(t.d, frame)))
  {
    FlushConserved(t, frame);
    FlushSound(t.d, t.accepted, frame);
  }

  /** A completed frame in flight moves to `complete` and its fragments to the queue. */
  lemma ReleaseKeeps(t: Trace, frame: nat)
    requires Inv(t) && frame !in t.d.early && frame in t.d.inFlight
    requires AllComplete(t.d.inFlight[frame].states)
    ensures Inv(t.(d := t.d.(inFlight := t.d.inFlight - {frame}, complete := t.d.complete + {frame},
                             queue := t.d.queue + t.d.inFlight[frame].fragments)))
  {
    var d' := t.d.(inFlight := t.d.inFlight - {frame}, complete := t.d.complete + {frame},
                   queue := t.d.queue + t.d.inFlight[frame].fragments);
    forall f, i: nat | f in d'.complete && i < d'.decoders ensures DecoderDone(t.accepted, f, i) {
      if f == frame {
        CompleteStatesDone(t.d.inFlight[f].states, t.accepted, f, i);
      }
    }
    forall x: Fragment
      ensures multiset(d'.queue)[x] + HeldCount(d', x) == multiset(t.d.queue)[x] + HeldCount(t.d, x)
    {
      if x.frame != frame {
        assert x !in t.d.inFlight[frame].fragments;
      }
    }
    forall f | f in d'.early ensures exists g :: g in d'.complete && g > f {
      var g :| g in t.d.complete && g > f;
      assert g in d'.complete;
    }
  }

  lemma SettleKeeps(t: Trace, frame: nat)
    requires Inv(t)
    ensures Inv(t.(d := Settle(t.d, frame)))
  {
    if frame in t.d.early {
      if AllComplete(t.d.early[frame]) {
        var d' := Settle(t.d, frame);
        forall f, i: nat | f in d'.complete && i < d'.decoders ensures DecoderDone(t.accepted, f, i) {
          if f == frame {
            CompleteStatesDone(t.d.early[f], t.accepted, f, i);
          }
        }
        forall x: Fragment ensures HeldCount(d', x) == HeldCount(t.d, x) {}
        forall f | f in d'.early ensures exists g :: g in d'.complete && g > f {
          var g :| g in t.d.complete && g > f;
          assert g in d'.complete;
        }
      }
    } else if frame in t.d.inFlight && AllComplete(t.d.inFlight[frame].states) {
      ReleaseKeeps(t, frame);
      FlushKeeps(t.(d := t.d.(inFlight := t.d.inFlight - {frame}, complete := t.d.complete + {frame},
                              queue := t.d.queue + t.d.inFlight[frame].fragments)), frame);
    }
  }

  // ----- Whole steps and runs -----

  /** In a reachable state a message is accepted exactly when it can be placed, and a terminal
      then settles its frame: `report_terminal` neither fails nor reaches `unreachable!`. */
  lemma ReportIsPlaceThenSettle(t: Trace, m: Message)
    requires Inv(t)
    ensures
      var (placed, ok) := Place(t.d, m);
      Report(t.d, m) == if !ok then (placed, Err)
                        else (if m.IsTerminal() then Settle(placed, m.Frame()) else placed, Ok)
  {
    PlaceKeeps(t, m);
  }

  lemma StepKeeps(t: Trace, ev: Event)
    requires Inv(t)
    ensures Inv(Step(t, ev))
  {
    match ev
    case Deliver(m) =>
      ReportIsPlaceThenSettle(t, m);
      PlaceKeeps(t, m);
      var (placed, ok) := Place(t.d, m);
      if ok && m.IsTerminal() {
        SettleKeeps(Trace(placed, t.accepted + [m], t.drawn), m.Frame());
      }
    case Drain =>
      var t' := Step(t, ev);
      forall x: Fragment ensures HeldCount(t'.d, x) == HeldCount(t.d, x) {}
  }

  /** Every reachable state of every run satisfies the invariants. */
  lemma {:induction false} ReachableInv(decoders: nat, evs: seq<Event>)
    ensures Inv(Run(decoders, evs)) && Run(decoders, evs).d.decoders == decoders
  {
    if evs != [] {
      ReachableInv(decoders, evs[..|evs| - 1]);
      var t := Run(decoders, evs[..|evs| - 1]);
      StepKeeps(t, evs[|evs| - 1]);
      if evs[|evs| - 1].Deliver? {
        ReportIsPlaceThenSettle(t, evs[|evs| - 1].msg);
        PlaceKeeps(t, evs[|evs| - 1].msg);
      }
    }
  }
}
