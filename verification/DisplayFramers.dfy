/** The framer of one display as the client implements it: a mutable object, with the loops
    that fill gaps and force old frames out (aperturec-client/src/frame.rs:536-712). */
module DisplayFramers {
  import opened Common
  import opened Geometry
  import opened Painting
  import opened DecoderFrames
  import opened Framing
  import opened FramingInvariants
  import opened FramingTheorems
  import opened Pipeline

  /** The largest key, `keys().last()` of an ordered map. */
  method MaxKey(m: map<nat, InFlightFrame>) returns (k: nat)
    requires m != map[]
    ensures k in m && forall j :: j in m ==> j <= k
  {
    var rest := m.Keys;
    assert rest != {};
    k :| k in rest;
    rest := rest - {k};
    while rest != {}
      invariant k in m && rest <= m.Keys
      invariant forall j :: j in m && j !in rest ==> j <= k
    {
      var j :| j in rest;
      rest := rest - {j};
      if j > k {
        k := j;
      }
    }
  }

  lemma {:induction false} FragmentsBelowAgree(m: map<nat, InFlightFrame>, m': map<nat, InFlightFrame>, hi: nat)
    requires forall f :: f < hi ==> (f in m <==> f in m') && (f in m ==> m[f] == m'[f])
    ensures FragmentsBelow(m, hi) == FragmentsBelow(m', hi)
  {
    if hi > 0 {
      FragmentsBelowAgree(m, m', hi - 1);
    }
  }

  /** The entries the gap-filling loop has created when it stands at `hi`. */
  function Filled(m: map<nat, InFlightFrame>, decoders: nat, lo: nat, hi: nat): map<nat, InFlightFrame>
    requires lo <= hi
  {
    if hi == lo then m else WithEntry(Filled(m, decoders, lo, hi - 1), decoders, hi - 1)
  }

  /** `r` is `m` with the created frame at lo <= f < hi wherever `m` has none. */
  ghost predicate FilledBetween<V>(r: map<nat, V>, m: map<nat, V>, created: V, lo: nat, hi: nat) {
    (forall f :: f in m ==> f in r && r[f] == m[f]) &&
    (forall f :: f in r && f !in m ==> lo <= f < hi && r[f] == created) &&
    (forall f :: lo <= f < hi ==> f in r)
  }

  lemma {:induction false} FilledEntries(m: map<nat, InFlightFrame>, decoders: nat, lo: nat, hi: nat)
    requires lo <= hi
    ensures FilledBetween(Filled(m, decoders, lo, hi), m, NewFrame(decoders), lo, hi)
  {
    if lo < hi {
      FilledEntries(m, decoders, lo, hi - 1);
    }
  }

  lemma FillGapsEntries(m: map<nat, InFlightFrame>, decoders: nat, max: nat, frame: nat)
    requires max in m && forall k :: k in m ==> k <= max
    ensures FilledBetween(FillGaps(m, decoders, frame), m, NewFrame(decoders), max, if max < frame then frame else max)
  {
    forall f: nat | f < frame ensures AboveAll(m, f) <==> max < f {
      AboveMax(m, max, f);
    }
  }

  lemma AboveMax(m: map<nat, InFlightFrame>, max: nat, f: nat)
    requires max in m && forall k :: k in m ==> k <= max
    ensures AboveAll(m, f) <==> max < f
  {}

  lemma FilledIsUnique<V>(a: map<nat, V>, b: map<nat, V>, m: map<nat, V>, created: V, lo: nat, hi: nat)
    requires FilledBetween(a, m, created, lo, hi) && FilledBetween(b, m, created, lo, hi)
    ensures a == b
  {
    assert a.Keys == b.Keys;
  }

  lemma FilledIsFillGaps(m: map<nat, InFlightFrame>, decoders: nat, max: nat, frame: nat)
    requires max in m && forall k :: k in m ==> k <= max
    ensures Filled(m, decoders, max, if max < frame then frame else max) == FillGaps(m, decoders, frame)
  {
    var hi := if max < frame then frame else max;
    FilledEntries(m, decoders, max, hi);
    FillGapsEntries(m, decoders, max, frame);
    FilledIsUnique(Filled(m, decoders, max, hi), FillGaps(m, decoders, frame), m, NewFrame(decoders), max, hi);
  }

  lemma SameMap<V>(a: map<nat, V>, b: map<nat, V>)
    requires forall k: nat :: (k in a <==> k in b) && (k in a ==> a[k] == b[k])
    ensures a == b
  {
    assert a.Keys == b.Keys;
  }

  /** The state of the forcing loop when it stands at `hi`. */
  function ForceOut(d: Display, m: map<nat, InFlightFrame>, hi: nat): Display {
    if hi == 0 then d
    else
      var before := ForceOut(d, m, hi - 1);
      if hi - 1 !in m then before
      else if AllComplete(m[hi - 1].states) then
        before.(complete := before.complete + {hi - 1}, queue := before.queue + m[hi - 1].fragments)
      else
        before.(early := before.early[hi - 1 := m[hi - 1].states], queue := before.queue + m[hi - 1].fragments)
  }

  predicate ForcedEarly(m: map<nat, InFlightFrame>, k: nat, hi: nat) {
    k in m && k < hi && !AllComplete(m[k].states)
  }

  lemma {:induction false} ForceOutEffect(d: Display, m: map<nat, InFlightFrame>, hi: nat)
    ensures
      var d' := ForceOut(d, m, hi);
      d'.decoders == d.decoders && d'.inFlight == d.inFlight && d'.queue == d.queue + FragmentsBelow(m, hi)
    ensures forall k: nat ::
      var d' := ForceOut(d, m, hi);
      (k in d'.early <==> k in d.early || ForcedEarly(m, k, hi)) &&
      (k in d'.early ==> d'.early[k] == if ForcedEarly(m, k, hi) then m[k].states else d.early[k]) &&
      (k in d'.complete <==> k in d.complete || (k in m && k < hi && AllComplete(m[k].states)))
  {
    if hi > 0 {
      ForceOutEffect(d, m, hi - 1);
    }
  }

  lemma ForceOutIsFlush(d: Display, frame: nat)
    ensures
      var kept := map id | id in d.inFlight && id >= frame :: d.inFlight[id];
      var needs := map id | id in d.inFlight && id < frame :: d.inFlight[id];
      ForceOut(d.(inFlight := kept), needs, frame) == FlushBelow(d, frame)
  {
    var kept := map id | id in d.inFlight && id >= frame :: d.inFlight[id];
    var needs := map id | id in d.inFlight && id < frame :: d.inFlight[id];
    var forced := ForceOut(d.(inFlight := kept), needs, frame);
    ForceOutEffect(d.(inFlight := kept), needs, frame);
    FragmentsBelowAgree(needs, d.inFlight, frame);
    SameMap(forced.early, FlushBelow(d, frame).early);
    assert forced.complete == FlushBelow(d, frame).complete;
  }

  class DisplayFramer {
    const decoderAreas: seq<Rect>
    var inFlight: map<nat, InFlightFrame>
    var earlyDraw: map<nat, seq<DecoderState>>
    var complete: set<nat>
    var undrawn: seq<Fragment>
    ghost var events: seq<Event>  // everything that has happened to this framer

    ghost function State(): Display
      reads this
    {
      Display(|decoderAreas|, inFlight, earlyDraw, complete, undrawn)
    }

    ghost function History(): Trace
      reads this
    {
      Run(|decoderAreas|, events)
    }

    /** The object is in the state that its events determine. */
    ghost predicate Valid()
      reads this
    {
      State() == History().d && Drawable(decoderAreas, undrawn)
    }

    constructor (areas: seq<Rect>)
      ensures Valid() && decoderAreas == areas && events == []
    {
      decoderAreas := areas;
      inFlight, earlyDraw, complete, undrawn := map[], map[], {}, [];
      events := [];
    }

    /** Creates the frames between the largest one in flight and `frame`. */
    method FillGapsBelow(frame: nat)
      modifies `inFlight
      ensures inFlight == FillGaps(old(inFlight), |decoderAreas|, frame)
    {
      if inFlight != map[] {
        var max := MaxKey(inFlight);
        for f := max to if max < frame then frame else max
          invariant inFlight == Filled(old(inFlight), |decoderAreas|, max, f)
        {
          inFlight := WithEntry(inFlight, |decoderAreas|, f);
        }
        FilledIsFillGaps(old(inFlight), |decoderAreas|, max, frame);
      }
    }

    /** Records a decoded fragment with its frame, early drawn or in flight. */
    method RecordFragment(frag: Fragment) returns (ok: bool)
      modifies `inFlight, `earlyDraw, `undrawn
      ensures (State(), ok) == PlaceFragment(old(State()), frag)
    {
      if frag.frame in earlyDraw {
        var states := earlyDraw[frag.frame];
        if frag.decoder >= |states| { return false; }
        var marked := MarkSequence(states[frag.decoder], frag.sequence, frag.terminal);
        if marked == None { return false; }
        earlyDraw := earlyDraw[frag.frame := states[frag.decoder := marked.value]];
        undrawn := undrawn + [frag];
      } else {
        FillGapsBelow(frag.frame);
        inFlight := WithEntry(inFlight, |decoderAreas|, frag.frame);
        var entry := inFlight[frag.frame];
        if frag.decoder >= |entry.states| { return false; }
        var marked := MarkSequence(entry.states[frag.decoder], frag.sequence, frag.terminal);
        if marked == None { return false; }
        inFlight := inFlight[frag.frame :=
          InFlightFrame(entry.states[frag.decoder := marked.value], entry.fragments + [frag])];
      }
      ok := true;
    }

    /** Records an empty terminal with its frame, early drawn or in flight. */
    method RecordEmpty(frame: nat, decoder: nat) returns (ok: bool)
      modifies `inFlight, `earlyDraw
      ensures (State(), ok) == PlaceEmpty(old(State()), frame, decoder)
    {
      if frame in earlyDraw {
        var states := earlyDraw[frame];
        if decoder >= |states| { return false; }
        var marked := MarkEmpty(states[decoder]);
        if marked == None { return false; }
        earlyDraw := earlyDraw[frame := states[decoder := marked.value]];
      } else {
        inFlight := WithEntry(inFlight, |decoderAreas|, frame);
        var entry := inFlight[frame];
        if decoder >= |entry.states| { return false; }
        var marked := MarkEmpty(entry.states[decoder]);
        if marked == None { return false; }
        inFlight := inFlight[frame := entry.(states := entry.states[decoder := marked.value])];
      }
      ok := true;
    }

    /** A fragment arrives: any message at all is dealt with, the state stays valid, and
        `unreachable!` is never reached. */
    method ReportFragment(e: EncodedFragment) returns (outcome: Outcome)
      requires Valid()
      modifies this
      ensures Valid() && outcome != Unreachable
      ensures events == old(events) + [Deliver(FragmentMsg(e))]
      ensures outcome == Report(old(State()), FragmentMsg(e)).1
    {
      Accepts(events, FragmentMsg(e), decoderAreas);
      events := events + [Deliver(FragmentMsg(e))];
      if e.decoder >= |decoderAreas| || e.frame in complete { return Err; }
      var decoded := Decode(e);
      if decoded == None { return Err; }
      var ok := RecordFragment(decoded.value);
      if !ok { return Err; }
      outcome := Ok;
      if e.terminal {
        outcome := ReportTerminal(e.frame, e.decoder);
      }
    }

    /** An empty terminal arrives. */
    method ReportEmptyTerminal(frame: nat, decoder: nat) returns (outcome: Outcome)
      requires Valid()
      modifies this
      ensures Valid() && outcome != Unreachable
      ensures events == old(events) + [Deliver(EmptyTerminal(frame, decoder))]
      ensures outcome == Report(old(State()), EmptyTerminal(frame, decoder)).1
    {
      Accepts(events, EmptyTerminal(frame, decoder), decoderAreas);
      events := events + [Deliver(EmptyTerminal(frame, decoder))];
      if decoder >= |decoderAreas| || frame in complete { return Err; }
      var ok := RecordEmpty(frame, decoder);
      if !ok { return Err; }
      outcome := ReportTerminal(frame, decoder);
    }

    method ReportTerminal(frame: nat, decoder: nat) returns (outcome: Outcome)
      modifies `inFlight, `earlyDraw, `complete, `undrawn
      ensures (State(), outcome) == Framing.ReportTerminal(old(State()), frame, decoder)
    {
      if frame in complete || decoder >= |decoderAreas| { return Err; }
      if frame in earlyDraw {
        var states := earlyDraw[frame];
        earlyDraw := earlyDraw - {frame};
        if AllComplete(states) {
          complete := complete + {frame};
        } else {
          earlyDraw := earlyDraw[frame := states];
          assert earlyDraw == old(earlyDraw);
        }
        return Ok;
      }
      if frame !in inFlight { return Unreachable; }
      var entry := inFlight[frame];
      inFlight := inFlight - {frame};
      if AllComplete(entry.states) {
        complete := complete + {frame};
        undrawn := undrawn + entry.fragments;
        ForceOutBelow(frame);
      } else {
        inFlight := inFlight[frame := entry];
        assert inFlight == old(inFlight);
      }
      return Ok;
    }

    /** Forces every frame below `frame` out of `inFlight`, in increasing order. */
    method ForceOutBelow(frame: nat)
      modifies `inFlight, `earlyDraw, `complete, `undrawn
      ensures State() == FlushBelow(old(State()), frame)
    {
      var before := inFlight;
      inFlight := map id | id in before && id >= frame :: before[id];
      var needsEarlyDraw := map id | id in before && id < frame :: before[id];
      ghost var start := State();
      for id := 0 to frame
        invariant State() == ForceOut(start, needsEarlyDraw, id)
      {
        if id in needsEarlyDraw {
          var forced := needsEarlyDraw[id];
          if AllComplete(forced.states) {
            complete := complete + {id};
          } else {
            earlyDraw := earlyDraw[id := forced.states];
          }
          undrawn := undrawn + forced.fragments;
        }
      }
      ForceOutIsFlush(old(State()), frame);
    }

    /** Hands the queued fragments out as draws. */
    method GetDrawsAndReset() returns (draws: seq<Draw>)
      requires Valid()
      modifies this
      ensures Valid() && events == old(events) + [Drain]
      ensures draws == ToDraws(decoderAreas, old(undrawn)) && |draws| == |old(undrawn)|
      ensures forall k :: 0 <= k < |draws| ==>
        var x := old(undrawn)[k];
        draws[k].frame == x.frame && draws[k].pixels == x.pixmap &&
        draws[k].origin.x == decoderAreas[x.decoder].origin.x + x.origin.x &&
        draws[k].origin.y == decoderAreas[x.decoder].origin.y + x.origin.y
    {
      assert (events + [Drain])[..|events|] == events;
      draws := ToDraws(decoderAreas, undrawn);
      events := events + [Drain];
      undrawn := [];
    }

    method HasDraws() returns (b: bool)
      ensures b <==> undrawn != []
    {
      b := undrawn != [];
    }
  }

  /** What one delivery keeps, and that it never reaches the `unreachable!` arm. */
  lemma Accepts(evs: seq<Event>, m: Message, areas: seq<Rect>)
    requires Drawable(areas, Run(|areas|, evs).d.queue)
    ensures Run(|areas|, evs + [Deliver(m)]).d == Report(Run(|areas|, evs).d, m).0
    ensures Report(Run(|areas|, evs).d, m).1 != Unreachable
    ensures Drawable(areas, Report(Run(|areas|, evs).d, m).0.queue)
  {
    assert (evs + [Deliver(m)])[..|evs|] == evs;
    var t := Run(|areas|, evs);
    ReachableInv(|areas|, evs);
    ReportIsPlaceThenSettle(t, m);
    QueueInRange(t, m);
  }

  lemma {:induction false} FragmentsBelowInRange(m: map<nat, InFlightFrame>, decoders: nat, hi: nat)
    requires forall f :: f in m ==> OwnFragments(m[f].fragments, f, decoders)
    ensures forall x :: x in FragmentsBelow(m, hi) ==> x.decoder < decoders
  {
    if hi > 0 {
      FragmentsBelowInRange(m, decoders, hi - 1);
    }
  }

  lemma QueueInRange(t: Trace, m: Message)
    requires Inv(t) && forall x :: x in t.d.queue ==> x.decoder < t.d.decoders
    ensures forall x :: x in Report(t.d, m).0.queue ==> x.decoder < t.d.decoders
  {
    ReportIsPlaceThenSettle(t, m);
    PlaceKeeps(t, m);
    PlaceIsMark(t.d, m);
    var placed := Place(t.d, m).0;
    assert forall x :: x in placed.queue ==> x.decoder < t.d.decoders;
    SettleInRange(placed, m.Frame());
  }

  lemma SettleInRange(d: Display, frame: nat)
    requires Shape(d) && forall x :: x in d.queue ==> x.decoder < d.decoders
    ensures forall x :: x in Settle(d, frame).queue ==> x.decoder < d.decoders
  {
    FragmentsBelowInRange(d.inFlight - {frame}, d.decoders, frame);
  }
}
