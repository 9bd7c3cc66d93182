/** The framer of a whole display configuration, and the media channel's main loop that feeds
    it, drains it and replaces it (`Framer` in aperturec-client/src/frame.rs and
    aperturec-client/src/channels/media.rs). */
module MediaRuns {
  import opened Common
  import opened Geometry
  import opened Painting
  import opened Framing
  import opened FramingInvariants
  import opened FramingTheorems
  import opened Pipeline
  import opened DisplayFramers

  datatype DisplayInfo = DisplayInfo(area: Rect, decoderAreas: seq<Rect>)
  datatype Config = Config(id: nat, displays: seq<DisplayInfo>)

  /** A media message; `Malformed` is a fragment that does not convert. */
  datatype MediaMessage =
    | Addressed(config: nat, display: nat, msg: Message)
    | Malformed

  /** What the loop receives: a display configuration or a network message.  Termination and
      network errors leave the framer alone. */
  datatype LoopEvent = NewConfig(config: Config) | Network(message: MediaMessage)

  /** A fragment handed out as a draw, tagged with the configuration in force. */
  datatype Emission = Emission(config: nat, display: nat, fragment: Fragment)

  /** The configuration in force, what each of its displays has been through, and what has
      been handed out. */
  datatype Media = Media(config: Config, runs: seq<seq<Event>>, emitted: seq<Emission>)

  function Decoders(c: Config, i: nat): nat
    requires i < |c.displays|
  {
    |c.displays[i].decoderAreas|
  }

  function TraceOf(m: Media, i: nat): Trace
    requires i < |m.config.displays| == |m.runs|
  {
    Run(Decoders(m.config, i), m.runs[i])
  }

  function StartMedia(c: Config): Media { Media(c, seq(|c.displays|, _ => []), []) }

  function Tagged(config: nat, display: nat, frags: seq<Fragment>): seq<Emission> {
    seq(|frags|, k requires 0 <= k < |frags| => Emission(config, display, frags[k]))
  }

  /** The queues of the displays, in order. */
  function TagAll(config: nat, queues: seq<seq<Fragment>>): seq<Emission> {
    if queues == [] then []
    else TagAll(config, queues[..|queues| - 1]) + Tagged(config, |queues| - 1, queues[|queues| - 1])
  }

  function Queues(m: Media): seq<seq<Fragment>>
    requires |m.config.displays| == |m.runs|
  {
    seq(|m.runs|, i requires 0 <= i < |m.runs| => TraceOf(m, i).d.queue)
  }

  function Queued(m: Media): seq<Emission>
    requires |m.config.displays| == |m.runs|
  {
    TagAll(m.config.id, Queues(m))
  }

  predicate AnyDraws(m: Media)
    requires |m.config.displays| == |m.runs|
  {
    exists i :: 0 <= i < |m.runs| && TraceOf(m, i).d.queue != []
  }

  function DrainAll(m: Media): Media
    requires |m.config.displays| == |m.runs|
  {
    if AnyDraws(m)
    then m.(runs := seq(|m.runs|, i requires 0 <= i < |m.runs| => m.runs[i] + [Drain]),
            emitted := m.emitted + Queued(m))
    else m
  }

  function DeliverTo(m: Media, message: MediaMessage): Media {
    match message
    case Malformed => m
    case Addressed(config, display, msg) =>
      if config != m.config.id || display >= |m.runs| then m
      else m.(runs := m.runs[display := m.runs[display] + [Deliver(msg)]])
  }

  /** One turn of the loop: drain, then one received event. */
  function Turn(m: Media, ev: LoopEvent): Media
    requires |m.config.displays| == |m.runs|
  {
    var drained := DrainAll(m);
    match ev
    case NewConfig(c) => if c.id > m.config.id then StartMedia(c).(emitted := drained.emitted) else drained
    case Network(message) => DeliverTo(drained, message)
  }

  function MediaRun(first: Config, evs: seq<LoopEvent>): (m: Media)
    ensures |m.config.displays| == |m.runs|
  {
    if evs == [] then StartMedia(first)
    else Turn(MediaRun(first, evs[..|evs| - 1]), evs[|evs| - 1])
  }

  // ----- What holds over every run of the loop -----

  predicate Sane(m: Media) {
    |m.config.displays| == |m.runs| && forall k :: 0 <= k < |m.emitted| ==> m.emitted[k].config <= m.config.id
  }

  lemma {:induction false} TagAllCount(config: nat, queues: seq<seq<Fragment>>, e: Emission)
    ensures multiset(TagAll(config, queues))[e]
      == if e.config == config && e.display < |queues| then multiset(queues[e.display])[e.fragment] else 0
  {
    if queues != [] {
      var n := |queues| - 1;
      TagAllCount(config, queues[..n], e);
      TaggedCount(config, n, queues[n], e);
      assert multiset(TagAll(config, queues))[e]
        == multiset(TagAll(config, queues[..n]))[e] + multiset(Tagged(config, n, queues[n]))[e];
    }
  }

  lemma {:induction false} TaggedCount(config: nat, display: nat, frags: seq<Fragment>, e: Emission)
    ensures multiset(Tagged(config, display, frags))[e]
      == if e.config == config && e.display == display then multiset(frags)[e.fragment] else 0
  {
    if frags == [] {
      assert Tagged(config, display, frags) == [];
    } else {
      var n := |frags| - 1;
      TaggedCount(config, display, frags[..n], e);
      assert frags == frags[..n] + [frags[n]];
      assert Tagged(config, display, frags)
          == Tagged(config, display, frags[..n]) + [Emission(config, display, frags[n])];
    }
  }

  lemma QueuedConfig(m: Media)
    requires |m.config.displays| == |m.runs|
    ensures forall e | e in Queued(m) ::
      e.config == m.config.id && e.display < |m.runs| && e.fragment in Queues(m)[e.display]
  {
    forall e | e in Queued(m)
      ensures e.config == m.config.id && e.display < |m.runs| && e.fragment in Queues(m)[e.display]
    {
      assert e in multiset(Queued(m));
      TagAllCount(m.config.id, Queues(m), e);
    }
  }

  lemma DrainedAt(m: Media, i: nat)
    requires i < |m.config.displays| == |m.runs|
    ensures var m' := DrainAll(m);
      TraceOf(m', i).d == TraceOf(m, i).d.(queue := []) &&
      TraceOf(m', i).accepted == TraceOf(m, i).accepted &&
      TraceOf(m', i).drawn == TraceOf(m, i).drawn + TraceOf(m, i).d.queue
  {
    if AnyDraws(m) {
      assert (m.runs[i] + [Drain])[..|m.runs[i]|] == m.runs[i];
    } else {
      assert TraceOf(m, i).d.queue == [];
    }
  }

  /** The configuration id never decreases, and a framer is replaced only by one of a larger
      id, when none of its displays has anything queued. */
  lemma ReplacedOnlyWhenDrained(m: Media, ev: LoopEvent)
    requires |m.config.displays| == |m.runs|
    ensures Turn(m, ev).config.id >= m.config.id
    ensures Turn(m, ev).config != m.config ==>
      Turn(m, ev).config.id > m.config.id &&
      forall i :: 0 <= i < |m.runs| ==> TraceOf(DrainAll(m), i).d.queue == []
  {
    forall i | 0 <= i < |m.runs| ensures TraceOf(DrainAll(m), i).d.queue == [] {
      DrainedAt(m, i);
    }
  }

  /** The configuration id never decreases over a run. */
  lemma {:induction false} ConfigNeverDecreases(first: Config, evs: seq<LoopEvent>, more: seq<LoopEvent>)
    ensures MediaRun(first, evs).config.id <= MediaRun(first, evs + more).config.id
  {
    if more == [] {
      assert evs + more == evs;
    } else {
      var n := |more| - 1;
      assert (evs + more)[..|evs + more| - 1] == evs + more[..n];
      ConfigNeverDecreases(first, evs, more[..n]);
      ReplacedOnlyWhenDrained(MediaRun(first, evs + more[..n]), more[n]);
    }
  }

  /** A message for another configuration changes nothing but the drain that every turn makes;
      a message for the one in force reaches the display it names and no other. */
  lemma OnlyItsDisplay(m: Media, message: MediaMessage, i: nat)
    requires i < |m.config.displays| == |m.runs|
    ensures var m' := Turn(m, Network(message));
      m'.config == m.config && m'.emitted == DrainAll(m).emitted &&
      (message.Malformed? || message.config != m.config.id || message.display != i ==>
        TraceOf(m', i) == TraceOf(DrainAll(m), i)) &&
      (message.Addressed? && message.config == m.config.id && message.display == i ==>
        TraceOf(m', i) == Step(TraceOf(DrainAll(m), i), Deliver(message.msg)))
  {
    var d := DrainAll(m);
    if message.Addressed? {
      assert (d.runs[i] + [Deliver(message.msg)])[..|d.runs[i]|] == d.runs[i];
    }
  }

  /** The fragment of the emission arrived, for its display, in a message for its configuration. */
  ghost predicate CameFrom(evs: seq<LoopEvent>, e: Emission) {
    exists enc :: Network(Addressed(e.config, e.display, FragmentMsg(enc))) in evs && Decode(enc) == Some(e.fragment)
  }

  lemma CameFromExtend(evs: seq<LoopEvent>, ev: LoopEvent, e: Emission)
    requires CameFrom(evs, e)
    ensures CameFrom(evs + [ev], e)
  {
    var enc :| Network(Addressed(e.config, e.display, FragmentMsg(enc))) in evs && Decode(enc) == Some(e.fragment);
    assert Network(Addressed(e.config, e.display, FragmentMsg(enc))) in evs + [ev];
  }

  /** Every message of a display's run came from the network for the configuration in force. */
  ghost predicate RunsComeFrom(m: Media, evs: seq<LoopEvent>) {
    forall i, msg :: 0 <= i < |m.runs| && Deliver(msg) in m.runs[i] ==> Network(Addressed(m.config.id, i, msg)) in evs
  }

  lemma QueuedCameFrom(m: Media, evs: seq<LoopEvent>, e: Emission)
    requires |m.config.displays| == |m.runs| && RunsComeFrom(m, evs) && e in Queued(m)
    ensures CameFrom(evs, e)
  {
    QueuedConfig(m);
    QueuedWasAccepted(Decoders(m.config, e.display), m.runs[e.display], e.fragment);
    var msg :| msg in TraceOf(m, e.display).accepted && e.fragment in Brought(msg);
    AcceptedWasDelivered(Decoders(m.config, e.display), m.runs[e.display], msg);
  }

  lemma DrainKeepsRuns(m: Media, evs: seq<LoopEvent>)
    requires |m.config.displays| == |m.runs| && RunsComeFrom(m, evs)
    ensures RunsComeFrom(DrainAll(m), evs)
  {}

  lemma TurnKeepsRuns(m: Media, evs: seq<LoopEvent>, ev: LoopEvent)
    requires |m.config.displays| == |m.runs| && RunsComeFrom(m, evs)
    ensures RunsComeFrom(Turn(m, ev), evs + [ev])
  {
    DrainKeepsRuns(m, evs);
  }

  /** Every draw ever handed out is a fragment that arrived for the configuration that was in
      force when it was handed out. */
  lemma {:induction false} EmittedCameFrom(first: Config, evs: seq<LoopEvent>)
    ensures RunsComeFrom(MediaRun(first, evs), evs)
    ensures forall e :: e in MediaRun(first, evs).emitted ==> CameFrom(evs, e)
  {
    if evs != [] {
      var n := |evs| - 1;
      var m := MediaRun(first, evs[..n]);
      EmittedCameFrom(first, evs[..n]);
      assert evs == evs[..n] + [evs[n]];
      TurnKeepsRuns(m, evs[..n], evs[n]);
      forall e | e in MediaRun(first, evs).emitted ensures CameFrom(evs, e) {
        if e !in m.emitted {
          assert e in Queued(m);
          QueuedCameFrom(m, evs[..n], e);
        }
        CameFromExtend(evs[..n], evs[n], e);
      }
    }
  }

  /** For the configuration in force, what was handed out for a display is exactly what its
      framer drew. */
  predicate EmittedIsDrawnAt(m: Media, i: nat, x: Fragment)
    requires i < |m.config.displays| == |m.runs|
  {
    multiset(m.emitted)[Emission(m.config.id, i, x)] == multiset(TraceOf(m, i).drawn)[x]
  }

  lemma DrainKeepsEmitted(m: Media, i: nat, x: Fragment)
    requires i < |m.config.displays| == |m.runs| && EmittedIsDrawnAt(m, i, x)
    ensures EmittedIsDrawnAt(DrainAll(m), i, x)
  {
    DrainedAt(m, i);
    TagAllCount(m.config.id, Queues(m), Emission(m.config.id, i, x));
  }

  lemma {:induction false} EmittedIsDrawn(first: Config, evs: seq<LoopEvent>, i: nat, x: Fragment)
    requires i < |MediaRun(first, evs).runs|
    ensures Sane(MediaRun(first, evs)) && EmittedIsDrawnAt(MediaRun(first, evs), i, x)
  {
    if evs != [] {
      var n := |evs| - 1;
      var m := MediaRun(first, evs[..n]);
      EmittedConfigs(first, evs);
      EmittedConfigs(first, evs[..n]);
      if evs[n].NewConfig? && evs[n].config.id > m.config.id {
        QueuedConfig(m);
        assert forall e :: e in DrainAll(m).emitted ==> e.config <= m.config.id;
        assert Emission(evs[n].config.id, i, x) !in DrainAll(m).emitted;
      } else {
        EmittedIsDrawn(first, evs[..n], i, x);
        DrainKeepsEmitted(m, i, x);
        if evs[n].Network? {
          OnlyItsDisplay(m, evs[n].message, i);
        }
      }
    }
  }

  lemma {:induction false} EmittedConfigs(first: Config, evs: seq<LoopEvent>)
    ensures Sane(MediaRun(first, evs))
  {
    if evs != [] {
      var m := MediaRun(first, evs[..|evs| - 1]);
      EmittedConfigs(first, evs[..|evs| - 1]);
      QueuedConfig(m);
    }
  }

  /** Conservation for the whole loop: each fragment accepted for the configuration in force is
      handed out, queued or held, counted once. */
  lemma LoopConservation(first: Config, evs: seq<LoopEvent>, i: nat, x: Fragment)
    requires i < |MediaRun(first, evs).runs|
    ensures
      var m := MediaRun(first, evs);
      FragmentsOf(TraceOf(m, i).accepted)[x]
        == multiset(m.emitted)[Emission(m.config.id, i, x)] + multiset(TraceOf(m, i).d.queue)[x]
         + HeldCount(TraceOf(m, i).d, x)
  {
    var m := MediaRun(first, evs);
    EmittedIsDrawn(first, evs, i, x);
    Conservation(Decoders(m.config, i), m.runs[i], x);
  }

  // ----- Which configuration is in force, told on the events alone -----

  /** The messages among the events that are addressed to a display of a configuration. */
  function AddressedTo(evs: seq<LoopEvent>, config: nat, display: nat): seq<Message> {
    if evs == [] then []
    else
      var last := evs[|evs| - 1];
      AddressedTo(evs[..|evs| - 1], config, display) +
        if last.Network? && last.message.Addressed? && last.message.config == config && last.message.display == display
        then [last.message.msg] else []
  }

  /** Configuration `c` is the k-th event, or the first one for k == 0, and it is the first of
      the largest id among the first one and all that arrived. */
  predicate IsFirstLargest(first: Config, evs: seq<LoopEvent>, c: Config, k: nat) {
    k <= |evs| &&
    (k == 0 ==> c == first) &&
    (k > 0 ==> evs[k - 1] == NewConfig(c) && first.id < c.id) &&
    (forall j :: 0 <= j < |evs| && evs[j].NewConfig? ==> evs[j].config.id <= c.id) &&
    forall j :: 0 <= j < k - 1 && evs[j].NewConfig? ==> evs[j].config.id < c.id
  }

  lemma LargestOfLonger(first: Config, evs: seq<LoopEvent>, c: Config, k: nat)
    requires evs != [] && IsFirstLargest(first, evs[..|evs| - 1], c, k)
    ensures
      var last := evs[|evs| - 1];
      if last.NewConfig? && last.config.id > c.id then IsFirstLargest(first, evs, last.config, |evs|)
      else IsFirstLargest(first, evs, c, k)
  {
    var n := |evs| - 1;
    assert forall j :: 0 <= j < n ==> evs[..n][j] == evs[j];
  }

  /** Each display has received the messages addressed to it from the k-th event on. */
  predicate ReceivedFrom(m: Media, evs: seq<LoopEvent>, k: nat)
    requires k <= |evs|
  {
    forall i: nat | i < |m.runs| :: Messages(m.runs[i]) == AddressedTo(evs[k..], m.config.id, i)
  }

  lemma ReceivedOneMore(m: Media, evs: seq<LoopEvent>, k: nat)
    requires evs != [] && k <= |evs| - 1 && |m.runs| == |m.config.displays|
    requires ReceivedFrom(m, evs[..|evs| - 1], k)
    requires !(evs[|evs| - 1].NewConfig? && evs[|evs| - 1].config.id > m.config.id)
    ensures ReceivedFrom(Turn(m, evs[|evs| - 1]), evs, k) && Turn(m, evs[|evs| - 1]).config == m.config
  {
    var n := |evs| - 1;
    var m' := Turn(m, evs[n]);
    assert evs[k..][..|evs[k..]| - 1] == evs[..n][k..];
    forall i: nat | i < |m'.runs| ensures Messages(m'.runs[i]) == AddressedTo(evs[k..], m'.config.id, i) {
      TurnDelivers(m, evs[n], i);
    }
  }

  /** After any run the configuration in force is the first of the largest id to have arrived,
      and each of its displays has received exactly the messages addressed to it since then, in
      order. */
  lemma {:induction false} ConfigInForce(first: Config, evs: seq<LoopEvent>) returns (k: nat)
    ensures
      var m := MediaRun(first, evs);
      IsFirstLargest(first, evs, m.config, k) && |m.runs| == |m.config.displays| &&
      forall i: nat | i < |m.runs| :: Messages(m.runs[i]) == AddressedTo(evs[k..], m.config.id, i)
  {
    if evs == [] {
      k := 0;
    } else {
      var n := |evs| - 1;
      var m := MediaRun(first, evs[..n]);
      k := ConfigInForce(first, evs[..n]);
      LargestOfLonger(first, evs, m.config, k);
      if evs[n].NewConfig? && evs[n].config.id > m.config.id {
        k := |evs|;
        assert evs[k..] == [];
      } else {
        ReceivedOneMore(m, evs, k);
      }
      assert ReceivedFrom(MediaRun(first, evs), evs, k);
    }
  }

  /** What one turn adds to the messages of a display of a configuration that stays. */
  lemma TurnDelivers(m: Media, ev: LoopEvent, i: nat)
    requires i < |m.runs| == |m.config.displays| && !(ev.NewConfig? && ev.config.id > m.config.id)
    ensures Turn(m, ev).config == m.config && |Turn(m, ev).runs| == |m.runs|
    ensures Messages(Turn(m, ev).runs[i])
         == Messages(m.runs[i]) +
            if ev.Network? && ev.message.Addressed? && ev.message.config == m.config.id && ev.message.display == i
            then [ev.message.msg] else []
  {
    var d := DrainAll(m);
    assert Messages(d.runs[i]) == Messages(m.runs[i]) by {
      if AnyDraws(m) {
        assert (m.runs[i] + [Drain])[..|m.runs[i]|] == m.runs[i];
      }
    }
    if ev.Network? && ev.message.Addressed? {
      assert (d.runs[i] + [Deliver(ev.message.msg)])[..|d.runs[i]|] == d.runs[i];
    }
  }

  // ----- What is handed out, in order -----

  lemma {:induction false} NothingQueued(config: nat, queues: seq<seq<Fragment>>)
    requires forall i :: 0 <= i < |queues| ==> queues[i] == []
    ensures TagAll(config, queues) == []
  {
    if queues != [] {
      NothingQueued(config, queues[..|queues| - 1]);
    }
  }

  /** Every turn first hands out everything that is queued, and nothing else. */
  lemma TurnHandsOutQueued(m: Media, ev: LoopEvent)
    requires |m.config.displays| == |m.runs|
    ensures Turn(m, ev).emitted == m.emitted + Queued(m)
  {
    if !AnyDraws(m) {
      NothingQueued(m.config.id, Queues(m));
    }
  }

  /** The fragments handed out for a display of a configuration, in order. */
  function HandedOut(es: seq<Emission>, config: nat, display: nat): seq<Fragment> {
    if es == [] then []
    else
      var e := es[|es| - 1];
      HandedOut(es[..|es| - 1], config, display) +
        if e.config == config && e.display == display then [e.fragment] else []
  }

  lemma {:induction false} HandedOutAppend(a: seq<Emission>, b: seq<Emission>, config: nat, display: nat)
    ensures HandedOut(a + b, config, display) == HandedOut(a, config, display) + HandedOut(b, config, display)
  {
    if b == [] {
      assert a + b == a;
    } else {
      HandedOutAppend(a, b[..|b| - 1], config, display);
      assert (a + b)[..|a + b| - 1] == a + b[..|b| - 1];
    }
  }

  lemma {:induction false} HandedOutTagged(config: nat, display: nat, frags: seq<Fragment>, c: nat, i: nat)
    ensures HandedOut(Tagged(config, display, frags), c, i) == if c == config && i == display then frags else []
  {
    if frags == [] {
      assert Tagged(config, display, frags) == [];
    } else {
      var n := |frags| - 1;
      HandedOutTagged(config, display, frags[..n], c, i);
      assert Tagged(config, display, frags)[..n] == Tagged(config, display, frags[..n]);
      assert frags == frags[..n] + [frags[n]];
    }
  }

  lemma {:induction false} HandedOutQueues(config: nat, queues: seq<seq<Fragment>>, c: nat, i: nat)
    ensures HandedOut(TagAll(config, queues), c, i) == if c == config && i < |queues| then queues[i] else []
  {
    if queues != [] {
      var n := |queues| - 1;
      HandedOutQueues(config, queues[..n], c, i);
      HandedOutAppend(TagAll(config, queues[..n]), Tagged(config, n, queues[n]), c, i);
      HandedOutTagged(config, n, queues[n], c, i);
    }
  }

  lemma {:induction false} NotYetHandedOut(es: seq<Emission>, config: nat, i: nat)
    requires forall e :: e in es ==> e.config != config
    ensures HandedOut(es, config, i) == []
  {
    if es != [] {
      NotYetHandedOut(es[..|es| - 1], config, i);
    }
  }

  /** Over every run of the loop: what has been handed out for a display of the configuration in
      force is what its framer drew, in that order. */
  lemma {:induction false} HandedOutIsDrawn(first: Config, evs: seq<LoopEvent>, i: nat)
    requires i < |MediaRun(first, evs).runs|
    ensures
      var m := MediaRun(first, evs);
      HandedOut(m.emitted, m.config.id, i) == TraceOf(m, i).drawn
  {
    if evs != [] {
      var n := |evs| - 1;
      var m := MediaRun(first, evs[..n]);
      TurnHandsOutQueued(m, evs[n]);
      if evs[n].NewConfig? && evs[n].config.id > m.config.id {
        EmittedConfigs(first, evs[..n]);
        QueuedConfig(m);
        NotYetHandedOut(m.emitted + Queued(m), evs[n].config.id, i);
      } else {
        HandedOutIsDrawn(first, evs[..n], i);
        HandedOutAppend(m.emitted, Queued(m), m.config.id, i);
        HandedOutQueues(m.config.id, Queues(m), m.config.id, i);
        DrainedAt(m, i);
        if evs[n].Network? {
          OnlyItsDisplay(m, evs[n].message, i);
        }
      }
    }
  }

  predicate DisplaysAscend(es: seq<Emission>, displays: nat) {
    (forall k :: 0 <= k < |es| ==> es[k].display < displays) &&
    forall j, k :: 0 <= j < k < |es| ==> es[j].display <= es[k].display
  }

  lemma AscendOn(es: seq<Emission>, more: seq<Emission>, displays: nat)
    requires DisplaysAscend(es, displays) && forall k :: 0 <= k < |more| ==> more[k].display == displays
    ensures DisplaysAscend(es + more, displays + 1)
  {}

  /** The displays are drained in their order. */
  lemma {:induction false} DisplaysInOrder(config: nat, queues: seq<seq<Fragment>>)
    ensures DisplaysAscend(TagAll(config, queues), |queues|)
  {
    if queues != [] {
      var n := |queues| - 1;
      DisplaysInOrder(config, queues[..n]);
      AscendOn(TagAll(config, queues[..n]), Tagged(config, n, queues[n]), n);
    }
  }
}
