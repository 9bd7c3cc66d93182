/** The framer object of a display configuration and the media channel's main loop, proved to
    compute the runs of `MediaRuns`. */
module MediaLoop {
  import opened Common
  import opened Geometry
  import opened Painting
  import opened Framing
  import opened Pipeline
  import opened DisplayFramers
  import opened MediaRuns

  /** The draw of a fragment in screen coordinates. */
  function ScreenDraw(c: Config, i: nat, x: Fragment): Draw
    requires i < |c.displays| && x.decoder < |c.displays[i].decoderAreas|
  {
    var d := ToDraw(c.displays[i].decoderAreas, x);
    NewDraw(d.frame, c.displays[i].area.origin.Plus(d.origin), d.pixels)
  }

  /** Pixel (u, v) of a fragment appears at its place within the decoder's area, within the
      display, on the screen, and nothing else does. */
  lemma ScreenDrawPlaces(c: Config, i: nat, f: Fragment, x: nat, y: nat)
    requires i < |c.displays| && f.decoder < |c.displays[i].decoderAreas|
    ensures
      var display, area := c.displays[i].area.origin, c.displays[i].decoderAreas[f.decoder].origin;
      var u, v := x - display.x - area.x - f.origin.x, y - display.y - area.y - f.origin.y;
      ScreenDraw(c, i, f).frame == f.frame &&
      (Covers(ScreenDraw(c, i, f), x, y) <==> 0 <= u < f.pixmap.width && 0 <= v < |f.pixmap.rows|) &&
      (Covers(ScreenDraw(c, i, f), x, y) ==>
        var p := f.pixmap.rows[v][u];
        ColourAt(ScreenDraw(c, i, f), x, y) == Pixel32(p.blue, p.green, p.red, 255))
  {}

  predicate OnScreen(c: Config, emitted: seq<Emission>) {
    forall k | 0 <= k < |emitted| ::
      emitted[k].config == c.id && emitted[k].display < |c.displays| &&
      emitted[k].fragment.decoder < |c.displays[emitted[k].display].decoderAreas|
  }

  function ScreenDraws(c: Config, emitted: seq<Emission>): seq<Draw>
    requires OnScreen(c, emitted)
  {
    seq(|emitted|, k requires 0 <= k < |emitted| => ScreenDraw(c, emitted[k].display, emitted[k].fragment))
  }

  lemma ScreenDrawsAppend(c: Config, a: seq<Emission>, b: seq<Emission>)
    requires OnScreen(c, a) && OnScreen(c, b)
    ensures OnScreen(c, a + b) && ScreenDraws(c, a + b) == ScreenDraws(c, a) + ScreenDraws(c, b)
  {}

  /** A display's framer stands where its events have brought it. */
  ghost predicate Stands(d: DisplayFramer, info: DisplayInfo, run: seq<Event>)
    reads d
  {
    d.Valid() && d.decoderAreas == info.decoderAreas && d.events == run
  }

  /** Some displays have been drained, the others not yet. */
  function DrainedUpTo(m: Media, i: nat): Media {
    m.(runs := seq(|m.runs|, k requires 0 <= k < |m.runs| => if k < i then m.runs[k] + [Drain] else m.runs[k]))
  }

  lemma TagOneMore(config: nat, queues: seq<seq<Fragment>>, i: nat)
    requires i < |queues|
    ensures TagAll(config, queues[..i + 1]) == TagAll(config, queues[..i]) + Tagged(config, i, queues[i])
  {
    assert queues[..i + 1][..i] == queues[..i];
  }

  class Framer {
    const config: Config
    const displays: seq<DisplayFramer>

    /** The object stands for the abstract state `m`. */
    ghost predicate Valid(m: Media)
      reads this, displays
    {
      m.config == config && |displays| == |config.displays| == |m.runs| &&
      (forall i, j :: 0 <= i < j < |displays| ==> displays[i] != displays[j]) &&
      (forall i :: 0 <= i < |displays| ==> Stands(displays[i], config.displays[i], m.runs[i]))
    }

    constructor (c: Config)
      ensures config == c && fresh(displays)
      ensures forall emitted: seq<Emission> :: Valid(StartMedia(c).(emitted := emitted))
    {
      var ds: seq<DisplayFramer> := [];
      for i := 0 to |c.displays|
        invariant |ds| == i && fresh(ds)
        invariant forall k :: 0 <= k < i ==> Stands(ds[k], c.displays[k], [])
        invariant forall k, l :: 0 <= k < l < i ==> ds[k] != ds[l]
      {
        var d := new DisplayFramer(c.displays[i].decoderAreas);
        ds := ds + [d];
      }
      config := c;
      displays := ds;
    }

    /** Routes a message: one for an older configuration is ignored, one for a newer
        configuration or an unknown display is an error, any other goes to its display. */
    method ReportMessage(message: MediaMessage, ghost m: Media) returns (outcome: Outcome)
      requires Valid(m)
      modifies displays
      ensures Valid(DeliverTo(m, message)) && outcome != Unreachable
      ensures message.Malformed? ==> outcome == Err
      ensures message.Addressed? && message.config < config.id ==> outcome == Ok
      ensures message.Addressed? && message.config > config.id ==> outcome == Err
      ensures message.Addressed? && message.config == config.id && message.display >= |displays| ==> outcome == Err
      ensures message.Addressed? && message.config == config.id && message.display < |displays| ==>
        outcome == Report(TraceOf(m, message.display).d, message.msg).1
    {
      match message {
        case Malformed => outcome := Err;
        case Addressed(c, i, msg) =>
          if c < config.id {
            outcome := Ok;
          } else if c != config.id || i >= |displays| {
            outcome := Err;
          } else {
            match msg {
              case FragmentMsg(e) => outcome := displays[i].ReportFragment(e);
              case EmptyTerminal(frame, decoder) => outcome := displays[i].ReportEmptyTerminal(frame, decoder);
            }
          }
      }
    }

    method HasDraws(ghost m: Media) returns (b: bool)
      requires Valid(m)
      ensures b <==> AnyDraws(m)
    {
      b := false;
      for i := 0 to |displays|
        invariant b <==> exists k :: 0 <= k < i && TraceOf(m, k).d.queue != []
      {
        assert displays[i].undrawn == TraceOf(m, i).d.queue;
        var some := displays[i].HasDraws();
        b := b || some;
      }
    }

    /** Drains one display; the draws are in screen coordinates. */
    method DrainDisplay(i: nat, ghost run: seq<Event>) returns (draws: seq<Draw>, frags: seq<Fragment>)
      requires i < |displays| == |config.displays|
      requires Stands(displays[i], config.displays[i], run)
      modifies displays[i]
      ensures Stands(displays[i], config.displays[i], run + [Drain])
      ensures frags == Run(|config.displays[i].decoderAreas|, run).d.queue
      ensures OnScreen(config, Tagged(config.id, i, frags))
      ensures draws == ScreenDraws(config, Tagged(config.id, i, frags))
    {
      frags := displays[i].undrawn;
      var origin := config.displays[i].area.origin;
      var ds := displays[i].GetDrawsAndReset();
      draws := seq(|ds|, k requires 0 <= k < |ds| => NewDraw(ds[k].frame, origin.Plus(ds[k].origin), ds[k].pixels));
    }

    /** Drains the next display and leaves the others alone. */
    method DrainNext(i: nat, ghost m: Media) returns (draws: seq<Draw>, frags: seq<Fragment>)
      requires i < |m.runs| && Valid(DrainedUpTo(m, i))
      modifies displays
      ensures Valid(DrainedUpTo(m, i + 1)) && frags == Queues(m)[i]
      ensures OnScreen(config, Tagged(config.id, i, frags))
      ensures draws == ScreenDraws(config, Tagged(config.id, i, frags))
    {
      draws, frags := DrainDisplay(i, m.runs[i]);
      forall k | 0 <= k < |displays| && k != i
        ensures Stands(displays[k], config.displays[k], DrainedUpTo(m, i + 1).runs[k])
      {
        assert old(Stands(displays[k], config.displays[k], DrainedUpTo(m, i).runs[k]));
      }
    }

    /** Drains every display in order. */
    method GetDrawsAndReset(ghost m: Media) returns (draws: seq<Draw>, emissions: seq<Emission>)
      requires Valid(m) && AnyDraws(m)
      modifies displays
      ensures Valid(DrainAll(m)) && m.emitted + emissions == DrainAll(m).emitted
      ensures OnScreen(config, emissions) && draws == ScreenDraws(config, emissions)
    {
      draws, emissions := [], [];
      for i := 0 to |displays|
        invariant emissions == TagAll(config.id, Queues(m)[..i])
        invariant OnScreen(config, emissions) && draws == ScreenDraws(config, emissions)
        invariant Valid(DrainedUpTo(m, i))
      {
        var moved, frags := DrainNext(i, m);
        ScreenDrawsAppend(config, emissions, Tagged(config.id, i, frags));
        TagOneMore(config.id, Queues(m), i);
        draws, emissions := draws + moved, emissions + Tagged(config.id, i, frags);
      }
      assert Queues(m)[..|displays|] == Queues(m);
      assert DrainedUpTo(m, |displays|).runs == DrainAll(m).runs;
    }

    /** The drain at the head of every turn of the main loop. */
    method DrainBeforeReceive(ghost m: Media) returns (draws: seq<Draw>, emissions: seq<Emission>)
      requires Valid(m)
      modifies displays
      ensures Valid(DrainAll(m)) && m.emitted + emissions == DrainAll(m).emitted
      ensures OnScreen(config, emissions) && draws == ScreenDraws(config, emissions)
    {
      draws, emissions := [], [];
      var some := HasDraws(m);
      if some {
        draws, emissions := GetDrawsAndReset(m);
      }
    }
  }

  /** The configuration under which each emission of a run was handed out. */
  function Configs(first: Config, evs: seq<LoopEvent>): seq<Config> {
    if evs == [] then []
    else
      var m := MediaRun(first, evs[..|evs| - 1]);
      Configs(first, evs[..|evs| - 1]) + Repeated(m.config, |DrainAll(m).emitted| - |m.emitted|)
  }

  function Repeated<T>(x: T, n: int): seq<T> {
    if n <= 0 then [] else seq(n, _ => x)
  }

  /** The draw that is sent on for an emission under a configuration. */
  predicate IsDrawOf(d: Draw, c: Config, e: Emission) {
    e.config == c.id && e.display < |c.displays| && e.fragment.decoder < |c.displays[e.display].decoderAreas| &&
    d == ScreenDraw(c, e.display, e.fragment)
  }

  predicate AreDrawsOf(draws: seq<Draw>, configs: seq<Config>, emitted: seq<Emission>) {
    |draws| == |configs| == |emitted| &&
    forall k :: 0 <= k < |draws| ==> IsDrawOf(draws[k], configs[k], emitted[k])
  }

  lemma DrawsAppend(draws: seq<Draw>, configs: seq<Config>, emitted: seq<Emission>, c: Config, more: seq<Emission>)
    requires AreDrawsOf(draws, configs, emitted) && OnScreen(c, more)
    ensures AreDrawsOf(draws + ScreenDraws(c, more), configs + Repeated(c, |more|), emitted + more)
  {
    var all := draws + ScreenDraws(c, more);
    forall k | 0 <= k < |all|
      ensures IsDrawOf(all[k], (configs + Repeated(c, |more|))[k], (emitted + more)[k])
    {
      if k < |draws| {
        assert IsDrawOf(draws[k], configs[k], emitted[k]);
      }
    }
  }

  /** The main loop: drains before every receive, replaces the framer on a newer configuration
      and otherwise reports messages to it.  It sends on exactly the draws of the abstract
      run's emissions, each in the screen coordinates of its configuration. */
  method ServeMedia(first: Config, received: seq<LoopEvent>) returns (draws: seq<Draw>, emitted: seq<Emission>)
    ensures emitted == MediaRun(first, received).emitted
    ensures AreDrawsOf(draws, Configs(first, received), emitted)
  {
    draws, emitted := [], [];
    var framer := new Framer(first);
    ghost var m := StartMedia(first);
    for i := 0 to |received|
      invariant framer.Valid(m) && m == MediaRun(first, received[..i]) && m.emitted == emitted
      invariant AreDrawsOf(draws, Configs(first, received[..i]), emitted)
      invariant fresh(framer.displays)
    {
      assert received[..i + 1][..i] == received[..i];
      var sent, emissions := framer.DrainBeforeReceive(m);
      DrawsAppend(draws, Configs(first, received[..i]), emitted, framer.config, emissions);
      draws, emitted := draws + sent, emitted + emissions;
      ghost var drained := DrainAll(m);
      match received[i] {
        case NewConfig(c) =>
          if c.id > framer.config.id {
            framer := new Framer(c);
          }
        case Network(message) =>
          var _ := framer.ReportMessage(message, drained);
      }
      m := Turn(m, received[i]);
    }
    assert received[..|received|] == received;
  }
}
