/** What one display's framer computes (`DisplayFramer` in aperturec-client/src/frame.rs),
    as functions on its state.  The class `DisplayFramer` is proved to compute these. */
module Framing {
  import opened Common
  import opened Geometry
  import opened Painting
  import opened DecoderFrames

  /** A decoded fragment. */
  datatype Fragment = Fragment(
    frame: nat, decoder: nat, sequence: nat, terminal: bool, origin: Point, pixmap: Pixmap)

  /** A fragment as received; `decoded` is what the codec makes of its bytes. */
  datatype EncodedFragment = EncodedFragment(
    frame: nat, decoder: nat, sequence: nat, terminal: bool, origin: Point, decoded: Option<Pixmap>)

  datatype Message =
    | FragmentMsg(encoded: EncodedFragment)
    | EmptyTerminal(emptyFrame: nat, emptyDecoder: nat)
  {
    function Frame(): nat { if FragmentMsg? then encoded.frame else emptyFrame }
    function Decoder(): nat { if FragmentMsg? then encoded.decoder else emptyDecoder }
    predicate IsTerminal() { FragmentMsg? ==> encoded.terminal }
  }

  function Decode(e: EncodedFragment): Option<Fragment> {
    match e.decoded
    case None => None
    case Some(p) => Some(Fragment(e.frame, e.decoder, e.sequence, e.terminal, e.origin, p))
  }

  datatype InFlightFrame = InFlightFrame(states: seq<DecoderState>, fragments: seq<Fragment>)

  datatype Display = Display(
    decoders: nat,
    inFlight: map<nat, InFlightFrame>,
    early: map<nat, seq<DecoderState>>,
    complete: set<nat>,
    queue: seq<Fragment>)

  /** `Unreachable` stands for the `unreachable!` arm of `report_terminal`. */
  datatype Outcome = Ok | Err | Unreachable

  function NewDisplay(decoders: nat): Display { Display(decoders, map[], map[], {}, []) }

  function NewFrame(decoders: nat): InFlightFrame {
    InFlightFrame(seq(decoders, _ => InFlight({})), [])
  }

  predicate AllComplete(states: seq<DecoderState>) {
    forall i :: 0 <= i < |states| ==> states[i].Complete?
  }

  predicate AboveAll(m: map<nat, InFlightFrame>, f: nat) {
    forall k :: k in m ==> k < f
  }

  /** Frames between the largest frame in flight and `frame` are created. */
  function FillGaps(m: map<nat, InFlightFrame>, decoders: nat, frame: nat): map<nat, InFlightFrame> {
    if m == map[] then m
    else
      var created := NewFrame(decoders);
      m + (map f: nat | f < frame && AboveAll(m, f) :: created)
  }

  function WithEntry(m: map<nat, InFlightFrame>, decoders: nat, frame: nat): map<nat, InFlightFrame> {
    if frame in m then m else m[frame := NewFrame(decoders)]
  }

  /** Records a fragment with its frame, before the terminal check. */
  function PlaceFragment(d: Display, frag: Fragment): (Display, bool) {
    if frag.frame in d.early then
      var states := d.early[frag.frame];
      if frag.decoder >= |states| then (d, false)
      else match MarkSequence(states[frag.decoder], frag.sequence, frag.terminal)
        case None => (d, false)
        case Some(st) =>
          (d.(early := d.early[frag.frame := states[frag.decoder := st]], queue := d.queue + [frag]), true)
    else
      var filled := WithEntry(FillGaps(d.inFlight, d.decoders, frag.frame), d.decoders, frag.frame);
      var entry := filled[frag.frame];
      if frag.decoder >= |entry.states| then (d.(inFlight := filled), false)
      else match MarkSequence(entry.states[frag.decoder], frag.sequence, frag.terminal)
        case None => (d.(inFlight := filled), false)
        case Some(st) =>
          var entry' := InFlightFrame(entry.states[frag.decoder := st], entry.fragments + [frag]);
          (d.(inFlight := filled[frag.frame := entry']), true)
  }

  /** Records an empty terminal with its frame. */
  function PlaceEmpty(d: Display, frame: nat, decoder: nat): (Display, bool) {
    if frame in d.early then
      var states := d.early[frame];
      if decoder >= |states| then (d, false)
      else match MarkEmpty(states[decoder])
        case None => (d, false)
        case Some(st) => (d.(early := d.early[frame := states[decoder := st]]), true)
    else
      var filled := WithEntry(d.inFlight, d.decoders, frame);
      var entry := filled[frame];
      if decoder >= |entry.states| then (d.(inFlight := filled), false)
      else match MarkEmpty(entry.states[decoder])
        case None => (d.(inFlight := filled), false)
        case Some(st) =>
          (d.(inFlight := filled[frame := entry.(states := entry.states[decoder := st])]), true)
  }

  /** Fragments of the frames below `hi`, in increasing frame order. */
  function FragmentsBelow(m: map<nat, InFlightFrame>, hi: nat): seq<Fragment> {
    if hi == 0 then []
    else FragmentsBelow(m, hi - 1) + if hi - 1 in m then m[hi - 1].fragments else []
  }

  /** Frames below `frame` leave `inFlight`: finished ones become complete, the others are
      drawn early, whatever was recorded as early drawn before. */
  function FlushBelow(d: Display, frame: nat): Display {
    var m := d.inFlight;
    d.(inFlight := map id | id in m && id >= frame :: m[id],
       early := d.early + (map id | id in m && id < frame && !AllComplete(m[id].states) :: m[id].states),
       complete := d.complete + (set id | id in m && id < frame && AllComplete(m[id].states)),
       queue := d.queue + FragmentsBelow(m, frame))
  }

  /** What a terminal does to a frame once its checks have passed. */
  function Settle(d: Display, frame: nat): Display {
    if frame in d.early then
      if AllComplete(d.early[frame]) then
        d.(early := d.early - {frame}, complete := d.complete + {frame})
      else d
    else if frame in d.inFlight && AllComplete(d.inFlight[frame].states) then
      FlushBelow(d.(inFlight := d.inFlight - {frame},
                    complete := d.complete + {frame},
                    queue := d.queue + d.inFlight[frame].fragments), frame)
    else d
  }

  function ReportTerminal(d: Display, frame: nat, decoder: nat): (Display, Outcome) {
    if frame in d.complete || decoder >= d.decoders then (d, Err)
    else if frame !in d.early && frame !in d.inFlight then (d, Unreachable)
    else (Settle(d, frame), Ok)
  }

  function ReportFragment(d: Display, e: EncodedFragment): (Display, Outcome) {
    if e.decoder >= d.decoders || e.frame in d.complete then (d, Err)
    else match Decode(e)
      case None => (d, Err)
      case Some(frag) =>
        var (d', ok) := PlaceFragment(d, frag);
        if !ok then (d', Err)
        else if e.terminal then ReportTerminal(d', e.frame, e.decoder)
        else (d', Ok)
  }

  function ReportEmptyTerminal(d: Display, frame: nat, decoder: nat): (Display, Outcome) {
    if decoder >= d.decoders || frame in d.complete then (d, Err)
    else
      var (d', ok) := PlaceEmpty(d, frame, decoder);
      if !ok then (d', Err) else ReportTerminal(d', frame, decoder)
  }

  function Report(d: Display, m: Message): (Display, Outcome) {
    match m
    case FragmentMsg(e) => ReportFragment(d, e)
    case EmptyTerminal(frame, decoder) => ReportEmptyTerminal(d, frame, decoder)
  }

  // ----- Runs -----

  datatype Event = Deliver(msg: Message) | Drain

  /** A display with the messages it accepted and the fragments it handed out as draws. */
  datatype Trace = Trace(d: Display, accepted: seq<Message>, drawn: seq<Fragment>)

  function Start(decoders: nat): Trace { Trace(NewDisplay(decoders), [], []) }

  function Step(t: Trace, ev: Event): Trace {
    match ev
    case Deliver(m) =>
      var (d', outcome) := Report(t.d, m);
      Trace(d', if outcome == Ok then t.accepted + [m] else t.accepted, t.drawn)
    case Drain => Trace(t.d.(queue := []), t.accepted, t.drawn + t.d.queue)
  }

  function Run(decoders: nat, evs: seq<Event>): Trace {
    if evs == [] then Start(decoders)
    else Step(Run(decoders, evs[..|evs| - 1]), evs[|evs| - 1])
  }
}
