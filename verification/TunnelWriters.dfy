/** The thread that writes a tunnelled stream to its socket, beside the table of streams
    (aperturec-client/src/channels/tunnel.rs:222-317).  The thread first writes what was queued
    while the stream was opening, then whatever comes through its channel, a first-in-first-out
    queue with room for one piece, until the channel is empty and its sender gone. */
module TunnelWriters {
  import opened Common
  import opened Tunnels

  datatype Status = Running | Failed | Ended

  /** `unwritten` is what is left of the piece being written; `open` says that the table still
      holds the channel's sender; `socket` is everything the socket has taken. */
  datatype Writer = Writer(unwritten: Bytes, channel: seq<Bytes>, open: bool, socket: Bytes, status: Status)

  const CHANNEL_ROOM := 1

  function Spawn(queued: Bytes): Writer { Writer(queued, [], true, [], Running) }

  datatype Step =
    | Handle(event: Event)  // the table's thread handles an event of the stream
    | Write(size: nat)      // the socket takes some bytes
    | Fetch                 // the next piece comes out of the channel
    | Fail                  // the socket refuses to take more
    | Finish                // the channel is empty and its sender gone

  /** One stream from the creation of its entry on; the entry may go before the writer does. */
  datatype Life = Life(entry: Option<Stream>, writer: Option<Writer>)

  function Begin(s: Stream): Life {
    Life(Some(s), match s case Opened(handed) => Some(Spawn(handed)) case _ => None)
  }

  predicate IsOpened(s: Option<Stream>) { s.Some? && s.value.Opened? }

  /** Data for an opened stream waits for room in the channel, unless its writer has failed. */
  predicate MaySend(l: Life, e: Event) {
    IsOpened(l.entry) && e.DataFromServer? && l.writer.Some? && l.writer.value.status.Running? ==>
      |l.writer.value.channel| < CHANNEL_ROOM
  }

  predicate CanStep(l: Life, step: Step) {
    if step.Handle? then l.entry.Some? && MaySend(l, step.event)
    else
      l.writer.Some? && l.writer.value.status.Running? &&
      var w := l.writer.value;
      match step
      case Write(size) => 0 < size <= |w.unwritten|
      case Fetch => w.unwritten == [] && w.channel != []
      case Fail => w.unwritten != []
      case Finish => w.unwritten == [] && w.channel == [] && !w.open
      case Handle(_) => true
  }

  /** The writer when the table's thread takes its entry from `s` to `s'`. */
  function WriterAfter(w: Option<Writer>, s: Stream, s': Option<Stream>, e: Event): Option<Writer> {
    match s
    case Opening(queued) => if IsOpened(s') then Some(Spawn(queued)) else w
    case Opened(_) =>
      (match w
       case None => None
       case Some(w) =>
         if !IsOpened(s') then Some(w.(open := false))
         else if e.DataFromServer? && w.status.Running? then Some(w.(channel := w.channel + [e.data]))
         else Some(w))
    case _ => w
  }

  function WriterStep(w: Writer, step: Step): Writer
    requires step.Write? ==> step.size <= |w.unwritten|
    requires step.Fetch? ==> w.channel != []
  {
    match step
    case Handle(_) => w
    case Write(size) => w.(socket := w.socket + w.unwritten[..size], unwritten := w.unwritten[size..])
    case Fetch => w.(unwritten := w.channel[0], channel := w.channel[1..])
    case Fail => w.(status := Failed)
    case Finish => w.(status := Ended)
  }

  function Take(t: Tunnels, id: Id, l: Life, step: Step): Life
    requires CanStep(l, step)
  {
    if step.Handle? then
      var s' := Next(t, id, l.entry, step.event);
      Life(s', WriterAfter(l.writer, l.entry.value, s', step.event))
    else l.(writer := Some(WriterStep(l.writer.value, step)))
  }

  predicate IsRun(t: Tunnels, id: Id, s: Stream, steps: seq<Step>)
    decreases |steps|, 0
  {
    steps == [] ||
    (IsRun(t, id, s, steps[..|steps| - 1]) &&
     CanStep(LifeAfter(t, id, s, steps[..|steps| - 1]), steps[|steps| - 1]))
  }

  function LifeAfter(t: Tunnels, id: Id, s: Stream, steps: seq<Step>): Life
    requires IsRun(t, id, s, steps)
    decreases |steps|, 1
  {
    if steps == [] then Begin(s)
    else Take(t, id, LifeAfter(t, id, s, steps[..|steps| - 1]), steps[|steps| - 1])
  }

  /** The events that the table's thread handled. */
  function Handled(steps: seq<Step>): seq<Event> {
    if steps == [] then []
    else
      Handled(steps[..|steps| - 1]) +
        if steps[|steps| - 1].Handle? then [steps[|steps| - 1].event] else []
  }

  // ----- What reaches the socket -----

  function Flat(pieces: seq<Bytes>): Bytes {
    if pieces == [] then [] else pieces[0] + Flat(pieces[1..])
  }

  lemma {:induction false} FlatAppend(pieces: seq<Bytes>, data: Bytes)
    ensures Flat(pieces + [data]) == Flat(pieces) + data
  {
    if pieces == [] {
      assert pieces + [data] == [data];
    } else {
      assert (pieces + [data])[1..] == pieces[1..] + [data];
      FlatAppend(pieces[1..], data);
    }
  }

  /** What the writer still has to write. */
  function Pending(w: Writer): Bytes { w.unwritten + Flat(w.channel) }

  predicate IsPrefix(a: Bytes, b: Bytes) { |a| <= |b| && a == b[..|a|] }

  /** The writer is owed `accepted` in all: unless it failed, what it has written and what it
      still has to write are exactly that. */
  predicate Owed(w: Writer, accepted: Bytes) {
    IsPrefix(w.socket, accepted) &&
    (w.status != Failed ==> w.socket + Pending(w) == accepted) &&
    (w.status == Ended ==> w.unwritten == [] && w.channel == [] && !w.open)
  }

  lemma WriteMoves(socket: Bytes, unwritten: Bytes, rest: Bytes, size: nat)
    requires size <= |unwritten|
    ensures
      var all := socket + (unwritten + rest);
      (socket + unwritten[..size]) + (unwritten[size..] + rest) == all && IsPrefix(socket + unwritten[..size], all)
  {
    assert unwritten == unwritten[..size] + unwritten[size..];
  }

  lemma WriterStepOwed(w: Writer, step: Step, accepted: Bytes)
    requires Owed(w, accepted) && !step.Handle? && CanStep(Life(None, Some(w)), step)
    ensures Owed(WriterStep(w, step), accepted)
  {
    if step.Write? {
      WriteMoves(w.socket, w.unwritten, Flat(w.channel), step.size);
    } else if step.Fetch? {
      assert Pending(WriterStep(w, step)) == Pending(w);
    }
  }

  lemma SendOwed(w: Writer, data: Bytes, accepted: Bytes)
    requires Owed(w, accepted) && w.status != Ended
    ensures
      var w' := if w.status.Running? then w.(channel := w.channel + [data]) else w;
      Owed(w', accepted + data)
  {
    FlatAppend(w.channel, data);
    assert (w.socket + Pending(w)) + data == w.socket + (w.unwritten + (Flat(w.channel) + data));
    assert w.socket == (accepted + data)[..|w.socket|];
  }

  /** What a life holds after the handled events `evs`: nothing has been written before the
      stream opens, what is queued is what was accepted, and the writer is owed what was
      accepted; it ends only when its sender is gone. */
  predicate Holds(t: Tunnels, id: Id, s: Stream, evs: seq<Event>, l: Life) {
    l.entry == After(t, id, Some(s), evs) && (l.writer.Some? <==> WasOpen(t, id, s, evs)) &&
    (l.writer.Some? ==> Owed(l.writer.value, Accepted(t, id, s, evs))) &&
    (l.entry.Some? && l.entry.value.Opening? ==> l.entry.value.queued == Accepted(t, id, s, evs) && l.writer == None) &&
    (IsOpened(l.entry) ==> l.writer.Some? && l.writer.value.open)
  }

  lemma SpawnOwed(queued: Bytes)
    ensures Owed(Spawn(queued), queued)
  {
    assert [] + (queued + []) == queued;
  }

  lemma HandleHolds(t: Tunnels, id: Id, s: Stream, evs: seq<Event>, l: Life, e: Event)
    requires Holds(t, id, s, evs, l) && l.entry.Some? && MaySend(l, e)
    ensures Holds(t, id, s, evs + [e], Take(t, id, l, Handle(e)))
  {
    assert (evs + [e])[..|evs|] == evs;
    var accepted := Accepted(t, id, s, evs);
    match l.entry.value
    case Opening(queued) =>
      SpawnOwed(queued);
    case Opened(_) =>
      if e.DataFromServer? {
        SendOwed(l.writer.value, e.data, accepted);
      }
    case _ =>
  }

  lemma WriterStepHolds(t: Tunnels, id: Id, s: Stream, evs: seq<Event>, l: Life, step: Step)
    requires Holds(t, id, s, evs, l) && !step.Handle? && CanStep(l, step)
    ensures Holds(t, id, s, evs, Take(t, id, l, step))
  {
    WriterStepOwed(l.writer.value, step, Accepted(t, id, s, evs));
  }

  lemma {:induction false} RunHolds(t: Tunnels, id: Id, s: Stream, steps: seq<Step>)
    requires IsRun(t, id, s, steps) && (s == Opening([]) || s == Opened([]))
    ensures Holds(t, id, s, Handled(steps), LifeAfter(t, id, s, steps))
  {
    if steps == [] {
      SpawnOwed([]);
    } else {
      var n := |steps| - 1;
      var l := LifeAfter(t, id, s, steps[..n]);
      RunHolds(t, id, s, steps[..n]);
      if steps[n].Handle? {
        HandleHolds(t, id, s, Handled(steps[..n]), l, steps[n].event);
      } else {
        assert Handled(steps) == Handled(steps[..n]);
        WriterStepHolds(t, id, s, Handled(steps), l, steps[n]);
      }
    }
  }

  /** Over every run of a stream's life, the table's thread and the writer interleaved in any
      way: the socket has always taken a prefix of the data accepted while opening and then
      open, in order; a writer that has ended has had the socket take all of it; and one that
      has not failed still holds exactly the rest. */
  lemma SocketGetsAccepted(t: Tunnels, id: Id, s: Stream, steps: seq<Step>)
    requires IsRun(t, id, s, steps) && (s == Opening([]) || s == Opened([]))
    ensures
      var writer, accepted := LifeAfter(t, id, s, steps).writer, Accepted(t, id, s, Handled(steps));
      (writer.Some? <==> WasOpen(t, id, s, Handled(steps))) &&
      (writer.Some? ==>
        IsPrefix(writer.value.socket, accepted) &&
        (writer.value.status.Ended? ==> writer.value.socket == accepted) &&
        (!writer.value.status.Failed? ==> writer.value.socket + Pending(writer.value) == accepted))
  {
    RunHolds(t, id, s, steps);
  }

  /** At most one piece ever waits in the channel. */
  lemma {:induction false} OnePieceWaits(t: Tunnels, id: Id, s: Stream, steps: seq<Step>)
    requires IsRun(t, id, s, steps)
    ensures
      var w := LifeAfter(t, id, s, steps).writer;
      w.Some? ==> |w.value.channel| <= 1
  {
    if steps != [] {
      OnePieceWaits(t, id, s, steps[..|steps| - 1]);
      RunningNeedsRoom(t, id, LifeAfter(t, id, s, steps[..|steps| - 1]), steps[|steps| - 1]);
    }
  }

  lemma RunningNeedsRoom(t: Tunnels, id: Id, l: Life, step: Step)
    requires CanStep(l, step) && (l.writer.Some? ==> |l.writer.value.channel| <= 1)
    ensures Take(t, id, l, step).writer.Some? ==> |Take(t, id, l, step).writer.value.channel| <= 1
  {}

  /** The table's thread waits only for room: with the channel empty, and once the writer has
      failed, it handles any event of the stream. */
  lemma HandlerNeverStuck(l: Life, e: Event)
    requires l.entry.Some?
    requires l.writer.Some? && l.writer.value.status.Running? ==> l.writer.value.channel == []
    ensures CanStep(l, Handle(e))
  {}

  /** The writer is never stuck: while it runs it can take a step, unless it has written all it
      was given and its sender is still there. */
  lemma WriterNeverStuck(l: Life) returns (step: Step)
    requires l.writer.Some? && l.writer.value.status.Running?
    requires Pending(l.writer.value) != [] || l.writer.value.channel != [] || !l.writer.value.open
    ensures !step.Handle? && !step.Fail? && CanStep(l, step)
  {
    var w := l.writer.value;
    step := if w.unwritten != [] then Write(|w.unwritten|) else if w.channel != [] then Fetch else Finish;
  }

  /** What is left for the writer to do, in bytes to write, pieces to fetch and the end. */
  function Left(w: Writer): nat {
    |Pending(w)| + |w.channel| + if w.status.Running? then 1 else 0
  }

  /** Each of its steps brings the writer closer to its end, so it drains its channel. */
  lemma WriterProgresses(w: Writer, step: Step)
    requires !step.Handle? && CanStep(Life(None, Some(w)), step)
    ensures Left(WriterStep(w, step)) < Left(w)
  {}
}
