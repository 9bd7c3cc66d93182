/** The client's table of tunnel streams (aperturec-client/src/channels/tunnel.rs). */
module Tunnels {
  import opened Common

  datatype Id = Id(tunnel: nat, stream: nat)

  /** A stream's entry.  `handed` is what its writer has been given so far: the bytes queued
      while opening, written first, then the data sent through the writer's channel. */
  datatype Stream =
    | Opening(queued: Bytes)
    | Opened(handed: Bytes)
    | HalfClosed(handed: Bytes)
    | FullyClosed(handed: Bytes)

  datatype Event =
    | OpenFromServer
    | CloseFromServer
    | DataFromServer(data: Bytes)
    | Established
    | ConnectFailed
    | StreamResult

  datatype Reply = SendOpen(id: Id) | SendClose(id: Id)

  /** Which tunnels are bound where.  A server-bound tunnel may name the client as its side. */
  datatype Tunnels = Tunnels(serverBound: map<nat, bool>, clientBound: set<nat>)

  predicate MayOpen(t: Tunnels, tunnel: nat) { tunnel in t.serverBound && t.serverBound[tunnel] }

  /** What an event does to the entry of its stream; `None` means no entry. */
  function Next(t: Tunnels, id: Id, s: Option<Stream>, e: Event): Option<Stream> {
    match e
    case OpenFromServer => if MayOpen(t, id.tunnel) && s == None then Some(Opening([])) else s
    case CloseFromServer =>
      (match s
       case Some(Opening(_)) => Some(HalfClosed([]))
       case Some(Opened(handed)) => Some(HalfClosed(handed))
       case Some(HalfClosed(handed)) => Some(FullyClosed(handed))
       case _ => None)
    case DataFromServer(data) =>
      (match s
       case Some(Opened(handed)) => Some(Opened(handed + data))
       case Some(Opening(queued)) => Some(Opening(queued + data))
       case _ => s)
    case Established =>
      (match s
       case Some(Opening(queued)) => Some(Opened(queued))
       case None => if id.tunnel in t.clientBound then Some(Opened([])) else None
       case _ => None)
    case ConnectFailed => s
    case StreamResult =>
      (match s
       case Some(Opened(handed)) => Some(HalfClosed(handed))
       case Some(HalfClosed(handed)) => Some(FullyClosed(handed))
       case _ => None)
  }

  /** What an event makes the client send. */
  function Replies(t: Tunnels, id: Id, s: Option<Stream>, e: Event): seq<Reply> {
    match e
    case OpenFromServer => if MayOpen(t, id.tunnel) && s == None then [] else [SendClose(id)]
    case DataFromServer(_) => if s.Some? && s.value.FullyClosed? then [SendClose(id)] else []
    case Established => if s == None && id.tunnel in t.clientBound then [SendOpen(id)] else []
    case ConnectFailed => [SendClose(id)]
    case StreamResult => if s.Some? && s.value.FullyClosed? then [SendClose(id)] else []
    case CloseFromServer => []
  }

  // ----- Lifetimes -----

  /** How far a stream has come. */
  function Rank(s: Stream): nat {
    match s
    case Opening(_) => 1
    case Opened(_) => 2
    case HalfClosed(_) => 3
    case FullyClosed(_) => 4
  }

  /** An entry never goes back: each event leaves its kind, raises its rank, or removes it. */
  lemma NeverGoesBack(t: Tunnels, id: Id, s: Stream, e: Event)
    ensures Next(t, id, Some(s), e).Some? ==> Rank(Next(t, id, Some(s), e).value) >= Rank(s)
  {}

  /** The entry of one stream after a run of its events. */
  function After(t: Tunnels, id: Id, s: Option<Stream>, evs: seq<Event>): Option<Stream> {
    if evs == [] then s else Next(t, id, After(t, id, s, evs[..|evs| - 1]), evs[|evs| - 1])
  }

  /** The entry is there throughout the run. */
  predicate Lives(t: Tunnels, id: Id, s: Stream, evs: seq<Event>) {
    evs == [] || (Lives(t, id, s, evs[..|evs| - 1]) && After(t, id, Some(s), evs).Some?)
  }

  predicate Kind(a: Option<Stream>, b: Option<Stream>) {
    (a == None && b == None) || (a.Some? && b.Some? && Rank(a.value) == Rank(b.value))
  }

  /** How often the state of the entry changed. */
  function Changes(t: Tunnels, id: Id, s: Stream, evs: seq<Event>): nat {
    if evs == [] then 0
    else
      var before := evs[..|evs| - 1];
      Changes(t, id, s, before) +
        if Kind(After(t, id, Some(s), before), After(t, id, Some(s), evs)) then 0 else 1
  }

  /** A living entry has changed state at most as often as its rank has grown; so the change
      that removes it is at most the fourth. */
  lemma {:induction false} FewChanges(t: Tunnels, id: Id, s: Stream, evs: seq<Event>)
    requires Lives(t, id, s, evs)
    ensures After(t, id, Some(s), evs).Some?
    ensures Rank(s) + Changes(t, id, s, evs) <= Rank(After(t, id, Some(s), evs).value)
  {
    if evs != [] {
      var before := evs[..|evs| - 1];
      FewChanges(t, id, s, before);
      NeverGoesBack(t, id, After(t, id, Some(s), before).value, evs[|evs| - 1]);
    }
  }

  lemma LeavesAfterFourChanges(t: Tunnels, id: Id, s: Stream, evs: seq<Event>, last: Event)
    requires Lives(t, id, s, evs) && After(t, id, Some(s), evs + [last]) == None
    ensures Changes(t, id, s, evs + [last]) <= 4
  {
    assert (evs + [last])[..|evs|] == evs;
    FewChanges(t, id, s, evs);
  }

  /** The data that arrives while the stream is opening or open, in order. */
  function Accepted(t: Tunnels, id: Id, s: Stream, evs: seq<Event>): Bytes {
    if evs == [] then []
    else
      var before := evs[..|evs| - 1];
      var state := After(t, id, Some(s), before);
      Accepted(t, id, s, before) +
        if evs[|evs| - 1].DataFromServer? && state.Some? && Rank(state.value) <= 2 then evs[|evs| - 1].data else []
  }

  /** The stream was open at some point of the run. */
  predicate WasOpen(t: Tunnels, id: Id, s: Stream, evs: seq<Event>) {
    (After(t, id, Some(s), evs).Some? && After(t, id, Some(s), evs).value.Opened?) ||
    (evs != [] && WasOpen(t, id, s, evs[..|evs| - 1]))
  }

  /** Over every run of a stream's life: what its writer was handed is exactly the data accepted
      while opening and then open, in order, if the stream ever opened, and nothing otherwise;
      so nothing is handed over after the half close. */
  lemma {:induction false} WriterGetsAccepted(t: Tunnels, id: Id, s: Stream, evs: seq<Event>)
    requires Lives(t, id, s, evs) && (s == Opening([]) || s == Opened([]))
    ensures
      var state := After(t, id, Some(s), evs);
      state.Some? &&
      match state.value
      case Opening(queued) => queued == Accepted(t, id, s, evs) && !WasOpen(t, id, s, evs)
      case Opened(handed) => handed == Accepted(t, id, s, evs) && WasOpen(t, id, s, evs)
      case HalfClosed(handed) => handed == if WasOpen(t, id, s, evs) then Accepted(t, id, s, evs) else []
      case FullyClosed(handed) => handed == if WasOpen(t, id, s, evs) then Accepted(t, id, s, evs) else []
  {
    if evs != [] {
      WriterGetsAccepted(t, id, s, evs[..|evs| - 1]);
    }
  }

  // ----- Which events lead where -----

  /** The events that can move an entry; data, opens and failed connections never do. */
  function Moves(evs: seq<Event>): seq<Event> {
    if evs == [] then []
    else
      var e := evs[|evs| - 1];
      Moves(evs[..|evs| - 1]) + if e.CloseFromServer? || e.Established? || e.StreamResult? then [e] else []
  }

  predicate Closes(e: Event) { e.CloseFromServer? || e.StreamResult? }

  predicate StaysOpening(s: Stream, moves: seq<Event>) { s.Opening? && moves == [] }

  /** Opened by the connection, or from the start. */
  predicate LeadsToOpened(s: Stream, moves: seq<Event>) {
    if s.Opening? then moves == [Established] else moves == []
  }

  /** Closed once: by the server while opening, or by the server or a thread's end once open. */
  predicate LeadsToHalfClosed(s: Stream, moves: seq<Event>) {
    moves != [] && Closes(moves[|moves| - 1]) &&
    (LeadsToOpened(s, moves[..|moves| - 1]) || (s.Opening? && moves == [CloseFromServer]))
  }

  /** Closed twice. */
  predicate LeadsToFullyClosed(s: Stream, moves: seq<Event>) {
    moves != [] && Closes(moves[|moves| - 1]) && LeadsToHalfClosed(s, moves[..|moves| - 1])
  }

  lemma OneMoreMove(s: Stream, moves: seq<Event>, e: Event)
    ensures !StaysOpening(s, moves + [e])
    ensures LeadsToOpened(s, moves + [e]) <==> StaysOpening(s, moves) && e == Established
    ensures LeadsToHalfClosed(s, moves + [e])
      <==> Closes(e) && (LeadsToOpened(s, moves) || (StaysOpening(s, moves) && e == CloseFromServer))
    ensures LeadsToFullyClosed(s, moves + [e]) <==> Closes(e) && LeadsToHalfClosed(s, moves)
  {
    assert (moves + [e])[..|moves|] == moves && (moves + [e])[|moves|] == e;
  }

  /** The moves lead to at most one state. */
  lemma OneState(s: Stream, moves: seq<Event>)
    requires s.Opening? || s.Opened?
    ensures StaysOpening(s, moves) ==> !LeadsToOpened(s, moves) && !LeadsToHalfClosed(s, moves)
    ensures StaysOpening(s, moves) || LeadsToOpened(s, moves) ==> !LeadsToFullyClosed(s, moves)
    ensures LeadsToOpened(s, moves) ==> !LeadsToHalfClosed(s, moves)
    ensures LeadsToHalfClosed(s, moves) ==> !LeadsToFullyClosed(s, moves)
  {}

  /** The state that the moves lead to; no entry if they lead nowhere. */
  predicate StateFits(s: Stream, moves: seq<Event>, state: Option<Stream>) {
    match state
    case None =>
      !StaysOpening(s, moves) && !LeadsToOpened(s, moves) && !LeadsToHalfClosed(s, moves) &&
      !LeadsToFullyClosed(s, moves)
    case Some(Opening(_)) => StaysOpening(s, moves)
    case Some(Opened(_)) => LeadsToOpened(s, moves)
    case Some(HalfClosed(_)) => LeadsToHalfClosed(s, moves)
    case Some(FullyClosed(_)) => LeadsToFullyClosed(s, moves)
  }

  lemma FitsAfterMove(t: Tunnels, id: Id, s: Stream, moves: seq<Event>, state: Stream, e: Event)
    requires (s.Opening? || s.Opened?) && StateFits(s, moves, Some(state)) && (Closes(e) || e.Established?)
    ensures StateFits(s, moves + [e], Next(t, id, Some(state), e))
  {
    OneMoreMove(s, moves, e);
    OneState(s, moves);
  }

  lemma GoneAfterMove(s: Stream, moves: seq<Event>, e: Event)
    requires StateFits(s, moves, None)
    ensures StateFits(s, moves + [e], None)
  {
    OneMoreMove(s, moves, e);
  }

  /** Over every run of a stream's life the moves alone decide the state, and the entry is there
      throughout exactly if they lead to one. */
  lemma {:induction false} StateByMoves(t: Tunnels, id: Id, s: Stream, evs: seq<Event>)
    requires s == Opening([]) || s == Opened([])
    ensures StateFits(s, Moves(evs), if Lives(t, id, s, evs) then After(t, id, Some(s), evs) else None)
    ensures Lives(t, id, s, evs) ==> After(t, id, Some(s), evs).Some?
  {
    if evs != [] {
      var before, e := evs[..|evs| - 1], evs[|evs| - 1];
      var moves := Moves(before);
      StateByMoves(t, id, s, before);
      if !(Closes(e) || e.Established?) {
        assert Moves(evs) == moves;
      } else if Lives(t, id, s, before) {
        FitsAfterMove(t, id, s, moves, After(t, id, Some(s), before).value, e);
      } else {
        GoneAfterMove(s, moves, e);
      }
    }
  }

  /** What is sent while a stream is in the table: a close for every attempt to open it again
      and every failed connection, and, once it has been closed twice, for data that still comes
      and for a thread that still ends. */
  lemma RepliesInLife(t: Tunnels, id: Id, s: Stream, evs: seq<Event>, e: Event)
    requires (s == Opening([]) || s == Opened([])) && Lives(t, id, s, evs)
    ensures Replies(t, id, After(t, id, Some(s), evs), e)
         == if e.OpenFromServer? || e.ConnectFailed? ||
               (LeadsToFullyClosed(s, Moves(evs)) && (e.DataFromServer? || e.StreamResult?))
            then [SendClose(id)] else []
  {
    StateByMoves(t, id, s, evs);
    OneState(s, Moves(evs));
  }

  /** How a stream comes into the table, and what is sent then: a server-bound one by the
      server's open, silently; a client-bound one by a connection, which is announced to the
      server.  Anything else leaves the stream out, and an open is refused with a close. */
  lemma Beginnings(t: Tunnels, id: Id, e: Event)
    ensures Next(t, id, None, e)
         == if e.OpenFromServer? && id.tunnel in t.serverBound && t.serverBound[id.tunnel] then Some(Opening([]))
            else if e.Established? && id.tunnel in t.clientBound then Some(Opened([]))
            else None
    ensures SendOpen(id) in Replies(t, id, None, e) <==> e.Established? && id.tunnel in t.clientBound
    ensures SendClose(id) in Replies(t, id, None, e)
      <==> e.ConnectFailed? || (e.OpenFromServer? && Next(t, id, None, e) == None)
    ensures |Replies(t, id, None, e)| <= 1
  {}

  // ----- The table -----

  function Entry(streams: map<Id, Stream>, id: Id): Option<Stream> {
    if id in streams then Some(streams[id]) else None
  }

  function WithEntry(streams: map<Id, Stream>, id: Id, s: Option<Stream>): map<Id, Stream> {
    if s == None then streams - {id} else streams[id := s.value]
  }

  /** The table after events of any streams, interleaved in any way. */
  function TableAfter(t: Tunnels, evs: seq<(Id, Event)>): map<Id, Stream> {
    if evs == [] then map[]
    else
      var before := TableAfter(t, evs[..|evs| - 1]);
      var (id, e) := evs[|evs| - 1];
      WithEntry(before, id, Next(t, id, Entry(before, id), e))
  }

  function EventsOf(evs: seq<(Id, Event)>, id: Id): seq<Event> {
    if evs == [] then []
    else EventsOf(evs[..|evs| - 1], id) + if evs[|evs| - 1].0 == id then [evs[|evs| - 1].1] else []
  }

  /** Streams do not disturb each other: whatever the interleaving, an entry is where its own
      events alone would have brought it. */
  lemma {:induction false} StreamsAreIndependent(t: Tunnels, evs: seq<(Id, Event)>, id: Id)
    ensures Entry(TableAfter(t, evs), id) == After(t, id, None, EventsOf(evs, id))
  {
    if evs != [] {
      var before := evs[..|evs| - 1];
      StreamsAreIndependent(t, before, id);
      var mine := EventsOf(evs, id);
      if evs[|evs| - 1].0 == id {
        assert mine[..|mine| - 1] == EventsOf(before, id);
      } else {
        assert mine == EventsOf(before, id);
      }
    }
  }

  /** Every entry was put in the table by one of its stream's events, the k-th, and has been
      there ever since. */
  lemma {:induction false} EntryHasALife(t: Tunnels, id: Id, evs: seq<Event>) returns (k: nat, s: Stream)
    requires After(t, id, None, evs).Some?
    ensures k <= |evs| && After(t, id, None, evs[..k]) == Some(s) && (s == Opening([]) || s == Opened([]))
    ensures Lives(t, id, s, evs[k..]) && After(t, id, Some(s), evs[k..]) == After(t, id, None, evs)
  {
    var n := |evs| - 1;
    if After(t, id, None, evs[..n]) == None {
      k, s := |evs|, After(t, id, None, evs).value;
      assert evs[..k] == evs;
    } else {
      k, s := EntryHasALife(t, id, evs[..n]);
      assert evs[..n][..k] == evs[..k];
      var life := evs[k..];
      assert life[..|life| - 1] == evs[..n][k..];
    }
  }

  /** In any table, after any interleaving of any streams' events: what a stream in the table
      has queued or handed to its writer is exactly the data accepted, in order, since its entry
      was created, or nothing if it closed before it opened. */
  lemma TableHandsOverAccepted(t: Tunnels, evs: seq<(Id, Event)>, id: Id) returns (k: nat, s: Stream)
    requires id in TableAfter(t, evs)
    ensures k <= |EventsOf(evs, id)| && (s == Opening([]) || s == Opened([]))
    ensures After(t, id, None, EventsOf(evs, id)[..k]) == Some(s) && Lives(t, id, s, EventsOf(evs, id)[k..])
    ensures
      var life := EventsOf(evs, id)[k..];
      match TableAfter(t, evs)[id]
      case Opening(queued) => queued == Accepted(t, id, s, life) && !WasOpen(t, id, s, life)
      case Opened(handed) => handed == Accepted(t, id, s, life) && WasOpen(t, id, s, life)
      case HalfClosed(handed) => handed == if WasOpen(t, id, s, life) then Accepted(t, id, s, life) else []
      case FullyClosed(handed) => handed == if WasOpen(t, id, s, life) then Accepted(t, id, s, life) else []
  {
    StreamsAreIndependent(t, evs, id);
    k, s := EntryHasALife(t, id, EventsOf(evs, id));
    WriterGetsAccepted(t, id, s, EventsOf(evs, id)[k..]);
  }

  class StreamTable {
    const tunnels: Tunnels
    var streams: map<Id, Stream>
    var toQuic: seq<Reply>

    constructor (tunnels: Tunnels)
      ensures this.tunnels == tunnels && streams == map[] && toQuic == []
    {
      this.tunnels, streams, toQuic := tunnels, map[], [];
    }

    /** The event's entry moves on, every other entry stays. */
    twostate predicate Moved(id: Id, e: Event)
      reads this
    {
      streams == WithEntry(old(streams), id, Next(tunnels, id, Entry(old(streams), id), e)) &&
      toQuic == old(toQuic) + Replies(tunnels, id, Entry(old(streams), id), e)
    }

    method HandleOpenFromServer(id: Id)
      modifies this
      ensures Moved(id, OpenFromServer)
    {
      if id.tunnel !in tunnels.serverBound || !tunnels.serverBound[id.tunnel] || id in streams {
        toQuic := toQuic + [SendClose(id)];
        return;
      }
      streams := streams[id := Opening([])];
    }

    method HandleCloseFromServer(id: Id)
      modifies this
      ensures Moved(id, CloseFromServer)
    {
      if id in streams {
        var state := streams[id];
        streams := streams - {id};
        match state {
          case Opening(_) => streams := streams[id := HalfClosed([])];
          case Opened(handed) => streams := streams[id := HalfClosed(handed)];
          case HalfClosed(handed) => streams := streams[id := FullyClosed(handed)];
          case FullyClosed(_) =>
        }
      }
    }

    method HandleDataFromServer(id: Id, data: Bytes)
      modifies this
      ensures Moved(id, DataFromServer(data))
    {
      if id in streams {
        match streams[id] {
          case Opened(handed) => streams := streams[id := Opened(handed + data)];
          case Opening(queued) => streams := streams[id := Opening(queued + data)];
          case HalfClosed(_) =>
          case FullyClosed(_) => toQuic := toQuic + [SendClose(id)];
        }
      }
    }

    method HandleNewStreamEstablished(id: Id)
      modifies this
      ensures Moved(id, Established)
    {
      var queued: Bytes := [];
      if id in streams {
        var state := streams[id];
        streams := streams - {id};
        if !state.Opening? { return; }
        queued := state.queued;
      } else {
        if id.tunnel !in tunnels.clientBound { return; }
        toQuic := toQuic + [SendOpen(id)];
      }
      streams := streams[id := Opened(queued)];
    }

    method HandleStreamResult(id: Id)
      modifies this
      ensures Moved(id, StreamResult)
    {
      if id in streams {
        var state := streams[id];
        streams := streams - {id};
        match state {
          case Opening(_) =>
          case Opened(handed) => streams := streams[id := HalfClosed(handed)];
          case HalfClosed(handed) => streams := streams[id := FullyClosed(handed)];
          case FullyClosed(_) => toQuic := toQuic + [SendClose(id)];
        }
      }
    }
  }
}
