/** Reliable out-of-order datagrams: one stream for each message
    (aperturec-channel/src/transport/datagram.rs). */
module Datagrams {
  import opened Common

  /** A stream being received: the bytes accumulated and those still to arrive. */
  datatype Incoming = Incoming(data: Bytes, rest: Bytes)

  function Whole(s: Incoming): Bytes { s.data + s.rest }

  function WholeSeq(streams: seq<Incoming>): seq<Bytes> {
    seq(|streams|, i requires 0 <= i < |streams| => Whole(streams[i]))
  }

  /** The datagrams the streams carry. */
  function Wholes(streams: seq<Incoming>): multiset<Bytes> { multiset(WholeSeq(streams)) }

  /** What the select of one turn of the receive loop meets. */
  datatype Select =
    | PeerTransmits(data: Bytes)        // the peer opens another stream meanwhile
    | Accept(stream: nat)               // a stream that has not been accepted, in any order
    | AcceptFails                       // the acceptor reports an error
    | ChunkArrives(rx: nat, size: nat)  // for a stream in progress
    | StreamEnds(rx: nat)               // a stream in progress is at its end
    | StreamFails(rx: nat)              // a stream in progress reports an error

  /** What `receive` returns before its timeout: a datagram or an error. */
  datatype Result = Datagram(data: Bytes) | Error

  function SentBy(e: Select): multiset<Bytes> {
    if e.PeerTransmits? then multiset{e.data} else multiset{}
  }

  /** The datagrams the peer transmits in the course of a schedule. */
  function Sent(schedule: seq<Select>): multiset<Bytes> {
    if schedule == [] then multiset{} else Sent(schedule[..|schedule| - 1]) + SentBy(schedule[|schedule| - 1])
  }

  /** Adding up one more step. */
  lemma SentOneMore(schedule: seq<Select>, k: nat, start: multiset<Bytes>)
    requires k < |schedule|
    ensures (start + Sent(schedule[..k])) + SentBy(schedule[k]) == start + Sent(schedule[..k + 1])
  {
    assert schedule[..k + 1][..k] == schedule[..k];
  }

  function Without<T>(s: seq<T>, i: nat): seq<T>
    requires i < |s|
  {
    s[..i] + s[i + 1..]
  }

  lemma WithoutOne<T>(s: seq<T>, i: nat)
    requires i < |s|
    ensures multiset(s) == multiset(Without(s, i)) + multiset{s[i]}
  {
    assert s == s[..i] + [s[i]] + s[i + 1..];
  }

  lemma WholesAppend(s: seq<Incoming>, x: Incoming)
    ensures Wholes(s + [x]) == Wholes(s) + multiset{Whole(x)}
  {
    assert WholeSeq(s + [x]) == WholeSeq(s) + [Whole(x)];
  }

  lemma WholesUpdate(s: seq<Incoming>, i: nat, x: Incoming)
    requires i < |s| && Whole(x) == Whole(s[i])
    ensures Wholes(s[i := x]) == Wholes(s)
  {
    assert WholeSeq(s[i := x]) == WholeSeq(s);
  }

  lemma WholesWithout(s: seq<Incoming>, i: nat)
    requires i < |s|
    ensures Wholes(s) == Wholes(Without(s, i)) + multiset{Whole(s[i])}
  {
    assert WholeSeq(Without(s, i)) == Without(WholeSeq(s), i);
    WithoutOne(WholeSeq(s), i);
  }

  // ----- One turn, on values -----

  predicate CanHappen(unaccepted: seq<Bytes>, rx: seq<Incoming>, e: Select) {
    match e
    case PeerTransmits(_) => true
    case Accept(i) => i < |unaccepted|
    case ChunkArrives(i, size) => i < |rx| && 0 < size <= |rx[i].rest|
    case StreamEnds(i) => i < |rx| && rx[i].rest == []
    case StreamFails(i) => i < |rx|
    case AcceptFails => true
  }

  function Moved(unaccepted: seq<Bytes>, rx: seq<Incoming>, e: Select): (seq<Bytes>, seq<Incoming>)
    requires CanHappen(unaccepted, rx, e)
  {
    match e
    case PeerTransmits(data) => (unaccepted + [data], rx)
    case Accept(i) => (Without(unaccepted, i), rx + [Incoming([], unaccepted[i])])
    case ChunkArrives(i, size) =>
      (unaccepted, rx[i := Incoming(rx[i].data + rx[i].rest[..size], rx[i].rest[size..])])
    case StreamEnds(i) => (unaccepted, Without(rx, i))
    case StreamFails(i) => (unaccepted, Without(rx, i))
    case AcceptFails => (unaccepted, rx)
  }

  /** What a turn returns, if it ends the receive loop. */
  function HandedOut(rx: seq<Incoming>, e: Select): Option<Result> {
    match e
    case StreamEnds(i) => if i < |rx| then Some(Datagram(rx[i].data)) else None
    case StreamFails(_) => Some(Error)
    case AcceptFails => Some(Error)
    case _ => None
  }

  /** The datagram that a result brings. */
  function Got(r: Option<Result>): multiset<Bytes> {
    if r.Some? && r.value.Datagram? then multiset{r.value.data} else multiset{}
  }

  /** The datagram that is lost when its stream fails. */
  function LostBy(rx: seq<Incoming>, e: Select): multiset<Bytes> {
    if e.StreamFails? && e.rx < |rx| then multiset{Whole(rx[e.rx])} else multiset{}
  }

  /** The datagrams that have not been received yet. */
  function Pending(unaccepted: seq<Bytes>, rx: seq<Incoming>): multiset<Bytes> {
    Wholes(rx) + multiset(unaccepted)
  }

  /** Whatever happens, what is pending grows by what the peer transmits and shrinks by what is
      handed out, byte for byte, or lost with a failed stream. */
  lemma MovedConserves(unaccepted: seq<Bytes>, rx: seq<Incoming>, e: Select)
    requires CanHappen(unaccepted, rx, e)
    ensures
      var (unaccepted', rx') := Moved(unaccepted, rx, e);
      Pending(unaccepted', rx') + (Got(HandedOut(rx, e)) + LostBy(rx, e)) == Pending(unaccepted, rx) + SentBy(e)
  {
    match e
    case PeerTransmits(data) => assert multiset(unaccepted + [data]) == multiset(unaccepted) + multiset{data};
    case Accept(i) => AcceptConserves(unaccepted, rx, i);
    case ChunkArrives(i, size) =>
      assert rx[i].rest == rx[i].rest[..size] + rx[i].rest[size..];
      assert Whole(Moved(unaccepted, rx, e).1[i]) == Whole(rx[i]);
      WholesUpdate(rx, i, Moved(unaccepted, rx, e).1[i]);
    case StreamEnds(i) =>
      EndConserves(unaccepted, rx, i);
      assert Whole(rx[i]) == rx[i].data;
    case StreamFails(i) => EndConserves(unaccepted, rx, i);
    case AcceptFails =>
  }

  /** Every datagram transmitted has been received, has been lost with its stream, or is
      pending; nothing is invented or altered. */
  ghost predicate Accounted(transmitted: multiset<Bytes>, received: multiset<Bytes>, lost: multiset<Bytes>,
                            unaccepted: seq<Bytes>, rx: seq<Incoming>) {
    transmitted == (received + lost) + Pending(unaccepted, rx)
  }

  lemma Balance<T>(all: multiset<T>, out: multiset<T>, lost: multiset<T>, left: multiset<T>, left': multiset<T>,
                   taken: multiset<T>, failed: multiset<T>, added: multiset<T>)
    requires all == (out + lost) + left && left' + (taken + failed) == left + added
    ensures all + added == ((out + taken) + (lost + failed)) + left'
  {
    forall x ensures (all + added)[x] == (((out + taken) + (lost + failed)) + left')[x] {
      assert (left' + (taken + failed))[x] == (left + added)[x];
    }
  }

  lemma StaysAccounted(transmitted: multiset<Bytes>, received: multiset<Bytes>, lost: multiset<Bytes>,
                       unaccepted: seq<Bytes>, rx: seq<Incoming>, e: Select)
    requires Accounted(transmitted, received, lost, unaccepted, rx) && CanHappen(unaccepted, rx, e)
    ensures
      var (unaccepted', rx') := Moved(unaccepted, rx, e);
      Accounted(transmitted + SentBy(e), received + Got(HandedOut(rx, e)), lost + LostBy(rx, e), unaccepted', rx')
  {
    var (unaccepted', rx') := Moved(unaccepted, rx, e);
    MovedConserves(unaccepted, rx, e);
    Balance(transmitted, received, lost, Pending(unaccepted, rx), Pending(unaccepted', rx'),
            Got(HandedOut(rx, e)), LostBy(rx, e), SentBy(e));
  }

  lemma AcceptConserves(unaccepted: seq<Bytes>, rx: seq<Incoming>, i: nat)
    requires i < |unaccepted|
    ensures Pending(Without(unaccepted, i), rx + [Incoming([], unaccepted[i])]) == Pending(unaccepted, rx)
  {
    WithoutOne(unaccepted, i);
    WholesAppend(rx, Incoming([], unaccepted[i]));
    assert Whole(Incoming([], unaccepted[i])) == unaccepted[i];
  }

  lemma EndConserves(unaccepted: seq<Bytes>, rx: seq<Incoming>, i: nat)
    requires i < |rx|
    ensures Pending(unaccepted, Without(rx, i)) + multiset{Whole(rx[i])} == Pending(unaccepted, rx)
  {
    WholesWithout(rx, i);
  }

  // ----- Progress -----

  function Sum(s: seq<nat>): nat { if s == [] then 0 else s[0] + Sum(s[1..]) }

  lemma {:induction false} SumConcat(a: seq<nat>, b: seq<nat>)
    ensures Sum(a + b) == Sum(a) + Sum(b)
  {
    if a == [] {
      assert a + b == b;
    } else {
      assert (a + b)[1..] == a[1..] + b;
      SumConcat(a[1..], b);
    }
  }

  lemma SumSplit(s: seq<nat>, i: nat)
    requires i < |s|
    ensures Sum(s) == Sum(s[..i]) + s[i] + Sum(s[i + 1..])
  {
    assert s == s[..i] + s[i..];
    SumConcat(s[..i], s[i..]);
  }

  function StreamWork(rx: seq<Incoming>): seq<nat> {
    seq(|rx|, i requires 0 <= i < |rx| => |rx[i].rest| + 1)
  }

  function AcceptWork(unaccepted: seq<Bytes>): seq<nat> {
    seq(|unaccepted|, i requires 0 <= i < |unaccepted| => |unaccepted[i]| + 2)
  }

  /** A bound on the turns that are left if the peer transmits nothing more: one to accept a
      stream, one for each byte and one to end. */
  function Work(unaccepted: seq<Bytes>, rx: seq<Incoming>): nat {
    Sum(AcceptWork(unaccepted)) + Sum(StreamWork(rx))
  }

  lemma AcceptLowersWork(unaccepted: seq<Bytes>, rx: seq<Incoming>, i: nat)
    requires i < |unaccepted|
    ensures Work(Without(unaccepted, i), rx + [Incoming([], unaccepted[i])]) < Work(unaccepted, rx)
  {
    var w := AcceptWork(unaccepted);
    SumSplit(w, i);
    assert AcceptWork(Without(unaccepted, i)) == w[..i] + w[i + 1..];
    SumConcat(w[..i], w[i + 1..]);
    assert StreamWork(rx + [Incoming([], unaccepted[i])]) == StreamWork(rx) + [w[i] - 1];
    SumConcat(StreamWork(rx), [w[i] - 1]);
  }

  lemma ChunkLowersWork(rx: seq<Incoming>, i: nat, s: Incoming)
    requires i < |rx| && |s.rest| < |rx[i].rest|
    ensures Sum(StreamWork(rx[i := s])) < Sum(StreamWork(rx))
  {
    var w, w' := StreamWork(rx), StreamWork(rx[i := s]);
    SumSplit(w, i);
    SumSplit(w', i);
    assert w'[..i] == w[..i] && w'[i + 1..] == w[i + 1..];
  }

  lemma EndLowersWork(rx: seq<Incoming>, i: nat)
    requires i < |rx|
    ensures Sum(StreamWork(Without(rx, i))) < Sum(StreamWork(rx))
  {
    var w := StreamWork(rx);
    SumSplit(w, i);
    assert StreamWork(Without(rx, i)) == w[..i] + w[i + 1..];
    SumConcat(w[..i], w[i + 1..]);
  }

  /** Every turn other than a transmission or an acceptor's error brings the receiver closer to having it all. */
  lemma TurnsProgress(unaccepted: seq<Bytes>, rx: seq<Incoming>, e: Select)
    requires CanHappen(unaccepted, rx, e) && !e.PeerTransmits? && !e.AcceptFails?
    ensures
      var (unaccepted', rx') := Moved(unaccepted, rx, e);
      Work(unaccepted', rx') < Work(unaccepted, rx)
  {
    match e
    case Accept(i) => AcceptLowersWork(unaccepted, rx, i);
    case ChunkArrives(i, size) => ChunkLowersWork(rx, i, Moved(unaccepted, rx, e).1[i]);
    case StreamEnds(i) => EndLowersWork(rx, i);
    case StreamFails(i) => EndLowersWork(rx, i);
  }

  /** While anything is pending, a turn without an error is possible: the receiver is never
      stuck. */
  lemma NeverStuck(unaccepted: seq<Bytes>, rx: seq<Incoming>) returns (e: Select)
    requires Pending(unaccepted, rx) != multiset{}
    ensures CanHappen(unaccepted, rx, e) && (e.Accept? || e.ChunkArrives? || e.StreamEnds?)
  {
    if unaccepted != [] {
      e := Accept(0);
    } else {
      assert |WholeSeq(rx)| == |rx|;
      e := if rx[0].rest == [] then StreamEnds(0) else ChunkArrives(0, 1);
    }
  }

  // ----- Schedules -----

  datatype State = State(unaccepted: seq<Bytes>, rx: seq<Incoming>)

  /** A step of a schedule, skipped when it cannot happen. */
  function StepOf(s: State, e: Select): State {
    if CanHappen(s.unaccepted, s.rx, e)
    then var (unaccepted, rx) := Moved(s.unaccepted, s.rx, e); State(unaccepted, rx)
    else s
  }

  /** What that step returns, if it ends the receive loop. */
  function ResultOf(s: State, e: Select): Option<Result> {
    if CanHappen(s.unaccepted, s.rx, e) then HandedOut(s.rx, e) else None
  }

  function Played(s: State, schedule: seq<Select>): State
    decreases |schedule|
  {
    if schedule == [] then s else Played(StepOf(s, schedule[0]), schedule[1..])
  }

  /** The result of the first step that has one. */
  function Outcome(s: State, schedule: seq<Select>): Option<Result>
    decreases |schedule|
  {
    if schedule == [] then None
    else if ResultOf(s, schedule[0]) != None then ResultOf(s, schedule[0])
    else Outcome(StepOf(s, schedule[0]), schedule[1..])
  }

  lemma {:induction false} PlayedOneMore(s: State, schedule: seq<Select>, k: nat)
    requires k < |schedule|
    ensures Played(s, schedule[..k + 1]) == StepOf(Played(s, schedule[..k]), schedule[k])
    decreases |schedule|
  {
    if k == 0 {
      assert schedule[..1] == [schedule[0]] && schedule[..0] == [] && schedule[..1][1..] == [];
    } else {
      assert schedule[..k + 1][1..] == schedule[1..][..k] && schedule[..k][1..] == schedule[1..][..k - 1];
      PlayedOneMore(StepOf(s, schedule[0]), schedule[1..], k - 1);
    }
  }

  lemma OutcomeOfRest(s: State, schedule: seq<Select>, k: nat)
    requires k < |schedule|
    ensures Outcome(s, schedule[k..])
         == if ResultOf(s, schedule[k]) != None then ResultOf(s, schedule[k])
            else Outcome(StepOf(s, schedule[k]), schedule[k + 1..])
  {
    assert schedule[k..][1..] == schedule[k + 1..];
  }

  /** A schedule receives nothing exactly if no stream ends and nothing fails in its course, and
      otherwise what the first such step brings. */
  lemma {:induction false} OutcomeIsFirst(s: State, schedule: seq<Select>) returns (k: nat)
    ensures k <= |schedule|
    ensures forall j :: 0 <= j < k ==> ResultOf(Played(s, schedule[..j]), schedule[j]) == None
    ensures Outcome(s, schedule)
         == if k == |schedule| then None else ResultOf(Played(s, schedule[..k]), schedule[k])
    ensures Outcome(s, schedule) == None <==> k == |schedule|
    decreases |schedule|
  {
    if schedule == [] || ResultOf(s, schedule[0]) != None {
      k := 0;
      assert schedule[..0] == [];
    } else {
      var rest := schedule[1..];
      k := OutcomeIsFirst(StepOf(s, schedule[0]), rest);
      k := k + 1;
      forall j | 0 <= j < k && j < |schedule|
        ensures j > 0 ==> Played(s, schedule[..j]) == Played(StepOf(s, schedule[0]), rest[..j - 1])
      {
        if j > 0 {
          assert schedule[..j][1..] == rest[..j - 1];
        }
      }
      if k < |schedule| {
        assert schedule[..k][1..] == rest[..k - 1];
      }
      assert schedule[..0] == [];
    }
  }

  /** A result tells what happened: a datagram is all the bytes of a stream that has ended, and
      an error comes from a stream or the acceptor that failed. */
  lemma ResultMeans(s: State, e: Select)
    ensures match ResultOf(s, e)
      case None => !(e.StreamEnds? && e.rx < |s.rx| && s.rx[e.rx].rest == []) &&
        !(e.StreamFails? && e.rx < |s.rx|) && !e.AcceptFails?
      case Some(Datagram(data)) => e.StreamEnds? && e.rx < |s.rx| && data == Whole(s.rx[e.rx])
      case Some(Error) => e.StreamFails? || e.AcceptFails?
  {}

  /** Whatever is pending, some schedule receives a datagram. */
  lemma {:induction false} SomethingArrives(s: State) returns (schedule: seq<Select>)
    requires Pending(s.unaccepted, s.rx) != multiset{}
    ensures Outcome(s, schedule).Some? && Outcome(s, schedule).value.Datagram?
    decreases Work(s.unaccepted, s.rx)
  {
    var e := NeverStuck(s.unaccepted, s.rx);
    if e.StreamEnds? {
      schedule := [e];
    } else {
      TurnsProgress(s.unaccepted, s.rx, e);
      MovedConserves(s.unaccepted, s.rx, e);
      var rest := SomethingArrives(StepOf(s, e));
      schedule := [e] + rest;
      assert schedule[1..] == rest;
    }
  }

  // ----- The transport itself -----

  class OutOfOrderTransport {
    var unaccepted: seq<Bytes>       // opened by the peer, not yet accepted
    var rxStreams: seq<Incoming>     // accepted, not yet at their end
    ghost var transmitted: multiset<Bytes>
    ghost var received: multiset<Bytes>
    ghost var lost: multiset<Bytes>  // with a stream that failed

    ghost predicate Valid()
      reads this
    {
      Accounted(transmitted, received, lost, unaccepted, rxStreams)
    }

    constructor ()
      ensures Valid() && transmitted == received == lost == multiset{} && rxStreams == [] && unaccepted == []
    {
      unaccepted, rxStreams := [], [];
      transmitted, received, lost := multiset{}, multiset{}, multiset{};
    }

    /** Opens a stream of its own for the datagram; nothing is sent when that fails. */
    method Transmit(data: Bytes, opens: bool) returns (ok: bool)
      requires Valid()
      modifies this
      ensures Valid() && ok == opens && received == old(received) && lost == old(lost)
      ensures transmitted == old(transmitted) + if opens then multiset{data} else multiset{}
      ensures unaccepted == old(unaccepted) + if opens then [data] else []
      ensures rxStreams == old(rxStreams)
    {
      if !opens { return false; }
      unaccepted := unaccepted + [data];
      transmitted := transmitted + multiset{data};
      ok := true;
    }

    /** What one turn of the receive loop does: a new stream starts accumulating, a chunk is
        appended to the bytes of its stream, a stream that has ended hands its bytes out, or an
        error does, and a failed stream is dropped. */
    method Take(e: Select) returns (r: Option<Result>)
      requires CanHappen(unaccepted, rxStreams, e)
      modifies `unaccepted, `rxStreams
      ensures (unaccepted, rxStreams) == Moved(old(unaccepted), old(rxStreams), e)
      ensures r == HandedOut(old(rxStreams), e)
    {
      r := None;
      match e {
        case PeerTransmits(data) => unaccepted := unaccepted + [data];
        case Accept(i) =>
          rxStreams := rxStreams + [Incoming([], unaccepted[i])];
          unaccepted := Without(unaccepted, i);
        case AcceptFails => r := Some(Error);
        case ChunkArrives(i, size) =>
          var s := rxStreams[i];
          rxStreams := rxStreams[i := Incoming(s.data + s.rest[..size], s.rest[size..])];
        case StreamEnds(i) =>
          r := Some(Datagram(rxStreams[i].data));
          rxStreams := Without(rxStreams, i);
        case StreamFails(i) =>
          r := Some(Error);
          rxStreams := Without(rxStreams, i);
      }
    }

    /** One turn, with the account of what was transmitted, received and lost. */
    method Turn(e: Select) returns (r: Option<Result>)
      requires Valid() && CanHappen(unaccepted, rxStreams, e)
      modifies this
      ensures Valid() && (unaccepted, rxStreams) == Moved(old(unaccepted), old(rxStreams), e)
      ensures r == HandedOut(old(rxStreams), e)
      ensures transmitted == old(transmitted) + SentBy(e) && received == old(received) + Got(r)
      ensures lost == old(lost) + LostBy(old(rxStreams), e)
    {
      StaysAccounted(transmitted, received, lost, unaccepted, rxStreams, e);
      ghost var failed := LostBy(rxStreams, e);
      r := Take(e);
      transmitted, received, lost := transmitted + SentBy(e), received + Got(r), lost + failed;
    }

    ghost function Streams(): State
      reads this
    {
      State(unaccepted, rxStreams)
    }

    /** A step of a schedule: performed when it can happen, otherwise nothing changes. */
    method TurnIfPossible(e: Select) returns (r: Option<Result>)
      requires Valid()
      modifies this
      ensures Valid() && Streams() == StepOf(old(Streams()), e) && r == ResultOf(old(Streams()), e)
      ensures CanHappen(old(unaccepted), old(rxStreams), e) ==>
        (unaccepted, rxStreams) == Moved(old(unaccepted), old(rxStreams), e)
      ensures transmitted == old(transmitted) + SentBy(e)
      ensures r == None ==> received == old(received)
      ensures received == old(received) + Got(r)
      ensures r != Some(Error) ==> lost == old(lost)
    {
      r := None;
      if CanHappen(unaccepted, rxStreams, e) {
        r := Turn(e);
      }
    }

    /** Receives until a stream ends or something fails or, when the schedule runs out, the
        timeout strikes.  For every schedule, the result is that of the first step that has
        one; what is received is byte for byte a datagram that was transmitted and not received
        before; a timeout loses nothing, nor does anything but an error. */
    method Receive(schedule: seq<Select>) returns (r: Option<Result>, used: nat)
      requires Valid()
      modifies this
      ensures Valid() && used <= |schedule| && (r == None ==> used == |schedule|)
      ensures r == Outcome(old(Streams()), schedule)
      ensures Streams() == Played(old(Streams()), schedule[..used])
      ensures transmitted == old(transmitted) + Sent(schedule[..used])
      ensures received == old(received) + Got(r)
      ensures r != Some(Error) ==> lost == old(lost)
    {
      used := 0;
      while used < |schedule|
        invariant Valid() && used <= |schedule| && received == old(received) && lost == old(lost)
        invariant Streams() == Played(old(Streams()), schedule[..used])
        invariant Outcome(old(Streams()), schedule) == Outcome(Streams(), schedule[used..])
        invariant transmitted == old(transmitted) + Sent(schedule[..used])
      {
        SentOneMore(schedule, used, old(transmitted));
        PlayedOneMore(old(Streams()), schedule, used);
        OutcomeOfRest(Streams(), schedule, used);
        r := TurnIfPossible(schedule[used]);
        used := used + 1;
        if r != None { return; }
      }
      r := None;
    }
  }

  /** Only what was transmitted is received, and everything not lost has been received exactly
      when no stream is left. */
  lemma AllReceived(transmitted: multiset<Bytes>, received: multiset<Bytes>, lost: multiset<Bytes>,
                    rx: seq<Incoming>, unaccepted: seq<Bytes>)
    requires Accounted(transmitted, received, lost, unaccepted, rx)
    ensures received <= transmitted
    ensures received + lost == transmitted <==> rx == [] && unaccepted == []
  {
    assert |Wholes(rx)| == |rx|;
  }
}
