/** The per-decoder, per-frame state machine of the client's framer
    (`DecoderFrameState` in aperturec-client/src/frame.rs).  Range sets of sequence
    numbers are modelled as finite sets. */
module DecoderFrames {
  import opened Common

  datatype DecoderState =
    | InFlight(received: set<nat>)
    | TerminatedIncomplete(missing: set<nat>)
    | Complete

  /** The inclusive range 0..=last. */
  function UpTo(last: nat): (r: set<nat>)
    ensures forall i: nat :: i in r <==> i <= last
  {
    if last == 0 then {0} else UpTo(last - 1) + {last}
  }

  /** First elements of the maximal runs of `r`; a range set stores one range for each. */
  function RangeStarts(r: set<nat>): set<nat> {
    set i {:trigger i in r} | i in r && (i == 0 || i - 1 !in r)
  }

  /** `first() == Some(0) && ranges_len() == 1` */
  predicate IsOneRangeFromZero(r: set<nat>) {
    0 in r && |RangeStarts(r)| == 1
  }

  function MarkSequence(st: DecoderState, sequence: nat, terminal: bool): Option<DecoderState> {
    match st
    case InFlight(received) =>
      if sequence in received then None
      else
        var received' := received + {sequence};
        if !terminal then Some(InFlight(received'))
        else if IsOneRangeFromZero(received') then Some(Complete)
        else Some(TerminatedIncomplete(UpTo(sequence) - received'))
    case TerminatedIncomplete(missing) =>
      if terminal then None
      else
        var missing' := missing - {sequence};
        Some(if missing' == {} then Complete else TerminatedIncomplete(missing'))
    case Complete => None
  }

  function MarkEmpty(st: DecoderState): Option<DecoderState> {
    match st
    case InFlight(received) => if received == {} then Some(Complete) else None
    case _ => None
  }

  // ----- Range sets -----

  lemma {:induction false} OneRangeIsDownClosed(r: set<nat>, k: nat)
    requires IsOneRangeFromZero(r) && k in r
    ensures UpTo(k) <= r
  {
    if k != 0 {
      if k - 1 !in r {
        assert {0, k} <= RangeStarts(r);
        SubsetSize({0, k}, RangeStarts(r));
        assert false;
      }
      OneRangeIsDownClosed(r, k - 1);
      assert UpTo(k) == UpTo(k - 1) + {k};
    }
  }

  lemma {:induction false} SubsetSize<T>(a: set<T>, b: set<T>)
    requires a <= b
    ensures |a| <= |b|
  {
    assert b == a + (b - a);
  }

  lemma UpToIsOneRange(last: nat)
    ensures IsOneRangeFromZero(UpTo(last))
  {
    assert RangeStarts(UpTo(last)) == {0};
  }

  // ----- Soundness against what has been accepted -----

  /** A decoder is done with a frame when an empty terminal came, or some terminal
      sequence t came together with every sequence 0..=t. */
  predicate Done(seqs: set<nat>, terms: set<nat>, emptied: bool) {
    emptied || exists t :: t in terms && UpTo(t) <= seqs
  }

  /** What a state claims about the sequences `seqs`, terminal sequences `terms` and
      empty terminal (`emptied`) accepted so far. */
  predicate Sound(st: DecoderState, seqs: set<nat>, terms: set<nat>, emptied: bool) {
    match st
    case InFlight(received) => received <= seqs
    case TerminatedIncomplete(missing) => exists t :: t in terms && UpTo(t) - missing <= seqs
    case Complete => Done(seqs, terms, emptied)
  }

  lemma SoundMonotone(st: DecoderState, seqs: set<nat>, terms: set<nat>, emptied: bool,
                      seqs': set<nat>, terms': set<nat>, emptied': bool)
    requires Sound(st, seqs, terms, emptied)
    requires seqs <= seqs' && terms <= terms' && (emptied ==> emptied')
    ensures Sound(st, seqs', terms', emptied')
  {
    match st
    case InFlight(_) =>
    case TerminatedIncomplete(missing) =>
      var t :| t in terms && UpTo(t) - missing <= seqs;
      assert t in terms';
    case Complete =>
      if !emptied {
        var t :| t in terms && UpTo(t) <= seqs;
        assert t in terms';
      }
  }

  lemma MarkSequenceSound(st: DecoderState, sequence: nat, terminal: bool,
                          seqs: set<nat>, terms: set<nat>, emptied: bool)
    requires Sound(st, seqs, terms, emptied)
    requires MarkSequence(st, sequence, terminal).Some?
    ensures Sound(MarkSequence(st, sequence, terminal).value, seqs + {sequence},
                  if terminal then terms + {sequence} else terms, emptied)
  {
    match st
    case InFlight(received) =>
      if terminal {
        var terms' := terms + {sequence};
        assert sequence in terms';
        var received' := received + {sequence};
        if IsOneRangeFromZero(received') {
          OneRangeIsDownClosed(received', sequence);
        }
      }
    case TerminatedIncomplete(missing) =>
      var t :| t in terms && UpTo(t) - missing <= seqs;
      assert UpTo(t) - (missing - {sequence}) <= seqs + {sequence};
      assert UpTo(t) - {} == UpTo(t);
  }

  // ----- A well-formed sender: sequences 0..=last, only `last` terminal -----

  /** The state the arrivals determine, whatever their order. */
  function Expected(arrived: set<nat>, last: nat): DecoderState {
    if last !in arrived then InFlight(arrived)
    else if arrived == UpTo(last) then Complete
    else TerminatedIncomplete(UpTo(last) - arrived)
  }

  lemma MarkSequenceExact(arrived: set<nat>, last: nat, sequence: nat)
    requires sequence <= last && sequence !in arrived && arrived <= UpTo(last)
    ensures MarkSequence(Expected(arrived, last), sequence, sequence == last)
         == Some(Expected(arrived + {sequence}, last))
  {
    var arrived' := arrived + {sequence};
    if sequence == last {
      if IsOneRangeFromZero(arrived') {
        OneRangeIsDownClosed(arrived', last);
        assert arrived' == UpTo(last);
      } else {
        UpToIsOneRange(last);
      }
    } else if last in arrived {
      var missing := UpTo(last) - arrived;
      assert missing - {sequence} == UpTo(last) - arrived';
      assert sequence in UpTo(last);
      assert (UpTo(last) - arrived' == {}) <==> (arrived' == UpTo(last));
    }
  }

  // ----- Runs of one decoder state -----

  datatype Arrival = Arrival(sequence: nat, terminal: bool)

  predicate Distinct(order: seq<Arrival>) {
    forall i, j :: 0 <= i < j < |order| ==> order[i].sequence != order[j].sequence
  }

  /** The sequences that arrived. */
  function Sequences(order: seq<Arrival>): set<nat> {
    set i | 0 <= i < |order| :: order[i].sequence
  }

  /** Marks the arrivals one after the other, from the default state. */
  function MarkAll(order: seq<Arrival>): Option<DecoderState> {
    if order == [] then Some(InFlight({}))
    else
      var n := |order| - 1;
      match MarkAll(order[..n])
      case None => None
      case Some(st) => MarkSequence(st, order[n].sequence, order[n].terminal)
  }

  lemma SequencesExtend(order: seq<Arrival>)
    requires order != []
    ensures Sequences(order) == Sequences(order[..|order| - 1]) + {order[|order| - 1].sequence}
  {}

  /** Every duplicate-free delivery order of a well-formed decoder-frame is accepted, and the
      state is `Complete` exactly when all of 0..=last have arrived. */
  lemma {:induction false} WellFormedDecoderRun(order: seq<Arrival>, last: nat)
    requires Distinct(order)
    requires forall i :: 0 <= i < |order| ==>
      order[i].sequence <= last && order[i].terminal == (order[i].sequence == last)
    ensures MarkAll(order) == Some(Expected(Sequences(order), last))
    ensures MarkAll(order) == Some(Complete) <==> Sequences(order) == UpTo(last)
  {
    if order == [] {
      assert Sequences(order) == {};
    } else {
      var n := |order| - 1;
      WellFormedDecoderRun(order[..n], last);
      SequencesExtend(order);
      MarkSequenceExact(Sequences(order[..n]), last, order[n].sequence);
    }
    assert last in UpTo(last);
  }

  /** The only terminal of the run is at `t`, and nothing up to it came twice. */
  predicate OneTerminalAt(order: seq<Arrival>, t: nat) {
    t < |order| && order[t].terminal && Distinct(order[..t + 1]) &&
    forall i :: 0 <= i < |order| && i != t ==> !order[i].terminal
  }

  /** What any accepted run, well formed or not, has been: without a terminal, and then without
      repetition, or with exactly one, before which nothing was repeated; and what is still
      missing is exactly what has not arrived. */
  lemma {:induction false} AcceptedRun(order: seq<Arrival>) returns (t: nat)
    requires MarkAll(order).Some?
    ensures match MarkAll(order).value
      case InFlight(received) =>
        received == Sequences(order) && Distinct(order) && forall i :: 0 <= i < |order| ==> !order[i].terminal
      case TerminatedIncomplete(missing) =>
        OneTerminalAt(order, t) && missing == UpTo(order[t].sequence) - Sequences(order)
      case Complete =>
        OneTerminalAt(order, t) && UpTo(order[t].sequence) <= Sequences(order)
  {
    t := 0;
    if order == [] {
      assert Sequences(order) == {};
    } else {
      var n := |order| - 1;
      var t' := AcceptedRun(order[..n]);
      SequencesExtend(order);
      if MarkAll(order[..n]).value.InFlight? {
        DistinctExtend(order);
        if order[n].terminal {
          t := n;
          FirstTerminal(order);
        }
      } else {
        t := t';
        OneTerminalExtend(order, t);
      }
    }
  }

  lemma DistinctExtend(order: seq<Arrival>)
    requires order != [] && Distinct(order[..|order| - 1])
    requires order[|order| - 1].sequence !in Sequences(order[..|order| - 1])
    ensures Distinct(order)
  {
    forall i, j | 0 <= i < j < |order| ensures order[i].sequence != order[j].sequence {
      assert order[..|order| - 1][i] == order[i];
    }
  }

  lemma FirstTerminal(order: seq<Arrival>)
    requires order != [] && Distinct(order) && order[|order| - 1].terminal
    requires forall a :: a in order[..|order| - 1] ==> !a.terminal
    ensures OneTerminalAt(order, |order| - 1)
    ensures IsOneRangeFromZero(Sequences(order)) ==> UpTo(order[|order| - 1].sequence) <= Sequences(order)
  {
    assert order[..|order|] == order;
    assert order[|order| - 1].sequence in Sequences(order);
    assert forall i :: 0 <= i < |order| - 1 ==> order[i] in order[..|order| - 1];
    if IsOneRangeFromZero(Sequences(order)) {
      OneRangeIsDownClosed(Sequences(order), order[|order| - 1].sequence);
    }
  }

  lemma OneTerminalExtend(order: seq<Arrival>, t: nat)
    requires order != [] && OneTerminalAt(order[..|order| - 1], t) && !order[|order| - 1].terminal
    ensures OneTerminalAt(order, t) && order[..|order| - 1][t] == order[t]
  {
    var before := order[..|order| - 1];
    assert before[..t + 1] == order[..t + 1];
    forall i | 0 <= i < |order| && i != t ensures !order[i].terminal {
      assert i < |before| ==> before[i] == order[i];
    }
  }

  // ----- Exactly what is accepted -----

  predicate IsTerminated(order: seq<Arrival>) { exists i :: 0 <= i < |order| && order[i].terminal }

  /** Done at the terminal, when what has arrived is one range from zero, or later, when
      everything up to the terminal has arrived. */
  predicate IsDone(order: seq<Arrival>) {
    exists t :: 0 <= t < |order| && order[t].terminal &&
      if t == |order| - 1 then IsOneRangeFromZero(Sequences(order))
      else UpTo(order[t].sequence) <= Sequences(order)
  }

  /** The kind of state that an accepted run is in. */
  lemma {:induction false} KindOfRun(order: seq<Arrival>)
    requires MarkAll(order).Some?
    ensures MarkAll(order).value.InFlight? <==> !IsTerminated(order)
    ensures MarkAll(order).value.Complete? <==> IsDone(order)
  {
    if order != [] {
      var n := |order| - 1;
      var before := order[..n];
      KindOfRun(before);
      var t := AcceptedRun(before);
      var t' := AcceptedRun(order);
      SequencesExtend(order);
      assert forall i :: 0 <= i < n ==> before[i] == order[i];
      if !MarkAll(before).value.InFlight? {
        OneTerminalExtend(order, t);
        assert t == t' && order[t].terminal;
        if UpTo(order[t].sequence) <= Sequences(order) {
          assert IsDone(order);
        }
      } else if order[n].terminal && IsOneRangeFromZero(Sequences(order)) {
        assert IsDone(order);
      }
    }
  }

  /** A next arrival is accepted, before the terminal, unless its sequence has arrived; after it,
      if it is not a terminal and the decoder is not done. */
  lemma NextAccepted(order: seq<Arrival>, a: Arrival)
    requires MarkAll(order).Some?
    ensures MarkAll(order + [a]).Some?
      <==> if IsTerminated(order) then !a.terminal && !IsDone(order) else a.sequence !in Sequences(order)
  {
    assert (order + [a])[..|order|] == order;
    KindOfRun(order);
    var t := AcceptedRun(order);
  }

  /** An empty terminal is accepted only when nothing has arrived, and completes the state. */
  lemma EmptyTerminalAcceptedIff(order: seq<Arrival>)
    requires MarkAll(order).Some?
    ensures MarkEmpty(MarkAll(order).value) == if order == [] then Some(Complete) else None
  {
    KindOfRun(order);
    var t := AcceptedRun(order);
    if order != [] {
      assert order[0].sequence in Sequences(order);
    }
  }
}
