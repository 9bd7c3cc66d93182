/** Supervision of a server session: the loop that waits for tasks, the backend and reasons to
    end, says goodbye and cancels everything (aperturec-server/src/server.rs:842-939). */
module Sessions {
  import opened Common

  datatype Reason = ShuttingDown | OtherLogin | InactiveTimeout | ProcessExited | InternalError

  /** How the backend task ends: with the backend, perhaps after an error and perhaps with its
      root process gone, or unrecoverably. */
  datatype BackendEnd = Recovered(error: bool, rootExited: bool) | Unrecoverable

  /** The branches of the select, in order. */
  datatype Event =
    | Cleanup
    | ServerStopped
    | NewSession
    | ClientInactive
    | TaskFinished(failed: bool)
    | BackendFinished(end: BackendEnd)

  datatype Action = Goodbye(reason: Reason) | CancelTokens

  datatype Session = Session(
    cancelled: bool,
    cleanupStarted: bool,
    goodbye: Option<Reason>,
    taskError: bool,
    tasks: nat,
    backend: Option<BackendEnd>,
    log: seq<Action>)

  function StartSession(tasks: nat): Session {
    Session(false, false, None, false, tasks, None, [])
  }

  /** Which branch the biased select can take.  The cancellation branch is polled first, so
      once the session is cancelled it is the one taken until cleanup has started. */
  predicate Enabled(s: Session, e: Event) {
    if s.cancelled && !s.cleanupStarted then e.Cleanup?
    else match e
      case Cleanup => false
      case ServerStopped => !s.cleanupStarted
      case NewSession => !s.cleanupStarted
      case ClientInactive => !s.cleanupStarted
      case TaskFinished(_) => s.tasks > 0
      case BackendFinished(_) => s.backend == None
  }

  /** The first recorded reason is kept. */
  function Because(s: Session, reason: Reason): Session {
    if s.goodbye == None then s.(goodbye := Some(reason)) else s
  }

  function Next(s: Session, e: Event): Session
    requires Enabled(s, e)
  {
    match e
    case Cleanup =>
      var farewell := if s.goodbye == None then [] else [Goodbye(s.goodbye.value)];
      s.(log := s.log + farewell + [CancelTokens], cleanupStarted := true)
    case ServerStopped => Because(s, ShuttingDown).(cancelled := true)
    case NewSession => Because(s, OtherLogin).(cancelled := true)
    case ClientInactive => Because(s, InactiveTimeout).(cancelled := true)
    case TaskFinished(failed) =>
      var s' := if failed && !s.taskError && !s.cleanupStarted
                then Because(s.(taskError := true), InternalError) else s;
      s'.(tasks := s.tasks - 1, cancelled := true)
    case BackendFinished(end) =>
      var s' := if end.Recovered? && end.error
                then Because(s, if end.rootExited then ProcessExited else InternalError) else s;
      s'.(backend := Some(end), cancelled := true)
  }

  /** The loop is left when no branch is left: everything has ended after the cleanup. */
  predicate Finished(s: Session) {
    s.cleanupStarted && s.tasks == 0 && s.backend != None
  }

  /** Every event of the run was enabled when it happened. */
  predicate IsRun(tasks: nat, evs: seq<Event>)
    decreases |evs|, 0
  {
    evs == [] || (IsRun(tasks, evs[..|evs| - 1]) && Enabled(After(tasks, evs[..|evs| - 1]), evs[|evs| - 1]))
  }

  function After(tasks: nat, evs: seq<Event>): Session
    requires IsRun(tasks, evs)
    decreases |evs|, 1
  {
    if evs == [] then StartSession(tasks) else Next(After(tasks, evs[..|evs| - 1]), evs[|evs| - 1])
  }

  /** The reason an event gives for ending the session. */
  function CauseOf(e: Event): Option<Reason> {
    match e
    case ServerStopped => Some(ShuttingDown)
    case NewSession => Some(OtherLogin)
    case ClientInactive => Some(InactiveTimeout)
    case TaskFinished(true) => Some(InternalError)
    case BackendFinished(Recovered(true, rootExited)) => Some(if rootExited then ProcessExited else InternalError)
    case _ => None
  }

  function Farewell(e: Event): seq<Action> {
    (if CauseOf(e) == None then [] else [Goodbye(CauseOf(e).value)]) + [CancelTokens]
  }

  /** Over every run: nothing is sent or cancelled before cleanup; cleanup is the second event
      and the only cleanup; its goodbye, if any, carries the reason of the first event and
      precedes the cancellation; and nothing is sent or cancelled afterwards. */
  lemma {:induction false} OneGoodbye(tasks: nat, evs: seq<Event>)
    requires IsRun(tasks, evs)
    ensures
      var s := After(tasks, evs);
      match |evs|
      case 0 => s == StartSession(tasks)
      case 1 => s.cancelled && !s.cleanupStarted && s.log == [] && s.goodbye == CauseOf(evs[0]) && evs[0] != Cleanup
      case _ =>
        s.cancelled && s.cleanupStarted && s.log == Farewell(evs[0]) &&
        evs[0] != Cleanup && evs[1] == Cleanup && forall i :: 2 <= i < |evs| ==> evs[i] != Cleanup
  {
    if evs != [] {
      var before := evs[..|evs| - 1];
      OneGoodbye(tasks, before);
      match |before|
      case 0 => assert evs[0] != Cleanup;
      case 1 => assert before[0] == evs[0];
      case _ => assert before[0] == evs[0] && before[1] == evs[1];
    }
  }

  /** Which goodbye each first event leads to, sent before the tokens are cancelled; a task that
      ends without an error and a backend that ends without one lead to none. */
  lemma GoodbyeByCause(tasks: nat, evs: seq<Event>)
    requires IsRun(tasks, evs) && |evs| >= 2
    ensures After(tasks, evs).log == match evs[0]
      case ServerStopped => [Goodbye(ShuttingDown), CancelTokens]
      case NewSession => [Goodbye(OtherLogin), CancelTokens]
      case ClientInactive => [Goodbye(InactiveTimeout), CancelTokens]
      case TaskFinished(failed) => if failed then [Goodbye(InternalError), CancelTokens] else [CancelTokens]
      case BackendFinished(Recovered(true, true)) => [Goodbye(ProcessExited), CancelTokens]
      case BackendFinished(Recovered(true, false)) => [Goodbye(InternalError), CancelTokens]
      case _ => [CancelTokens]
  {
    OneGoodbye(tasks, evs);
  }

  /** A task's error is recorded only if that task was the first thing to end the session. */
  lemma {:induction false} TaskErrorIsFirst(tasks: nat, evs: seq<Event>)
    requires IsRun(tasks, evs)
    ensures After(tasks, evs).taskError <==> evs != [] && evs[0] == TaskFinished(true)
  {
    if evs != [] {
      OneGoodbye(tasks, evs[..|evs| - 1]);
      TaskErrorIsFirst(tasks, evs[..|evs| - 1]);
    }
  }

  /** The select has no branch left exactly when the loop may be left. */
  lemma StuckIffFinished(s: Session)
    ensures (forall e :: !Enabled(s, e)) <==> Finished(s)
  {
    if !Finished(s) {
      if s.cancelled && !s.cleanupStarted {
        assert Enabled(s, Cleanup);
      } else if !s.cleanupStarted {
        assert Enabled(s, ServerStopped);
      } else if s.tasks > 0 {
        assert Enabled(s, TaskFinished(false));
      } else {
        assert Enabled(s, BackendFinished(Unrecoverable));
      }
    }
  }

  /** Unfinished tasks, the pending backend, and what is left of cancellation and cleanup. */
  function Measure(s: Session): nat {
    s.tasks + (if s.backend == None then 1 else 0) +
    (if s.cleanupStarted then 0 else if s.cancelled then 1 else 2)
  }

  /** Every turn of the loop lowers the measure, so a session ends after at most one turn for
      each task, one for the backend, one for the reason to end and one for the cleanup. */
  lemma EveryTurnProgresses(s: Session, e: Event)
    requires Enabled(s, e)
    ensures Measure(Next(s, e)) < Measure(s)
  {}

  lemma {:induction false} RunsAreShort(tasks: nat, evs: seq<Event>)
    requires IsRun(tasks, evs)
    ensures |evs| + Measure(After(tasks, evs)) <= tasks + 3
  {
    if evs != [] {
      RunsAreShort(tasks, evs[..|evs| - 1]);
      EveryTurnProgresses(After(tasks, evs[..|evs| - 1]), evs[|evs| - 1]);
    }
  }

  function TasksFinished(evs: seq<Event>): nat {
    if evs == [] then 0 else TasksFinished(evs[..|evs| - 1]) + if evs[|evs| - 1].TaskFinished? then 1 else 0
  }

  /** The loop is left only after every task and the backend have ended, and then the backend's
      result is the one it ended with. */
  lemma {:induction false} EndsAreCounted(tasks: nat, evs: seq<Event>)
    requires IsRun(tasks, evs)
    ensures After(tasks, evs).tasks + TasksFinished(evs) == tasks
    ensures After(tasks, evs).backend == None <==> forall i :: 0 <= i < |evs| ==> !evs[i].BackendFinished?
    ensures forall i :: 0 <= i < |evs| && evs[i].BackendFinished? ==> After(tasks, evs).backend == Some(evs[i].end)
  {
    if evs != [] {
      EndsAreCounted(tasks, evs[..|evs| - 1]);
    }
  }

  function BackendsFinished(evs: seq<Event>): nat {
    if evs == [] then 0 else BackendsFinished(evs[..|evs| - 1]) + if evs[|evs| - 1].BackendFinished? then 1 else 0
  }

  /** A first event other than the cleanup, then the cleanup, then ends of tasks and of the
      backend in any order, as many as there are. */
  predicate IsSession(tasks: nat, evs: seq<Event>) {
    (|evs| > 0 ==> evs[0] != Cleanup) && (|evs| > 1 ==> evs[1] == Cleanup) &&
    (forall i :: 2 <= i < |evs| ==> evs[i].TaskFinished? || evs[i].BackendFinished?) &&
    TasksFinished(evs) <= tasks && BackendsFinished(evs) <= 1
  }

  lemma {:induction false} BackendsCounted(tasks: nat, evs: seq<Event>)
    requires IsRun(tasks, evs)
    ensures BackendsFinished(evs) == if After(tasks, evs).backend == None then 0 else 1
  {
    if evs != [] {
      BackendsCounted(tasks, evs[..|evs| - 1]);
    }
  }

  /** These and no others are the runs of the loop. */
  lemma {:induction false} RunsExactly(tasks: nat, evs: seq<Event>)
    ensures IsRun(tasks, evs) <==> IsSession(tasks, evs)
  {
    if evs != [] {
      var n := |evs| - 1;
      RunsExactly(tasks, evs[..n]);
      if IsRun(tasks, evs[..n]) {
        OneGoodbye(tasks, evs[..n]);
        EndsAreCounted(tasks, evs[..n]);
        BackendsCounted(tasks, evs[..n]);
      } else {
        if IsSession(tasks, evs) {
          PrefixIsSession(tasks, evs);
        }
      }
    }
  }

  lemma PrefixIsSession(tasks: nat, evs: seq<Event>)
    requires evs != [] && IsSession(tasks, evs)
    ensures IsSession(tasks, evs[..|evs| - 1])
  {}

  lemma FinishedMeansAllEnded(tasks: nat, evs: seq<Event>) returns (i: nat)
    requires IsRun(tasks, evs) && Finished(After(tasks, evs))
    ensures TasksFinished(evs) == tasks
    ensures i < |evs| && evs[i].BackendFinished? && After(tasks, evs).backend == Some(evs[i].end)
    ensures After(tasks, evs).log == Farewell(evs[0])
  {
    EndsAreCounted(tasks, evs);
    OneGoodbye(tasks, evs);
    i :| 0 <= i < |evs| && evs[i].BackendFinished?;
  }

  /** Whatever the environment does, one of the enabled events. */
  type Environment = Session -> Event

  ghost predicate Cooperates(env: Environment) {
    forall s :: !Finished(s) ==> Enabled(s, env(s))
  }

  /** Every event is the one that the environment chose. */
  ghost predicate Follows(env: Environment, tasks: nat, evs: seq<Event>)
    requires IsRun(tasks, evs)
  {
    evs == [] ||
    (Follows(env, tasks, evs[..|evs| - 1]) && evs[|evs| - 1] == env(After(tasks, evs[..|evs| - 1])))
  }

  /** The run that the environment chooses, from the start to the end of the loop: its goodbye,
      if any, is for the reason of its first event, and it has at most one turn for each task
      and three more. */
  ghost predicate IsWholeRun(env: Environment, tasks: nat, evs: seq<Event>, backend: BackendEnd, log: seq<Action>) {
    IsRun(tasks, evs) && Follows(env, tasks, evs) &&
    Finished(After(tasks, evs)) && After(tasks, evs).backend == Some(backend) &&
    2 <= |evs| <= tasks + 3 && log == Farewell(evs[0])
  }

  /** The loop itself, on the variables the source keeps. */
  method Supervise(tasks: nat, env: Environment) returns (backend: BackendEnd, log: seq<Action>)
    requires Cooperates(env)
    ensures exists evs :: IsWholeRun(env, tasks, evs, backend, log)
  {
    var cancelled, cleanupStarted, taskError := false, false, false;
    var gbReason: Option<Reason> := None;
    var unfinished := tasks;
    var backendResult: Option<BackendEnd> := None;
    log := [];
    ghost var evs: seq<Event> := [];
    while !(cleanupStarted && unfinished == 0 && backendResult != None)
      invariant IsRun(tasks, evs) && Follows(env, tasks, evs)
      invariant After(tasks, evs)
             == Session(cancelled, cleanupStarted, gbReason, taskError, unfinished, backendResult, log)
      decreases Measure(After(tasks, evs))
    {
      var e := env(Session(cancelled, cleanupStarted, gbReason, taskError, unfinished, backendResult, log));
      assert (evs + [e])[..|evs|] == evs;
      EveryTurnProgresses(After(tasks, evs), e);
      match e {
        case Cleanup =>
          if gbReason != None {
            log := log + [Goodbye(gbReason.value)];
          }
          log := log + [CancelTokens];
          cleanupStarted := true;
        case ServerStopped =>
          if gbReason == None { gbReason := Some(ShuttingDown); }
          cancelled := true;
        case NewSession =>
          if gbReason == None { gbReason := Some(OtherLogin); }
          cancelled := true;
        case ClientInactive =>
          if gbReason == None { gbReason := Some(InactiveTimeout); }
          cancelled := true;
        case TaskFinished(failed) =>
          if !taskError && !cleanupStarted && failed {
            taskError := true;
            if gbReason == None { gbReason := Some(InternalError); }
          }
          unfinished := unfinished - 1;
          cancelled := true;
        case BackendFinished(end) =>
          if end.Recovered? && end.error && gbReason == None {
            gbReason := Some(if end.rootExited then ProcessExited else InternalError);
          }
          backendResult := Some(end);
          cancelled := true;
      }
      evs := evs + [e];
    }
    RunsAreShort(tasks, evs);
    OneGoodbye(tasks, evs);
    backend := backendResult.value;
    assert IsWholeRun(env, tasks, evs, backend, log);
  }
}
