/** A caller that starts one goroutine a task and joins them through an error channel: the cluster
    set-up, the run of all suites, and the set-up and run of a benchmark on all workers. They differ
    in the capacity of the error channel, in whether the caller waits for all tasks before it reads
    the channel, and in whether successes are collected. Steps interleave freely. */
module FanIn {
  import opened Basics
  import opened Counting

  /** How a task ends, if it does. */
  datatype Ending = Succeeds | Fails | Hangs

  datatype Config = Config(
    ends: seq<Ending>,     // how each task ends
    errorCapacity: nat,    // capacity of the error channel
    waitsFirst: bool,      // the caller waits and closes; otherwise another goroutine does
    collects: bool,        // successes are sent to a channel with room for all of them
    preludeFails: bool)    // what must succeed before any task starts

  datatype Task = Unstarted | Running | SendingError | SendingResult | Sent | Finished

  datatype Outcome = PreludeError | TaskError(task: nat) | Success(results: seq<nat>)

  datatype Caller = Prelude | Starting | Waiting | Ranging | Draining(results: seq<nat>) | Returned(outcome: Outcome)

  datatype State = State(
    caller: Caller,
    started: nat,
    tasks: seq<Task>,
    errorCh: seq<nat>, resultCh: seq<nat>, closed: bool,
    panicked: bool)

  datatype Action =
    | EndPrelude | Begin | EndStarting
    | Finish(task: nat) | SendError(task: nat) | Handoff(task: nat) | SendResult(task: nat) | Signal(task: nat)
    | Close | ReceiveError | EndRange | Drain | EndDrain

  function Initial(c: Config): State {
    State(Prelude, 0, seq(|c.ends|, _ => Unstarted), [], [], false, false)
  }

  predicate AllFinished(tasks: seq<Task>) {
    forall i :: 0 <= i < |tasks| ==> tasks[i] == Finished
  }

  predicate Enabled(c: Config, s: State, a: Action) {
    match a
    case EndPrelude => s.caller.Prelude?
    case Begin => s.caller.Starting? && s.started < |s.tasks|
    case EndStarting => s.caller.Starting? && s.started == |s.tasks|
    case Finish(i) => i < |s.tasks| == |c.ends| && s.tasks[i].Running? && !c.ends[i].Hangs?
    case SendError(i) => i < |s.tasks| && s.tasks[i].SendingError? && (s.closed || |s.errorCh| < c.errorCapacity)
    case Handoff(i) =>
      i < |s.tasks| && s.tasks[i].SendingError? && c.errorCapacity == 0 && !s.closed && s.caller.Ranging?
    case SendResult(i) => i < |s.tasks| && s.tasks[i].SendingResult? && (s.closed || |s.resultCh| < |s.tasks|)
    case Signal(i) => i < |s.tasks| && s.tasks[i].Sent?
    case Close =>
      && !s.closed && AllFinished(s.tasks)
      && (if c.waitsFirst then s.caller.Waiting?
          else s.caller.Ranging? || (s.caller.Returned? && s.caller.outcome.TaskError?))
    case ReceiveError => s.caller.Ranging? && s.errorCh != []
    case EndRange => s.caller.Ranging? && s.errorCh == [] && s.closed
    case Drain => s.caller.Draining? && s.resultCh != []
    case EndDrain => s.caller.Draining? && s.resultCh == [] && s.closed
  }

  /** The step itself; a send on a closed channel panics. */
  function Apply(c: Config, s: State, a: Action): State
    requires Enabled(c, s, a) && |s.tasks| == |c.ends|
  {
    match a
    case EndPrelude => s.(caller := if c.preludeFails then Returned(PreludeError) else Starting)
    case Begin => s.(started := s.started + 1, tasks := s.tasks[s.started := Running])
    case EndStarting => s.(caller := if c.waitsFirst then Waiting else Ranging)
    case Finish(i) =>
      s.(tasks := s.tasks[i := if c.ends[i].Fails? then SendingError else if c.collects then SendingResult else Sent])
    case SendError(i) =>
      if s.closed then s.(panicked := true)
      else s.(tasks := s.tasks[i := Sent], errorCh := s.errorCh + [i])
    case Handoff(i) => s.(tasks := s.tasks[i := Sent], caller := Returned(TaskError(i)))
    case SendResult(i) =>
      if s.closed then s.(panicked := true)
      else s.(tasks := s.tasks[i := Sent], resultCh := s.resultCh + [i])
    case Signal(i) => s.(tasks := s.tasks[i := Finished])
    case Close => s.(closed := true, caller := if c.waitsFirst then Ranging else s.caller)
    case ReceiveError => s.(caller := Returned(TaskError(s.errorCh[0])), errorCh := s.errorCh[1..])
    case EndRange => s.(caller := if c.collects then Draining([]) else Returned(Success([])))
    case Drain => s.(caller := Draining(s.caller.results + [s.resultCh[0]]), resultCh := s.resultCh[1..])
    case EndDrain => s.(caller := Returned(Success(s.caller.results)))
  }

  // ------------------------------------------------------------------ the invariant

  /** Has task `i` sent what it had to send? */
  predicate HasSent(s: State, i: nat)
    requires i < |s.tasks|
  {
    s.tasks[i].Sent? || s.tasks[i].Finished?
  }

  /** Results on their way to the caller, and with it. */
  function Results(s: State): seq<nat> {
    (match s.caller
     case Draining(rs) => rs
     case Returned(Success(rs)) => rs
     case _ => []) + s.resultCh
  }

  predicate AllSucceed(ends: seq<Ending>) {
    forall i :: 0 <= i < |ends| ==> ends[i].Succeeds?
  }

  predicate NoneHangs(ends: seq<Ending>) {
    forall i :: 0 <= i < |ends| ==> !ends[i].Hangs?
  }

  predicate SomeFails(ends: seq<Ending>) {
    exists i :: 0 <= i < |ends| && ends[i].Fails?
  }

  /** The failing tasks. */
  function Failing(c: Config): set<nat> {
    set i: nat | i < |c.ends| && c.ends[i].Fails?
  }

  ghost predicate TaskInv(c: Config, s: State, i: nat)
    requires |s.tasks| == |c.ends| && i < |s.tasks|
  {
    && (s.tasks[i].Unstarted? <==> i >= s.started)
    && (s.tasks[i].SendingError? ==> c.ends[i].Fails?)
    && (s.tasks[i].SendingResult? ==> c.ends[i].Succeeds? && c.collects)
    && (HasSent(s, i) ==> !c.ends[i].Hangs?)
    // An error that has been sent is in the channel until the caller has taken one.
    && (!s.caller.Returned? ==> (i in s.errorCh <==> c.ends[i].Fails? && HasSent(s, i)))
    && (i in s.errorCh ==> c.ends[i].Fails? && HasSent(s, i))
    && (i in Results(s) <==> c.collects && c.ends[i].Succeeds? && HasSent(s, i))
  }

  ghost predicate CallerInv(c: Config, s: State) {
    match s.caller
    case Prelude => s.started == 0 && !s.closed
    case Starting => !s.closed && !c.preludeFails
    case Waiting => c.waitsFirst && s.started == |s.tasks| && !s.closed && !c.preludeFails
    case Ranging => s.started == |s.tasks| && (c.waitsFirst ==> s.closed) && !c.preludeFails
    case Draining(rs) => s.closed && c.collects && AllSucceed(c.ends) && !c.preludeFails
    case Returned(PreludeError) => c.preludeFails && s.started == 0 && !s.closed
    case Returned(TaskError(i)) =>
      i < |c.ends| && c.ends[i].Fails? && s.started == |s.tasks| && (c.waitsFirst ==> s.closed) && !c.preludeFails
    case Returned(Success(rs)) =>
      s.closed && AllSucceed(c.ends) && !c.preludeFails && (if c.collects then s.resultCh == [] else rs == [])
  }

  ghost predicate Inv(c: Config, s: State) {
    && !s.panicked
    && |s.tasks| == |c.ends| && s.started <= |s.tasks|
    && |s.errorCh| <= c.errorCapacity
    && Distinct(s.errorCh) && (forall j :: 0 <= j < |s.errorCh| ==> s.errorCh[j] < |s.tasks|)
    && Distinct(Results(s)) && (forall j :: 0 <= j < |Results(s)| ==> Results(s)[j] < |s.tasks|)
    && (s.closed ==> s.started == |s.tasks| && AllFinished(s.tasks))
    && CallerInv(c, s)
    && forall i :: 0 <= i < |s.tasks| ==> TaskInv(c, s, i)
  }

  lemma InitialInv(c: Config)
    ensures Inv(c, Initial(c))
  {}

  lemma TailDistinct(s: seq<nat>)
    requires Distinct(s) && s != []
    ensures Distinct(s[1..]) && forall y :: y in s[1..] ==> y in s
  {}

  /** The results seen as one sequence after a step. */
  lemma ResultsStep(c: Config, s: State, a: Action)
    requires Inv(c, s) && Enabled(c, s, a) && !((a.SendError? || a.SendResult?) && s.closed)
    ensures Results(Apply(c, s, a)) == if a.SendResult? then Results(s) + [a.task] else Results(s)
  {
    match a
    case EndRange => assert c.collects ==> [] + s.resultCh == Results(s);
    case Drain =>
      assert s.resultCh == [s.resultCh[0]] + s.resultCh[1..];
    case _ =>
  }

  lemma NotAfterClose(c: Config, s: State, a: Action)
    requires Inv(c, s) && Enabled(c, s, a) && (a.SendError? || a.SendResult?)
    ensures !s.closed
  {}

  lemma StepTask(c: Config, s: State, a: Action, i: nat)
    requires Inv(c, s) && Enabled(c, s, a) && i < |s.tasks|
    ensures TaskInv(c, Apply(c, s, a), i)
  {
    if a.SendError? || a.SendResult? {
      NotAfterClose(c, s, a);
    }
    ResultsStep(c, s, a);
    hide CallerInv, Distinct, Results;
    assert TaskInv(c, s, i);
    if a.ReceiveError? {
      TailDistinct(s.errorCh);
    }
  }

  lemma StepCaller(c: Config, s: State, a: Action)
    requires Inv(c, s) && Enabled(c, s, a)
    ensures CallerInv(c, Apply(c, s, a))
  {
    match a
    case EndRange =>
      forall i | 0 <= i < |c.ends| ensures c.ends[i].Succeeds? {
        assert TaskInv(c, s, i);
      }
    case Handoff(i) => assert TaskInv(c, s, i);
    case ReceiveError => assert TaskInv(c, s, s.errorCh[0]);
    case _ =>
  }

  /** Every step keeps the invariant: in particular, nothing is sent on a closed channel. */
  lemma StepKeepsInv(c: Config, s: State, a: Action)
    requires Inv(c, s) && Enabled(c, s, a)
    ensures Inv(c, Apply(c, s, a))
  {
    hide CallerInv, TaskInv, Results;
    var t := Apply(c, s, a);
    if a.SendError? || a.SendResult? {
      NotAfterClose(c, s, a);
    }
    ResultsStep(c, s, a);
    StepCaller(c, s, a);
    forall i | 0 <= i < |t.tasks| ensures TaskInv(c, t, i) {
      StepTask(c, s, a, i);
    }
    StepChannels(c, s, a);
  }

  lemma StepChannels(c: Config, s: State, a: Action)
    requires Inv(c, s) && Enabled(c, s, a) && !((a.SendError? || a.SendResult?) && s.closed)
    ensures Distinct(Apply(c, s, a).errorCh)
    ensures a.SendResult? ==> Distinct(Results(s) + [a.task])
  {
    hide CallerInv, Results;
    if a.SendError? || a.SendResult? {
      assert TaskInv(c, s, a.task);
      NotReturned(c, s, a);
    }
  }

  /** What a task has not sent is not on its way. */
  lemma NotReturned(c: Config, s: State, a: Action)
    requires Inv(c, s) && Enabled(c, s, a) && (a.SendError? || a.SendResult?)
    ensures a.SendError? ==> a.task !in s.errorCh
    ensures a.SendResult? ==> a.task !in Results(s)
  {
    hide CallerInv, Results;
    assert TaskInv(c, s, a.task);
  }

  // ------------------------------------------------------------------ progress

  /** A caller that waits for all tasks before it reads needs all of them to end, and room for all
      errors; one that reads while they run needs all of them to end, or one error to read. */
  ghost predicate Completes(c: Config) {
    || c.preludeFails
    || (if c.waitsFirst then NoneHangs(c.ends) && |Failing(c)| <= c.errorCapacity
        else NoneHangs(c.ends) || SomeFails(c.ends))
  }

  /** Until the caller has returned, some goroutine can take a step. */
  lemma Progress(c: Config, s: State) returns (a: Action)
    requires Inv(c, s) && Completes(c) && !s.caller.Returned?
    ensures Enabled(c, s, a)
  {
    hide Results, Failing;
    if s.caller.Prelude? {
      a := EndPrelude;
    } else if s.caller.Starting? {
      a := if s.started < |s.tasks| then Begin else EndStarting;
    } else if s.caller.Draining? {
      a := if s.resultCh != [] then Drain else EndDrain;
    } else if s.closed {
      a := if s.errorCh != [] then ReceiveError else EndRange;
    } else if s.caller.Ranging? && s.errorCh != [] {
      a := ReceiveError;
    } else if i :| !c.waitsFirst && 0 <= i < |c.ends| && c.ends[i].Fails? {
      assert TaskInv(c, s, i);
      a := TaskProgress(c, s, i);
    } else if i :| 0 <= i < |s.tasks| && s.tasks[i] != Finished {
      a := TaskProgress(c, s, i);
    } else {
      a := Close;
    }
  }

  lemma TaskProgress(c: Config, s: State, i: nat) returns (a: Action)
    requires Inv(c, s) && Completes(c) && (s.caller.Waiting? || s.caller.Ranging?) && !s.closed
    requires i < |s.tasks| && s.tasks[i] != Finished && !c.ends[i].Hangs?
    ensures Enabled(c, s, a)
  {
    hide Results;
    assert TaskInv(c, s, i);
    match s.tasks[i]
    case Running => a := Finish(i);
    case Sent => a := Signal(i);
    case SendingResult =>
      RoomForResult(c, s, i);
      a := SendResult(i);
    case SendingError =>
      if s.caller.Waiting? {
        RoomForError(c, s, i);
        a := SendError(i);
      } else if c.errorCapacity == 0 {
        a := Handoff(i);
      } else {
        a := if s.errorCh != [] then ReceiveError else SendError(i);
      }
  }

  lemma RoomForResult(c: Config, s: State, i: nat)
    requires Inv(c, s) && i < |s.tasks| && s.tasks[i].SendingResult?
    ensures |s.resultCh| < |s.tasks|
  {
    assert TaskInv(c, s, i);
    DistinctWithout(Results(s), Below(|s.tasks|), i);
  }

  lemma RoomForError(c: Config, s: State, i: nat)
    requires Inv(c, s) && Completes(c) && s.caller.Waiting? && i < |s.tasks| && s.tasks[i].SendingError?
    ensures |s.errorCh| < c.errorCapacity
  {
    hide Results;
    forall j | 0 <= j < |s.errorCh| ensures s.errorCh[j] in Failing(c) {
      assert TaskInv(c, s, s.errorCh[j]);
    }
    assert TaskInv(c, s, i);
    DistinctWithout(s.errorCh, Failing(c), i);
  }

  function TaskWork(t: Task): nat {
    match t
    case Unstarted => 5
    case Running => 4
    case SendingError => 3
    case SendingResult => 3
    case Sent => 1
    case Finished => 0
  }

  function Work(tasks: seq<Task>): nat {
    if tasks == [] then 0 else TaskWork(tasks[0]) + Work(tasks[1..])
  }

  function Ahead(k: Caller): nat {
    match k
    case Prelude => 5
    case Starting => 4
    case Waiting => 3
    case Ranging => 2
    case Draining(_) => 1
    case Returned(_) => 0
  }

  function Measure(s: State): nat {
    Work(s.tasks) + |s.errorCh| + |s.resultCh| + Ahead(s.caller) + if s.closed then 0 else 1
  }

  lemma {:induction false} WorkUpdate(tasks: seq<Task>, i: nat, x: Task)
    requires i < |tasks|
    ensures Work(tasks[i := x]) + TaskWork(tasks[i]) == Work(tasks) + TaskWork(x)
  {
    if i == 0 {
      assert tasks[0 := x][1..] == tasks[1..];
    } else {
      assert tasks[i := x][1..] == tasks[1..][i - 1 := x];
      WorkUpdate(tasks[1..], i - 1, x);
    }
  }

  /** Every step brings the end nearer. */
  lemma StepDecreases(c: Config, s: State, a: Action)
    requires Inv(c, s) && Enabled(c, s, a)
    ensures Measure(Apply(c, s, a)) < Measure(s)
  {
    if a.SendError? || a.SendResult? {
      NotAfterClose(c, s, a);
    }
    hide Work, Results, CallerInv;
    var t := Apply(c, s, a);
    if a.Begin? {
      assert TaskInv(c, s, s.started);
      WorkUpdate(s.tasks, s.started, Running);
    } else if a.Finish? || a.SendError? || a.Handoff? || a.SendResult? || a.Signal? {
      WorkUpdate(s.tasks, a.task, t.tasks[a.task]);
    }
  }

  // ------------------------------------------------------------------ whole runs

  ghost predicate Runs(c: Config, s: State, actions: seq<Action>)
    requires |s.tasks| == |c.ends|
    decreases |actions|
  {
    actions == []
    || (Enabled(c, s, actions[0]) && Runs(c, Apply(c, s, actions[0]), actions[1..]))
  }

  ghost function After(c: Config, s: State, actions: seq<Action>): State
    requires |s.tasks| == |c.ends| && Runs(c, s, actions)
    decreases |actions|
  {
    if actions == [] then s else After(c, Apply(c, s, actions[0]), actions[1..])
  }

  lemma {:induction false} RunKeepsInv(c: Config, s: State, actions: seq<Action>)
    requires Inv(c, s) && Runs(c, s, actions)
    ensures Inv(c, After(c, s, actions))
    ensures Measure(After(c, s, actions)) + |actions| <= Measure(s)
    decreases |actions|
  {
    hide CallerInv, TaskInv, Results, Enabled, Apply, Measure, Distinct;
    if actions != [] {
      StepKeepsInv(c, s, actions[0]);
      StepDecreases(c, s, actions[0]);
      RunKeepsInv(c, Apply(c, s, actions[0]), actions[1..]);
    }
  }

  /** What the caller may return, in any schedule: an error of the prelude or of a task that failed;
      and success only if everything succeeded, with the result of every task exactly once. */
  ghost predicate Honest(c: Config, o: Outcome) {
    match o
    case PreludeError => c.preludeFails
    case TaskError(i) => !c.preludeFails && i < |c.ends| && c.ends[i].Fails?
    case Success(rs) =>
      && !c.preludeFails && AllSucceed(c.ends)
      && (if c.collects then Distinct(rs) && forall i: nat :: i in rs <==> i < |c.ends| else rs == [])
  }

  lemma ReturnedHonest(c: Config, s: State)
    requires Inv(c, s) && s.caller.Returned?
    ensures Honest(c, s.caller.outcome)
  {
    if s.caller.outcome.Success? && c.collects {
      var rs := s.caller.outcome.results;
      assert Results(s) == rs;
      forall i: nat ensures i in rs <==> i < |c.ends| {
        if i < |c.ends| {
          assert TaskInv(c, s, i);
        }
      }
    }
  }

  /** Nothing starts before the prelude has succeeded. */
  lemma NothingBeforePrelude(c: Config, actions: seq<Action>)
    requires Runs(c, Initial(c), actions)
    ensures var s := After(c, Initial(c), actions);
            s.caller.Prelude? || c.preludeFails ==> forall i :: 0 <= i < |s.tasks| ==> s.tasks[i].Unstarted?
  {
    InitialInv(c);
    RunKeepsInv(c, Initial(c), actions);
    var s := After(c, Initial(c), actions);
    if s.caller.Prelude? || c.preludeFails {
      forall i | 0 <= i < |s.tasks| ensures s.tasks[i].Unstarted? {
        assert TaskInv(c, s, i);
      }
    }
  }

  lemma {:induction false} WorkUnstarted(n: nat)
    ensures Work(seq(n, _ => Unstarted)) == 5 * n
  {
    if n > 0 {
      assert seq(n, _ => Unstarted)[1..] == seq(n - 1, _ => Unstarted);
      WorkUnstarted(n - 1);
    }
  }

  /** Every run is finite; what the caller returns is honest; and as long as it has not returned,
      the run can go on, if the join completes at all. */
  lemma {:induction false} JoinCompletes(c: Config, actions: seq<Action>)
    requires Runs(c, Initial(c), actions)
    ensures |actions| <= 5 * |c.ends| + 6
    ensures var s := After(c, Initial(c), actions);
            && (s.caller.Returned? ==> Honest(c, s.caller.outcome))
            && (Completes(c) && !s.caller.Returned? ==> exists a :: Enabled(c, s, a))
  {
    hide Inv, Honest, Completes, Work, Enabled, Apply;
    InitialInv(c);
    RunKeepsInv(c, Initial(c), actions);
    WorkUnstarted(|c.ends|);
    var s := After(c, Initial(c), actions);
    if s.caller.Returned? {
      ReturnedHonest(c, s);
    } else if Completes(c) {
      var a := Progress(c, s);
    }
  }

  /** Otherwise it returns in no schedule at all. */
  lemma {:induction false} NeverReturns(c: Config, actions: seq<Action>)
    requires Runs(c, Initial(c), actions) && !Completes(c)
    ensures !After(c, Initial(c), actions).caller.Returned?
  {
    InitialInv(c);
    RunKeepsInv(c, Initial(c), actions);
    OpenStays(c, Initial(c), actions);
    StillThere(c, After(c, Initial(c), actions));
  }

  lemma StillThere(c: Config, s: State)
    requires Inv(c, s) && !Completes(c) && !s.closed
    ensures !s.caller.Returned?
  {
    hide TaskInv, Results, Failing, Distinct;
  }

  lemma {:induction false} OpenStays(c: Config, s: State, actions: seq<Action>)
    requires Inv(c, s) && Runs(c, s, actions) && !Completes(c) && !s.closed
    ensures !After(c, s, actions).closed
    decreases |actions|
  {
    hide CallerInv, TaskInv, Results, Completes, Distinct;
    if actions != [] {
      CannotClose(c, s);
      StepKeepsInv(c, s, actions[0]);
      OpenStays(c, Apply(c, s, actions[0]), actions[1..]);
    }
  }

  /** A task that hangs is never finished, and failing tasks without room cannot all have sent. */
  lemma CannotClose(c: Config, s: State)
    requires Inv(c, s) && !Completes(c)
    ensures !Enabled(c, s, Close)
  {
    hide Results;
    if Enabled(c, s, Close) {
      forall i | 0 <= i < |c.ends| ensures !c.ends[i].Hangs? {
        assert TaskInv(c, s, i);
      }
      if c.waitsFirst {
        forall i | i in Failing(c) ensures i in s.errorCh {
          assert TaskInv(c, s, i);
        }
        CoveredBy(Failing(c), s.errorCh);
      }
    }
  }

  // ------------------------------------------------------------------ first in, first out

  /** The errors sent in a run, in the order in which they are sent. */
  ghost function SentErrors(c: Config, s: State, actions: seq<Action>): seq<nat>
    requires |s.tasks| == |c.ends| && Runs(c, s, actions)
    decreases |actions|
  {
    if actions == [] then []
    else
      var rest := SentErrors(c, Apply(c, s, actions[0]), actions[1..]);
      if actions[0].SendError? || actions[0].Handoff? then [actions[0].task] + rest else rest
  }

  /** The results sent in a run, in the order in which they are sent. */
  ghost function SentResults(c: Config, s: State, actions: seq<Action>): seq<nat>
    requires |s.tasks| == |c.ends| && Runs(c, s, actions)
    decreases |actions|
  {
    if actions == [] then []
    else
      var rest := SentResults(c, Apply(c, s, actions[0]), actions[1..]);
      if actions[0].SendResult? then [actions[0].task] + rest else rest
  }

  lemma {:induction false} ResultsRun(c: Config, s: State, actions: seq<Action>)
    requires Inv(c, s) && Runs(c, s, actions)
    ensures Results(After(c, s, actions)) == Results(s) + SentResults(c, s, actions)
    decreases |actions|
  {
    hide CallerInv, TaskInv, Results, Distinct;
    if actions != [] {
      var a := actions[0];
      if a.SendError? || a.SendResult? {
        NotAfterClose(c, s, a);
      }
      ResultsStep(c, s, a);
      StepKeepsInv(c, s, a);
      ResultsRun(c, Apply(c, s, a), actions[1..]);
    }
  }

  /** Over one step, until the caller returns, the errors queued change only by the one sent, at the end;
      what the caller returns on is the oldest. */
  lemma ErrorOrder(c: Config, s: State, a: Action)
    requires Inv(c, s) && Enabled(c, s, a) && !s.caller.Returned?
    ensures var t := Apply(c, s, a);
            var sent := s.errorCh + if a.SendError? || a.Handoff? then [a.task] else [];
            && (!t.caller.Returned? ==> t.errorCh == sent)
            && (t.caller.Returned? && t.caller.outcome.TaskError? ==> sent != [] && sent[0] == t.caller.outcome.task)
  {
    if a.SendError? || a.SendResult? {
      NotAfterClose(c, s, a);
    }
  }

  lemma {:induction false} ReturnedStays(c: Config, s: State, actions: seq<Action>)
    requires Inv(c, s) && Runs(c, s, actions) && s.caller.Returned?
    ensures After(c, s, actions).caller == s.caller
    decreases |actions|
  {
    hide CallerInv, TaskInv, Results, Distinct;
    if actions != [] {
      StepKeepsInv(c, s, actions[0]);
      StaysStep(c, s, actions[0]);
      ReturnedStays(c, Apply(c, s, actions[0]), actions[1..]);
    }
  }

  lemma StaysStep(c: Config, s: State, a: Action)
    requires Inv(c, s) && Enabled(c, s, a) && s.caller.Returned?
    ensures Apply(c, s, a).caller == s.caller
  {
    hide TaskInv, Results, Distinct;
  }

  lemma {:induction false} ErrorsRun(c: Config, s: State, actions: seq<Action>)
    requires Inv(c, s) && Runs(c, s, actions) && !s.caller.Returned?
    ensures var t := After(c, s, actions);
            var sent := s.errorCh + SentErrors(c, s, actions);
            && (!t.caller.Returned? ==> t.errorCh == sent)
            && (t.caller.Returned? && t.caller.outcome.TaskError? ==> sent != [] && sent[0] == t.caller.outcome.task)
    decreases |actions|
  {
    hide CallerInv, TaskInv, Results, Distinct, Enabled, Apply;
    if actions != [] {
      var a := actions[0];
      var t := Apply(c, s, a);
      StepKeepsInv(c, s, a);
      ErrorOrder(c, s, a);
      if t.caller.Returned? {
        ReturnedStays(c, t, actions[1..]);
      } else {
        ErrorsRun(c, t, actions[1..]);
      }
      var rest := SentErrors(c, t, actions[1..]);
      var more := if a.SendError? || a.Handoff? then [a.task] else [];
      assert s.errorCh + more + rest == s.errorCh + (more + rest);
    }
  }

  /** Whole runs: the error a caller returns is the first one sent, and the results it collects are in the
      order in which they were sent. */
  lemma {:induction false} FirstErrorReturned(c: Config, actions: seq<Action>)
    requires Runs(c, Initial(c), actions) && After(c, Initial(c), actions).caller.Returned?
    ensures var outcome := After(c, Initial(c), actions).caller.outcome;
            && (outcome.TaskError? ==> var sent := SentErrors(c, Initial(c), actions);
                                       sent != [] && sent[0] == outcome.task)
            && (outcome.Success? && c.collects ==> outcome.results == SentResults(c, Initial(c), actions))
  {
    hide CallerInv, TaskInv, Distinct, Runs, After, SentErrors, SentResults;
    InitialInv(c);
    ErrorsRun(c, Initial(c), actions);
    ResultsRun(c, Initial(c), actions);
    RunKeepsInv(c, Initial(c), actions);
    if c.collects && After(c, Initial(c), actions).caller.outcome.Success? {
      NothingQueued(c, After(c, Initial(c), actions));
    }
  }

  lemma NothingQueued(c: Config, s: State)
    requires Inv(c, s) && c.collects && s.caller.Returned? && s.caller.outcome.Success?
    ensures Results(s) == s.caller.outcome.results
  {}

  // ------------------------------------------------------------------ the callers

  /** The cluster set-up: an unbuffered error channel, read while the services start; Atomix first. */
  function ClusterSetup(ends: seq<Ending>, atomixFails: bool): Config {
    Config(ends, 0, false, false, atomixFails)
  }

  /** All suites: room for every error, read while the suites run. */
  function RunWorkers(ends: seq<Ending>): Config {
    Config(ends, |ends|, false, true, false)
  }

  /** One benchmark on all workers, once it is set up on them: room for every error, read after all
      have answered. */
  function RunBenchmark(ends: seq<Ending>, dialFails: bool): Config {
    Config(ends, |ends|, true, true, dialFails)
  }

  /** The set-up of all workers, or of one benchmark on all of them: an unbuffered error channel, read
      after all have answered. */
  function SetupWorkers(ends: seq<Ending>, dialFails: bool): Config {
    Config(ends, 0, true, false, dialFails)
  }

  lemma FailingSize(c: Config)
    ensures |Failing(c)| <= |c.ends|
    ensures |Failing(c)| == 0 <==> !SomeFails(c.ends)
  {
    var all := Below(|c.ends|);
    assert all == Failing(c) + (all - Failing(c));
    if i :| 0 <= i < |c.ends| && c.ends[i].Fails? {
      assert i in Failing(c);
    }
  }

  /** When each join returns. Those that read while their tasks run return if all tasks end, or if one
      fails; that of a benchmark run, if all end. A set-up returns only if all workers succeed: a
      failing worker waits for a reader that waits for the worker. */
  lemma CallersComplete(ends: seq<Ending>, first: bool)
    ensures Completes(ClusterSetup(ends, first)) <==> first || NoneHangs(ends) || SomeFails(ends)
    ensures Completes(RunWorkers(ends)) <==> NoneHangs(ends) || SomeFails(ends)
    ensures Completes(RunBenchmark(ends, first)) <==> first || NoneHangs(ends)
    ensures Completes(SetupWorkers(ends, first)) <==> first || AllSucceed(ends)
  {
    FailingSize(RunBenchmark(ends, first));
    FailingSize(SetupWorkers(ends, first));
  }

  /** Set-up of the workers, in any schedule: it is stuck for good as soon as one worker fails. */
  lemma {:induction false} SetupWorkersIff(ends: seq<Ending>, actions: seq<Action>)
    requires Runs(SetupWorkers(ends, false), Initial(SetupWorkers(ends, false)), actions)
    ensures var c := SetupWorkers(ends, false);
            var s := After(c, Initial(c), actions);
            && (!AllSucceed(ends) ==> !s.caller.Returned?)
            && (AllSucceed(ends) && !s.caller.Returned? ==> exists a :: Enabled(c, s, a))
            && (s.caller.Returned? ==> s.caller.outcome == Success([]))
  {
    hide Inv, Runs, After, Enabled, Completes;
    var c := SetupWorkers(ends, false);
    CallersComplete(ends, false);
    JoinCompletes(c, actions);
    if !AllSucceed(ends) {
      NeverReturns(c, actions);
    }
  }

  /** All suites, in any schedule: the call returns exactly if all suites end or one of them fails. A
      suite that hangs, as one does whose workers cannot be set up, holds up all that succeed. */
  lemma {:induction false} RunWorkersIff(ends: seq<Ending>, actions: seq<Action>)
    requires Runs(RunWorkers(ends), Initial(RunWorkers(ends)), actions)
    ensures var c := RunWorkers(ends);
            var s := After(c, Initial(c), actions);
            && (!NoneHangs(ends) && !SomeFails(ends) ==> !s.caller.Returned?)
            && (NoneHangs(ends) || SomeFails(ends) ==> s.caller.Returned? || exists a :: Enabled(c, s, a))
            && (s.caller.Returned? ==> (s.caller.outcome.Success? <==> AllSucceed(ends)))
  {
    hide Inv, Runs, After, Enabled, Completes;
    var c := RunWorkers(ends);
    CallersComplete(ends, false);
    JoinCompletes(c, actions);
    if !NoneHangs(ends) && !SomeFails(ends) {
      NeverReturns(c, actions);
    }
  }

  /** The smallest set-up that hangs: one worker, and it fails. After four steps nothing can move. */
  lemma OneFailing()
    ensures var c := SetupWorkers([Fails], false);
            var actions := [EndPrelude, Begin, EndStarting, Finish(0)];
            && Runs(c, Initial(c), actions)
            && !After(c, Initial(c), actions).caller.Returned?
            && forall a :: !Enabled(c, After(c, Initial(c), actions), a)
  {
    var c := SetupWorkers([Fails], false);
    var s0 := Initial(c);
    var s1 := Apply(c, s0, EndPrelude);
    var s2 := Apply(c, s1, Begin);
    var s3 := Apply(c, s2, EndStarting);
    var s4 := Apply(c, s3, Finish(0));
    Stuck(c, s4);
    OneStep(c, s3, Finish(0), []);
    OneStep(c, s2, EndStarting, [Finish(0)]);
    OneStep(c, s1, Begin, [EndStarting, Finish(0)]);
    OneStep(c, s0, EndPrelude, [Begin, EndStarting, Finish(0)]);
  }

  lemma Stuck(c: Config, s: State)
    requires c == SetupWorkers([Fails], false) && s == State(Waiting, 1, [SendingError], [], [], false, false)
    ensures forall a :: !Enabled(c, s, a)
  {
    assert s.tasks[0] == SendingError;
  }

  lemma OneStep(c: Config, s: State, a: Action, actions: seq<Action>)
    requires |s.tasks| == |c.ends| && Enabled(c, s, a) && Runs(c, Apply(c, s, a), actions)
    ensures Runs(c, s, [a] + actions)
    ensures After(c, s, [a] + actions) == After(c, Apply(c, s, a), actions)
  {
    hide Enabled, Apply;
    assert ([a] + actions)[0] == a && ([a] + actions)[1..] == actions;
  }

  // ------------------------------------------------------------------ a whole benchmark run

  /** One benchmark, from its set-up on all workers to its results: the second join begins only when
      the first has succeeded. The clients dialled by the first are kept for the second. */
  ghost predicate BenchmarkRuns(setups: seq<Ending>, ends: seq<Ending>, dialFails: bool,
                                first: seq<Action>, second: seq<Action>)
  {
    var c, d := SetupWorkers(setups, dialFails), RunBenchmark(ends, dialFails);
    && Runs(c, Initial(c), first) && Runs(d, Initial(d), second)
    && (second == [] || After(c, Initial(c), first).caller == Returned(Success([])))
  }

  /** What the whole call has returned, if it has. */
  ghost function BenchmarkOutcome(setups: seq<Ending>, ends: seq<Ending>, dialFails: bool,
                                  first: seq<Action>, second: seq<Action>): Option<Outcome>
    requires BenchmarkRuns(setups, ends, dialFails, first, second)
  {
    var c, d := SetupWorkers(setups, dialFails), RunBenchmark(ends, dialFails);
    var s, t := After(c, Initial(c), first).caller, After(d, Initial(d), second).caller;
    if !s.Returned? then None
    else if s.outcome != Success([]) then Some(s.outcome)
    else if t.Returned? then Some(t.outcome)
    else None
  }

  /** Some goroutine of the join the call is in can take a step. */
  ghost predicate BenchmarkGoesOn(setups: seq<Ending>, ends: seq<Ending>, dialFails: bool,
                                  first: seq<Action>, second: seq<Action>)
    requires BenchmarkRuns(setups, ends, dialFails, first, second)
  {
    var c, d := SetupWorkers(setups, dialFails), RunBenchmark(ends, dialFails);
    var s, t := After(c, Initial(c), first), After(d, Initial(d), second);
    if s.caller.Returned? then s.caller.outcome == Success([]) && exists a :: Enabled(d, t, a)
    else exists a :: Enabled(c, s, a)
  }

  /** A whole benchmark run, in every schedule: it is finite; once a worker fails to set the benchmark
      up, or never answers, the call never returns; otherwise it goes on until it has returned, and
      what it returns is honest. */
  lemma {:induction false} BenchmarkReturnsIff(setups: seq<Ending>, ends: seq<Ending>, dialFails: bool,
                                               first: seq<Action>, second: seq<Action>)
    requires |setups| == |ends| && BenchmarkRuns(setups, ends, dialFails, first, second)
    ensures |first| + |second| <= 10 * |ends| + 12
    ensures var outcome := BenchmarkOutcome(setups, ends, dialFails, first, second);
            && (if dialFails || (AllSucceed(setups) && NoneHangs(ends))
                then outcome.Some? || BenchmarkGoesOn(setups, ends, dialFails, first, second)
                else outcome.None?)
            && (outcome.Some? ==> Honest(RunBenchmark(ends, dialFails), outcome.value))
            && (outcome.Some? && outcome.value.Success? ==> AllSucceed(setups))
  {
    hide Inv, Runs, After, Enabled, Completes;
    var c, d := SetupWorkers(setups, dialFails), RunBenchmark(ends, dialFails);
    CallersComplete(setups, dialFails);
    CallersComplete(ends, dialFails);
    JoinCompletes(c, first);
    JoinCompletes(d, second);
    if !Completes(c) {
      NeverReturns(c, first);
    }
    if !Completes(d) {
      NeverReturns(d, second);
    }
  }
}
