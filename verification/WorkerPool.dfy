/** Adding all simulators: a feeder fills a bounded queue, ten workers take set-ups off it and send
    either an environment or an error, a closer waits for all of them, and the caller reads errors
    first. Steps interleave freely; the error channel has no buffer. */
module WorkerPool {
  import opened Basics
  import opened Counting

  const WORKERS := 10
  const QUEUE := 10

  datatype Worker =
    | Idle
    | Adding(task: nat)
    | SendingError(task: nat)
    | SendingEnv(task: nat)
    | Signalling(task: nat)
    | Ended

  datatype Outcome = TaskError(task: nat) | Success(simulators: seq<nat>)
  datatype Caller = Ranging | Draining(simulators: seq<nat>) | Returned(outcome: Outcome)

  datatype State = State(
    fed: nat, queue: seq<nat>, queueClosed: bool,
    workers: seq<Worker>,
    envCh: seq<nat>, finished: seq<nat>, closed: bool,
    caller: Caller,
    panicked: bool)

  datatype Action =
    | Feed | CloseQueue | Close | EndRange | Drain | EndDrain
    | Take(worker: nat) | Add(worker: nat) | Handoff(worker: nat) | SendEnv(worker: nat)
    | Signal(worker: nat) | End(worker: nat)

  function Initial(): State {
    State(0, [], false, seq(WORKERS, _ => Idle), [], [], false, Ranging, false)
  }

  /** `fails` says which set-ups return an error. */
  predicate Enabled(fails: seq<bool>, s: State, a: Action) {
    match a
    case Feed => s.fed < |fails| && |s.queue| < QUEUE
    case CloseQueue => s.fed >= |fails| && !s.queueClosed
    case Close => |s.finished| == |fails| && !s.closed
    case EndRange => s.caller.Ranging? && s.closed
    case Drain => s.caller.Draining? && s.envCh != []
    case EndDrain => s.caller.Draining? && s.envCh == [] && s.closed
    case Take(w) => w < |s.workers| && s.workers[w].Idle? && s.queue != []
    case Add(w) => w < |s.workers| && s.workers[w].Adding? && s.workers[w].task < |fails|
    case Handoff(w) => w < |s.workers| && s.workers[w].SendingError? && (s.closed || s.caller.Ranging?)
    case SendEnv(w) => w < |s.workers| && s.workers[w].SendingEnv? && (s.closed || |s.envCh| < |fails|)
    case Signal(w) => w < |s.workers| && s.workers[w].Signalling?
    case End(w) => w < |s.workers| && s.workers[w].Idle? && s.queueClosed && s.queue == []
  }

  function Set(s: State, w: nat, x: Worker): State
    requires w < |s.workers|
  {
    s.(workers := s.workers[w := x])
  }

  /** The step itself; a send on a closed channel panics. */
  function Apply(fails: seq<bool>, s: State, a: Action): State
    requires Enabled(fails, s, a)
  {
    match a
    case Feed => s.(fed := s.fed + 1, queue := s.queue + [s.fed], panicked := s.panicked || s.queueClosed)
    case CloseQueue => s.(queueClosed := true)
    case Close => s.(closed := true)
    case EndRange => s.(caller := Draining([]))
    case Drain => s.(caller := Draining(s.caller.simulators + [s.envCh[0]]), envCh := s.envCh[1..])
    case EndDrain => s.(caller := Returned(Success(s.caller.simulators)))
    case Take(w) => Set(s, w, Adding(s.queue[0])).(queue := s.queue[1..])
    case Add(w) =>
      var i := s.workers[w].task;
      Set(s, w, if fails[i] then SendingError(i) else SendingEnv(i))
    case Handoff(w) =>
      var i := s.workers[w].task;
      if s.closed then s.(panicked := true)
      else Set(s, w, Signalling(i)).(caller := Returned(TaskError(i)))
    case SendEnv(w) =>
      var i := s.workers[w].task;
      if s.closed then s.(panicked := true)
      else Set(s, w, Signalling(i)).(envCh := s.envCh + [i])
    case Signal(w) => Set(s, w, Idle).(finished := s.finished + [s.workers[w].task])
    case End(w) => Set(s, w, Ended)
  }

  // ------------------------------------------------------------------ the invariant

  predicate Busy(x: Worker) { !x.Idle? && !x.Ended? }

  /** Does the worker hold set-up `i`, and, if asked, is it past its send? */
  function Holds(x: Worker, i: nat, sent: bool): nat {
    if Busy(x) && x.task == i && (sent ==> x.Signalling?) then 1 else 0
  }

  function Held(workers: seq<Worker>, i: nat, sent: bool): nat {
    if workers == [] then 0 else Holds(workers[0], i, sent) + Held(workers[1..], i, sent)
  }

  /** Set-up `i` in the queue, with a worker, or finished. */
  function Places(s: State, i: nat): nat {
    multiset(s.queue)[i] + Held(s.workers, i, false) + multiset(s.finished)[i]
  }

  /** How often the send for set-up `i` is over. */
  function Sends(s: State, i: nat): nat {
    Held(s.workers, i, true) + multiset(s.finished)[i]
  }

  /** Simulators on their way to the caller, and with it. */
  function Results(s: State): seq<nat> {
    (match s.caller
     case Draining(rs) => rs
     case Returned(Success(rs)) => rs
     case _ => []) + s.envCh
  }

  ghost predicate TaskInv(fails: seq<bool>, s: State, i: nat) {
    && Places(s, i) == (if i < s.fed then 1 else 0)
    && multiset(Results(s))[i] == (if i < |fails| && !fails[i] then Sends(s, i) else 0)
    && ((s.caller.Returned? && s.caller.outcome.TaskError?) || (i < |fails| && fails[i] ==> Sends(s, i) == 0))
  }

  ghost predicate WorkerInv(fails: seq<bool>, s: State, w: nat)
    requires w < |s.workers|
  {
    var x := s.workers[w];
    && (Busy(x) ==> x.task < |fails| && Held(s.workers, x.task, false) >= 1)
    && (x.Signalling? ==> Held(s.workers, x.task, true) >= 1)
    && (x.SendingError? ==> fails[x.task])
    && (x.SendingEnv? ==> !fails[x.task])
    && (x.Ended? ==> s.queueClosed && s.queue == [])
  }

  predicate NoneFails(fails: seq<bool>) {
    forall i :: 0 <= i < |fails| ==> !fails[i]
  }

  ghost predicate Inv(fails: seq<bool>, s: State) {
    && !s.panicked && |s.workers| == WORKERS
    && s.fed <= |fails| && (s.queueClosed ==> s.fed == |fails|)
    && (s.closed ==> |s.finished| == |fails|)
    && (s.caller.Draining? ==> s.closed && NoneFails(fails))
    && (match s.caller
        case Returned(TaskError(i)) => i < |fails| && fails[i]
        case Returned(Success(_)) => s.closed && NoneFails(fails) && s.envCh == []
        case _ => true)
    && (forall i: nat :: TaskInv(fails, s, i))
    && (forall w :: 0 <= w < |s.workers| ==> WorkerInv(fails, s, w))
  }

  lemma {:induction false} HeldUpdate(workers: seq<Worker>, w: nat, x: Worker, i: nat, sent: bool)
    requires w < |workers|
    ensures Held(workers[w := x], i, sent) + Holds(workers[w], i, sent) == Held(workers, i, sent) + Holds(x, i, sent)
  {
    if w == 0 {
      assert workers[0 := x][1..] == workers[1..];
    } else {
      assert workers[w := x][1..] == workers[1..][w - 1 := x];
      HeldUpdate(workers[1..], w - 1, x, i, sent);
    }
  }

  lemma {:induction false} HeldAt(workers: seq<Worker>, w: nat, i: nat, sent: bool)
    requires w < |workers|
    ensures Held(workers, i, sent) >= Holds(workers[w], i, sent)
  {
    if w > 0 {
      HeldAt(workers[1..], w - 1, i, sent);
    }
  }

  lemma {:induction false} NothingHeld(workers: seq<Worker>, i: nat, sent: bool)
    requires forall w :: 0 <= w < |workers| ==> !Busy(workers[w])
    ensures Held(workers, i, sent) == 0
  {
    if workers != [] {
      NothingHeld(workers[1..], i, sent);
    }
  }

  lemma {:induction false} HeldSent(workers: seq<Worker>, i: nat)
    ensures Held(workers, i, true) <= Held(workers, i, false)
  {
    if workers != [] {
      HeldSent(workers[1..], i);
    }
  }

  lemma InitialInv(fails: seq<bool>)
    ensures Inv(fails, Initial())
  {
    forall i: nat ensures TaskInv(fails, Initial(), i) {
      NothingHeld(Initial().workers, i, false);
      NothingHeld(Initial().workers, i, true);
    }
  }

  // ------------------------------------------------------------------ what counts say

  lemma {:induction false} CountsDistinct(s: seq<nat>)
    requires forall i: nat :: multiset(s)[i] <= 1
    ensures Distinct(s)
  {
    forall j, k | 0 <= j < k < |s| ensures s[j] != s[k] {
      assert s == s[..k] + s[k..];
      assert s[..k][j] == s[j] && s[..k][j] in multiset(s[..k]);
      assert s[k..][0] == s[k] && s[k..][0] in multiset(s[k..]);
      assert multiset(s)[s[j]] == multiset(s[..k])[s[j]] + multiset(s[k..])[s[j]];
    }
  }

  /** When as many set-ups have finished as there are, all have, and no worker holds one. */
  lemma AllFinished(fails: seq<bool>, s: State, i: nat)
    requires Inv(fails, s) && |s.finished| == |fails| && i < |fails|
    ensures i in s.finished && Held(s.workers, i, false) == 0
  {
    FinishedDistinct(fails, s);
    DistinctAll(s.finished, Below(|fails|), i);
    assert TaskInv(fails, s, i);
  }

  lemma FinishedDistinct(fails: seq<bool>, s: State)
    requires Inv(fails, s)
    ensures Distinct(s.finished) && forall j :: 0 <= j < |s.finished| ==> s.finished[j] in Below(|fails|)
  {
    hide Below, WorkerInv;
    forall i: nat ensures multiset(s.finished)[i] <= 1 && (i >= |fails| ==> multiset(s.finished)[i] == 0) {
      assert TaskInv(fails, s, i);
    }
    CountsDistinct(s.finished);
    forall j | 0 <= j < |s.finished| ensures s.finished[j] in Below(|fails|) {
      assert s.finished[j] in multiset(s.finished);
    }
  }

  /** A worker that is sending holds something, so the channels are still open. */
  lemma SendingOpen(fails: seq<bool>, s: State, w: nat)
    requires Inv(fails, s) && w < |s.workers| && Busy(s.workers[w])
    ensures !s.closed
  {
    assert WorkerInv(fails, s, w);
    if s.closed {
      AllFinished(fails, s, s.workers[w].task);
    }
  }

  // ------------------------------------------------------------------ every step

  predicate Moves(a: Action) {
    a.Take? || a.Add? || a.Handoff? || a.SendEnv? || a.Signal? || a.End?
  }

  /** A step moves one worker, or none. */
  lemma StepHeld(fails: seq<bool>, s: State, a: Action, i: nat, sent: bool)
    requires Enabled(fails, s, a)
    ensures var t := Apply(fails, s, a);
            Held(t.workers, i, sent)
            == Held(s.workers, i, sent)
               + if Moves(a) then Holds(t.workers[a.worker], i, sent) - Holds(s.workers[a.worker], i, sent) else 0
  {
    hide Held, Holds;
    if Moves(a) {
      HeldUpdate(s.workers, a.worker, Apply(fails, s, a).workers[a.worker], i, sent);
    }
  }

  lemma FeedPlaces(fails: seq<bool>, s: State, a: Action, i: nat)
    requires Enabled(fails, s, a) && a.Feed?
    ensures Places(Apply(fails, s, a), i) == Places(s, i) + if i == s.fed then 1 else 0
  {
    hide Held;
  }

  lemma TakePlaces(fails: seq<bool>, s: State, a: Action, i: nat)
    requires Enabled(fails, s, a) && a.Take?
    ensures Places(Apply(fails, s, a), i) == Places(s, i)
  {
    hide Held;
    HeadTail(s.queue);
    HeldUpdate(s.workers, a.worker, Adding(s.queue[0]), i, false);
  }

  lemma SignalPlaces(fails: seq<bool>, s: State, a: Action, i: nat)
    requires Enabled(fails, s, a) && a.Signal?
    ensures Places(Apply(fails, s, a), i) == Places(s, i)
  {
    hide Held;
    HeldUpdate(s.workers, a.worker, Idle, i, false);
  }

  lemma HoldPlaces(fails: seq<bool>, s: State, a: Action, i: nat)
    requires Enabled(fails, s, a) && !Apply(fails, s, a).panicked
    requires a.Add? || a.Handoff? || a.SendEnv? || a.End?
    ensures Places(Apply(fails, s, a), i) == Places(s, i)
  {
    hide Held;
    HeldUpdate(s.workers, a.worker, Apply(fails, s, a).workers[a.worker], i, false);
  }

  lemma CallerPlaces(fails: seq<bool>, s: State, a: Action, i: nat)
    requires Enabled(fails, s, a) && !Moves(a) && !a.Feed?
    ensures Places(Apply(fails, s, a), i) == Places(s, i)
  {
    hide Held;
  }

  /** Only feeding brings a set-up in, and none is ever lost. */
  lemma StepPlaces(fails: seq<bool>, s: State, a: Action, i: nat)
    requires Enabled(fails, s, a) && !Apply(fails, s, a).panicked
    ensures Places(Apply(fails, s, a), i) == Places(s, i) + if a.Feed? && i == s.fed then 1 else 0
  {
    hide Enabled, Apply, Places;
    if a.Feed? {
      FeedPlaces(fails, s, a, i);
    } else if a.Take? {
      TakePlaces(fails, s, a, i);
    } else if a.Signal? {
      SignalPlaces(fails, s, a, i);
    } else if a.Add? || a.Handoff? || a.SendEnv? || a.End? {
      HoldPlaces(fails, s, a, i);
    } else {
      CallerPlaces(fails, s, a, i);
    }
  }

  /** Only a send brings a set-up past its send. */
  lemma StepSends(fails: seq<bool>, s: State, a: Action, i: nat)
    requires Inv(fails, s) && Enabled(fails, s, a) && !Apply(fails, s, a).panicked
    ensures Sends(Apply(fails, s, a), i)
         == Sends(s, i) + if (a.Handoff? || a.SendEnv?) && s.workers[a.worker].task == i then 1 else 0
  {
    hide Held, TaskInv, WorkerInv, Results;
    StepHeld(fails, s, a, i, true);
  }

  lemma StepResults(fails: seq<bool>, s: State, a: Action)
    requires Inv(fails, s) && Enabled(fails, s, a) && !Apply(fails, s, a).panicked
    ensures Results(Apply(fails, s, a)) == if a.SendEnv? then Results(s) + [s.workers[a.worker].task] else Results(s)
  {
    hide TaskInv, WorkerInv;
    if a.EndRange? {
      assert [] + s.envCh == Results(s);
    } else if a.Drain? {
      HeadTail(s.envCh);
    } else if a.Handoff? {
      assert !s.closed;
    }
  }

  lemma StepTask(fails: seq<bool>, s: State, a: Action, i: nat)
    requires Inv(fails, s) && Enabled(fails, s, a) && !Apply(fails, s, a).panicked
    ensures TaskInv(fails, Apply(fails, s, a), i)
  {
    hide Places, Sends, Results, Held;
    StepPlaces(fails, s, a, i);
    StepSends(fails, s, a, i);
    StepResults(fails, s, a);
    assert TaskInv(fails, s, i);
    if a.Handoff? || a.SendEnv? {
      assert WorkerInv(fails, s, a.worker);
    }
  }

  lemma StepWorker(fails: seq<bool>, s: State, a: Action, w: nat)
    requires Inv(fails, s) && Enabled(fails, s, a) && w < |s.workers|
    ensures WorkerInv(fails, Apply(fails, s, a), w)
  {
    hide Held, Places, Sends, Results;
    var t := Apply(fails, s, a);
    assert WorkerInv(fails, s, w);
    if Busy(t.workers[w]) {
      HeldAt(t.workers, w, t.workers[w].task, false);
      HeldAt(t.workers, w, t.workers[w].task, true);
    }
    if a.Take? && w == a.worker {
      QueueBelow(fails, s);
    }
  }

  lemma QueueBelow(fails: seq<bool>, s: State)
    requires Inv(fails, s) && s.queue != []
    ensures s.queue[0] < |fails|
  {
    assert s.queue[0] in multiset(s.queue);
    assert TaskInv(fails, s, s.queue[0]);
  }

  lemma StepNoPanic(fails: seq<bool>, s: State, a: Action)
    requires Inv(fails, s) && Enabled(fails, s, a)
    ensures !Apply(fails, s, a).panicked
  {
    hide Held, Places, Sends, Results, TaskInv, WorkerInv;
    if a.Handoff? || a.SendEnv? {
      SendingOpen(fails, s, a.worker);
    }
  }

  /** The caller leaves its error loop only when every set-up succeeded. */
  lemma RangeEnds(fails: seq<bool>, s: State)
    requires Inv(fails, s) && s.caller.Ranging? && s.closed
    ensures NoneFails(fails)
  {
    forall i | 0 <= i < |fails| ensures !fails[i] {
      AllFinished(fails, s, i);
      assert TaskInv(fails, s, i);
      assert i in multiset(s.finished);
    }
  }

  lemma StepKeepsInv(fails: seq<bool>, s: State, a: Action)
    requires Inv(fails, s) && Enabled(fails, s, a)
    ensures Inv(fails, Apply(fails, s, a))
  {
    hide Held, TaskInv, Results;
    var t := Apply(fails, s, a);
    StepNoPanic(fails, s, a);
    forall i: nat ensures TaskInv(fails, t, i) {
      StepTask(fails, s, a, i);
    }
    forall w | 0 <= w < |t.workers| ensures WorkerInv(fails, t, w) {
      StepWorker(fails, s, a, w);
    }
    if a.EndRange? {
      RangeEnds(fails, s);
    } else if a.Handoff? {
      assert WorkerInv(fails, s, a.worker);
    } else if a.Signal? || a.SendEnv? {
      SendingOpen(fails, s, a.worker);
    }
  }

  // ------------------------------------------------------------------ progress

  lemma RoomForEnv(fails: seq<bool>, s: State, w: nat)
    requires Inv(fails, s) && w < |s.workers| && s.workers[w].SendingEnv?
    ensures |s.envCh| < |fails|
  {
    hide Below;
    var i := s.workers[w].task;
    var rs: seq<nat> := Results(s);
    assert WorkerInv(fails, s, w);
    forall k: nat ensures multiset(rs)[k] <= 1 && (k >= |fails| || k == i ==> multiset(rs)[k] == 0) {
      assert TaskInv(fails, s, k);
      HeldSent(s.workers, k);
      HeldUpdate(s.workers, w, Idle, k, true);
      HeldUpdate(s.workers, w, Idle, k, false);
      HeldSent(s.workers[w := Idle], k);
    }
    CountsDistinct(rs);
    forall j | 0 <= j < |rs| ensures rs[j] in Below(|fails|) {
      assert rs[j] in multiset(rs);
    }
    assert i !in multiset(rs);
    DistinctWithout(rs, Below(|fails|), i);
  }

  /** Until the caller has returned, some goroutine can take a step. */
  lemma Progress(fails: seq<bool>, s: State) returns (a: Action)
    requires Inv(fails, s) && !s.caller.Returned?
    ensures Enabled(fails, s, a)
  {
    hide Held, Places, Sends, Results, TaskInv;
    if s.caller.Draining? {
      a := if s.envCh != [] then Drain else EndDrain;
    } else if s.closed {
      a := EndRange;
    } else if w :| 0 <= w < |s.workers| && Busy(s.workers[w]) {
      assert WorkerInv(fails, s, w);
      match s.workers[w] {
        case Adding(_) => a := Add(w);
        case SendingError(_) => a := Handoff(w);
        case Signalling(_) => a := Signal(w);
        case SendingEnv(_) =>
          RoomForEnv(fails, s, w);
          a := SendEnv(w);
      }
    } else if s.queue != [] {
      assert WorkerInv(fails, s, 0);
      a := Take(0);
    } else if s.fed < |fails| {
      a := Feed;
    } else {
      EverythingFinished(fails, s);
      a := Close;
    }
  }

  lemma EverythingFinished(fails: seq<bool>, s: State)
    requires Inv(fails, s) && s.queue == [] && s.fed == |fails|
    requires forall w :: 0 <= w < |s.workers| ==> !Busy(s.workers[w])
    ensures |s.finished| == |fails|
  {
    hide WorkerInv, Below;
    FinishedDistinct(fails, s);
    DistinctIn(s.finished, Below(|fails|));
    forall i | i in Below(|fails|) ensures i in s.finished {
      assert TaskInv(fails, s, i);
      NothingHeld(s.workers, i, false);
      assert i in multiset(s.finished);
    }
    CoveredBy(Below(|fails|), s.finished);
  }

  function WorkerWork(x: Worker): nat {
    match x
    case Idle => 1
    case Adding(_) => 5
    case SendingError(_) => 4
    case SendingEnv(_) => 4
    case Signalling(_) => 2
    case Ended => 0
  }

  function Work(workers: seq<Worker>): nat {
    if workers == [] then 0 else WorkerWork(workers[0]) + Work(workers[1..])
  }

  /** A bound on the steps left. */
  function Measure(fails: seq<bool>, s: State): int {
    6 * (|fails| - s.fed) + 5 * |s.queue| + Work(s.workers) + |s.envCh|
    + (if s.queueClosed then 0 else 1) + (if s.closed then 0 else 1)
    + (match s.caller case Ranging => 2 case Draining(_) => 1 case Returned(_) => 0)
  }

  lemma {:induction false} WorkUpdate(workers: seq<Worker>, w: nat, x: Worker)
    requires w < |workers|
    ensures Work(workers[w := x]) + WorkerWork(workers[w]) == Work(workers) + WorkerWork(x)
  {
    if w == 0 {
      assert workers[0 := x][1..] == workers[1..];
    } else {
      assert workers[w := x][1..] == workers[1..][w - 1 := x];
      WorkUpdate(workers[1..], w - 1, x);
    }
  }

  lemma StepDecreases(fails: seq<bool>, s: State, a: Action)
    requires Inv(fails, s) && Enabled(fails, s, a)
    ensures 0 <= Measure(fails, Apply(fails, s, a)) < Measure(fails, s)
  {
    StepNoPanic(fails, s, a);
    hide Held, Places, Sends, Results, TaskInv, WorkerInv, Work;
    if a.Take? || a.Add? || a.Handoff? || a.SendEnv? || a.Signal? || a.End? {
      WorkUpdate(s.workers, a.worker, Apply(fails, s, a).workers[a.worker]);
    }
  }

  // ------------------------------------------------------------------ whole runs

  ghost predicate Runs(fails: seq<bool>, s: State, actions: seq<Action>)
    decreases |actions|
  {
    actions == []
    || (Enabled(fails, s, actions[0]) && Runs(fails, Apply(fails, s, actions[0]), actions[1..]))
  }

  ghost function After(fails: seq<bool>, s: State, actions: seq<Action>): State
    requires Runs(fails, s, actions)
    decreases |actions|
  {
    if actions == [] then s else After(fails, Apply(fails, s, actions[0]), actions[1..])
  }

  lemma {:induction false} RunKeepsInv(fails: seq<bool>, s: State, actions: seq<Action>)
    requires Inv(fails, s) && Runs(fails, s, actions) && Measure(fails, s) >= 0
    ensures Inv(fails, After(fails, s, actions))
    ensures |actions| <= Measure(fails, s)
    decreases |actions|
  {
    hide Inv, Enabled, Apply, Measure;
    if actions != [] {
      StepKeepsInv(fails, s, actions[0]);
      StepDecreases(fails, s, actions[0]);
      RunKeepsInv(fails, Apply(fails, s, actions[0]), actions[1..]);
    }
  }

  /** An error comes from a set-up that failed; success means none did, and that the list holds the
      simulator of every set-up exactly once. */
  ghost predicate Honest(fails: seq<bool>, o: Outcome) {
    match o
    case TaskError(i) => i < |fails| && fails[i]
    case Success(rs) => NoneFails(fails) && Distinct(rs) && forall i: nat :: i in rs <==> i < |fails|
  }

  lemma ReturnedHonest(fails: seq<bool>, s: State)
    requires Inv(fails, s) && s.caller.Returned?
    ensures Honest(fails, s.caller.outcome)
  {
    if s.caller.outcome.Success? {
      var rs: seq<nat> := s.caller.outcome.simulators;
      assert Results(s) == rs;
      forall i: nat ensures multiset(rs)[i] == if i < |fails| then 1 else 0 {
        assert TaskInv(fails, s, i);
        if i < |fails| {
          AllFinished(fails, s, i);
          HeldSent(s.workers, i);
          assert i in multiset(s.finished);
        }
      }
      CountsDistinct(rs);
      forall i: nat ensures i in rs <==> i < |fails| {
        assert i in rs <==> i in multiset(rs);
      }
    }
  }

  // ------------------------------------------------------------------ first in, first out

  /** The set-ups taken off the queue in a run, in the order in which they are taken. */
  ghost function Taken(fails: seq<bool>, s: State, actions: seq<Action>): seq<nat>
    requires Runs(fails, s, actions)
    decreases |actions|
  {
    if actions == [] then []
    else
      var t := Apply(fails, s, actions[0]);
      var rest := Taken(fails, t, actions[1..]);
      if actions[0].Take? && actions[0].worker < |t.workers| && Busy(t.workers[actions[0].worker])
      then [t.workers[actions[0].worker].task] + rest
      else rest
  }

  /** The simulators sent in a run, in the order in which they are sent. */
  ghost function SentEnvs(fails: seq<bool>, s: State, actions: seq<Action>): seq<nat>
    requires Runs(fails, s, actions)
    decreases |actions|
  {
    if actions == [] then []
    else
      var rest := SentEnvs(fails, Apply(fails, s, actions[0]), actions[1..]);
      if actions[0].SendEnv? then [s.workers[actions[0].worker].task] + rest else rest
  }

  /** Over one step, what is taken and what is queued change only by what is fed, at the end. */
  lemma QueueOrder(fails: seq<bool>, s: State, a: Action)
    requires Enabled(fails, s, a) && !Apply(fails, s, a).panicked
    ensures var t := Apply(fails, s, a);
            && (a.Take? ==> a.worker < |t.workers| && Busy(t.workers[a.worker]))
            && (if a.Take? then [t.workers[a.worker].task] else []) + t.queue
               == s.queue + (if a.Feed? then [s.fed] else [])
            && t.fed == s.fed + if a.Feed? then 1 else 0
  {
    if a.Take? {
      HeadTail(s.queue);
    }
  }

  /** Over a run, set-ups leave the queue in the order in which they were fed. */
  lemma {:induction false} OrderRun(fails: seq<bool>, s: State, actions: seq<Action>)
    requires Inv(fails, s) && Runs(fails, s, actions)
    ensures var t := After(fails, s, actions);
            && s.fed <= t.fed
            && Taken(fails, s, actions) + t.queue == s.queue + Between(s.fed, t.fed)
            && Results(t) == Results(s) + SentEnvs(fails, s, actions)
    decreases |actions|
  {
    hide Inv, Enabled, Apply, Results, Between;
    if actions == [] {
      assert Between(s.fed, s.fed) == [] by { BetweenNone(s.fed); }
    } else {
      var a := actions[0];
      var t := Apply(fails, s, a);
      StepKeepsInv(fails, s, a);
      StepNoPanic(fails, s, a);
      QueueOrder(fails, s, a);
      StepResults(fails, s, a);
      OrderRun(fails, t, actions[1..]);
      var end := After(fails, t, actions[1..]);
      var more := if a.Feed? then [s.fed] else [];
      assert Between(s.fed, end.fed) == more + Between(t.fed, end.fed) by {
        if a.Feed? { BetweenFirst(s.fed, end.fed); }
      }
      Reassemble(if a.Take? then [t.workers[a.worker].task] else [], Taken(fails, t, actions[1..]),
                 end.queue, t.queue, s.queue, more, Between(t.fed, end.fed));
    }
  }

  lemma BetweenNone(i: nat)
    ensures Between(i, i) == []
  {}

  /** Whole runs: set-ups are taken in the order they were given, ten workers wait for a queue of ten, and
      the simulators returned are in the order in which they were sent. */
  lemma {:induction false} FirstInFirstOut(fails: seq<bool>, actions: seq<Action>)
    requires Runs(fails, Initial(), actions)
    ensures var s := After(fails, Initial(), actions);
            && Taken(fails, Initial(), actions) + s.queue == Between(0, s.fed)
            && |s.workers| == 10
            && (s.fed < |fails| ==> (Enabled(fails, s, Feed) <==> |s.queue| < 10))
            && (s.caller.Returned? && s.caller.outcome.Success? ==>
                  s.caller.outcome.simulators == SentEnvs(fails, Initial(), actions))
  {
    hide Inv, Enabled, Runs, After, Taken, SentEnvs, Between, Results;
    InitialInv(fails);
    WorkInitially();
    OrderRun(fails, Initial(), actions);
    RunKeepsInv(fails, Initial(), actions);
    var s := After(fails, Initial(), actions);
    assert [] + Between(0, s.fed) == Between(0, s.fed);
    PoolBounds(fails, s);
    ReturnedResults(fails, s);
    NoResults();
    assert [] + SentEnvs(fails, Initial(), actions) == SentEnvs(fails, Initial(), actions);
  }

  lemma NoResults()
    ensures Results(Initial()) == []
  {}

  lemma PoolBounds(fails: seq<bool>, s: State)
    requires Inv(fails, s)
    ensures |s.workers| == 10
    ensures s.fed < |fails| ==> (Enabled(fails, s, Feed) <==> |s.queue| < 10)
  {}

  lemma ReturnedResults(fails: seq<bool>, s: State)
    requires Inv(fails, s)
    ensures s.caller.Returned? && s.caller.outcome.Success? ==> Results(s) == s.caller.outcome.simulators
  {
    hide TaskInv, WorkerInv;
  }

  lemma WorkInitially()
    ensures Work(Initial().workers) == WORKERS
  {
    var ws := Initial().workers;
    assert ws == [Idle, Idle, Idle, Idle, Idle, Idle, Idle, Idle, Idle, Idle];
    WorkAll(ws);
  }

  lemma {:induction false} WorkAll(ws: seq<Worker>)
    requires forall w :: 0 <= w < |ws| ==> ws[w].Idle?
    ensures Work(ws) == |ws|
  {
    if ws != [] {
      WorkAll(ws[1..]);
    }
  }

  /** For any number of set-ups, failing in any pattern, and in every schedule: the run is finite,
      it goes on until the caller has returned, and what the caller returns is honest. */
  lemma {:induction false} AddAllReturns(fails: seq<bool>, actions: seq<Action>)
    requires Runs(fails, Initial(), actions)
    ensures |actions| <= 6 * |fails| + 14
    ensures var s := After(fails, Initial(), actions);
            if s.caller.Returned? then Honest(fails, s.caller.outcome) else exists a :: Enabled(fails, s, a)
  {
    hide Inv, Honest, Work, Enabled, Apply;
    InitialInv(fails);
    WorkInitially();
    RunKeepsInv(fails, Initial(), actions);
    var s := After(fails, Initial(), actions);
    if s.caller.Returned? {
      ReturnedHonest(fails, s);
    } else {
      var a := Progress(fails, s);
    }
  }
}
