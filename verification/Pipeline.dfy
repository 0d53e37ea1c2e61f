/** The benchmark pipeline: one producer, P clients and one aggregator, joined by two bounded
    channels. Every goroutine takes one step at a time, in any order. A request is known by its
    number; what the client measures for it travels under the same number. */
module Pipeline {
  import opened Basics
  import opened Aggregator
  import Percentiles

  const RESULT_CAPACITY := 100

  /** `total` is the number of rounds the producer's loop makes before it ends. */
  datatype Config = Config(parallelism: nat, total: nat)

  datatype Client = Idle | Working(request: nat) | Sending(request: nat) | Exited

  /** Where the producer is: its loop, then the wait for the clients, the close of the result
      channel, and the wait for the aggregator. */
  datatype Producer = Issuing | Joining | Closing | AwaitingAggregator | Returned

  datatype State = State(
    producer: Producer,
    issued: nat,
    requestCh: seq<nat>, requestClosed: bool,
    clients: seq<Client>,
    resultCh: seq<nat>, resultClosed: bool,
    received: seq<nat>, aggregated: bool,
    panicked: bool)

  datatype Action =
    | Issue | CloseRequests | AwaitClients | CloseResults | AwaitAggregator
    | Take(client: nat) | Finish(client: nat) | Deliver(client: nat) | Exit(client: nat)
    | Receive | EndAggregation

  function Initial(c: Config): State {
    State(Issuing, 0, [], false, seq(c.parallelism, _ => Idle), [], false, [], false, false)
  }

  predicate Enabled(c: Config, s: State, a: Action) {
    match a
    case Issue => s.producer == Issuing && s.issued < c.total && |s.requestCh| < c.parallelism
    case CloseRequests => s.producer == Issuing && s.issued >= c.total
    case AwaitClients => s.producer == Joining && AllExited(s.clients)
    case CloseResults => s.producer == Closing
    case AwaitAggregator => s.producer == AwaitingAggregator && s.aggregated
    case Take(i) => i < |s.clients| && s.clients[i] == Idle && s.requestCh != []
    case Finish(i) => i < |s.clients| && s.clients[i].Working?
    case Deliver(i) => i < |s.clients| && s.clients[i].Sending?
                       && (s.resultClosed || |s.resultCh| < RESULT_CAPACITY)
    case Exit(i) => i < |s.clients| && s.clients[i] == Idle && s.requestClosed && s.requestCh == []
    case Receive => !s.aggregated && s.resultCh != []
    case EndAggregation => !s.aggregated && s.resultClosed && s.resultCh == []
  }

  /** The step itself; a send on a closed channel panics. */
  function Apply(s: State, a: Action): State
    requires exists c :: Enabled(c, s, a)
  {
    match a
    case Issue =>
      if s.requestClosed then s.(panicked := true)
      else s.(issued := s.issued + 1, requestCh := s.requestCh + [s.issued])
    case CloseRequests => s.(producer := Joining, requestClosed := true, panicked := s.panicked || s.requestClosed)
    case AwaitClients => s.(producer := Closing)
    case CloseResults => s.(producer := AwaitingAggregator, resultClosed := true, panicked := s.panicked || s.resultClosed)
    case AwaitAggregator => s.(producer := Returned)
    case Take(i) => s.(clients := s.clients[i := Working(s.requestCh[0])], requestCh := s.requestCh[1..])
    case Finish(i) => s.(clients := s.clients[i := Sending(s.clients[i].request)])
    case Deliver(i) =>
      if s.resultClosed then s.(panicked := true)
      else s.(clients := s.clients[i := Idle], resultCh := s.resultCh + [s.clients[i].request])
    case Exit(i) => s.(clients := s.clients[i := Exited])
    case Receive => s.(received := s.received + [s.resultCh[0]], resultCh := s.resultCh[1..])
    case EndAggregation => s.(aggregated := true)
  }

  predicate AllExited(clients: seq<Client>) {
    forall i :: 0 <= i < |clients| ==> clients[i] == Exited
  }

  /** How often request `r` is in the hands of the clients. */
  function InHand(clients: seq<Client>, r: nat): nat {
    if clients == [] then 0 else Holds(clients[0], r) + InHand(clients[1..], r)
  }

  function Holds(c: Client, r: nat): nat {
    if (c.Working? || c.Sending?) && c.request == r then 1 else 0
  }

  /** Requests 0 to n - 1, once each. */
  function Numbers(n: nat): seq<nat> {
    seq(n, i => i)
  }

  // ------------------------------------------------------------------ the invariant

  ghost predicate Inv(c: Config, s: State) {
    && !s.panicked
    && |s.clients| == c.parallelism
    && |s.requestCh| <= c.parallelism && |s.resultCh| <= RESULT_CAPACITY
    && s.issued <= c.total
    && (s.requestClosed <==> !s.producer.Issuing?)
    && (s.requestClosed ==> s.issued == c.total)
    && (s.resultClosed <==> s.producer.AwaitingAggregator? || s.producer.Returned?)
    && (forall i :: 0 <= i < |s.clients| && s.clients[i] == Exited ==> s.requestClosed && s.requestCh == [])
    && (s.producer.Closing? || s.resultClosed ==> AllExited(s.clients))
    && (s.aggregated ==> s.resultClosed && s.resultCh == [])
    && (s.producer.Returned? ==> s.aggregated)
    && Conserved(s)
  }

  /** How often request `r` is anywhere between the producer and the aggregator. */
  function Places(s: State, r: nat): nat {
    multiset(s.requestCh)[r] + InHand(s.clients, r) + multiset(s.resultCh)[r] + multiset(s.received)[r]
  }

  /** Every request issued is in exactly one place, and no other is anywhere. */
  ghost predicate Conserved(s: State) {
    forall r: nat :: Places(s, r) == if r < s.issued then 1 else 0
  }

  lemma {:induction false} InHandUpdate(clients: seq<Client>, i: nat, x: Client, r: nat)
    requires i < |clients|
    ensures InHand(clients[i := x], r) + Holds(clients[i], r) == InHand(clients, r) + Holds(x, r)
  {
    if i == 0 {
      assert clients[0 := x][1..] == clients[1..];
    } else {
      assert clients[i := x][1..] == clients[1..][i - 1 := x];
      InHandUpdate(clients[1..], i - 1, x, r);
    }
  }

  lemma {:induction false} NothingInHand(clients: seq<Client>, r: nat)
    requires forall i :: 0 <= i < |clients| ==> clients[i] == Idle || clients[i] == Exited
    ensures InHand(clients, r) == 0
  {
    if clients != [] {
      NothingInHand(clients[1..], r);
    }
  }

  lemma {:induction false} NumbersOnce(n: nat, r: nat)
    ensures multiset(Numbers(n))[r] == if r < n then 1 else 0
  {
    if n > 0 {
      assert Numbers(n) == Numbers(n - 1) + [n - 1];
      NumbersOnce(n - 1, r);
    }
  }

  lemma InitialInv(c: Config)
    ensures Inv(c, Initial(c))
  {
    forall r: nat ensures Places(Initial(c), r) == 0 {
      NothingInHand(Initial(c).clients, r);
    }
  }

  lemma IssuePlaces(c: Config, s: State, a: Action, r: nat)
    requires a.Issue? && Enabled(c, s, a) && !s.requestClosed
    ensures Places(Apply(s, a), r) == Places(s, r) + if r == s.issued then 1 else 0
  {
    hide InHand;
  }

  lemma TakePlaces(c: Config, s: State, a: Action, r: nat)
    requires a.Take? && Enabled(c, s, a)
    ensures Places(Apply(s, a), r) == Places(s, r)
  {
    hide InHand;
    HeadTail(s.requestCh);
    InHandUpdate(s.clients, a.client, Working(s.requestCh[0]), r);
  }

  lemma HoldPlaces(c: Config, s: State, a: Action, r: nat)
    requires (a.Finish? || a.Exit?) && Enabled(c, s, a)
    ensures Places(Apply(s, a), r) == Places(s, r)
  {
    hide InHand;
    InHandUpdate(s.clients, a.client, Apply(s, a).clients[a.client], r);
  }

  lemma DeliverPlaces(c: Config, s: State, a: Action, r: nat)
    requires a.Deliver? && Enabled(c, s, a) && !s.resultClosed
    ensures Places(Apply(s, a), r) == Places(s, r)
  {
    hide InHand;
    InHandUpdate(s.clients, a.client, Idle, r);
  }

  lemma ReceivePlaces(c: Config, s: State, a: Action, r: nat)
    requires a.Receive? && Enabled(c, s, a)
    ensures Places(Apply(s, a), r) == Places(s, r)
  {
    hide InHand;
    HeadTail(s.resultCh);
  }

  predicate Carries(a: Action) {
    a.Issue? || a.Take? || a.Finish? || a.Exit? || a.Deliver? || a.Receive?
  }

  lemma OtherPlaces(c: Config, s: State, a: Action, r: nat)
    requires !Carries(a) && Enabled(c, s, a)
    ensures Places(Apply(s, a), r) == Places(s, r)
  {
    hide InHand;
  }

  lemma SendsOpen(c: Config, s: State, a: Action)
    requires Enabled(c, s, a) && !Apply(s, a).panicked
    ensures a.Issue? ==> !s.requestClosed
    ensures a.Deliver? ==> !s.resultClosed
  {}

  /** Only issuing brings a request in, and none is ever lost. */
  lemma PlacesStep(c: Config, s: State, a: Action, r: nat)
    requires Enabled(c, s, a) && !Apply(s, a).panicked
    ensures Places(Apply(s, a), r) == Places(s, r) + if a.Issue? && r == s.issued then 1 else 0
  {
    hide Places, Enabled, Apply;
    SendsOpen(c, s, a);
    if a.Issue? {
      IssuePlaces(c, s, a, r);
    } else if a.Take? {
      TakePlaces(c, s, a, r);
    } else if a.Finish? || a.Exit? {
      HoldPlaces(c, s, a, r);
    } else if a.Deliver? {
      DeliverPlaces(c, s, a, r);
    } else if a.Receive? {
      ReceivePlaces(c, s, a, r);
    } else {
      OtherPlaces(c, s, a, r);
    }
  }

  lemma ConservedStep(c: Config, s: State, a: Action)
    requires Inv(c, s) && Enabled(c, s, a) && !Apply(s, a).panicked
    ensures Conserved(Apply(s, a))
  {
    hide Places;
    forall r: nat ensures Places(Apply(s, a), r) == if r < Apply(s, a).issued then 1 else 0 {
      PlacesStep(c, s, a, r);
    }
  }

  /** Every step of every goroutine keeps the invariant: in particular, none panics. */
  lemma StepKeepsInv(c: Config, s: State, a: Action)
    requires Inv(c, s) && Enabled(c, s, a)
    ensures Inv(c, Apply(s, a))
  {
    hide Conserved;
    ConservedStep(c, s, a);
  }

  // ------------------------------------------------------------------ progress

  /** Until the producer has returned, some goroutine can take a step. */
  lemma Progress(c: Config, s: State) returns (a: Action)
    requires Inv(c, s) && (c.parallelism >= 1 || c.total == 0) && s.producer != Returned
    ensures Enabled(c, s, a)
  {
    hide Conserved;
    if s.resultCh != [] {
      a := Receive;
    } else if i :| 0 <= i < |s.clients| && (s.clients[i].Working? || s.clients[i].Sending?) {
      a := if s.clients[i].Working? then Finish(i) else Deliver(i);
    } else if s.requestCh != [] {
      assert s.clients[0] == Idle;
      a := Take(0);
    } else {
      match s.producer
      case Issuing => a := if s.issued < c.total then Issue else CloseRequests;
      case Joining =>
        if i :| 0 <= i < |s.clients| && s.clients[i] == Idle {
          a := Exit(i);
        } else {
          a := AwaitClients;
        }
      case Closing => a := CloseResults;
      case AwaitingAggregator => a := if s.aggregated then AwaitAggregator else EndAggregation;
    }
  }

  function ClientWork(c: Client): nat {
    match c
    case Idle => 1
    case Working(_) => 4
    case Sending(_) => 3
    case Exited => 0
  }

  function Work(clients: seq<Client>): nat {
    if clients == [] then 0 else ClientWork(clients[0]) + Work(clients[1..])
  }

  function Ahead(p: Producer): nat {
    match p
    case Issuing => 4
    case Joining => 3
    case Closing => 2
    case AwaitingAggregator => 1
    case Returned => 0
  }

  /** How many steps are left, whoever takes them. */
  function Measure(c: Config, s: State): int {
    5 * (c.total - s.issued) + 4 * |s.requestCh| + Work(s.clients) + |s.resultCh|
    + Ahead(s.producer) + (if s.aggregated then 0 else 1)
  }

  lemma {:induction false} WorkUpdate(clients: seq<Client>, i: nat, x: Client)
    requires i < |clients|
    ensures Work(clients[i := x]) + ClientWork(clients[i]) == Work(clients) + ClientWork(x)
  {
    if i == 0 {
      assert clients[0 := x][1..] == clients[1..];
    } else {
      assert clients[i := x][1..] == clients[1..][i - 1 := x];
      WorkUpdate(clients[1..], i - 1, x);
    }
  }

  /** Every step uses up exactly one. */
  lemma StepDecreases(c: Config, s: State, a: Action)
    requires Inv(c, s) && Enabled(c, s, a)
    ensures Measure(c, Apply(s, a)) == Measure(c, s) - 1
  {
    hide Conserved, Work;
    match a
    case Take(i) => WorkUpdate(s.clients, i, Working(s.requestCh[0]));
    case Finish(i) => WorkUpdate(s.clients, i, Sending(s.clients[i].request));
    case Deliver(i) => WorkUpdate(s.clients, i, Idle);
    case Exit(i) => WorkUpdate(s.clients, i, Exited);
    case _ =>
  }

  // ------------------------------------------------------------------ whole runs

  /** `actions` can be taken one after another from `s`. */
  ghost predicate Runs(c: Config, s: State, actions: seq<Action>)
    decreases |actions|
  {
    actions == []
    || (Enabled(c, s, actions[0]) && Runs(c, Apply(s, actions[0]), actions[1..]))
  }

  ghost function After(c: Config, s: State, actions: seq<Action>): State
    requires Runs(c, s, actions)
    decreases |actions|
  {
    if actions == [] then s else After(c, Apply(s, actions[0]), actions[1..])
  }

  lemma {:induction false} RunKeepsInv(c: Config, s: State, actions: seq<Action>)
    requires Inv(c, s) && Runs(c, s, actions)
    ensures Inv(c, After(c, s, actions))
    ensures Measure(c, After(c, s, actions)) == Measure(c, s) - |actions|
    decreases |actions|
  {
    hide Inv, Enabled, Apply, Measure;
    if actions != [] {
      StepKeepsInv(c, s, actions[0]);
      StepDecreases(c, s, actions[0]);
      RunKeepsInv(c, Apply(s, actions[0]), actions[1..]);
    }
  }

  lemma {:induction false} WorkIdle(n: nat)
    ensures Work(seq(n, _ => Idle)) == n
  {
    var s := seq(n, _ => Idle);
    if n > 0 {
      assert s[1..] == seq(n - 1, _ => Idle);
      WorkIdle(n - 1);
    }
  }

  /** Safety over whole runs: whatever the schedule, nothing panics, and what the aggregator has
      received is part of what was issued. */
  lemma NoPanic(c: Config, actions: seq<Action>)
    requires Runs(c, Initial(c), actions)
    ensures !After(c, Initial(c), actions).panicked
    ensures multiset(After(c, Initial(c), actions).received) <= multiset(Numbers(c.total))
  {
    InitialInv(c);
    RunKeepsInv(c, Initial(c), actions);
    var s := After(c, Initial(c), actions);
    forall r: nat ensures multiset(s.received)[r] <= multiset(Numbers(c.total))[r] {
      NumbersOnce(c.total, r);
      assert Places(s, r) <= 1;
    }
  }

  /** Termination: a run has at most 5 steps a request, one a client, and five more; it is stuck
      exactly when the producer has returned, and the aggregator then has received every request
      issued exactly once. */
  lemma RunsEndComplete(c: Config, actions: seq<Action>)
    requires (c.parallelism >= 1 || c.total == 0) && Runs(c, Initial(c), actions)
    ensures |actions| <= 5 * c.total + c.parallelism + 5
    ensures var s := After(c, Initial(c), actions);
            && ((forall a :: !Enabled(c, s, a)) <==> s.producer.Returned?)
            && (s.producer.Returned? ==> multiset(s.received) == multiset(Numbers(c.total)))
            && (s.producer.Returned? <==> |actions| == 5 * c.total + c.parallelism + 5)
  {
    var s := After(c, Initial(c), actions);
    InitialInv(c);
    WorkIdle(c.parallelism);
    assert Measure(c, Initial(c)) == 5 * c.total + c.parallelism + 5;
    RunKeepsInv(c, Initial(c), actions);
    if s.producer.Returned? {
      Finished(c, s);
    } else {
      var a := Progress(c, s);
      StepDecreases(c, s, a);
      NonNegative(c, Apply(s, a), s, a);
    }
  }

  lemma NonNegative(c: Config, s': State, s: State, a: Action)
    requires Inv(c, s) && Enabled(c, s, a) && s' == Apply(s, a)
    ensures Measure(c, s') >= 0
  {
    StepKeepsInv(c, s, a);
  }

  /** When the producer has returned, nothing is left anywhere. */
  lemma Finished(c: Config, s: State)
    requires Inv(c, s) && s.producer.Returned?
    ensures multiset(s.received) == multiset(Numbers(c.total)) && Measure(c, s) == 0
    ensures forall a :: !Enabled(c, s, a)
  {
    hide Enabled;
    NoWork(s.clients);
    assert c.parallelism >= 1 ==> s.clients[0] == Exited;
    forall r: nat ensures multiset(s.received)[r] == multiset(Numbers(c.total))[r] {
      NothingInHand(s.clients, r);
      NumbersOnce(c.total, r);
      assert Places(s, r) == if r < s.issued then 1 else 0;
    }
    forall a ensures !Enabled(c, s, a) {
      if Enabled(c, s, a) {
        StepDecreases(c, s, a);
        NonNegative(c, Apply(s, a), s, a);
      }
    }
  }

  /** Without clients, and with something to issue, nothing can ever move. */
  lemma StuckWithoutClients(c: Config)
    requires c.parallelism == 0 && c.total > 0
    ensures forall a :: !Enabled(c, Initial(c), a)
  {}

  lemma NumbersSize(n: nat)
    ensures |multiset(Numbers(n))| == n
  {}

  /** A run that has ended issued and received as many requests as the loop made rounds. */
  lemma {:induction false} AllReceived(c: Config, actions: seq<Action>)
    requires Runs(c, Initial(c), actions) && After(c, Initial(c), actions).producer.Returned?
    ensures After(c, Initial(c), actions).issued == c.total
    ensures |After(c, Initial(c), actions).received| == c.total
  {
    hide Runs, After;
    InitialInv(c);
    RunKeepsInv(c, Initial(c), actions);
    var s := After(c, Initial(c), actions);
    Finished(c, s);
    NumbersSize(c.total);
    assert |multiset(s.received)| == |s.received|;
  }

  // ------------------------------------------------------------------ first in, first out

  /** The requests the clients deliver in a run, in the order in which they deliver them. */
  ghost function Delivered(c: Config, s: State, actions: seq<Action>): seq<nat>
    requires Runs(c, s, actions)
    decreases |actions|
  {
    if actions == [] then []
    else
      var rest := Delivered(c, Apply(s, actions[0]), actions[1..]);
      if actions[0].Deliver? then [s.clients[actions[0].client].request] + rest else rest
  }

  /** The requests the clients take in a run, in the order in which they take them. */
  ghost function Taken(c: Config, s: State, actions: seq<Action>): seq<nat>
    requires Runs(c, s, actions)
    decreases |actions|
  {
    if actions == [] then []
    else
      var t := Apply(s, actions[0]);
      var rest := Taken(c, t, actions[1..]);
      if actions[0].Take? && actions[0].client < |t.clients| && t.clients[actions[0].client].Working?
      then [t.clients[actions[0].client].request] + rest
      else rest
  }

  /** Over one step, what has been received and what is still queued change only by what is delivered,
      at the end. */
  lemma ResultOrder(c: Config, s: State, a: Action)
    requires Enabled(c, s, a) && !Apply(s, a).panicked
    ensures var t := Apply(s, a);
            t.received + t.resultCh
            == s.received + s.resultCh + if a.Deliver? then [s.clients[a.client].request] else []
  {
    if a.Receive? {
      HeadTail(s.resultCh);
      assert s.received + [s.resultCh[0]] + s.resultCh[1..] == s.received + ([s.resultCh[0]] + s.resultCh[1..]);
    }
  }

  /** Over one step, what is taken and what is still queued change only by what is issued, at the end. */
  lemma RequestOrder(c: Config, s: State, a: Action)
    requires Enabled(c, s, a) && !Apply(s, a).panicked
    ensures var t := Apply(s, a);
            && (a.Take? ==> t.clients[a.client].Working?)
            && (if a.Take? then [t.clients[a.client].request] else []) + t.requestCh
               == s.requestCh + (if a.Issue? then [s.issued] else [])
            && t.issued == s.issued + if a.Issue? then 1 else 0
  {
    if a.Take? {
      HeadTail(s.requestCh);
    }
  }

  /** Over a run, both channels give up what was sent in the order in which it was sent. */
  lemma {:induction false} RunOrder(c: Config, s: State, actions: seq<Action>)
    requires Inv(c, s) && Runs(c, s, actions)
    ensures var t := After(c, s, actions);
            && t.received + t.resultCh == s.received + s.resultCh + Delivered(c, s, actions)
            && s.issued <= t.issued
            && Taken(c, s, actions) + t.requestCh == s.requestCh + Between(s.issued, t.issued)
    decreases |actions|
  {
    hide Inv, Enabled, Apply;
    if actions != [] {
      var a := actions[0];
      var t := Apply(s, a);
      StepKeepsInv(c, s, a);
      NotPanicked(c, t);
      ResultOrder(c, s, a);
      RequestOrder(c, s, a);
      TakesClient(c, s, a);
      RunOrder(c, t, actions[1..]);
      var end := After(c, t, actions[1..]);
      var more := if a.Issue? then [s.issued] else [];
      assert Between(s.issued, end.issued) == more + Between(t.issued, end.issued) by {
        if a.Issue? { BetweenFirst(s.issued, end.issued); }
      }
      Reassemble(if a.Take? then [t.clients[a.client].request] else [], Taken(c, t, actions[1..]),
                 end.requestCh, t.requestCh, s.requestCh, more, Between(t.issued, end.issued));
    }
  }

  lemma NotPanicked(c: Config, s: State)
    requires Inv(c, s)
    ensures !s.panicked
  {}

  lemma TakesClient(c: Config, s: State, a: Action)
    requires Enabled(c, s, a)
    ensures a.Take? ==> a.client < |s.clients| == |Apply(s, a).clients|
  {}

  /** Whole runs: requests are taken in the order of issue, and what the aggregator receives, it receives
      in the order of delivery. */
  lemma {:induction false} FirstInFirstOut(c: Config, actions: seq<Action>)
    requires Runs(c, Initial(c), actions)
    ensures var s := After(c, Initial(c), actions);
            && Taken(c, Initial(c), actions) + s.requestCh == Numbers(s.issued)
            && s.received + s.resultCh == Delivered(c, Initial(c), actions)
            && (s.producer.Returned? ==> s.received == Delivered(c, Initial(c), actions))
  {
    hide Inv, Runs, After, Delivered, Taken, Apply, Enabled;
    InitialInv(c);
    RunOrder(c, Initial(c), actions);
    RunKeepsInv(c, Initial(c), actions);
    var s := After(c, Initial(c), actions);
    assert Between(0, s.issued) == Numbers(s.issued);
    NothingQueued(c, s);
  }

  lemma NothingQueued(c: Config, s: State)
    requires Inv(c, s)
    ensures s.producer.Returned? ==> s.resultCh == []
  {}

  function Holding(x: Client): seq<nat> {
    if x.Working? || x.Sending? then [x.request] else []
  }

  /** With one client, everything between the producer and the aggregator is in the order of issue. */
  lemma OneClientStep(c: Config, s: State, a: Action)
    requires c.parallelism == 1 && Inv(c, s) && Enabled(c, s, a)
    requires s.received + s.resultCh + Holding(s.clients[0]) + s.requestCh == Numbers(s.issued)
    ensures var t := Apply(s, a);
            |t.clients| == 1
            && t.received + t.resultCh + Holding(t.clients[0]) + t.requestCh == Numbers(t.issued)
  {
    hide Conserved, Numbers;
    StepKeepsInv(c, s, a);
    ResultOrder(c, s, a);
    RequestOrder(c, s, a);
    var t := Apply(s, a);
    NumbersNext(s.issued);
    HoldingStep(c, s, a);
    Conveyed(t.received + t.resultCh, Holding(t.clients[0]), t.requestCh,
             s.received + s.resultCh, Holding(s.clients[0]), s.requestCh,
             if a.Deliver? then [s.clients[a.client].request] else [],
             if a.Take? then [t.clients[a.client].request] else [],
             if a.Issue? then [s.issued] else []);
  }

  lemma NumbersNext(n: nat)
    ensures Numbers(n + 1) == Numbers(n) + [n]
  {}

  /** What the one client holds changes by what it takes and what it delivers. */
  lemma HoldingStep(c: Config, s: State, a: Action)
    requires |s.clients| == 1 && Enabled(c, s, a) && !Apply(s, a).panicked
    ensures var t := Apply(s, a);
            && |t.clients| == 1
            && (a.Take? || a.Deliver? ==> a.client == 0)
            && (a.Take? ==> t.clients[0].Working?)
            && (a.Deliver? ==> s.clients[0].Sending?)
            && (if a.Deliver? then [s.clients[0].request] else []) + Holding(t.clients[0])
               == Holding(s.clients[0]) + (if a.Take? then [t.clients[0].request] else [])
  {}

  lemma Conveyed(results': seq<nat>, held': seq<nat>, requests': seq<nat>,
                 results: seq<nat>, held: seq<nat>, requests: seq<nat>,
                 delivered: seq<nat>, taken: seq<nat>, issued: seq<nat>)
    requires results' == results + delivered && delivered + held' == held + taken
    requires taken + requests' == requests + issued
    ensures results' + held' + requests' == results + held + requests + issued
  {
    assert results' + held' + requests' == results + (delivered + held') + requests';
    assert results + (held + taken) + requests' == results + held + (taken + requests');
    assert results + held + (requests + issued) == results + held + requests + issued;
  }

  lemma {:induction false} OneClientRun(c: Config, s: State, actions: seq<Action>)
    requires c.parallelism == 1 && Inv(c, s) && Runs(c, s, actions)
    requires s.received + s.resultCh + Holding(s.clients[0]) + s.requestCh == Numbers(s.issued)
    ensures var t := After(c, s, actions);
            |t.clients| == 1
            && t.received + t.resultCh + Holding(t.clients[0]) + t.requestCh == Numbers(t.issued)
    decreases |actions|
  {
    if actions != [] {
      StepKeepsInv(c, s, actions[0]);
      OneClientStep(c, s, actions[0]);
      OneClientRun(c, Apply(s, actions[0]), actions[1..]);
    }
  }

  /** With one client, durations are received in the order in which their requests were issued. */
  lemma {:induction false} OneClientInOrder(c: Config, actions: seq<Action>)
    requires c.parallelism == 1 && Runs(c, Initial(c), actions)
    ensures var s := After(c, Initial(c), actions);
            s.received == Numbers(|s.received|)
  {
    hide Inv, Runs, After, Apply, Enabled;
    InitialInv(c);
    assert Numbers(0) == [];
    OneClientRun(c, Initial(c), actions);
    var s := After(c, Initial(c), actions);
    PrefixOfNumbers(s.received, s.resultCh + Holding(s.clients[0]) + s.requestCh, s.issued);
    assert s.received + s.resultCh + Holding(s.clients[0]) + s.requestCh
        == s.received + (s.resultCh + Holding(s.clients[0]) + s.requestCh);
  }

  lemma PrefixOfNumbers(a: seq<nat>, b: seq<nat>, n: nat)
    ensures a + b == Numbers(n) ==> a == Numbers(|a|)
  {
    if a + b == Numbers(n) {
      assert forall k :: 0 <= k < |a| ==> a[k] == (a + b)[k];
    }
  }

  /** No channel ever holds more than its capacity: one request a client, and a hundred results. A send
      waits exactly when the channel is full. */
  lemma ChannelsBound(c: Config, actions: seq<Action>, i: nat)
    requires Runs(c, Initial(c), actions)
    ensures var s := After(c, Initial(c), actions);
            && |s.requestCh| <= c.parallelism && |s.resultCh| <= 100
            && (s.producer.Issuing? && s.issued < c.total ==>
                  (Enabled(c, s, Issue) <==> |s.requestCh| != c.parallelism))
            && (i < |s.clients| && s.clients[i].Sending? ==> (Enabled(c, s, Deliver(i)) <==> |s.resultCh| != 100))
  {
    InitialInv(c);
    RunKeepsInv(c, Initial(c), actions);
  }

  /** What was measured for the requests, in the order in which they were received. */
  function Durations(received: seq<nat>, measured: nat -> nat): (ds: seq<nat>)
    ensures |ds| == |received|
  {
    seq(|received|, i requires 0 <= i < |received| => measured(received[i]))
  }

  /** The pipeline and the aggregator together: in every schedule the aggregator gets one duration
      a request, so `Run` has results to summarize exactly when the number of requests is not a
      multiple of a million; at every such multiple its division by the number of results fails. */
  lemma ResultsIff(c: Config, actions: seq<Action>, measured: nat -> nat)
    requires Runs(c, Initial(c), actions) && After(c, Initial(c), actions).producer.Returned?
    ensures var durations := Durations(After(c, Initial(c), actions).received, measured);
            && |durations| == c.total
            && (Batches(durations[|durations| - |durations| % 1_000_000..]) != []
                <==> c.total % 1_000_000 != 0)
  {
    hide Batches;
    InitialInv(c);
    RunKeepsInv(c, Initial(c), actions);
    var s := After(c, Initial(c), actions);
    Finished(c, s);
    NumbersSize(c.total);
    assert |multiset(s.received)| == |s.received|;
    var durations := Durations(s.received, measured);
    KeptIff(durations, Batches(durations[|durations| - |durations| % 1_000_000..]));
  }

  /** What a completed run hands to the aggregator lies where the measurements do. */
  lemma DurationsWithin(c: Config, s: State, measured: nat -> nat, lo: nat, hi: nat)
    requires Inv(c, s) && s.producer.Returned?
    requires forall r: nat :: r < c.total ==> lo <= measured(r) <= hi
    ensures Within(Durations(s.received, measured), lo, hi)
  {
    Finished(c, s);
    forall i | 0 <= i < |s.received| ensures s.received[i] < c.total {
      assert s.received[i] in multiset(s.received);
      NumbersOnce(c.total, s.received[i]);
    }
  }

  /** The whole of a run: whatever the schedule, the summary is that of the averages of the latencies in
      batches of those delivered one after another, its latencies are in order, and all of them lie between
      the shortest and the longest latency any client measured. */
  lemma RunSummary(c: Config, actions: seq<Action>, measured: nat -> nat, lo: nat, hi: nat, sorted: seq<nat>)
    requires Runs(c, Initial(c), actions) && After(c, Initial(c), actions).producer.Returned?
    requires c.total % 1_000_000 != 0
    requires forall r: nat :: r < c.total ==> lo <= measured(r) <= hi
    requires Percentiles.Sorted(sorted)
    requires var durations := Durations(Delivered(c, Initial(c), actions), measured);
             multiset(sorted) == multiset(Batches(durations[|durations| - |durations| % 1_000_000..]))
    ensures var durations := Durations(Delivered(c, Initial(c), actions), measured);
            var results := Batches(durations[|durations| - |durations| % 1_000_000..]);
            && sorted != [] && results != []
            && var s := Percentiles.SummaryOf(sorted);
               && Percentiles.IsSummary(results, s)
               && lo <= s.mean <= hi
               && lo <= s.latency50 <= s.latency75 <= s.latency95 <= s.latency99 <= hi
  {
    hide Batches, Runs, After, Delivered, Percentiles.NearestRank, Percentiles.SummaryOf, Sum, Inv;
    FirstInFirstOut(c, actions);
    InitialInv(c);
    RunKeepsInv(c, Initial(c), actions);
    var end := After(c, Initial(c), actions);
    var durations := Durations(end.received, measured);
    var kept := durations[|durations| - |durations| % (BATCH * LIMIT)..];
    ResultsIff(c, actions, measured);
    assert |multiset(sorted)| == |multiset(Batches(kept))|;
    Percentiles.SummaryHolds(sorted);
    Percentiles.SummaryOrderFree(Batches(kept), sorted, Percentiles.SummaryOf(sorted));
    DurationsWithin(c, end, measured, lo, hi);
    BatchesWithin(kept, lo, hi);
    Percentiles.SummaryWithin(Batches(kept), Percentiles.SummaryOf(sorted), lo, hi);
  }

  /** The reported mean of a run of whole batches, too few for a collapse, is less than two units below
      the mean of the latencies measured, and never above it. */
  lemma {:induction false} RunMean(c: Config, actions: seq<Action>, measured: nat -> nat, sorted: seq<nat>)
    requires Runs(c, Initial(c), actions) && After(c, Initial(c), actions).producer.Returned?
    requires 0 < c.total < BATCH * LIMIT && c.total % BATCH == 0
    requires var durations := Durations(After(c, Initial(c), actions).received, measured);
             multiset(sorted) == multiset(Batches(durations[|durations| - |durations| % 1_000_000..]))
    ensures var durations := Durations(After(c, Initial(c), actions).received, measured);
            && sorted != []
            && var mean := Percentiles.SummaryOf(sorted).mean;
               mean * c.total <= Sum(durations) < (mean + 2) * c.total
  {
    hide Batches, Runs, After, Sum;
    AllReceived(c, actions);
    var durations := Durations(After(c, Initial(c), actions).received, measured);
    assert durations[0..] == durations;
    var results := Batches(durations);
    BatchesLength(durations);
    assert |sorted| == |multiset(sorted)| == |multiset(results)| == |results|;
    Percentiles.Reordered(sorted, results, 0);
    MeanClose(durations);
  }

  lemma {:induction false} NoWork(clients: seq<Client>)
    requires AllExited(clients)
    ensures Work(clients) == 0
  {
    if clients != [] {
      NoWork(clients[1..]);
    }
  }
}
