/** Many clusters adding themselves to one ClusterRoleBinding: get, then create or append-and-update,
    and start over on AlreadyExists or Conflict. The API server keeps one optional object; it creates
    only what is absent and updates only what still has the version that was read. */
module RoleBinding {
  import opened Basics
  import opened Counting

  /** A stored binding; resource versions are opaque and never used twice. */
  datatype Binding = Binding(version: int, subjects: seq<nat>)

  /** Where one cluster's call is, how often it has started over, and how many writes there had
      been when it last read the binding. */
  datatype Phase =
    | Start
    | SawNothing
    | SawBinding(snapshot: Binding)
    | Succeeded
    | Failed
  datatype Call = Call(phase: Phase, retries: nat, seen: nat)

  /** `writers` is the history: who wrote, in order; `used` the versions given out. */
  datatype State = State(
    stored: Option<Binding>,
    calls: seq<Call>,
    writers: seq<nat>,
    used: set<int>,
    steps: nat)

  /** A write that fails for another reason may have been applied all the same. */
  datatype Action =
    | Get(cluster: nat)
    | GetFails(cluster: nat)
    | Write(cluster: nat, version: int)
    | WriteFails(cluster: nat, applied: bool, version: int)

  ghost predicate Enabled(s: State, a: Action) {
    && a.cluster < |s.calls|
    && match a
       case Get(i) => s.calls[i].phase.Start?
       case GetFails(i) => s.calls[i].phase.Start?
       case Write(i, v) => Writing(s.calls[i].phase) && v !in s.used
       case WriteFails(i, applied, v) =>
         Writing(s.calls[i].phase) && v !in s.used && (applied ==> Accepted(s, s.calls[i].phase))
  }

  predicate Writing(p: Phase) { p.SawNothing? || p.SawBinding? }

  /** Would the server take the write that follows what was seen? */
  predicate Accepted(s: State, p: Phase) {
    if p.SawNothing? then s.stored.None?
    else p.SawBinding? && s.stored.Some? && s.stored.value.version == p.snapshot.version
  }

  /** The object the call sends: its own subject alone, or appended to what it read. */
  function Sent(p: Phase, i: nat, version: int): Binding
    requires Writing(p)
  {
    Binding(version, if p.SawNothing? then [i] else p.snapshot.subjects + [i])
  }

  ghost function SetCall(s: State, i: nat, c: Call): State
    requires i < |s.calls|
  {
    s.(calls := s.calls[i := c], steps := s.steps + 1)
  }

  ghost function Store(s: State, i: nat, version: int): State
    requires i < |s.calls| && Writing(s.calls[i].phase)
  {
    s.(stored := Some(Sent(s.calls[i].phase, i, version)), writers := s.writers + [i], used := s.used + {version})
  }

  ghost function Apply(s: State, a: Action): State
    requires Enabled(s, a)
  {
    var c := s.calls[a.cluster];
    match a
    case Get(i) =>
      SetCall(s, i, Call(if s.stored.None? then SawNothing else SawBinding(s.stored.value), c.retries, |s.writers|))
    case GetFails(i) => SetCall(s, i, Call(Failed, c.retries, c.seen))
    case Write(i, v) =>
      if Accepted(s, c.phase) then SetCall(Store(s, i, v), i, Call(Succeeded, c.retries, c.seen))
      else SetCall(s, i, Call(Start, c.retries + 1, c.seen))
    case WriteFails(i, applied, v) =>
      SetCall(if applied then Store(s, i, v) else s, i, Call(Failed, c.retries, c.seen))
  }

  /** `n` clusters about to call, and whatever binding an earlier run left behind. */
  ghost function Initial(n: nat, stored: Option<Binding>): State {
    State(stored, seq(n, _ => Call(Start, 0, 0)), [], if stored.Some? then {stored.value.version} else {}, 0)
  }

  // ------------------------------------------------------------------ the invariant

  function Before(stored: Option<Binding>): seq<nat> {
    if stored.Some? then stored.value.subjects else []
  }

  /** What the history says about one call. */
  ghost predicate CallInv(s: State, before: Option<Binding>, i: nat)
    requires i < |s.calls|
  {
    var c := s.calls[i];
    && c.seen <= |s.writers| && c.retries <= |s.writers|
    // Every retry was paid for by one of the writes before its own.
    && (forall p :: 0 <= p < |s.writers| && s.writers[p] == i ==> c.retries <= p)
    && match c.phase
       case Start => i !in s.writers
       case SawNothing =>
         i !in s.writers && c.retries <= c.seen && before.None? && c.seen == 0
       case SawBinding(snapshot) =>
         && i !in s.writers && c.retries <= c.seen && snapshot.version in s.used && s.stored.Some?
         // A snapshot is current exactly when nobody has written since, and then it is the contents.
         && (snapshot.version == s.stored.value.version <==> c.seen == |s.writers|)
         && (snapshot.version == s.stored.value.version ==> snapshot.subjects == s.stored.value.subjects)
       case Succeeded => i in s.writers
       case Failed => true
  }

  /** What the history says about the binding: one subject for each write, behind what was there. */
  ghost predicate StoreInv(n: nat, before: Option<Binding>, s: State) {
    && |s.calls| == n
    && (s.stored.None? <==> before.None? && s.writers == [])
    && (s.stored.Some? ==> s.stored.value.version in s.used)
    && (s.stored.Some? ==> s.stored.value.subjects == Before(before) + s.writers)
    && (forall j :: 0 <= j < |s.writers| ==> s.writers[j] < n)
    && Distinct(s.writers)
  }

  ghost predicate Inv(n: nat, before: Option<Binding>, s: State) {
    StoreInv(n, before, s) && forall i :: 0 <= i < n ==> CallInv(s, before, i)
  }

  lemma InitialInv(n: nat, before: Option<Binding>)
    ensures Inv(n, before, Initial(n, before))
  {
    assert Before(before) + [] == Before(before);
  }

  /** A write by `i` keeps what is known about every other call. */
  lemma StoreKeeps(n: nat, before: Option<Binding>, s: State, i: nat, v: int, j: nat)
    requires Inv(n, before, s) && i < n && j < n && i != j && v !in s.used
    requires Writing(s.calls[i].phase) && Accepted(s, s.calls[i].phase)
    ensures CallInv(Store(s, i, v), before, j)
  {
    assert CallInv(s, before, j) && CallInv(s, before, i);
    assert j in s.writers + [i] <==> j in s.writers;
  }

  /** An accepted write appends its writer to the current contents, whatever the snapshot. */
  lemma StoreAppends(n: nat, before: Option<Binding>, s: State, i: nat, v: int)
    requires Inv(n, before, s) && i < n && v !in s.used
    requires Writing(s.calls[i].phase) && Accepted(s, s.calls[i].phase)
    ensures Store(s, i, v).stored.value.subjects == Before(before) + (s.writers + [i])
    ensures i !in s.writers
  {
    assert CallInv(s, before, i);
    assert Before(before) + s.writers + [i] == Before(before) + (s.writers + [i]);
  }

  /** Does the step write the binding? */
  predicate Stores(s: State, a: Action)
    requires a.cluster < |s.calls|
  {
    (a.Write? && Accepted(s, s.calls[a.cluster].phase)) || (a.WriteFails? && a.applied)
  }

  lemma StepOwnCall(n: nat, before: Option<Binding>, s: State, a: Action)
    requires Inv(n, before, s) && Enabled(s, a)
    ensures CallInv(Apply(s, a), before, a.cluster)
  {
    hide Distinct;
    var i := a.cluster;
    assert CallInv(s, before, i);
    if Stores(s, a) {
      StoreAppends(n, before, s, i, a.version);
      assert Apply(s, a).writers[|s.writers|] == i;
    }
  }

  lemma StepOtherCall(n: nat, before: Option<Binding>, s: State, a: Action, j: nat)
    requires Inv(n, before, s) && Enabled(s, a) && j < n && j != a.cluster
    ensures CallInv(Apply(s, a), before, j)
  {
    hide Distinct;
    assert CallInv(s, before, j);
    if Stores(s, a) {
      StoreKeeps(n, before, s, a.cluster, a.version, j);
    }
  }

  lemma SnocWriters(n: nat, writers: seq<nat>, i: nat)
    requires Distinct(writers) && i !in writers && i < n
    requires forall j :: 0 <= j < |writers| ==> writers[j] < n
    ensures Distinct(writers + [i]) && forall j :: 0 <= j < |writers + [i]| ==> (writers + [i])[j] < n
  {}

  lemma StepStore(n: nat, before: Option<Binding>, s: State, a: Action)
    requires Inv(n, before, s) && Enabled(s, a)
    ensures StoreInv(n, before, Apply(s, a)) && |Apply(s, a).calls| == n
  {
    hide CallInv, Distinct;
    if Stores(s, a) {
      StoreAppends(n, before, s, a.cluster, a.version);
      SnocWriters(n, s.writers, a.cluster);
    }
  }

  lemma StepKeepsInv(n: nat, before: Option<Binding>, s: State, a: Action)
    requires Inv(n, before, s) && Enabled(s, a)
    ensures Inv(n, before, Apply(s, a))
  {
    hide CallInv, StoreInv;
    StepStore(n, before, s, a);
    forall j | 0 <= j < n ensures CallInv(Apply(s, a), before, j) {
      if j == a.cluster {
        StepOwnCall(n, before, s, a);
      } else {
        StepOtherCall(n, before, s, a, j);
      }
    }
  }

  // ------------------------------------------------------------------ whole runs

  ghost predicate Runs(s: State, actions: seq<Action>)
    decreases |actions|
  {
    actions == [] || (Enabled(s, actions[0]) && Runs(Apply(s, actions[0]), actions[1..]))
  }

  ghost function After(s: State, actions: seq<Action>): (t: State)
    requires Runs(s, actions)
    ensures |t.calls| == |s.calls|
    decreases |actions|
  {
    if actions == [] then s else After(Apply(s, actions[0]), actions[1..])
  }

  lemma {:induction false} RunKeepsInv(n: nat, before: Option<Binding>, s: State, actions: seq<Action>)
    requires Inv(n, before, s) && Runs(s, actions)
    ensures Inv(n, before, After(s, actions))
    decreases |actions|
  {
    hide Inv, Enabled, Apply;
    if actions != [] {
      StepKeepsInv(n, before, s, actions[0]);
      RunKeepsInv(n, before, Apply(s, actions[0]), actions[1..]);
    }
  }

  /** No lost update: in every interleaving the binding holds what was there before and then one
      subject for each applied write, in order; every cluster whose call succeeded is among them,
      and none is there twice. */
  lemma {:induction false} NoLostUpdate(n: nat, before: Option<Binding>, actions: seq<Action>)
    requires Runs(Initial(n, before), actions)
    ensures var s := After(Initial(n, before), actions);
            && (s.stored.Some? ==> s.stored.value.subjects == Before(before) + s.writers)
            && (s.stored.None? ==> before.None? && s.writers == [])
            && (forall i :: 0 <= i < n && s.calls[i].phase.Succeeded? ==>
                  s.stored.Some? && i in s.stored.value.subjects)
            && Distinct(s.writers)
  {
    InitialInv(n, before);
    RunKeepsInv(n, before, Initial(n, before), actions);
    var s := After(Initial(n, before), actions);
    forall i | 0 <= i < n && s.calls[i].phase.Succeeded? ensures s.stored.Some? && i in s.stored.value.subjects {
      assert CallInv(s, before, i);
      assert i in Before(before) + s.writers;
    }
  }

  /** Every retry is paid for by another cluster's write, so no call starts over more than n - 1
      times: with i's own write left out, the writes of others bound its retries. */
  lemma {:induction false} RetryBound(n: nat, before: Option<Binding>, actions: seq<Action>, i: nat)
    requires Runs(Initial(n, before), actions) && i < n
    ensures var s := After(Initial(n, before), actions);
            && s.calls[i].retries <= |s.writers| - (if i in s.writers then 1 else 0) <= n - 1
  {
    InitialInv(n, before);
    RunKeepsInv(n, before, Initial(n, before), actions);
    var s := After(Initial(n, before), actions);
    assert CallInv(s, before, i);
    DistinctIn(s.writers, Below(n));
    if i !in s.writers {
      DistinctWithout(s.writers, Below(n), i);
    }
  }

  // ------------------------------------------------------------------ termination

  /** Steps a call has taken since it last started over. */
  function Phased(p: Phase): nat {
    match p
    case Start => 0
    case SawNothing => 1
    case SawBinding(_) => 1
    case Succeeded => 2
    case Failed => 2
  }

  function Taken(calls: seq<Call>): nat {
    if calls == [] then 0 else 2 * calls[0].retries + Phased(calls[0].phase) + Taken(calls[1..])
  }

  lemma {:induction false} TakenUpdate(calls: seq<Call>, i: nat, c: Call)
    requires i < |calls|
    ensures Taken(calls[i := c]) + 2 * calls[i].retries + Phased(calls[i].phase)
         == Taken(calls) + 2 * c.retries + Phased(c.phase)
  {
    if i == 0 {
      assert calls[0 := c][1..] == calls[1..];
    } else {
      assert calls[i := c][1..] == calls[1..][i - 1 := c];
      TakenUpdate(calls[1..], i - 1, c);
    }
  }

  /** Where `i` is among the writers; behind all of them if it is not. */
  function Place(writers: seq<nat>, i: nat): (p: nat)
    ensures p <= |writers|
    ensures p < |writers| ==> writers[p] == i
    ensures i in writers ==> p < |writers|
  {
    if writers == [] || writers[0] == i then 0 else 1 + Place(writers[1..], i)
  }

  /** The places of the calls from `i` to `n`, added up. */
  function Places(writers: seq<nat>, i: nat, n: nat): nat
    requires i <= n
    decreases n - i
  {
    if i == n then 0 else Place(writers, i) + Places(writers, i + 1, n)
  }

  function Absent(writers: seq<nat>, i: nat, n: nat): nat
    requires i <= n
    decreases n - i
  {
    if i == n then 0 else (if i in writers then 0 else 1) + Absent(writers, i + 1, n)
  }

  /** As calls have retried no more often than their places allow, their steps are bounded. */
  lemma {:induction false} TakenBound(calls: seq<Call>, writers: seq<nat>, i: nat)
    requires i <= |calls| && forall k :: 0 <= k < |calls| ==> calls[k].retries <= Place(writers, k)
    ensures Taken(calls[i..]) <= 2 * Places(writers, i, |calls|) + 2 * (|calls| - i)
    decreases |calls| - i
  {
    if i < |calls| {
      TakenBound(calls, writers, i + 1);
      assert calls[i..][1..] == calls[i + 1..];
    }
  }

  lemma {:induction false} PlaceAppend(writers: seq<nat>, x: nat, i: nat)
    requires x !in writers
    ensures Place(writers + [x], i) == Place(writers, i) + if i in writers + [x] then 0 else 1
  {
    if writers == [] {
      assert writers + [x] == [x];
      assert [x][1..] == [];
    } else if writers[0] != i {
      assert (writers + [x])[1..] == writers[1..] + [x];
      PlaceAppend(writers[1..], x, i);
      assert i in writers + [x] <==> i in writers[1..] + [x];
    }
  }

  lemma {:induction false} PlacesAppend(writers: seq<nat>, x: nat, i: nat, n: nat)
    requires x !in writers && i <= n
    ensures Places(writers + [x], i, n) == Places(writers, i, n) + Absent(writers + [x], i, n)
    ensures Absent(writers + [x], i, n) == Absent(writers, i, n) - if i <= x < n then 1 else 0
    decreases n - i
  {
    if i < n {
      PlaceAppend(writers, x, i);
      PlacesAppend(writers, x, i + 1, n);
    }
  }

  lemma {:induction false} PlacesOfNone(i: nat, n: nat)
    requires i <= n
    ensures Places([], i, n) == 0 && Absent([], i, n) == n - i
    decreases n - i
  {
    if i < n {
      PlacesOfNone(i + 1, n);
    }
  }

  lemma {:induction false} PlacesSum(writers: seq<nat>, n: nat)
    requires Distinct(writers) && forall j :: 0 <= j < |writers| ==> writers[j] < n
    ensures Absent(writers, 0, n) == n - |writers|
    ensures 2 * Places(writers, 0, n) == |writers| * (2 * n - |writers| - 1)
    decreases |writers|
  {
    hide Places, Absent, Distinct;
    if writers == [] {
      PlacesOfNone(0, n);
    } else {
      SnocDistinct(writers);
      var w := |writers| - 1;
      PlacesSum(writers[..w], n);
      PlacesAppend(writers[..w], writers[w], 0, n);
      assert writers == writers[..w] + [writers[w]];
      OneMorePlace(w, n);
    }
  }

  lemma OneMorePlace(w: int, n: int)
    ensures (w + 1) * (2 * n - (w + 1) - 1) == w * (2 * n - w - 1) + 2 * (n - w - 1)
  {}

  lemma SnocDistinct(s: seq<nat>)
    requires Distinct(s) && s != []
    ensures Distinct(s[..|s| - 1]) && s[|s| - 1] !in s[..|s| - 1]
  {}

  lemma {:induction false} StepsTaken(n: nat, before: Option<Binding>, s: State, actions: seq<Action>)
    requires Runs(s, actions) && |s.calls| == n
    ensures |actions| <= Taken(After(s, actions).calls) - Taken(s.calls)
    decreases |actions|
  {
    hide Taken;
    if actions != [] {
      var a := actions[0];
      var t := Apply(s, a);
      TakenUpdate(s.calls, a.cluster, t.calls[a.cluster]);
      assert t.calls == s.calls[a.cluster := t.calls[a.cluster]];
      StepsTaken(n, before, t, actions[1..]);
    }
  }

  lemma {:induction false} NothingTaken(n: nat)
    ensures Taken(seq(n, _ => Call(Start, 0, 0))) == 0
  {
    if n > 0 {
      assert seq(n, _ => Call(Start, 0, 0))[1..] == seq(n - 1, _ => Call(Start, 0, 0));
      NothingTaken(n - 1);
    }
  }

  /** The recursive retry terminates: all n calls together take at most n (n + 1) steps. */
  lemma {:induction false} CallsTerminate(n: nat, before: Option<Binding>, actions: seq<Action>)
    requires Runs(Initial(n, before), actions)
    ensures |actions| <= n * (n + 1)
  {
    hide Runs, After, Taken, Places, Absent, Place;
    var s := After(Initial(n, before), actions);
    NothingTaken(n);
    StepsTaken(n, before, Initial(n, before), actions);
    InitialInv(n, before);
    RunKeepsInv(n, before, Initial(n, before), actions);
    RetriesPlaced(n, before, s);
    TakenBound(s.calls, s.writers, 0);
    assert s.calls[0..] == s.calls;
    PlacesSum(s.writers, n);
    DistinctIn(s.writers, Below(n));
    Squares(n, |s.writers|);
  }

  lemma RetriesPlaced(n: nat, before: Option<Binding>, s: State)
    requires Inv(n, before, s)
    ensures forall k :: 0 <= k < n ==> s.calls[k].retries <= Place(s.writers, k)
  {
    forall k | 0 <= k < n ensures s.calls[k].retries <= Place(s.writers, k) {
      assert CallInv(s, before, k);
    }
  }

  lemma Squares(n: nat, w: nat)
    requires w <= n
    ensures w * (2 * n - w - 1) + 2 * n <= n * (n + 1)
  {
    var left := n - w;
    assert n * (n + 1) - 2 * n - w * (2 * n - w - 1) == left * (left - 1);
    if left >= 1 {
      assert left * (left - 1) >= 0;
    }
  }

  /** What a write does: accepted, it stores the binding with one more subject and the call succeeds;
      otherwise it changes nothing and the call starts over. */
  lemma WriteDecides(n: nat, before: Option<Binding>, s: State, i: nat, v: int)
    requires Inv(n, before, s) && Enabled(s, Write(i, v))
    ensures var t := Apply(s, Write(i, v));
            if Accepted(s, s.calls[i].phase) then
              && t.calls[i].phase.Succeeded?
              && t.stored == Some(Binding(v, (if s.stored.Some? then s.stored.value.subjects else []) + [i]))
            else
              t.calls[i].phase.Start? && t.stored == s.stored && t.writers == s.writers
  {
    assert CallInv(s, before, i);
    assert [] + [i] == [i];
  }

  /** Nothing but reads and writes that the server answers. */
  predicate Answered(actions: seq<Action>) {
    forall k :: 0 <= k < |actions| ==> actions[k].Get? || actions[k].Write?
  }

  lemma {:induction false} NoneFails(s: State, actions: seq<Action>)
    requires Runs(s, actions) && Answered(actions)
    requires forall i :: 0 <= i < |s.calls| ==> !s.calls[i].phase.Failed?
    ensures forall i :: 0 <= i < |s.calls| ==> !After(s, actions).calls[i].phase.Failed?
    decreases |actions|
  {
    if actions != [] {
      NoneFails(Apply(s, actions[0]), actions[1..]);
    }
  }

  /** Everybody gets in: as long as the server answers, a run that cannot go on has entered every cluster
      exactly once, behind what was there. */
  lemma {:induction false} EverybodyEnters(n: nat, before: Option<Binding>, actions: seq<Action>)
    requires n > 0 && Runs(Initial(n, before), actions) && Answered(actions)
    requires forall a :: !Enabled(After(Initial(n, before), actions), a)
    ensures var s := After(Initial(n, before), actions);
            && (forall i :: 0 <= i < n ==> s.calls[i].phase.Succeeded?)
            && s.stored.Some? && s.stored.value.subjects == Before(before) + s.writers
            && Distinct(s.writers) && forall i: nat :: i in s.writers <==> i < n
  {
    hide Runs, After, Enabled;
    InitialInv(n, before);
    RunKeepsInv(n, before, Initial(n, before), actions);
    NoneFails(Initial(n, before), actions);
    var s := After(Initial(n, before), actions);
    StuckIffFinished(s);
    forall i | 0 <= i < n ensures s.calls[i].phase.Succeeded? && i in s.writers {
      assert CallInv(s, before, i);
    }
    assert 0 in s.writers;
  }

  // ------------------------------------------------------------------ the bound is attained

  /** Versions that were read or stored have been given out. */
  ghost predicate VersionsUsed(s: State) {
    && (s.stored.Some? ==> s.stored.value.version in s.used)
    && forall i :: 0 <= i < |s.calls| && s.calls[i].phase.SawBinding? ==> s.calls[i].phase.snapshot.version in s.used
  }

  /** The first `j` calls have succeeded; those up to `k` have read what is stored now; the rest are
      about to read. */
  ghost predicate Reading(s: State, n: nat, j: nat, k: nat) {
    && |s.calls| == n && j <= k <= n && VersionsUsed(s)
    && (forall i :: 0 <= i < j ==> s.calls[i].phase.Succeeded?)
    && (forall i :: j <= i < k ==> Writing(s.calls[i].phase) && Accepted(s, s.calls[i].phase))
    && (forall i :: k <= i < n ==> s.calls[i].phase.Start?)
  }

  /** The first `j` calls have succeeded; those up to `k` are to start over; the rest hold a snapshot
      that is no longer current. */
  ghost predicate Rejecting(s: State, n: nat, j: nat, k: nat) {
    && |s.calls| == n && j <= k <= n && VersionsUsed(s)
    && (forall i :: 0 <= i < j ==> s.calls[i].phase.Succeeded?)
    && (forall i :: j <= i < k ==> s.calls[i].phase.Start?)
    && (forall i :: k <= i < n ==> Writing(s.calls[i].phase) && !Accepted(s, s.calls[i].phase))
  }

  lemma {:induction false} RunsJoin(s: State, a: seq<Action>, b: seq<Action>)
    requires Runs(s, a) && Runs(After(s, a), b)
    ensures Runs(s, a + b) && After(s, a + b) == After(After(s, a), b)
    decreases |a|
  {
    hide Enabled, Apply;
    if a == [] {
      assert a + b == b;
    } else {
      assert (a + b)[0] == a[0] && (a + b)[1..] == a[1..] + b;
      RunsJoin(Apply(s, a[0]), a[1..], b);
    }
  }

  lemma RunsOne(s: State, a: Action)
    requires Enabled(s, a)
    ensures Runs(s, [a]) && After(s, [a]) == Apply(s, a)
  {
    hide Enabled, Apply;
    assert [a][1..] == [];
  }

  lemma {:induction false} AllRead(s: State, n: nat, j: nat, k: nat) returns (actions: seq<Action>)
    requires Reading(s, n, j, k)
    ensures Runs(s, actions) && Reading(After(s, actions), n, j, n) && |actions| == n - k
    decreases n - k
  {
    actions := [];
    if k < n {
      ReadOne(s, n, j, k);
      var t := Apply(s, Get(k));
      hide Reading, Enabled, Apply, Runs, After;
      RunsOne(s, Get(k));
      var rest := AllRead(t, n, j, k + 1);
      RunsJoin(s, [Get(k)], rest);
      actions := [Get(k)] + rest;
    }
  }

  lemma ReadOne(s: State, n: nat, j: nat, k: nat)
    requires Reading(s, n, j, k) && k < n
    ensures Enabled(s, Get(k)) && Reading(Apply(s, Get(k)), n, j, k + 1)
  {}

  lemma {:induction false} AllRejected(s: State, n: nat, j: nat, k: nat) returns (actions: seq<Action>)
    requires Rejecting(s, n, j, k)
    ensures Runs(s, actions) && Rejecting(After(s, actions), n, j, n) && |actions| == n - k
    decreases n - k
  {
    actions := [];
    if k < n {
      var v := Fresh(s.used);
      RejectOne(s, n, j, k, v);
      var t := Apply(s, Write(k, v));
      hide Rejecting, Enabled, Apply, Runs, After;
      RunsOne(s, Write(k, v));
      var rest := AllRejected(t, n, j, k + 1);
      RunsJoin(s, [Write(k, v)], rest);
      actions := [Write(k, v)] + rest;
    }
  }

  lemma RejectOne(s: State, n: nat, j: nat, k: nat, v: int)
    requires Rejecting(s, n, j, k) && k < n && v !in s.used
    ensures Enabled(s, Write(k, v)) && Rejecting(Apply(s, Write(k, v)), n, j, k + 1)
  {}

  /** One write outdates every other snapshot. */
  lemma WriteOne(s: State, n: nat, j: nat, v: int)
    requires Reading(s, n, j, n) && j < n && v !in s.used
    ensures Enabled(s, Write(j, v)) && Rejecting(Apply(s, Write(j, v)), n, j + 1, j + 1)
  {}

  /** From a state where the calls from `j` on are about to read: all read, one writes, the others are
      turned away, and so on. */
  lemma {:induction false} Contend(s: State, n: nat, j: nat) returns (actions: seq<Action>)
    requires Reading(s, n, j, j)
    ensures Runs(s, actions) && |actions| == (n - j) * (n - j + 1)
    decreases n - j
  {
    hide Enabled, Apply, Runs, After;
    if j == n {
      actions := [];
      NoRun(s);
    } else {
      var gets := AllRead(s, n, j, j);
      var t := After(s, gets);
      var v := Fresh(t.used);
      WriteOne(t, n, j, v);
      RunsOne(t, Write(j, v));
      var u := Apply(t, Write(j, v));
      var rejects := AllRejected(u, n, j + 1, j + 1);
      var rest := Contend(After(u, rejects), n, j + 1);
      RunsJoin(u, rejects, rest);
      RunsJoin(t, [Write(j, v)], rejects + rest);
      RunsJoin(s, gets, [Write(j, v)] + (rejects + rest));
      actions := gets + ([Write(j, v)] + (rejects + rest));
      assert (n - j) * (n - j + 1) == (n - j - 1) * (n - j) + 2 * (n - j);
    }
  }

  lemma NoRun(s: State)
    ensures Runs(s, [])
  {}

  /** No better bound holds: some interleaving of n calls takes n (n + 1) steps. */
  lemma {:induction false} BoundAttained(n: nat, before: Option<Binding>) returns (actions: seq<Action>)
    ensures Runs(Initial(n, before), actions) && |actions| == n * (n + 1)
  {
    actions := Contend(Initial(n, before), n, 0);
  }

  /** No call ever waits for another: a run that cannot go on has finished every call. */
  lemma {:induction false} StuckIffFinished(s: State)
    ensures (forall a :: !Enabled(s, a)) <==>
            (forall i :: 0 <= i < |s.calls| ==> s.calls[i].phase.Succeeded? || s.calls[i].phase.Failed?)
  {
    if i :| 0 <= i < |s.calls| && !(s.calls[i].phase.Succeeded? || s.calls[i].phase.Failed?) {
      EnabledUnfinished(s, i);
    }
  }

  lemma EnabledUnfinished(s: State, i: nat)
    requires i < |s.calls| && !(s.calls[i].phase.Succeeded? || s.calls[i].phase.Failed?)
    ensures exists a :: Enabled(s, a)
  {
    if s.calls[i].phase.Start? {
      assert Enabled(s, Get(i));
    } else {
      var v := Fresh(s.used);
      assert Enabled(s, Write(i, v));
    }
  }

  /** There is always a version not yet given out. */
  lemma {:induction false} Fresh(used: set<int>) returns (v: int)
    ensures forall u :: u in used ==> u < v
    decreases |used|
  {
    if u :| u in used {
      var w := Fresh(used - {u});
      v := if u < w then w else u + 1;
      forall x | x in used ensures x < v {
        assert x == u || x in used - {u};
      }
    } else {
      v := 0;
    }
  }
}
