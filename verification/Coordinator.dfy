/** The coordinator: it splits the requests of a benchmark over the workers, and merges what they
    report. */
module Coordinator {
  import opened Basics
  import opened Aggregator
  import opened Percentiles
  import opened Counting
  import FanIn
  import Pipeline

  /** What one worker reports. */
  datatype Response = Response(requests: nat, duration: nat, latency: Summary)

  /** The merged report; requests are added as uint32. */
  datatype Merged = Merged(requests: nat, duration: nat, latency: Summary)

  predicate Ordered(s: Summary) {
    s.latency50 <= s.latency75 <= s.latency95 <= s.latency99
  }

  /** The sum of one column of the reports. */
  function Column(rs: seq<Response>, f: Response -> nat): seq<nat> {
    seq(|rs|, i requires 0 <= i < |rs| => f(rs[i]))
  }

  lemma ColumnSum(rs: seq<Response>, f: Response -> nat, i: nat)
    requires i < |rs|
    ensures Sum(Column(rs[..i + 1], f)) == Sum(Column(rs[..i], f)) + f(rs[i])
  {
    assert Column(rs[..i + 1], f) == Column(rs[..i], f) + [f(rs[i])];
    SumAppend(Column(rs[..i], f), f(rs[i]));
  }

  const REQUESTS: Response -> nat := (r: Response) => r.requests
  const MEAN: Response -> nat := (r: Response) => r.latency.mean
  const L50: Response -> nat := (r: Response) => r.latency.latency50
  const L75: Response -> nat := (r: Response) => r.latency.latency75
  const L95: Response -> nat := (r: Response) => r.latency.latency95
  const L99: Response -> nat := (r: Response) => r.latency.latency99

  lemma {:induction false} SumLe(a: seq<nat>, b: seq<nat>)
    requires |a| == |b| && forall i :: 0 <= i < |a| ==> a[i] <= b[i]
    ensures Sum(a) <= Sum(b)
  {
    if a != [] {
      SumLe(a[1..], b[1..]);
    }
  }

  lemma DivLe(a: nat, b: nat, n: nat)
    requires a <= b && n > 0
    ensures a / n <= b / n
  {
    MulLe(b / n + 1, a / n, n);
  }

  ghost predicate AllOrdered(rs: seq<Response>) {
    forall i :: 0 <= i < |rs| ==> Ordered(rs[i].latency)
  }

  /** Averaging over the workers keeps the percentiles in order. */
  lemma ColumnsOrdered(rs: seq<Response>)
    requires rs != []
    ensures AllOrdered(rs) ==>
              Sum(Column(rs, L50)) / |rs| <= Sum(Column(rs, L75)) / |rs|
              <= Sum(Column(rs, L95)) / |rs| <= Sum(Column(rs, L99)) / |rs|
  {
    if AllOrdered(rs) {
      SumLe(Column(rs, L50), Column(rs, L75));
      SumLe(Column(rs, L75), Column(rs, L95));
      SumLe(Column(rs, L95), Column(rs, L99));
      DivLe(Sum(Column(rs, L50)), Sum(Column(rs, L75)), |rs|);
      DivLe(Sum(Column(rs, L75)), Sum(Column(rs, L95)), |rs|);
      DivLe(Sum(Column(rs, L95)), Sum(Column(rs, L99)), |rs|);
    }
  }

  /** What the merge of some reports says: sums of requests modulo 2^32, the longest duration, and
      truncated averages. */
  ghost predicate IsMerged(rs: seq<Response>, m: Merged)
    requires rs != []
  {
    && m.requests == Sum(Column(rs, REQUESTS)) % TWO_TO_32
    && (forall i :: 0 <= i < |rs| ==> rs[i].duration <= m.duration)
    && (m.duration == 0 || exists i :: 0 <= i < |rs| && rs[i].duration == m.duration)
    && m.latency.mean == Sum(Column(rs, MEAN)) / |rs|
    && m.latency.latency50 == Sum(Column(rs, L50)) / |rs|
    && m.latency.latency75 == Sum(Column(rs, L75)) / |rs|
    && m.latency.latency95 == Sum(Column(rs, L95)) / |rs|
    && m.latency.latency99 == Sum(Column(rs, L99)) / |rs|
  }

  /** The coordinator's loop over the reports of its workers, one report from each. */
  method Merge(rs: seq<Response>) returns (m: Merged)
    requires rs != []
    ensures IsMerged(rs, m)
    ensures AllOrdered(rs) ==> Ordered(m.latency)
  {
    hide Sum, Column, AllOrdered, Totals;
    var duration: nat, requests: nat := 0, 0;
    var mean: nat, sum50: nat, sum75: nat, sum95: nat, sum99: nat := 0, 0, 0, 0, 0;
    NoTotals(rs);
    for i := 0 to |rs|
      invariant requests < TWO_TO_32 && Totals(rs, i, requests, Summary(mean, sum50, sum75, sum95, sum99))
      invariant forall j :: 0 <= j < i ==> rs[j].duration <= duration
      invariant duration == 0 || exists j :: 0 <= j < i && rs[j].duration == duration
    {
      OneMoreTotal(rs, i, requests, Summary(mean, sum50, sum75, sum95, sum99));
      requests := (requests + rs[i].requests) % TWO_TO_32;
      duration := if rs[i].duration > duration then rs[i].duration else duration;
      mean := mean + rs[i].latency.mean;
      sum50 := sum50 + rs[i].latency.latency50;
      sum75 := sum75 + rs[i].latency.latency75;
      sum95 := sum95 + rs[i].latency.latency95;
      sum99 := sum99 + rs[i].latency.latency99;
    }
    AllTotals(rs, requests, Summary(mean, sum50, sum75, sum95, sum99));
    ColumnsOrdered(rs);
    var n := |rs|;
    m := Merged(requests, duration, Summary(mean / n, sum50 / n, sum75 / n, sum95 / n, sum99 / n));
  }

  /** The sums over the first `i` reports. */
  ghost predicate Totals(rs: seq<Response>, i: nat, requests: nat, sums: Summary)
    requires i <= |rs|
  {
    && requests == Sum(Column(rs[..i], REQUESTS)) % TWO_TO_32
    && sums.mean == Sum(Column(rs[..i], MEAN))
    && sums.latency50 == Sum(Column(rs[..i], L50)) && sums.latency75 == Sum(Column(rs[..i], L75))
    && sums.latency95 == Sum(Column(rs[..i], L95)) && sums.latency99 == Sum(Column(rs[..i], L99))
  }

  lemma NoTotals(rs: seq<Response>)
    ensures Totals(rs, 0, 0, Summary(0, 0, 0, 0, 0))
  {
    assert rs[..0] == [];
    NoColumn();
  }

  lemma OneMoreTotal(rs: seq<Response>, i: nat, requests: nat, sums: Summary)
    requires i < |rs| && Totals(rs, i, requests, sums)
    ensures var r := rs[i];
            Totals(rs, i + 1, (requests + r.requests) % TWO_TO_32,
                   Summary(sums.mean + r.latency.mean,
                           sums.latency50 + r.latency.latency50, sums.latency75 + r.latency.latency75,
                           sums.latency95 + r.latency.latency95, sums.latency99 + r.latency.latency99))
  {
    hide Sum, Column;
    ColumnSum(rs, REQUESTS, i);
    ColumnSum(rs, MEAN, i);
    ColumnSum(rs, L50, i);
    ColumnSum(rs, L75, i);
    ColumnSum(rs, L95, i);
    ColumnSum(rs, L99, i);
  }

  lemma AllTotals(rs: seq<Response>, requests: nat, sums: Summary)
    requires Totals(rs, |rs|, requests, sums)
    ensures requests == Sum(Column(rs, REQUESTS)) % TWO_TO_32
    ensures sums.mean == Sum(Column(rs, MEAN))
    ensures sums.latency50 == Sum(Column(rs, L50)) && sums.latency75 == Sum(Column(rs, L75))
    ensures sums.latency95 == Sum(Column(rs, L95)) && sums.latency99 == Sum(Column(rs, L99))
  {
    hide Sum, Column;
    assert rs[..|rs|] == rs;
  }

  lemma NoColumn()
    ensures forall f: Response -> nat :: Sum(Column([], f)) == 0
  {}

  // ------------------------------------------------------------------ the order of the reports

  /** Reports have one merge. */
  lemma MergedUnique(rs: seq<Response>, m: Merged, n: Merged)
    requires rs != [] && IsMerged(rs, m) && IsMerged(rs, n)
    ensures m == n
  {
    hide Sum, Column;
  }

  /** The merge of one report is that report. */
  lemma MergedOne(r: Response, m: Merged)
    requires IsMerged([r], m)
    ensures m == Merged(r.requests % TWO_TO_32, r.duration, r.latency)
  {
    OneColumn(r, REQUESTS);
    OneColumn(r, MEAN);
    OneColumn(r, L50);
    OneColumn(r, L75);
    OneColumn(r, L95);
    OneColumn(r, L99);
  }

  lemma OneColumn(r: Response, f: Response -> nat)
    ensures Sum(Column([r], f)) == f(r)
  {
    assert Column([r], f) == [f(r)];
    assert [f(r)][1..] == [];
  }

  /** One more report adds its requests, is averaged in, and can only lengthen the duration. */
  lemma MergedTwo(a: Response, b: Response, m: Merged)
    requires IsMerged([a, b], m)
    ensures m.requests == (a.requests + b.requests) % TWO_TO_32
    ensures m.duration == if a.duration < b.duration then b.duration else a.duration
    ensures m.latency == Summary((a.latency.mean + b.latency.mean) / 2,
                                 (a.latency.latency50 + b.latency.latency50) / 2,
                                 (a.latency.latency75 + b.latency.latency75) / 2,
                                 (a.latency.latency95 + b.latency.latency95) / 2,
                                 (a.latency.latency99 + b.latency.latency99) / 2)
  {
    hide Sum, Column;
    TwoColumns(a, b, REQUESTS);
    TwoColumns(a, b, MEAN);
    TwoColumns(a, b, L50);
    TwoColumns(a, b, L75);
    TwoColumns(a, b, L95);
    TwoColumns(a, b, L99);
    assert [a, b][0] == a && [a, b][1] == b;
  }

  lemma TwoColumns(a: Response, b: Response, f: Response -> nat)
    ensures Sum(Column([a, b], f)) == f(a) + f(b)
  {
    assert Column([a, b], f) == [f(a)] + [f(b)];
    assert [f(a)][1..] == [] && [f(b)][1..] == [];
    SumSplit([f(a)], [f(b)]);
  }

  lemma ColumnDrop(rs: seq<Response>, f: Response -> nat, p: nat)
    requires p < |rs|
    ensures Sum(Column(rs, f)) == f(rs[p]) + Sum(Column(Drop(rs, p), f))
  {
    RemoveAt(Column(rs, f), p, 0);
    assert Drop(Column(rs, f), p) == Column(Drop(rs, p), f);
  }

  lemma {:induction false} ColumnReordered(a: seq<Response>, b: seq<Response>, f: Response -> nat)
    requires multiset(a) == multiset(b)
    ensures Sum(Column(a, f)) == Sum(Column(b, f))
    decreases |a|
  {
    hide Sum, Column, Drop;
    if a == [] {
      Emptied(b);
    } else {
      var p := Found(a, b);
      DropMultiset(a, 0);
      DropMultiset(b, p);
      ColumnDrop(a, f, 0);
      ColumnDrop(b, f, p);
      ColumnReordered(Drop(a, 0), Drop(b, p), f);
    }
  }

  /** The merge does not depend on the order of the reports. */
  lemma MergedReordered(a: seq<Response>, b: seq<Response>, m: Merged)
    requires a != [] && b != [] && multiset(a) == multiset(b) && IsMerged(a, m)
    ensures IsMerged(b, m)
  {
    hide Sum, Column;
    assert |a| == |multiset(a)| == |b|;
    forall i | 0 <= i < |b| ensures b[i].duration <= m.duration {
      assert b[i] in multiset(a);
    }
    if i :| 0 <= i < |a| && a[i].duration == m.duration {
      assert a[i] in multiset(b);
    }
    ColumnReordered(a, b, REQUESTS);
    ColumnReordered(a, b, MEAN);
    ColumnReordered(a, b, L50);
    ColumnReordered(a, b, L75);
    ColumnReordered(a, b, L95);
    ColumnReordered(a, b, L99);
  }

  /** The reports in the order in which their workers' answers came. */
  function Arrived(reports: seq<Response>, order: seq<nat>): (rs: seq<Response>)
    requires forall i :: i in order ==> i < |reports|
    ensures |rs| == |order|
  {
    seq(|order|, k requires 0 <= k < |order| => assert order[k] in order; reports[order[k]])
  }

  lemma {:induction false} ArrivedAll(reports: seq<Response>, order: seq<nat>)
    requires Distinct(order) && forall i: nat :: i in order <==> i < |reports|
    ensures multiset(Arrived(reports, order)) == multiset(reports)
    decreases |reports|
  {
    hide Distinct, Arrived, Drop;
    if reports == [] {
      HeadIn(order);
      assert Arrived(reports, order) == [];
    } else {
      var last: nat := |reports| - 1;
      var p := Position(order, last);
      DropLast(order, p, last);
      ArrivedAll(reports[..last], Drop(order, p));
      ArrivedDrop(reports, order, p, last);
      DropMultiset(Arrived(reports, order), p);
      DropMultiset(reports, last);
      assert Drop(reports, last) == reports[..last] by { DropAtEnd(reports); }
    }
  }

  lemma Position(order: seq<nat>, x: nat) returns (p: nat)
    requires x in order
    ensures p < |order| && order[p] == x
  {
    p :| 0 <= p < |order| && order[p] == x;
  }

  lemma DropAtEnd(reports: seq<Response>)
    requires reports != []
    ensures Drop(reports, |reports| - 1) == reports[..|reports| - 1]
  {}

  lemma ArrivedDrop(reports: seq<Response>, order: seq<nat>, p: nat, last: nat)
    requires last + 1 == |reports| && p < |order| && order[p] == last
    requires forall i: nat :: i in order <==> i < |reports|
    requires forall i: nat :: i in Drop(order, p) <==> i < last
    ensures Arrived(reports, order)[p] == reports[last]
    ensures Drop(Arrived(reports, order), p) == Arrived(reports[..last], Drop(order, p))
  {
    var rest := Drop(order, p);
    assert forall k :: 0 <= k < |rest| ==> rest[k] in rest;
  }

  lemma DropLast(order: seq<nat>, p: nat, last: nat)
    requires Distinct(order) && p < |order| && order[p] == last
    requires forall i: nat :: i in order <==> i <= last
    ensures Distinct(Drop(order, p)) && forall i: nat :: i in Drop(order, p) <==> i < last
  {
    var rest := Drop(order, p);
    assert forall k :: 0 <= k < |rest| ==> rest[k] == if k < p then order[k] else order[k + 1];
    forall i: nat ensures i in rest <==> i < last {
      if i in rest {
        var k :| 0 <= k < |rest| && rest[k] == i;
        assert (if k < p then order[k] else order[k + 1]) in order;
      }
      if i < last {
        var k := Position(order, i);
        assert rest[if k < p then k else k - 1] == i;
      }
    }
  }

  /** The whole call has succeeded, and `m` is the merge of the reports in the order they came. */
  ghost predicate Succeeded(setups: seq<FanIn.Ending>, ends: seq<FanIn.Ending>, dialFails: bool,
                            first: seq<FanIn.Action>, second: seq<FanIn.Action>,
                            reports: seq<Response>, m: Merged)
  {
    && FanIn.BenchmarkRuns(setups, ends, dialFails, first, second)
    && var outcome := FanIn.BenchmarkOutcome(setups, ends, dialFails, first, second);
       && outcome.Some? && outcome.value.Success?
       && var order := outcome.value.results;
          order != [] && (forall i :: i in order ==> i < |reports|) && IsMerged(Arrived(reports, order), m)
  }

  lemma {:induction false} SucceededMerges(setups: seq<FanIn.Ending>, ends: seq<FanIn.Ending>, dialFails: bool,
                                           first: seq<FanIn.Action>, second: seq<FanIn.Action>,
                                           reports: seq<Response>, m: Merged)
    requires |reports| == |ends| == |setups| > 0
    requires Succeeded(setups, ends, dialFails, first, second, reports, m)
    ensures IsMerged(reports, m) && FanIn.AllSucceed(setups) && FanIn.AllSucceed(ends)
  {
    hide FanIn.BenchmarkRuns, FanIn.BenchmarkOutcome, IsMerged, Arrived;
    FanIn.BenchmarkReturnsIff(setups, ends, dialFails, first, second);
    var order := FanIn.BenchmarkOutcome(setups, ends, dialFails, first, second).value.results;
    ArrivedAll(reports, order);
    MergedReordered(Arrived(reports, order), reports, m);
  }

  /** Set-up, join and merge together: whatever the schedule in which the workers answer, a call that
      succeeds merges one report from each, and all such calls merge to the same report. */
  lemma {:induction false} MergedInEverySchedule(
      reports: seq<Response>, setups: seq<FanIn.Ending>, ends: seq<FanIn.Ending>, dialFails: bool,
      first1: seq<FanIn.Action>, second1: seq<FanIn.Action>, m1: Merged,
      first2: seq<FanIn.Action>, second2: seq<FanIn.Action>, m2: Merged)
    requires |reports| == |ends| == |setups| > 0
    requires Succeeded(setups, ends, dialFails, first1, second1, reports, m1)
    requires Succeeded(setups, ends, dialFails, first2, second2, reports, m2)
    ensures m1 == m2 && IsMerged(reports, m1)
  {
    hide Succeeded, IsMerged;
    SucceededMerges(setups, ends, dialFails, first1, second1, reports, m1);
    SucceededMerges(setups, ends, dialFails, first2, second2, reports, m2);
    MergedUnique(reports, m1, m2);
  }

  // ------------------------------------------------------------------ the split

  /** Go division, which truncates towards zero. */
  function TruncatedDiv(x: int, y: int): int
    requires y > 0
  {
    if x >= 0 then x / y else -(-x / y)
  }

  /** The number of requests sent to each of `workers` workers, as uint32. */
  function Share(requests: int, workers: nat): nat
    requires workers > 0
  {
    TruncatedDiv(requests, workers) % TWO_TO_32
  }

  /** The guard of the producer's loop after `k` rounds, `elapsed(k)` after the start. */
  predicate Guard(limit: nat, duration: Option<int>, elapsed: nat -> int, k: nat) {
    (limit == 0 || k < limit) && (duration.None? || elapsed(k) < duration.value)
  }

  /** The loop makes that many rounds; None: its guard holds after any number of rounds. */
  ghost predicate Makes(limit: nat, duration: Option<int>, elapsed: nat -> int, rounds: Option<nat>) {
    match rounds
    case None => forall k: nat :: Guard(limit, duration, elapsed, k)
    case Some(r) =>
      && !Guard(limit, duration, elapsed, r)
      && forall k: nat :: k < r ==> Guard(limit, duration, elapsed, k)
  }

  ghost function Rounds(limit: nat, duration: Option<int>, elapsed: nat -> int): (rounds: Option<nat>)
    ensures Makes(limit, duration, elapsed, rounds)
  {
    if k: nat :| !Guard(limit, duration, elapsed, k) then Some(FirstEnd(limit, duration, elapsed, 0, k)) else None
  }

  /** The first round from `i` on at which the guard fails. */
  ghost function FirstEnd(limit: nat, duration: Option<int>, elapsed: nat -> int, i: nat, k: nat): (r: nat)
    requires i <= k && !Guard(limit, duration, elapsed, k)
    ensures i <= r && !Guard(limit, duration, elapsed, r)
    ensures forall j: nat :: i <= j < r ==> Guard(limit, duration, elapsed, j)
    decreases k - i
  {
    if !Guard(limit, duration, elapsed, i) then i else FirstEnd(limit, duration, elapsed, i + 1, k)
  }

  lemma RoundsUnique(limit: nat, duration: Option<int>, elapsed: nat -> int, rounds: Option<nat>)
    requires Makes(limit, duration, elapsed, rounds)
    ensures Rounds(limit, duration, elapsed) == rounds
  {
    hide Guard, Rounds;
  }

  /** The producer's loop, watched for `patience` rounds. */
  method Produce(limit: nat, duration: Option<int>, elapsed: nat -> int, patience: nat)
    returns (requests: nat, ended: bool)
    ensures ended <==> Rounds(limit, duration, elapsed).Some? && Rounds(limit, duration, elapsed).value <= patience
    ensures requests == if ended then Rounds(limit, duration, elapsed).value else patience
    ensures ended <==> (limit != 0 && requests == limit) || (duration.Some? && elapsed(requests) >= duration.value)
    ensures limit == 0 || requests <= limit
    ensures duration.None? || forall k: nat :: k < requests ==> elapsed(k) < duration.value
  {
    hide Rounds;
    requests := 0;
    while requests < patience && Guard(limit, duration, elapsed, requests)
      invariant requests <= patience
      invariant forall k: nat :: k < requests ==> Guard(limit, duration, elapsed, k)
    {
      requests := requests + 1;
    }
    ended := !Guard(limit, duration, elapsed, requests);
    GuardsBelow(limit, duration, elapsed, requests);
    if ended {
      RoundsUnique(limit, duration, elapsed, Some(requests));
    }
  }

  /** The guard holds before each of `r` rounds exactly when no limit is reached before them. */
  lemma GuardsBelow(limit: nat, duration: Option<int>, elapsed: nat -> int, r: nat)
    ensures (forall k: nat :: k < r ==> Guard(limit, duration, elapsed, k)) <==>
            && (limit == 0 || r <= limit)
            && (duration.None? || forall k: nat :: k < r ==> elapsed(k) < duration.value)
  {
    if forall k: nat :: k < r ==> Guard(limit, duration, elapsed, k) {
      assert limit < r ==> Guard(limit, duration, elapsed, limit);
      forall k: nat | k < r && duration.Some? ensures elapsed(k) < duration.value {
        assert Guard(limit, duration, elapsed, k);
      }
    }
  }

  /** The producer makes `r` rounds exactly when one of its limits is reached after `r` rounds and none
      before: whichever comes first ends it. */
  lemma RoundsIff(limit: nat, duration: Option<int>, elapsed: nat -> int, r: nat)
    ensures Rounds(limit, duration, elapsed) == Some(r) <==>
            && ((limit != 0 && r == limit) || (duration.Some? && elapsed(r) >= duration.value))
            && (limit == 0 || r <= limit)
            && (duration.None? || forall k: nat :: k < r ==> elapsed(k) < duration.value)
  {
    hide Rounds;
    GuardsBelow(limit, duration, elapsed, r);
    if && ((limit != 0 && r == limit) || (duration.Some? && elapsed(r) >= duration.value))
       && (limit == 0 || r <= limit)
       && (duration.None? || forall k: nat :: k < r ==> elapsed(k) < duration.value) {
      RoundsUnique(limit, duration, elapsed, Some(r));
    }
  }

  /** And it never stops exactly when no limit is ever reached. */
  lemma RoundsNoneIff(limit: nat, duration: Option<int>, elapsed: nat -> int)
    ensures Rounds(limit, duration, elapsed) == None <==>
            limit == 0 && (duration.None? || forall k: nat :: elapsed(k) < duration.value)
  {
    hide Rounds;
    StopsIff(limit, duration, elapsed);
  }

  /** A thousand requests under a time limit that passes after five. */
  lemma TimeEndsFirst()
    ensures Rounds(1000, Some(5), k => k) == Some(5)
    ensures Rounds(3, Some(5), k => k) == Some(3)
  {
    RoundsIff(1000, Some(5), k => k, 5);
    RoundsIff(3, Some(5), k => k, 3);
  }

  /** The producer stops exactly when it has a limit, or a duration that passes. */
  lemma StopsIff(limit: nat, duration: Option<int>, elapsed: nat -> int)
    ensures Rounds(limit, duration, elapsed).Some? <==>
            limit != 0 || (duration.Some? && exists k: nat :: elapsed(k) >= duration.value)
  {
    hide Rounds;
    if k: nat :| duration.Some? && elapsed(k) >= duration.value {
      assert !Guard(limit, duration, elapsed, k);
    } else if limit != 0 {
      assert !Guard(limit, duration, elapsed, limit);
    }
  }

  /** What all workers make together, each on its own clock; None if one of them never stops. */
  ghost function Together(limit: nat, duration: Option<int>, clocks: seq<nat -> int>): Option<int>
    decreases |clocks|
  {
    if clocks == [] then Some(0)
    else
      var first, rest := Rounds(limit, duration, clocks[0]), Together(limit, duration, clocks[1..]);
      if first.None? || rest.None? then None else Some(first.value + rest.value)
  }

  lemma {:induction false} TogetherUntimed(limit: nat, clocks: seq<nat -> int>)
    ensures Together(limit, None, clocks)
         == if limit == 0 && clocks != [] then None else Some(limit * |clocks|)
    decreases |clocks|
  {
    hide Rounds;
    if clocks != [] {
      RoundsUnique(limit, None, clocks[0], if limit == 0 then None else Some(limit));
      TogetherUntimed(limit, clocks[1..]);
      assert limit * |clocks| == limit + limit * (|clocks| - 1);
    }
  }

  function Magnitude(x: int): nat { if x < 0 then -x else x }

  /** A share is zero exactly when the quotient, sign aside, is a multiple of 2^32. */
  lemma ShareZero(requests: int, workers: nat)
    requires workers > 0
    ensures Share(requests, workers) == 0 <==> Magnitude(requests) / workers % TWO_TO_32 == 0
  {
    Negated(Magnitude(requests) / workers);
  }

  lemma Negated(q: int)
    ensures -q % TWO_TO_32 == 0 <==> q % TWO_TO_32 == 0
  {}

  /** Requests per worker, for every number of requests, negative ones included: with no time limit,
      all workers together make the requests less the remainder of the division exactly when there
      are at least as many requests as workers and the quotient is a uint32. */
  lemma SplitIff(requests: int, workers: nat, clocks: seq<nat -> int>)
    requires workers == |clocks| > 0
    ensures Together(Share(requests, workers), None, clocks) == Some(requests - requests % workers)
            <==> workers <= requests && requests / workers < TWO_TO_32
  {
    hide Together, Share;
    var share, q := Share(requests, workers), requests / workers;
    TogetherUntimed(share, clocks);
    QuotientIs(requests, workers);
    if requests >= 0 {
      ShareOfMany(requests, workers);
    }
    ModBound(q);
    if q != share {
      Cancel(workers, share, q);
    }
  }

  lemma ShareOfMany(requests: int, workers: nat)
    requires workers > 0 && requests >= 0
    ensures Share(requests, workers) == requests / workers % TWO_TO_32
  {}

  lemma QuotientIs(x: int, n: nat)
    requires n > 0
    ensures n * (x / n) == x - x % n
    ensures x < 0 <==> x / n < 0
    ensures n <= x <==> x / n >= 1
  {
    assert x == n * (x / n) + x % n;
    if x / n >= 1 {
      Scale(n, 1, x / n);
    } else if x / n < 0 {
      Scale(n, x / n, -1);
    }
  }

  lemma ModBound(q: int)
    ensures q >= 0 ==> (q % TWO_TO_32 == q <==> q < TWO_TO_32)
  {}

  lemma Scale(n: int, a: int, b: int)
    requires n > 0 && a <= b
    ensures n * a <= n * b
  {}

  lemma Cancel(n: int, a: int, b: int)
    requires n > 0 && a != b
    ensures a * n != n * b
  {}

  /** With no time limit, some worker never stops exactly when the quotient is a multiple of 2^32, as
      it is for fewer requests than workers. */
  lemma UnboundedIff(requests: int, workers: nat, clocks: seq<nat -> int>)
    requires workers == |clocks| > 0
    ensures Together(Share(requests, workers), None, clocks) == None
            <==> Magnitude(requests) / workers % TWO_TO_32 == 0
    ensures Magnitude(requests) < workers ==> Together(Share(requests, workers), None, clocks) == None
  {
    hide Together, Share;
    TogetherUntimed(Share(requests, workers), clocks);
    ShareZero(requests, workers);
    if Magnitude(requests) < workers {
      SmallQuotient(Magnitude(requests), workers);
    }
  }

  lemma SmallQuotient(x: nat, y: nat)
    requires x < y
    ensures x / y == 0
  {}

  /** Each condition matters: one request for two workers never ends, 2^32 + 1 requests are one, and
      one request fewer than none is 2^32 - 1. */
  lemma SplitFails(clock: nat -> int)
    ensures Together(Share(1, 2), None, [clock, clock]) == None
    ensures Together(Share(TWO_TO_32 + 1, 1), None, [clock]) == Some(1)
    ensures Together(Share(-1, 1), None, [clock]) == Some(TWO_TO_32 - 1)
    ensures Share(-3, 2) == TWO_TO_32 - 1
  {
    hide Together;
    TogetherUntimed(Share(1, 2), [clock, clock]);
    TogetherUntimed(Share(TWO_TO_32 + 1, 1), [clock]);
    TogetherUntimed(Share(-1, 1), [clock]);
  }

  // ------------------------------------------------------------------ from the split to the merge

  /** One worker's part: the producer makes the rounds its share allows, the pipeline runs to its end in
      some schedule, and the report carries the requests issued, as uint32. */
  ghost predicate WorkerReports(share: nat, clock: nat -> int, parallelism: nat,
                                run: seq<Pipeline.Action>, report: Response)
  {
    var rounds := Rounds(share, None, clock);
    && rounds.Some?
    && var c := Pipeline.Config(parallelism, rounds.value);
       && Pipeline.Runs(c, Pipeline.Initial(c), run)
       && var end := Pipeline.After(c, Pipeline.Initial(c), run);
          end.producer.Returned? && report.requests == end.issued % TWO_TO_32
  }

  /** A pipeline of that many rounds, whose aggregator has received as many durations. */
  ghost predicate Receives(parallelism: nat, rounds: nat, run: seq<Pipeline.Action>) {
    var c := Pipeline.Config(parallelism, rounds);
    Pipeline.Runs(c, Pipeline.Initial(c), run) && |Pipeline.After(c, Pipeline.Initial(c), run).received| == rounds
  }

  /** A worker issues exactly its share, and its aggregator receives as many durations. */
  lemma {:induction false} ShareIssued(share: nat, clock: nat -> int, parallelism: nat,
                                       run: seq<Pipeline.Action>, report: Response)
    requires 0 < share < TWO_TO_32 && WorkerReports(share, clock, parallelism, run, report)
    ensures report.requests == share && Receives(parallelism, share, run)
  {
    hide Pipeline.Runs, Pipeline.After, Rounds;
    RoundsUnique(share, None, clock, Some(share));
    var c := Pipeline.Config(parallelism, share);
    Pipeline.AllReceived(c, run);
  }

  lemma {:induction false} SameRequests(rs: seq<Response>, share: nat)
    requires forall i :: 0 <= i < |rs| ==> rs[i].requests == share
    ensures Sum(Column(rs, REQUESTS)) == |rs| * share
    decreases |rs|
  {
    if rs != [] {
      assert Column(rs, REQUESTS)[1..] == Column(rs[1..], REQUESTS);
      SameRequests(rs[1..], share);
      OneFactor(share, |rs|);
    }
  }

  /** The whole of a benchmark: with no time limit, at least as many requests as workers and a quotient
      below 2^32, every aggregator receives its worker's share, and every call that succeeds, in
      whatever schedules of the workers and of their pipelines, reports the requests less the
      remainder of the division, as a uint32. */
  lemma {:induction false} BenchmarkTotals(
      requests: int, clocks: seq<nat -> int>, parallelism: nat, runs: seq<seq<Pipeline.Action>>,
      reports: seq<Response>, setups: seq<FanIn.Ending>, ends: seq<FanIn.Ending>, dialFails: bool,
      first: seq<FanIn.Action>, second: seq<FanIn.Action>, m: Merged)
    requires |clocks| == |runs| == |reports| == |setups| == |ends| > 0
    requires |reports| <= requests && requests / |reports| < TWO_TO_32
    requires forall i :: 0 <= i < |reports| ==>
               WorkerReports(Share(requests, |reports|), clocks[i], parallelism, runs[i], reports[i])
    requires Succeeded(setups, ends, dialFails, first, second, reports, m)
    ensures m.requests == (requests - requests % |reports|) % TWO_TO_32
    ensures forall i :: 0 <= i < |reports| ==> Receives(parallelism, requests / |reports|, runs[i])
  {
    hide Succeeded, WorkerReports, Share, Receives, Sum, Column;
    var workers := |reports|;
    var share := Share(requests, workers);
    ShareOfMany(requests, workers);
    QuotientIs(requests, workers);
    ModBound(requests / workers);
    forall i | 0 <= i < workers
      ensures reports[i].requests == share && Receives(parallelism, share, runs[i])
    {
      ShareIssued(share, clocks[i], parallelism, runs[i], reports[i]);
    }
    SucceededMerges(setups, ends, dialFails, first, second, reports, m);
    SameRequests(reports, share);
  }

  /** The whole of a benchmark that never ends: with no time limit and a quotient that is a multiple of
      2^32, as it is for fewer requests than workers, no schedule of any kind lets the call return,
      once the workers have been dialled. */
  lemma {:induction false} BenchmarkNeverReturns(
      requests: int, clocks: seq<nat -> int>, setups: seq<FanIn.Ending>, ends: seq<FanIn.Ending>,
      first: seq<FanIn.Action>, second: seq<FanIn.Action>)
    requires |clocks| == |setups| == |ends| > 0
    requires Magnitude(requests) / |ends| % TWO_TO_32 == 0
    requires forall i :: 0 <= i < |ends| && Rounds(Share(requests, |ends|), None, clocks[i]).None? ==> ends[i].Hangs?
    requires FanIn.BenchmarkRuns(setups, ends, false, first, second)
    ensures FanIn.BenchmarkOutcome(setups, ends, false, first, second).None?
  {
    hide FanIn.BenchmarkRuns, FanIn.BenchmarkOutcome, Share, Rounds;
    ShareZero(requests, |ends|);
    RoundsUnique(0, None, clocks[0], None);
    FanIn.BenchmarkReturnsIff(setups, ends, false, first, second);
  }
}
