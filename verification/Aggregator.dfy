/** The aggregator goroutine: durations are averaged in batches of 100, and when 10000 batches have
    piled up they are averaged once more. Durations are elapsed times, so they are not negative. */
module Aggregator {

  const BATCH := 100
  const LIMIT := 10000

  function Sum(ds: seq<nat>): nat {
    if ds == [] then 0 else ds[0] + Sum(ds[1..])
  }

  /** The averages of consecutive batches, the last one possibly short. */
  function Batches(ds: seq<nat>): seq<nat> {
    if ds == [] then []
    else if |ds| < BATCH then [Sum(ds) / |ds|]
    else [Sum(ds[..BATCH]) / BATCH] + Batches(ds[BATCH..])
  }

  /** The collapse loop, started on `total` and `count`. */
  function Collapsed(results: seq<nat>, total: nat, count: nat): seq<nat>
    decreases |results|
  {
    if results == [] then []
    else if count + 1 == BATCH
    then [(total + results[0]) / (count + 1)] + Collapsed(results[1..], 0, 0)
    else Collapsed(results[1..], total + results[0], count + 1)
  }

  method Collapse(results: seq<nat>, total0: nat, count0: nat) returns (newResults: seq<nat>)
    ensures newResults == Collapsed(results, total0, count0)
  {
    var total, count := total0, count0;
    newResults := [];
    for i := 0 to |results|
      invariant newResults + Collapsed(results[i..], total, count) == Collapsed(results, total0, count0)
    {
      assert results[i..][1..] == results[i + 1..];
      total := total + results[i];
      count := count + 1;
      if count == BATCH {
        newResults := newResults + [total / count];
        total := 0;
        count := 0;
      }
    }
    assert newResults + [] == newResults;
  }

  /** A collapse that starts with a full count never completes a batch. */
  lemma {:induction false} CollapseKeepsNothing(results: seq<nat>, total: nat, count: nat)
    requires count >= BATCH
    ensures Collapsed(results, total, count) == []
    decreases |results|
  {
    if results != [] {
      CollapseKeepsNothing(results[1..], total + results[0], count + 1);
    }
  }

  /** The loop's state after `i` durations, `base` of them thrown away by collapses. */
  ghost predicate Running(ds: seq<nat>, i: nat, base: nat, results: seq<nat>, total: nat, count: nat) {
    && i <= |ds| && base % (BATCH * LIMIT) == 0
    && i == base + BATCH * |results| + count && |results| <= LIMIT
    && results == Batches(ds[base..i - count])
    && total == Sum(ds[i - count..i])
  }

  lemma OneMore(ds: seq<nat>, i: nat, base: nat, results: seq<nat>, total: nat, count: nat)
    requires i < |ds| && Running(ds, i, base, results, total, count)
    ensures Running(ds, i + 1, base, results, total + ds[i], count + 1)
  {
    hide Sum, Batches;
    SumAppend(ds[i - count..i], ds[i]);
    assert ds[i - count..i] + [ds[i]] == ds[i - count..i + 1];
  }

  /** A started batch becomes a result. */
  lemma Averaged(ds: seq<nat>, i: nat, base: nat, results: seq<nat>, total: nat, count: nat)
    requires Running(ds, i, base, results, total, count) && 1 <= count <= BATCH
    ensures results + [total / count] == Batches(ds[base..i])
  {
    hide Sum, Batches;
    var a, b := ds[base..i - count], ds[i - count..i];
    BatchesAppend(a, b);
    BatchesOne(b);
    assert a + b == ds[base..i];
  }

  lemma Restart(ds: seq<nat>, i: nat, base: nat, results: seq<nat>)
    requires base <= i <= |ds| && base % (BATCH * LIMIT) == 0
    requires i == base + BATCH * |results| && |results| <= LIMIT && results == Batches(ds[base..i])
    ensures Running(ds, i, base, results, 0, 0)
  {
    assert ds[i..i] == [];
  }

  lemma ThrownAway(ds: seq<nat>, i: nat, base: nat)
    requires i <= |ds| && base % (BATCH * LIMIT) == 0 && i == base + BATCH * LIMIT
    ensures Running(ds, i, i, [], 0, 0)
  {
    assert ds[i..i] == [];
  }

  /** The aggregator as it is written: the collapse starts with the total and the count of the
      batch just averaged. */
  method Aggregate(durations: seq<nat>) returns (results: seq<nat>)
    ensures results == Batches(durations[|durations| - |durations| % 1_000_000..])
  {
    hide Sum, Batches, Running, Collapsed;
    var total: nat, count: nat := 0, 0;
    results := [];
    ghost var base := 0;
    Initially(durations);
    for i := 0 to |durations|
      invariant count < BATCH && |results| < LIMIT
      invariant i == base + BATCH * |results| + count
      invariant Running(durations, i, base, results, total, count)
    {
      OneMore(durations, i, base, results, total, count);
      total := total + durations[i];
      count := count + 1;
      if count == BATCH {
        Averaged(durations, i + 1, base, results, total, count);
        RunningBase(durations, i + 1, base, results, total, count);
        results := results + [total / count];
        if |results| == LIMIT {
          ThrownAway(durations, i + 1, base);
          CollapseKeepsNothing(results, total, count);
          results := Collapse(results, total, count);
          base := i + 1;
        } else {
          Restart(durations, i + 1, base, results);
        }
        total := 0;
        count := 0;
      }
    }
    RunningBase(durations, |durations|, base, results, total, count);
    Remainder(|durations|, base);
    assert durations[base..|durations|] == durations[base..];
    if count > 0 {
      Averaged(durations, |durations|, base, results, total, count);
      results := results + [total / count];
    }
  }

  lemma Initially(ds: seq<nat>)
    ensures Running(ds, 0, 0, [], 0, 0)
  {
    assert ds[0..0] == [];
  }

  lemma RunningBase(ds: seq<nat>, i: nat, base: nat, results: seq<nat>, total: nat, count: nat)
    requires Running(ds, i, base, results, total, count)
    ensures base % (BATCH * LIMIT) == 0
    ensures count == 0 ==> results == Batches(ds[base..i])
  {}

  lemma Remainder(n: nat, base: nat)
    requires base <= n < base + BATCH * LIMIT && base % (BATCH * LIMIT) == 0
    ensures n - n % (BATCH * LIMIT) == base
  {}

  lemma BatchesOne(ds: seq<nat>)
    requires 1 <= |ds| <= BATCH
    ensures Batches(ds) == [Sum(ds) / |ds|]
  {
    if |ds| == BATCH {
      assert ds[..BATCH] == ds && ds[BATCH..] == [];
    }
  }

  lemma {:induction false} SumAppend(ds: seq<nat>, d: nat)
    ensures Sum(ds + [d]) == Sum(ds) + d
  {
    if ds == [] {
      assert ds + [d] == [d];
    } else {
      assert (ds + [d])[1..] == ds[1..] + [d];
      SumAppend(ds[1..], d);
    }
  }

  /** Whole batches can be averaged apart from what follows them. */
  lemma {:induction false} BatchesAppend(a: seq<nat>, b: seq<nat>)
    requires |a| % BATCH == 0
    ensures Batches(a + b) == Batches(a) + Batches(b)
    decreases |a|
  {
    hide Sum;
    if a == [] {
      assert a + b == b;
    } else {
      assert (a + b)[..BATCH] == a[..BATCH];
      assert (a + b)[BATCH..] == a[BATCH..] + b;
      BatchesAppend(a[BATCH..], b);
    }
  }

  /** One entry for every started batch. */
  lemma {:induction false} BatchesLength(ds: seq<nat>)
    ensures |Batches(ds)| == (|ds| + BATCH - 1) / BATCH
    decreases |ds|
  {
    hide Sum;
    if |ds| >= BATCH {
      BatchesLength(ds[BATCH..]);
    }
  }

  lemma Shifted(ds: seq<nat>, from: nat, end: nat)
    requires 100 <= from <= end <= |ds|
    ensures ds[100..][from - 100..end - 100] == ds[from..end]
  {}

  /** Entry i is the truncated average of durations 100 i to 100 i + 99, or of those there are. */
  lemma {:induction false} BatchesAt(ds: seq<nat>, i: nat)
    requires 100 * i < |ds|
    ensures i < |Batches(ds)|
    ensures var batch := ds[100 * i..if 100 * i + 100 < |ds| then 100 * i + 100 else |ds|];
            Batches(ds)[i] == Sum(batch) / |batch|
    decreases |ds|
  {
    hide Sum;
    if i == 0 {
      assert |ds| < 100 ==> ds[0..|ds|] == ds;
      assert |ds| >= 100 ==> ds[0..100] == ds[..100];
      if |ds| == 100 { assert ds[0..|ds|] == ds[..100]; }
    } else {
      BatchesAt(ds[100..], i - 1);
      var end := if 100 * i + 100 < |ds| then 100 * i + 100 else |ds|;
      Shifted(ds, 100 * i, end);
      assert 100 * (i - 1) == 100 * i - 100;
    }
  }

  // ------------------------------------------------------------------ what is kept, as written

  /** The claim that some result is kept whenever some duration arrived is false of the code, and
      true exactly when the number of durations is not a multiple of a million: at every such
      multiple everything is thrown away. */
  lemma KeptIff(durations: seq<nat>, results: seq<nat>)
    requires results == Batches(durations[|durations| - |durations| % 1_000_000..])
    ensures results != [] <==> |durations| % 1_000_000 != 0
    ensures |results| == (|durations| % 1_000_000 + 99) / 100 <= 10_000
  {
    hide Batches;
    BatchesLength(durations[|durations| - |durations| % (BATCH * LIMIT)..]);
  }

  /** The first input that loses everything: a million durations of one unit each. */
  method AggregateMillion() returns (results: seq<nat>)
    ensures results == []
  {
    hide Batches;
    var durations := seq(1_000_000, _ => 1);
    results := Aggregate(durations);
    KeptIff(durations, results);
  }

  // ------------------------------------------------------------------ averages

  predicate Within(ds: seq<nat>, lo: nat, hi: nat) {
    forall i :: 0 <= i < |ds| ==> lo <= ds[i] <= hi
  }

  lemma {:induction false} SumWithin(ds: seq<nat>, lo: nat, hi: nat)
    requires Within(ds, lo, hi)
    ensures lo * |ds| <= Sum(ds) <= hi * |ds|
  {
    if ds != [] {
      SumWithin(ds[1..], lo, hi);
      OneFactor(lo, |ds|);
      OneFactor(hi, |ds|);
    }
  }

  lemma OneFactor(x: int, n: int)
    ensures x * n == x + x * (n - 1)
  {}

  lemma AverageWithin(ds: seq<nat>, lo: nat, hi: nat)
    requires ds != [] && Within(ds, lo, hi)
    ensures lo <= Sum(ds) / |ds| <= hi
  {
    SumWithin(ds, lo, hi);
    DivideBounds(Sum(ds), |ds|, lo, hi);
  }

  lemma DivideBounds(sum: nat, n: nat, lo: nat, hi: nat)
    requires n > 0 && lo * n <= sum <= hi * n
    ensures lo <= sum / n <= hi
  {
    var q := sum / n;
    assert n * q <= sum < n * q + n;
    MulLe(q + 1, lo, n);
    MulLe(hi + 1, q, n);
  }

  lemma MulLe(a: int, b: int, n: nat)
    ensures a <= b ==> a * n <= b * n
  {}

  /** Every entry lies between the shortest and the longest duration averaged. */
  lemma {:induction false} BatchesWithin(ds: seq<nat>, lo: nat, hi: nat)
    requires Within(ds, lo, hi)
    ensures Within(Batches(ds), lo, hi)
    decreases |ds|
  {
    hide Sum;
    if ds == [] {
    } else if |ds| < BATCH {
      AverageWithin(ds, lo, hi);
    } else {
      AverageWithin(ds[..BATCH], lo, hi);
      BatchesWithin(ds[BATCH..], lo, hi);
    }
  }

  /** The durations the entries stand for: each entry counted as often as its batch is long. */
  function Weighted(ds: seq<nat>): nat
    decreases |ds|
  {
    if ds == [] then 0
    else if |ds| < BATCH then Batches(ds)[0] * |ds|
    else Batches(ds)[0] * BATCH + Weighted(ds[BATCH..])
  }

  lemma {:induction false} SumSplit(a: seq<nat>, b: seq<nat>)
    ensures Sum(a + b) == Sum(a) + Sum(b)
  {
    if a == [] {
      assert a + b == b;
    } else {
      assert (a + b)[1..] == a[1..] + b;
      SumSplit(a[1..], b);
    }
  }

  /** Rounding loses less than one unit for every duration averaged, and never adds any. */
  lemma {:induction false} RoundingLoss(ds: seq<nat>)
    ensures Weighted(ds) <= Sum(ds)
    ensures ds != [] ==> Sum(ds) < Weighted(ds) + |ds|
    decreases |ds|
  {
    if ds == [] {
    } else if |ds| < BATCH {
      DivideLoss(Sum(ds), |ds|);
    } else {
      var head := ds[..BATCH];
      assert head + ds[BATCH..] == ds;
      SumSplit(head, ds[BATCH..]);
      DivideLoss(Sum(head), BATCH);
      RoundingLoss(ds[BATCH..]);
    }
  }

  /** Whole batches stand for as many durations each. */
  lemma {:induction false} WholeBatches(ds: seq<nat>)
    requires |ds| % BATCH == 0
    ensures Weighted(ds) == BATCH * Sum(Batches(ds)) && |ds| == BATCH * |Batches(ds)|
    decreases |ds|
  {
    if ds != [] {
      var average := Sum(ds[..BATCH]) / BATCH;
      hide Sum;
      WholeBatches(ds[BATCH..]);
      assert Batches(ds)[1..] == Batches(ds[BATCH..]);
      SumSplit([average], Batches(ds[BATCH..]));
      SumOne(average);
    }
  }

  lemma SumOne(x: nat)
    ensures Sum([x]) == x
  {
    assert [x][1..] == [];
  }

  /** Rounding twice, in the batches and in their mean, loses less than two units a duration. */
  lemma {:induction false} MeanClose(ds: seq<nat>)
    requires ds != [] && |ds| % BATCH == 0
    ensures Batches(ds) != []
    ensures var mean := Sum(Batches(ds)) / |Batches(ds)|;
            mean * |ds| <= Sum(ds) < (mean + 2) * |ds|
  {
    hide Sum, Batches, Weighted;
    WholeBatches(ds);
    RoundingLoss(ds);
    var sum, k := Sum(Batches(ds)), |Batches(ds)|;
    DivideLoss(sum, k);
    Hundredfold(sum / k, k, |ds|);
  }

  lemma Hundredfold(mean: nat, k: nat, n: nat)
    requires n == BATCH * k
    ensures mean * n == BATCH * (mean * k)
    ensures (mean + 2) * n == BATCH * (mean * k) + 2 * n
  {
    assert mean * (BATCH * k) == BATCH * (mean * k);
  }

  lemma DivideLoss(sum: nat, n: nat)
    requires n > 0
    ensures sum / n * n <= sum < sum / n * n + n
  {}

  // ------------------------------------------------------------------ as intended

  /** One more batch average, when the collapse starts from nothing as its comment says. */
  function Push(results: seq<nat>, average: nat): seq<nat> {
    var r := results + [average];
    if |r| == LIMIT then Collapsed(r, 0, 0) else r
  }

  /** The intended aggregator, from `results` on. */
  function Intended(ds: seq<nat>, results: seq<nat>): seq<nat>
    decreases |ds|
  {
    if ds == [] then results
    else if |ds| < BATCH then results + [Sum(ds) / |ds|]
    else Intended(ds[BATCH..], Push(results, Sum(ds[..BATCH]) / BATCH))
  }

  lemma {:induction false} CollapsedPrefix(results: seq<nat>, k: nat, total: nat, count: nat)
    requires k + count < BATCH && k <= |results|
    ensures Collapsed(results, total, count)
         == Collapsed(results[k..], total + Sum(results[..k]), count + k)
    decreases k
  {
    if k == 0 {
      assert results[0..] == results;
    } else {
      var rest := results[1..];
      CollapsedPrefix(rest, k - 1, total + results[0], count + 1);
      assert rest[k - 1..] == results[k..];
      assert results[..k][1..] == rest[..k - 1];
    }
  }

  /** Started from nothing, the collapse averages the first batch. */
  lemma {:induction false} CollapsedBatch(results: seq<nat>)
    requires |results| >= BATCH
    ensures Collapsed(results, 0, 0) == [Sum(results[..BATCH]) / BATCH] + Collapsed(results[BATCH..], 0, 0)
  {
    hide Sum, Collapsed;
    CollapsedAt(results, BATCH - 1);
  }

  lemma {:induction false} CollapsedAt(results: seq<nat>, k: nat)
    requires k + 1 == BATCH && k < |results|
    ensures Collapsed(results, 0, 0) == [Sum(results[..k + 1]) / BATCH] + Collapsed(results[k + 1..], 0, 0)
  {
    hide Sum, Collapsed;
    var total := Sum(results[..k]);
    assert Collapsed(results, 0, 0) == Collapsed(results[k..], total, k) by {
      CollapsedPrefix(results, k, 0, 0);
    }
    SumNext(results, k);
    CollapsedLast(results, k, total);
  }

  lemma {:induction false} SumNext(s: seq<nat>, k: nat)
    requires k < |s|
    ensures Sum(s[..k + 1]) == Sum(s[..k]) + s[k]
  {
    hide Sum;
    SumAppend(s[..k], s[k]);
    assert s[..k] + [s[k]] == s[..k + 1];
  }

  /** The round that completes a batch. */
  lemma {:induction false} CollapsedLast(results: seq<nat>, k: nat, total: nat)
    requires k + 1 == BATCH && k < |results|
    ensures Collapsed(results[k..], total, k)
         == [(total + results[k]) / BATCH] + Collapsed(results[k + 1..], 0, 0)
  {
    assert results[k..][1..] == results[k + 1..];
  }

  /** Started from nothing, the collapse is one more round of batching. */
  lemma {:induction false} CollapseIsBatching(results: seq<nat>)
    requires |results| % BATCH == 0
    ensures Collapsed(results, 0, 0) == Batches(results)
    decreases |results|
  {
    hide Sum;
    if results != [] {
      CollapsedBatch(results);
      CollapseIsBatching(results[BATCH..]);
    }
  }

  lemma PushKept(results: seq<nat>, average: nat, lo: nat, hi: nat)
    requires |results| < LIMIT && Within(results, lo, hi) && lo <= average <= hi
    ensures 0 < |Push(results, average)| < LIMIT && Within(Push(results, average), lo, hi)
  {
    hide Collapsed, Batches;
    var r := results + [average];
    if |r| == LIMIT {
      CollapseIsBatching(r);
      BatchesLength(r);
      BatchesWithin(r, lo, hi);
    }
  }

  /** As intended, something is kept whenever something arrived or was there, at most 10000 entries
      are, and every one lies between the shortest and the longest duration. */
  lemma {:induction false} IntendedKept(ds: seq<nat>, results: seq<nat>, lo: nat, hi: nat)
    requires |results| < LIMIT && Within(results, lo, hi) && Within(ds, lo, hi)
    ensures Intended(ds, results) != [] <==> ds != [] || results != []
    ensures |Intended(ds, results)| <= LIMIT
    ensures Within(Intended(ds, results), lo, hi)
    decreases |ds|
  {
    hide Sum, Push;
    if ds == [] {
    } else if |ds| < BATCH {
      AverageWithin(ds, lo, hi);
    } else {
      var average := Sum(ds[..BATCH]) / BATCH;
      AverageWithin(ds[..BATCH], lo, hi);
      PushKept(results, average, lo, hi);
      IntendedKept(ds[BATCH..], Push(results, average), lo, hi);
    }
  }

  /** Below the first collapse, intention and code agree. */
  lemma {:induction false} IntendedIsBatches(ds: seq<nat>, results: seq<nat>)
    requires BATCH * |results| + |ds| < BATCH * LIMIT
    ensures Intended(ds, results) == results + Batches(ds)
    decreases |ds|
  {
    hide Sum;
    if |ds| >= BATCH {
      var average := Sum(ds[..BATCH]) / BATCH;
      IntendedIsBatches(ds[BATCH..], results + [average]);
      assert results + [average] + Batches(ds[BATCH..]) == results + Batches(ds);
    }
  }

  /** 100 to the power `e`. */
  function Power(e: nat): (p: nat)
    ensures p >= 1
  {
    if e == 0 then 1 else BATCH * Power(e - 1)
  }

  lemma {:induction false} SumAtLeast(ds: seq<nat>)
    requires ds != []
    ensures Sum(ds) >= ds[0]
  {}

  /** A collapse divides the first entry by a hundred at most. */
  lemma {:induction false} PushFirst(results: seq<nat>, average: nat, e: nat)
    requires 0 < |results| < LIMIT && results[0] >= Power(e + 1)
    ensures Push(results, average) != [] && Push(results, average)[0] >= Power(e)
  {
    hide Sum, Collapsed;
    var r := results + [average];
    if |r| == LIMIT {
      CollapsedBatch(r);
      SumAtLeast(r[..BATCH]);
      FirstQuotient(Sum(r[..BATCH]), Power(e));
    }
  }

  lemma FirstQuotient(sum: nat, p: nat)
    requires sum >= BATCH * p
    ensures sum / BATCH >= p
  {}

  /** A first entry large enough outlives all collapses to come. */
  lemma {:induction false} FirstSurvives(ds: seq<nat>, results: seq<nat>, e: nat)
    requires 0 < |results| < LIMIT && results[0] >= Power(e) && e >= |ds| / BATCH
    ensures Intended(ds, results) != [] && Intended(ds, results)[0] >= 1
    decreases |ds|
  {
    hide Sum, Push, Power;
    if |ds| >= BATCH {
      var average := Sum(ds[..BATCH]) / BATCH;
      assert ds != [] && |ds[BATCH..]| / BATCH == |ds| / BATCH - 1;
      PushFirst(results, average, e - 1);
      PushLength(results, average);
      FirstSurvives(ds[BATCH..], Push(results, average), e - 1);
    }
  }

  /** The durations that tell code and intention apart: a hundred long ones, and then none at all. */
  function Telling(n: nat): (ds: seq<nat>)
    ensures |ds| == n
  {
    seq(n, i requires 0 <= i < n => TellingAt(n, i))
  }

  function TellingAt(n: nat, i: nat): nat { if i < BATCH then Power(n / BATCH) else 0 }

  lemma {:induction false} SumOfSame(ds: seq<nat>, x: nat)
    requires Within(ds, x, x)
    ensures Sum(ds) == x * |ds|
  {
    SumWithin(ds, x, x);
  }

  lemma {:induction false} TellingIntended(n: nat)
    requires n >= BATCH * LIMIT
    ensures Intended(Telling(n), []) != [] && Intended(Telling(n), [])[0] >= 1
  {
    hide Sum, Power;
    var ds, e := Telling(n), n / BATCH;
    var head := ds[..BATCH];
    SumOfSame(head, Power(e));
    SameAverage(Sum(head), Power(e));
    assert [] + [Power(e)] == [Power(e)];
    assert Intended(ds, []) == Intended(ds[BATCH..], Push([], Power(e)));
    FirstSurvives(ds[BATCH..], [Power(e)], e);
  }

  lemma SameAverage(sum: nat, x: nat)
    requires sum == x * BATCH
    ensures sum / BATCH == x
  {}

  lemma {:induction false} TellingWritten(n: nat)
    requires n >= BATCH * LIMIT
    ensures Within(Batches(Telling(n)[n - n % 1_000_000..]), 0, 0)
  {
    hide Batches, Power;
    StartsLate(n);
    BatchesWithin(Telling(n)[n - n % 1_000_000..], 0, 0);
  }

  lemma StartsLate(n: nat)
    requires n >= BATCH * LIMIT
    ensures BATCH <= n - n % (BATCH * LIMIT) <= n
  {}

  /** The comment on the collapse is met, for all durations of a given number, exactly when they are
      fewer than a million. */
  lemma {:induction false} IntendedIff(n: nat)
    ensures (forall ds: seq<nat> :: |ds| == n ==>
               Batches(ds[n - n % 1_000_000..]) == Intended(ds, []))
            <==> n < 1_000_000
  {
    hide Batches, Intended, Telling;
    if n < BATCH * LIMIT {
      forall ds: seq<nat> | |ds| == n ensures Batches(ds[n - n % 1_000_000..]) == Intended(ds, []) {
        IntendedIsBatches(ds, []);
        assert ds[0..] == ds;
      }
    } else {
      TellingIntended(n);
      TellingWritten(n);
      assert |Telling(n)| == n;
    }
  }

  /** The number of results for `n` durations on top of `kept` entries: it climbs to 10000, falls
      back to 100, and from there comes round every 9900 batches. */
  function IntendedCount(n: nat, kept: nat): nat {
    var full := kept + n / BATCH;
    (if full < LIMIT then full else LIMIT / BATCH + (full - LIMIT) % (LIMIT - LIMIT / BATCH))
    + (if n % BATCH == 0 then 0 else 1)
  }

  lemma CountStep(n: nat, kept: nat)
    requires kept < LIMIT && n >= BATCH
    ensures IntendedCount(n, kept)
         == IntendedCount(n - BATCH, if kept + 1 == LIMIT then LIMIT / BATCH else kept + 1)
  {
    assert n / BATCH == (n - BATCH) / BATCH + 1 && n % BATCH == (n - BATCH) % BATCH;
    var over := n / BATCH - 1;
    assert kept + 1 == LIMIT && over >= 9900 ==> over % 9900 == (over - 9900) % 9900;
  }

  lemma {:induction false} IntendedLength(ds: seq<nat>, results: seq<nat>)
    requires |results| < LIMIT
    ensures |Intended(ds, results)| == IntendedCount(|ds|, |results|)
    decreases |ds|
  {
    hide Sum, Push, IntendedCount;
    if |ds| >= BATCH {
      var average := Sum(ds[..BATCH]) / BATCH;
      PushLength(results, average);
      CountStep(|ds|, |results|);
      IntendedLength(ds[BATCH..], Push(results, average));
    } else {
      CountEnd(|ds|, |results|);
    }
  }

  lemma CountEnd(n: nat, kept: nat)
    requires n < BATCH && kept < LIMIT
    ensures IntendedCount(n, kept) == if n == 0 then kept else kept + 1
  {}

  lemma PushLength(results: seq<nat>, average: nat)
    requires |results| < LIMIT
    ensures |Push(results, average)| == if |results| + 1 == LIMIT then LIMIT / BATCH else |results| + 1
  {
    hide Collapsed, Batches;
    var r := results + [average];
    if |r| == LIMIT {
      CollapseIsBatching(r);
      BatchesLength(r);
    }
  }
}
