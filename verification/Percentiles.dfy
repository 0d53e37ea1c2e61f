/** The latency summary of one run: its mean and its percentiles. */
module Percentiles {
  import opened Basics
  import opened Aggregator

  predicate Sorted(s: seq<nat>) {
    forall i, j :: 0 <= i < j < |s| ==> s[i] <= s[j]
  }

  /** The larger of `x` and zero. */
  function AtLeastZero(x: int): nat { if x < 0 then 0 else x }

  function Index50(n: nat): (i: nat) ensures n > 0 ==> i < n { AtLeastZero(n / 2 - 1) }
  function Index75(n: nat): (i: nat) ensures n > 0 ==> i < n { AtLeastZero(n - n / 4 - 1) }
  function Index95(n: nat): (i: nat) ensures n > 0 ==> i < n { AtLeastZero(n - n / 20 - 1) }
  function Index99(n: nat): (i: nat) ensures n > 0 ==> i < n { AtLeastZero(n - n / 100 - 1) }

  /** The smallest number of entries that is at least `percent` percent of `n`. */
  function Rank(percent: nat, n: nat): nat { (percent * n + 99) / 100 }

  datatype Summary = Summary(mean: nat, latency50: nat, latency75: nat, latency95: nat, latency99: nat)

  /** How many entries are at most `v`. */
  function CountAtMost(s: seq<nat>, v: nat): nat {
    if s == [] then 0 else (if s[0] <= v then 1 else 0) + CountAtMost(s[1..], v)
  }

  /** How many entries are below `v`. */
  function CountBelow(s: seq<nat>, v: nat): nat {
    if s == [] then 0 else (if s[0] < v then 1 else 0) + CountBelow(s[1..], v)
  }

  /** `v` is the nearest-rank value: `rank` entries are at most `v`, and fewer are below it. */
  predicate NearestRank(s: seq<nat>, v: nat, rank: nat) {
    v in s && CountAtMost(s, v) >= rank > CountBelow(s, v)
  }

  /** Half of the entries, rounded down, but at least one. */
  function HalfRank(n: nat): nat { if n < 2 then 1 else n / 2 }

  /** What a summary says about the results, in whatever order they come: the truncated mean, and
      four nearest-rank values in order. */
  ghost predicate IsSummary(results: seq<nat>, s: Summary)
    requires results != []
  {
    && s.mean == Sum(results) / |results|
    && s.latency50 <= s.latency75 <= s.latency95 <= s.latency99
    && NearestRank(results, s.latency50, HalfRank(|results|))
    && NearestRank(results, s.latency75, Rank(75, |results|))
    && NearestRank(results, s.latency95, Rank(95, |results|))
    && NearestRank(results, s.latency99, Rank(99, |results|))
  }

  lemma IndicesInBounds(n: nat)
    requires n > 0
    ensures Index50(n) <= Index75(n) <= Index95(n) <= Index99(n) < n
  {}

  /** The three upper indices are one below the nearest rank, for every length, and the lowest is one
      below half the length, rounded down. */
  lemma IndexIsRank(n: nat)
    requires n > 0
    ensures Index50(n) + 1 == HalfRank(n)
    ensures Index75(n) + 1 == Rank(75, n)
    ensures Index95(n) + 1 == Rank(95, n)
    ensures Index99(n) + 1 == Rank(99, n)
  {}

  /** A rank is the smallest number of entries that is at least that many percent of all. */
  lemma RankIsLeast(percent: nat, n: nat, r: nat)
    ensures Rank(percent, n) <= r <==> 100 * r >= percent * n
  {}

  /** The median index is the nearest rank only for even lengths and for one entry; for the other
      odd lengths it is one entry too low. */
  lemma MedianIndexIffEven(n: nat)
    requires n > 0
    ensures Index50(n) + 1 == Rank(50, n) <==> n % 2 == 0 || n == 1
    ensures n % 2 == 1 && n > 1 ==> Index50(n) + 2 == Rank(50, n)
  {}

  lemma {:induction false} CountAtMostPrefix(s: seq<nat>, v: nat, k: nat)
    requires k <= |s| && forall i :: 0 <= i < k ==> s[i] <= v
    ensures CountAtMost(s, v) >= k
  {
    if k > 0 {
      CountAtMostPrefix(s[1..], v, k - 1);
    }
  }

  lemma {:induction false} CountBelowPrefix(s: seq<nat>, v: nat, k: nat)
    requires k <= |s| && forall i :: k <= i < |s| ==> s[i] >= v
    ensures CountBelow(s, v) <= k
  {
    if s != [] {
      CountBelowPrefix(s[1..], v, if k > 0 then k - 1 else 0);
    }
  }

  /** In a sorted list, the entry at index k is the nearest-rank value of rank k + 1. */
  lemma SortedRank(s: seq<nat>, k: nat)
    requires Sorted(s) && k < |s|
    ensures NearestRank(s, s[k], k + 1)
  {
    CountAtMostPrefix(s, s[k], k + 1);
    CountBelowPrefix(s, s[k], k);
  }

  function SummaryOf(results: seq<nat>): Summary
    requires results != []
  {
    var n := |results|;
    Summary(Sum(results) / n, results[Index50(n)], results[Index75(n)], results[Index95(n)], results[Index99(n)])
  }

  /** Picking by index from a sorted list is picking by rank. */
  lemma SummaryHolds(results: seq<nat>)
    requires Sorted(results) && results != []
    ensures IsSummary(results, SummaryOf(results))
  {
    hide Sum, CountAtMost, CountBelow, Index50, Index75, Index95, Index99, Rank, HalfRank;
    var n := |results|;
    IndicesInBounds(n);
    IndexIsRank(n);
    SortedRank(results, Index50(n));
    SortedRank(results, Index75(n));
    SortedRank(results, Index95(n));
    SortedRank(results, Index99(n));
  }

  lemma {:induction false} AtMostOrBelow(s: seq<nat>, v: nat, w: nat)
    requires v < w
    ensures CountAtMost(s, v) <= CountBelow(s, w)
  {
    if s != [] {
      AtMostOrBelow(s[1..], v, w);
    }
  }

  /** A rank has one value. */
  lemma {:induction false} RankUnique(s: seq<nat>, v: nat, w: nat, rank: nat)
    requires NearestRank(s, v, rank) && NearestRank(s, w, rank)
    ensures v == w
  {
    if v < w {
      AtMostOrBelow(s, v, w);
    } else if w < v {
      AtMostOrBelow(s, w, v);
    }
  }

  /** Results have one summary. */
  lemma SummaryUnique(results: seq<nat>, s: Summary, t: Summary)
    requires results != [] && IsSummary(results, s) && IsSummary(results, t)
    ensures s == t
  {
    hide Sum, NearestRank;
    RankUnique(results, s.latency50, t.latency50, HalfRank(|results|));
    RankUnique(results, s.latency75, t.latency75, Rank(75, |results|));
    RankUnique(results, s.latency95, t.latency95, Rank(95, |results|));
    RankUnique(results, s.latency99, t.latency99, Rank(99, |results|));
  }

  lemma {:induction false} RemoveAt(s: seq<nat>, p: nat, v: nat)
    requires p < |s|
    ensures Sum(s) == s[p] + Sum(Drop(s, p))
    ensures CountAtMost(s, v) == (if s[p] <= v then 1 else 0) + CountAtMost(Drop(s, p), v)
    ensures CountBelow(s, v) == (if s[p] < v then 1 else 0) + CountBelow(Drop(s, p), v)
  {
    if p == 0 {
      assert Drop(s, 0) == s[1..];
    } else {
      RemoveAt(s[1..], p - 1, v);
      assert Drop(s, p)[1..] == Drop(s[1..], p - 1);
    }
  }

  /** Sums and counts do not depend on the order. */
  lemma {:induction false} Reordered(a: seq<nat>, b: seq<nat>, v: nat)
    requires multiset(a) == multiset(b)
    ensures Sum(a) == Sum(b) && CountAtMost(a, v) == CountAtMost(b, v) && CountBelow(a, v) == CountBelow(b, v)
    decreases |a|
  {
    hide Sum, CountAtMost, CountBelow, Drop;
    if a == [] {
      Emptied(b);
    } else {
      var p := Found(a, b);
      DropMultiset(a, 0);
      DropMultiset(b, p);
      RemoveAt(a, 0, v);
      RemoveAt(b, p, v);
      Reordered(Drop(a, 0), Drop(b, p), v);
    }
  }

  /** The summary of the sorted results is the summary of the results as they were. */
  lemma SummaryOrderFree(results: seq<nat>, sorted: seq<nat>, s: Summary)
    requires multiset(results) == multiset(sorted) && sorted != [] && results != []
    requires IsSummary(sorted, s)
    ensures IsSummary(results, s)
  {
    hide Sum, CountAtMost, CountBelow, Rank, HalfRank;
    assert |results| == |multiset(results)| == |sorted|;
    forall v: nat | v in sorted ensures v in results {
      assert v in multiset(sorted);
    }
    Reordered(results, sorted, s.latency50);
    Reordered(results, sorted, s.latency75);
    Reordered(results, sorted, s.latency95);
    Reordered(results, sorted, s.latency99);
  }

  /** All five latencies lie where the results do. */
  lemma SummaryWithin(results: seq<nat>, s: Summary, lo: nat, hi: nat)
    requires results != [] && IsSummary(results, s) && Within(results, lo, hi)
    ensures lo <= s.mean <= hi && lo <= s.latency50 && s.latency99 <= hi
  {
    hide Sum, CountAtMost, CountBelow;
    AverageWithin(results, lo, hi);
  }

  /** The tail of `Run`: with no results the mean divides by zero, which panics. */
  method Summarize(results: seq<nat>) returns (r: Option<Summary>)
    requires Sorted(results)
    ensures r.None? <==> results == []
    ensures r.Some? ==> IsSummary(results, r.value)
  {
    hide Sum, IsSummary, AtLeastZero;
    if |results| == 0 {
      return None;
    }
    var totalLatency := TotalLatency(results);
    var n := |results|;
    r := Some(Summary(totalLatency / n, results[Index50(n)], results[Index75(n)],
                      results[Index95(n)], results[Index99(n)]));
    SummaryHolds(results);
  }

  method TotalLatency(results: seq<nat>) returns (total: nat)
    ensures total == Sum(results)
  {
    total := 0;
    for i := 0 to |results|
      invariant total == Sum(results[..i])
    {
      SumAppend(results[..i], results[i]);
      assert results[..i] + [results[i]] == results[..i + 1];
      total := total + results[i];
    }
    assert results[..|results|] == results;
  }
}
