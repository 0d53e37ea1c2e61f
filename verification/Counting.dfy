/** Sequences without repetitions, and the orders in which a map can be walked. */
module Counting {

  /** The order in which a Go map is walked: every key once. */
  ghost predicate IsOrder<K(!new), V>(order: seq<K>, m: map<K, V>) {
    && (forall i, j :: 0 <= i < j < |order| ==> order[i] != order[j])
    && (forall k :: k in order <==> k in m)
  }

  predicate Distinct(s: seq<nat>) {
    forall j, k :: 0 <= j < k < |s| ==> s[j] != s[k]
  }

  /** Different members of a set are no more than the set has. */
  lemma {:induction false} DistinctIn(s: seq<nat>, all: set<nat>)
    requires Distinct(s) && forall j :: 0 <= j < |s| ==> s[j] in all
    ensures |s| <= |all|
    decreases |s|
  {
    if s != [] {
      DistinctIn(s[1..], all - {s[0]});
    }
  }

  /** One member that is missing makes one fewer. */
  lemma DistinctWithout(s: seq<nat>, all: set<nat>, x: nat)
    requires Distinct(s) && forall j :: 0 <= j < |s| ==> s[j] in all
    requires x in all && x !in s
    ensures |s| < |all|
  {
    DistinctIn(s + [x], all);
  }

  /** As many different members as the set has are all of them. */
  lemma DistinctAll(s: seq<nat>, all: set<nat>, x: nat)
    requires Distinct(s) && (forall j :: 0 <= j < |s| ==> s[j] in all)
    requires |s| == |all| && x in all
    ensures x in s
  {
    if x !in s {
      DistinctWithout(s, all, x);
    }
  }

  /** A set whose members all occur in a sequence is no larger than it is long. */
  lemma {:induction false} CoveredBy(all: set<nat>, s: seq<nat>)
    requires forall x :: x in all ==> x in s
    ensures |all| <= |s|
    decreases |s|
  {
    if s != [] {
      forall x | x in all - {s[0]} ensures x in s[1..] {
        assert s == [s[0]] + s[1..];
      }
      CoveredBy(all - {s[0]}, s[1..]);
    } else {
      assert all == {};
    }
  }

  /** The numbers below n. */
  function Below(n: nat): (r: set<nat>)
    ensures |r| == n && forall x: nat :: x in r <==> x < n
  {
    if n == 0 then {} else Below(n - 1) + {n - 1}
  }
}
