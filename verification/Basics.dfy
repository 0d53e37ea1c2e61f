/** Small things several modules share. */
module Basics {

  datatype Option<+T> = None | Some(value: T)

  const TWO_TO_31 := 0x8000_0000
  const TWO_TO_32 := 0x1_0000_0000
  const TWO_TO_63 := 0x8000_0000_0000_0000
  const TWO_TO_64 := 0x1_0000_0000_0000_0000

  lemma HeadTail<T>(s: seq<T>)
    requires s != []
    ensures s == [s[0]] + s[1..]
    ensures multiset(s) == multiset{s[0]} + multiset(s[1..])
  {
    assert s == [s[0]] + s[1..];
  }

  lemma HeadIn<T>(s: seq<T>)
    ensures s == [] || s[0] in s
  {}

  /** `s` without its entry at `p`. */
  function Drop<T>(s: seq<T>, p: nat): (rest: seq<T>)
    requires p < |s|
    ensures |rest| == |s| - 1
  {
    s[..p] + s[p + 1..]
  }

  lemma DropMultiset<T>(s: seq<T>, p: nat)
    requires p < |s|
    ensures multiset(Drop(s, p)) == multiset(s) - multiset{s[p]}
    ensures multiset(s) == multiset(Drop(s, p)) + multiset{s[p]}
  {
    assert s == s[..p] + [s[p]] + s[p + 1..];
  }

  lemma Found<T>(a: seq<T>, b: seq<T>) returns (p: nat)
    requires a != [] && multiset(a) == multiset(b)
    ensures p < |b| && b[p] == a[0]
  {
    assert a[0] in multiset(b);
    p :| 0 <= p < |b| && b[p] == a[0];
  }

  lemma Emptied<T>(b: seq<T>)
    requires multiset(b) == multiset([])
    ensures b == []
  {
    assert |multiset(b)| == 0;
  }

  /** From `i` to `j`. */
  function Between(i: nat, j: nat): seq<nat>
    requires i <= j
  {
    seq(j - i, k requires 0 <= k < j - i => i + k)
  }

  lemma BetweenFirst(i: nat, j: nat)
    requires i < j
    ensures Between(i, j) == [i] + Between(i + 1, j)
  {}

  /** A queue, step by step: what leaves it and what is left are what was there and what was added. */
  lemma Reassemble<T>(head: seq<T>, tail: seq<T>, end: seq<T>, mid: seq<T>, start: seq<T>, more: seq<T>, rest: seq<T>)
    requires tail + end == mid + rest && head + mid == start + more
    ensures head + tail + end == start + (more + rest)
  {
    assert head + tail + end == head + (tail + end);
    assert head + (mid + rest) == head + mid + rest;
    assert start + more + rest == start + (more + rest);
  }
}
