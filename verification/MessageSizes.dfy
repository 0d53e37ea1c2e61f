/** The size of an encoding: the same in every order in which a map is walked. */
module MessageSizes {
  import opened Basics
  import opened Varint
  import opened Messages
  import opened Counting
  import opened MessageLaws

  /** The bytes one map entry takes, its tag and length included. */
  function EntryLength(key: bytes, value: bytes): nat {
    var body := 1 + |key| + Sov(|key|) + 1 + |value| + Sov(|value|);
    body + 1 + Sov(body)
  }

  lemma EntryLengthIsExact(number: nat, key: bytes, value: bytes)
    requires number <= 15
    ensures |Tagged(number, EntryBody(key, value))| == EntryLength(key, value)
    ensures |EntryBody(key, value)| == 1 + |key| + Sov(|key|) + 1 + |value| + Sov(|value|)
  {
    hide Sov, EncodeVarint;
    SovIsLength(|key|);
    SovIsLength(|value|);
    TaggedSize(number, EntryBody(key, value));
  }

  /** The bytes all entries of a map take. */
  ghost function ArgsLength(args: map<bytes, bytes>): nat
    decreases |args|
  {
    if args == map[] then 0
    else
      var k :| k in args;
      EntryLength(k, args[k]) + ArgsLength(args - {k})
  }

  /** `order` without its element at `p`. */
  function Without(order: seq<bytes>, p: nat): seq<bytes>
    requires p < |order|
  {
    order[..p] + order[p + 1..]
  }

  lemma {:induction false} EntriesWithout(number: nat, args: map<bytes, bytes>, order: seq<bytes>, p: nat)
    requires number <= 15 && p < |order| && forall k :: k in order ==> k in args
    ensures forall k :: k in Without(order, p) ==> k in args
    ensures |EncodeEntries(number, args, order)|
         == EntryLength(order[p], args[order[p]]) + |EncodeEntries(number, args, Without(order, p))|
    decreases p
  {
    hide EntryLength, Tagged, EntryBody;
    EntryLengthIsExact(number, order[0], args[order[0]]);
    if p == 0 {
      assert Without(order, 0) == order[1..];
    } else {
      EntriesWithout(number, args, order[1..], p - 1);
      assert Without(order, p)[1..] == Without(order[1..], p - 1);
    }
  }

  lemma WithoutIsOrder(order: seq<bytes>, args: map<bytes, bytes>, p: nat)
    requires IsOrder(order, args) && p < |order|
    ensures IsOrder(Without(order, p), args - {order[p]})
  {
    var rest, k := Without(order, p), order[p];
    assert forall i :: 0 <= i < |rest| ==> rest[i] == if i < p then order[i] else order[i + 1];
    forall x | x in args - {k} ensures x in rest {
      var i :| 0 <= i < |order| && order[i] == x;
      assert x == rest[if i < p then i else i - 1];
    }
    forall x | x in rest ensures x in args - {k} {
      var i :| 0 <= i < |rest| && rest[i] == x;
    }
  }

  /** Entries are read off the map they are walked in: a smaller map will do. */
  lemma {:induction false} EntriesOfPart(number: nat, args: map<bytes, bytes>, part: map<bytes, bytes>, order: seq<bytes>)
    requires number <= 15
    requires forall k :: k in order ==> k in args && k in part && args[k] == part[k]
    ensures EncodeEntries(number, args, order) == EncodeEntries(number, part, order)
    decreases |order|
  {
    if order != [] {
      EntriesOfPart(number, args, part, order[1..]);
    }
  }

  /** Every order of a map takes the same number of bytes. */
  lemma {:induction false} EntriesLength(number: nat, args: map<bytes, bytes>, order: seq<bytes>)
    requires number <= 15 && IsOrder(order, args)
    ensures |EncodeEntries(number, args, order)| == ArgsLength(args)
    decreases |args|
  {
    if args == map[] {
      HeadIn(order);
    } else {
      var k :| k in args && ArgsLength(args) == EntryLength(k, args[k]) + ArgsLength(args - {k});
      var p :| 0 <= p < |order| && order[p] == k;
      WithoutIsOrder(order, args, p);
      EntriesWithout(number, args, order, p);
      EntriesOfPart(number, args, args - {k}, Without(order, p));
      EntriesLength(number, args - {k}, Without(order, p));
    }
  }

  /** A map can be walked starting from any of its keys. */
  lemma {:induction false} OrderExists(args: map<bytes, bytes>) returns (order: seq<bytes>)
    ensures IsOrder(order, args)
    decreases |args|
  {
    if args == map[] {
      order := [];
    } else {
      var k :| k in args;
      var rest := OrderExists(args - {k});
      order := [k] + rest;
      ConsIsOrder(k, rest, args);
    }
  }

  lemma ConsIsOrder(k: bytes, rest: seq<bytes>, args: map<bytes, bytes>)
    requires k in args && IsOrder(rest, args - {k})
    ensures IsOrder([k] + rest, args)
  {
    var order := [k] + rest;
    assert forall i :: 0 < i < |order| ==> order[i] == rest[i - 1] && rest[i - 1] in rest;
    assert forall x :: x in order <==> x == k || x in rest;
  }

  /** Whichever key is walked next, it accounts for its own bytes. */
  lemma ArgsLengthPick(args: map<bytes, bytes>, k: bytes)
    requires k in args
    ensures ArgsLength(args) == EntryLength(k, args[k]) + ArgsLength(args - {k})
  {
    var rest := OrderExists(args - {k});
    var order := [k] + rest;
    assert order[1..] == rest;
    ConsIsOrder(k, rest, args);
    EntriesLength(1, args, order);
    EntriesLength(1, args - {k}, rest);
    EntriesOfPart(1, args, args - {k}, rest);
    EntryLengthIsExact(1, k, args[k]);
  }

  /** The bytes one field takes. */
  ghost function ValueLength(f: DurationFormat, v: Value): nat {
    match v
    case Text(text) => TextLength(text)
    case Number(n) => if n == 0 then 0 else 1 + Sov(n)
    case OptionalTime(time) => if time.None? then 0 else DelimitedLength(f.encode(time.value))
    case Time(d) => DelimitedLength(f.encode(d))
    case Args(args) => ArgsLength(args)
  }

  function TextLength(text: bytes): nat { if text == [] then 0 else DelimitedLength(text) }
  function DelimitedLength(payload: bytes): nat { 1 + |payload| + Sov(|payload|) }

  lemma ValueLengthIsExact(f: DurationFormat, number: nat, v: Value, order: seq<bytes>)
    requires number <= 15 && (v.Args? ==> IsOrder(order, v.args))
    ensures |EncodeValue(f, number, v, order)| == ValueLength(f, v)
  {
    hide Sov, EncodeVarint, Tagged, EncodeEntries, ArgsLength;
    match v
    case Text(text) => TaggedSize(number, text);
    case Number(n) => SovIsLength(n);
    case OptionalTime(time) => if time.Some? { TaggedSize(number, f.encode(time.value)); }
    case Time(d) => TaggedSize(number, f.encode(d));
    case Args(args) => EntriesLength(number, args, order);
  }

  ghost function LengthFrom(f: DurationFormat, m: Message, i: nat): nat
    requires i <= |m|
    decreases |m| - i
  {
    if i == |m| then 0 else ValueLength(f, m[i]) + LengthFrom(f, m, i + 1)
  }

  lemma {:induction false} LengthFromIsExact(f: DurationFormat, m: Message, order: seq<bytes>, i: nat)
    requires i <= |m| <= 15 && Walks(order, m)
    ensures |EncodeFrom(f, m, order, i)| == LengthFrom(f, m, i)
    decreases |m| - i
  {
    hide ValueLength, EncodeValue;
    if i < |m| {
      ValueLengthIsExact(f, i + 1, m[i], order);
      LengthFromIsExact(f, m, order, i + 1);
    }
  }

  /** The size of a message does not depend on the order in which its map is walked. */
  lemma SizeOrderFree(f: DurationFormat, m: Message, order1: seq<bytes>, order2: seq<bytes>)
    requires |m| <= 15 && Walks(order1, m) && Walks(order2, m)
    ensures |Encode(f, m, order1)| == |Encode(f, m, order2)| == LengthFrom(f, m, 0)
  {
    LengthFromIsExact(f, m, order1, 0);
    LengthFromIsExact(f, m, order2, 0);
  }
}
