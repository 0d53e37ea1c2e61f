/** Which bytes stand for which field: the encodings of the messages, tag byte by tag byte, and what one
    tagged field alone decodes to. */
module Layout {
  import opened Basics
  import opened Varint
  import opened Messages
  import opened MessageLaws
  import opened Counting

  /** A text field, set or not. */
  function TextBytes(tag: byte, text: bytes): bytes {
    if text == [] then [] else [tag] + Delimited(text)
  }

  /** A number field, set or not. */
  function NumberBytes(tag: byte, n: uint32): bytes {
    if n == 0 then [] else [tag] + EncodeVarint(n)
  }

  function TimeBytes(f: DurationFormat, tag: byte, d: Duration): bytes {
    [tag] + Delimited(f.encode(d))
  }

  function OptionalTimeBytes(f: DurationFormat, tag: byte, d: Option<Duration>): bytes {
    if d.None? then [] else TimeBytes(f, tag, d.value)
  }

  /** The entries of a map, each with its key under 0x0a and its value under 0x12. */
  function EntriesBytes(tag: byte, args: map<bytes, bytes>, order: seq<bytes>): bytes
    requires forall k :: k in order ==> k in args
  {
    if order == [] then []
    else
      [tag] + Delimited([0x0a] + Delimited(order[0]) + ([0x12] + Delimited(args[order[0]])))
      + EntriesBytes(tag, args, order[1..])
  }

  lemma EntryIs(number: nat, key: bytes, value: bytes)
    requires 1 <= number <= 15
    ensures Tagged(number, EntryBody(key, value))
         == [8 * number + 2] + Delimited([0x0a] + Delimited(key) + ([0x12] + Delimited(value)))
  {
    hide Delimited;
  }

  lemma {:induction false} EntriesAre(number: nat, args: map<bytes, bytes>, order: seq<bytes>)
    requires 1 <= number <= 15 && forall k :: k in order ==> k in args
    ensures EncodeEntries(number, args, order) == EntriesBytes(8 * number + 2, args, order)
    decreases |order|
  {
    hide Delimited, Tagged, EntryBody;
    if order != [] {
      EntryIs(number, order[0], args[order[0]]);
      EntriesAre(number, args, order[1..]);
    }
  }

  /** The bytes of one field, by its number and what it is. */
  ghost function FieldBytes(f: DurationFormat, number: nat, v: Value, order: seq<bytes>): bytes
    requires 1 <= number <= 15 && (v.Args? ==> IsOrder(order, v.args))
  {
    match v
    case Text(text) => TextBytes(8 * number + 2, text)
    case Number(n) => NumberBytes(8 * number, n)
    case OptionalTime(time) => OptionalTimeBytes(f, 8 * number + 2, time)
    case Time(d) => TimeBytes(f, 8 * number + 2, d)
    case Args(args) => EntriesBytes(8 * number + 2, args, order)
  }

  lemma ValueIs(f: DurationFormat, number: nat, v: Value, order: seq<bytes>)
    requires 1 <= number <= 15 && (v.Args? ==> IsOrder(order, v.args))
    ensures EncodeValue(f, number, v, order) == FieldBytes(f, number, v, order)
  {
    hide Delimited, EncodeVarint, EncodeEntries, EntriesBytes;
    if v.Args? {
      EntriesAre(number, v.args, order);
    }
  }

  /** One field in front of the others. */
  lemma FieldFirst(f: DurationFormat, m: Message, order: seq<bytes>, i: nat)
    requires i < |m| <= 15 && Walks(order, m)
    ensures EncodeFrom(f, m, order, i) == FieldBytes(f, i + 1, m[i], order) + EncodeFrom(f, m, order, i + 1)
  {
    hide EncodeValue, FieldBytes;
    ValueIs(f, i + 1, m[i], order);
  }

  lemma NoField(f: DurationFormat, m: Message, order: seq<bytes>)
    requires |m| <= 15 && Walks(order, m)
    ensures EncodeFrom(f, m, order, |m|) == []
  {}

  // ------------------------------------------------------------------ the messages

  function SuiteRequestBytes(suite: bytes, args: map<bytes, bytes>, order: seq<bytes>): bytes
    requires forall k :: k in order ==> k in args
  {
    TextBytes(0x0a, suite) + EntriesBytes(0x12, args, order)
  }

  lemma SuiteRequestLayout(f: DurationFormat, suite: bytes, args: map<bytes, bytes>, order: seq<bytes>)
    requires IsOrder(order, args)
    ensures Encode(f, [Text(suite), Args(args)], order) == SuiteRequestBytes(suite, args, order)
  {
    hide EncodeFrom, TextBytes, EntriesBytes;
    var m := [Text(suite), Args(args)];
    FieldFirst(f, m, order, 0);
    FieldFirst(f, m, order, 1);
    NoField(f, m, order);
    assert EntriesBytes(0x12, args, order) + [] == EntriesBytes(0x12, args, order);
  }

  function BenchmarkRequestBytes(suite: bytes, benchmark: bytes, args: map<bytes, bytes>, order: seq<bytes>): bytes
    requires forall k :: k in order ==> k in args
  {
    TextBytes(0x0a, suite) + (TextBytes(0x12, benchmark) + EntriesBytes(0x1a, args, order))
  }

  lemma BenchmarkRequestLayout(f: DurationFormat, suite: bytes, benchmark: bytes,
                               args: map<bytes, bytes>, order: seq<bytes>)
    requires IsOrder(order, args)
    ensures Encode(f, [Text(suite), Text(benchmark), Args(args)], order)
         == BenchmarkRequestBytes(suite, benchmark, args, order)
  {
    hide EncodeFrom, TextBytes, EntriesBytes;
    var m := [Text(suite), Text(benchmark), Args(args)];
    FieldFirst(f, m, order, 0);
    FieldFirst(f, m, order, 1);
    FieldFirst(f, m, order, 2);
    NoField(f, m, order);
    assert EntriesBytes(0x1a, args, order) + [] == EntriesBytes(0x1a, args, order);
  }

  function RunRequestBytes(f: DurationFormat, suite: bytes, benchmark: bytes, requests: uint32,
                           duration: Option<Duration>, parallelism: uint32,
                           args: map<bytes, bytes>, order: seq<bytes>): bytes
    requires forall k :: k in order ==> k in args
  {
    TextBytes(0x0a, suite) + (TextBytes(0x12, benchmark) + (NumberBytes(0x18, requests)
    + (OptionalTimeBytes(f, 0x22, duration) + (NumberBytes(0x28, parallelism)
    + EntriesBytes(0x32, args, order)))))
  }

  lemma RunRequestLayout(f: DurationFormat, suite: bytes, benchmark: bytes, requests: uint32,
                         duration: Option<Duration>, parallelism: uint32,
                         args: map<bytes, bytes>, order: seq<bytes>)
    requires IsOrder(order, args)
    ensures Encode(f, [Text(suite), Text(benchmark), Number(requests), OptionalTime(duration),
                       Number(parallelism), Args(args)], order)
         == RunRequestBytes(f, suite, benchmark, requests, duration, parallelism, args, order)
  {
    hide EncodeFrom, TextBytes, NumberBytes, OptionalTimeBytes, EntriesBytes;
    var m := [Text(suite), Text(benchmark), Number(requests), OptionalTime(duration),
              Number(parallelism), Args(args)];
    FieldFirst(f, m, order, 0);
    FieldFirst(f, m, order, 1);
    FieldFirst(f, m, order, 2);
    FieldFirst(f, m, order, 3);
    FieldFirst(f, m, order, 4);
    FieldFirst(f, m, order, 5);
    NoField(f, m, order);
    assert EntriesBytes(0x32, args, order) + [] == EntriesBytes(0x32, args, order);
  }

  function RunResponseBytes(f: DurationFormat, suite: bytes, benchmark: bytes, requests: uint32,
                            duration: Duration, latency: Duration, latency50: Duration,
                            latency75: Duration, latency95: Duration, latency99: Duration): bytes
  {
    TextBytes(0x0a, suite) + (TextBytes(0x12, benchmark) + (NumberBytes(0x18, requests)
    + (TimeBytes(f, 0x22, duration) + (TimeBytes(f, 0x2a, latency) + (TimeBytes(f, 0x32, latency50)
    + (TimeBytes(f, 0x3a, latency75) + (TimeBytes(f, 0x42, latency95) + TimeBytes(f, 0x4a, latency99))))))))
  }

  lemma RunResponseLayout(f: DurationFormat, suite: bytes, benchmark: bytes, requests: uint32,
                          duration: Duration, latency: Duration, latency50: Duration,
                          latency75: Duration, latency95: Duration, latency99: Duration)
    ensures Encode(f, [Text(suite), Text(benchmark), Number(requests), Time(duration), Time(latency),
                       Time(latency50), Time(latency75), Time(latency95), Time(latency99)], [])
         == RunResponseBytes(f, suite, benchmark, requests, duration, latency, latency50,
                             latency75, latency95, latency99)
  {
    hide EncodeFrom, TextBytes, NumberBytes, TimeBytes;
    var m := [Text(suite), Text(benchmark), Number(requests), Time(duration), Time(latency),
              Time(latency50), Time(latency75), Time(latency95), Time(latency99)];
    FieldFirst(f, m, [], 0);
    FieldFirst(f, m, [], 1);
    FieldFirst(f, m, [], 2);
    FieldFirst(f, m, [], 3);
    FieldFirst(f, m, [], 4);
    FieldFirst(f, m, [], 5);
    FieldFirst(f, m, [], 6);
    FieldFirst(f, m, [], 7);
    FieldFirst(f, m, [], 8);
    NoField(f, m, []);
    assert TimeBytes(f, 0x4a, latency99) + [] == TimeBytes(f, 0x4a, latency99);
  }

  // ------------------------------------------------------------------ one field alone

  /** The bytes of one text field and nothing else; likewise for the other kinds. */
  predicate IsTextField(data: bytes, tag: byte, text: bytes) {
    data == [tag] + Delimited(text) && |text| < TWO_TO_63
  }

  predicate IsNumberField(data: bytes, tag: byte, n: uint32) {
    data == [tag] + EncodeVarint(n)
  }

  ghost predicate IsTimeField(f: DurationFormat, data: bytes, tag: byte, d: Duration) {
    f.Valid() && data == [tag] + Delimited(f.encode(d)) && |f.encode(d)| < TWO_TO_63
  }

  predicate IsEntryField(data: bytes, tag: byte, key: bytes, value: bytes) {
    data == [tag] + Delimited([0x0a] + Delimited(key) + ([0x12] + Delimited(value)))
    && |[0x0a] + Delimited(key) + ([0x12] + Delimited(value))| < TWO_TO_63
  }

  /** One text field alone sets that field and nothing else. */
  lemma TextAlone(f: DurationFormat, data: bytes, number: nat, text: bytes, m: Message)
    requires 1 <= number <= |m| <= 15 && m[number - 1].Text?
    requires IsTextField(data, 8 * number + 2, text)
    ensures Decode(f, data, m) == Ok(m[number - 1 := Text(text)])
  {
    hide ReadField, Delimited;
    TextField(f, number, text, m, []);
    OneField(f, data, [], m, m[number - 1 := Text(text)]);
    assert data + [] == data;
  }

  lemma NumberAlone(f: DurationFormat, data: bytes, number: nat, n: uint32, m: Message)
    requires 1 <= number <= |m| <= 15 && m[number - 1].Number?
    requires IsNumberField(data, 8 * number, n)
    ensures Decode(f, data, m) == Ok(m[number - 1 := Number(n)])
  {
    hide ReadField, EncodeVarint;
    NumberField(f, number, n, m, []);
    OneField(f, data, [], m, m[number - 1 := Number(n)]);
    assert data + [] == data;
  }

  lemma TimeAlone(f: DurationFormat, data: bytes, number: nat, d: Duration, m: Message)
    requires 1 <= number <= |m| <= 15 && (m[number - 1].Time? || m[number - 1].OptionalTime?)
    requires IsTimeField(f, data, 8 * number + 2, d)
    ensures Decode(f, data, m)
         == Ok(m[number - 1 := if m[number - 1].Time? then Time(d) else OptionalTime(Some(d))])
  {
    hide ReadField, Delimited;
    TimeField(f, number, d, m, []);
    OneField(f, data, [], m, m[number - 1 := if m[number - 1].Time? then Time(d) else OptionalTime(Some(d))]);
    assert data + [] == data;
  }

  lemma EntryAlone(f: DurationFormat, data: bytes, number: nat, key: bytes, value: bytes, m: Message)
    requires 1 <= number <= |m| <= 15 && m[number - 1].Args?
    requires IsEntryField(data, 8 * number + 2, key, value)
    ensures Decode(f, data, m) == Ok(m[number - 1 := Args(m[number - 1].args[key := value])])
  {
    hide ReadField, Delimited;
    ArgsField(f, number, key, value, m, []);
    OneField(f, data, [], m, m[number - 1 := Args(m[number - 1].args[key := value])]);
    assert data + [] == data;
  }

  // ------------------------------------------------------------------ byte for byte

  /** Varints, spelled out: 300 is 0xac 0x02, and 16384 is 0x80 0x80 0x01. */
  lemma SomeVarints()
    ensures EncodeVarint(1) == [0x01] && EncodeVarint(300) == [0xac, 0x02]
    ensures EncodeVarint(16384) == [0x80, 0x80, 0x01]
  {
    assert EncodeVarint(2) == [0x02];
    assert EncodeVarint(128) == [0x80] + EncodeVarint(1);
  }

  /** A benchmark request, spelled out: suite "s", benchmark "b", argument "k" with value "v". */
  lemma SomeRequest()
    ensures BenchmarkRequestBytes([0x73], [0x62], map[[0x6b] := [0x76]], [[0x6b]])
         == [0x0a, 0x01, 0x73, 0x12, 0x01, 0x62, 0x1a, 0x06, 0x0a, 0x01, 0x6b, 0x12, 0x01, 0x76]
  {
    hide EntriesBytes, Delimited;
    Short([0x73]);
    Short([0x62]);
    Short([0x6b]);
    Short([0x76]);
    var body: bytes := [0x0a] + Delimited([0x6b]) + ([0x12] + Delimited([0x76]));
    assert body == [0x0a, 0x01, 0x6b, 0x12, 0x01, 0x76];
    Short(body);
    OneEntry(0x1a, [0x6b], [0x76]);
  }

  lemma Short(payload: bytes)
    requires |payload| < 128
    ensures Delimited(payload) == [|payload|] + payload
  {}

  lemma OneEntry(tag: byte, key: bytes, value: bytes)
    ensures EntriesBytes(tag, map[key := value], [key])
         == [tag] + Delimited([0x0a] + Delimited(key) + ([0x12] + Delimited(value)))
  {
    hide Delimited;
    assert [key][1..] == [];
    assert EntriesBytes(tag, map[key := value], []) == [];
  }
}
