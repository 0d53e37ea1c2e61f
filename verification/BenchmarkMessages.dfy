/** The benchmark service's messages, as classes whose fields the unmarshaller updates in place. */
module BenchmarkMessages {
  import opened Basics
  import opened Varint
  import opened Messages
  import opened MessageLaws
  import opened MessageSizes
  import opened Buffer
  import opened Layout
  import opened Counting

  const SUITE_REQUEST: Schema := [TextKind, ArgsKind]
  const BENCHMARK_REQUEST: Schema := [TextKind, TextKind, ArgsKind]
  const RUN_REQUEST: Schema := [TextKind, TextKind, NumberKind, OptionalTimeKind, NumberKind, ArgsKind]
  const RUN_RESPONSE: Schema :=
    [TextKind, TextKind, NumberKind, TimeKind, TimeKind, TimeKind, TimeKind, TimeKind, TimeKind]

  /** The arguments of a suite or worker set-up. */
  class SuiteRequest {
    var suite: bytes
    var args: map<bytes, bytes>

    ghost function Value(): (m: Message)
      reads this
      ensures Matches(SUITE_REQUEST, m)
    {
      [Text(suite), Args(args)]
    }

    constructor ()
      ensures Value() == Empty(SUITE_REQUEST)
    {
      suite, args := [], map[];
    }

    /** The number of bytes an encoding of this message has. */
    method Size(f: DurationFormat) returns (n: nat)
      ensures n == LengthFrom(f, Value(), 0)
    {
      hide LengthFrom, Sov;
      ghost var m := Value();
      n := 0;
      LengthUnfold(f, m, 0);
      n := n + TextLength(suite);
      LengthUnfold(f, m, 1);
      var l := SizeOfArgs(args);
      n := n + l;
    }

    /** Writes the fields from last to first; the result is the number of bytes written. */
    method MarshalToSizedBuffer(f: DurationFormat, data: array<byte>) returns (n: nat, ghost order: seq<bytes>)
      requires LengthFrom(f, Value(), 0) <= data.Length < TWO_TO_63
      modifies data
      ensures Walks(order, Value())
      ensures n == LengthFrom(f, Value(), 0)
      ensures data[data.Length - n..] == Encode(f, Value(), order)
      ensures IsOrder(order, args) && data[data.Length - n..] == SuiteRequestBytes(suite, args, order)
      ensures forall k :: 0 <= k < data.Length - n ==> data[k] == old(data[k])
    {
      hide EncodeFrom, LengthFrom, SuiteRequestBytes;
      ghost var m := Value();
      var i := data.Length;
      i, order := PutArgs(data, i, 0x12, args, f, m);
      i := PutText(data, i, 0x0a, suite, f, m, order, 0);
      n := data.Length - i;
      assert Value()[1] == Args(args);
      SuiteRequestLayout(f, suite, args, order);
    }

    /** A fresh buffer of exactly the size of the message holds exactly its encoding. */
    method Marshal(f: DurationFormat) returns (out: bytes)
      requires LengthFrom(f, Value(), 0) < TWO_TO_63
      ensures exists order :: Walks(order, Value()) && out == Encode(f, Value(), order)
                              && IsOrder(order, args) && out == SuiteRequestBytes(suite, args, order)
    {
      hide LengthFrom, EncodeFrom, SuiteRequestBytes;
      var size := Size(f);
      var data := new byte[size];
      var n, order := MarshalToSizedBuffer(f, data);
      out := data[..n];
      assert data[..n] == data[data.Length - n..];
    }

    /** One field: its tag, then the field the tag names, or a skip; after an error, what was left. */
    method UnmarshalField(f: DurationFormat, data: bytes, preIndex: nat) returns (r: Read<()>)
      requires preIndex <= |data|
      modifies this
      ensures r.Done? ==> ReadField(f, data[preIndex..], old(Value())) == Done(Value(), r.size)
      ensures r.Fail? ==> ReadField(f, data[preIndex..], old(Value())) == Fail(r.error)
                          && Value() == FieldLeft(data[preIndex..], old(Value()))
    {
      hide ReadField, FieldLeft, ReadTag, ReadUnknown, ReadValue, ValueLeft;
      hide ReadText, ReadNumber, ReadTime, ReadEntry, NumberLeft;
      ghost var before := Value();
      FieldCases(f, data[preIndex..], before);
      assert forall k :: 0 <= k < |before| ==> before[k := before[k]] == before;
      var tag := ReadTagAt(data, preIndex);
      if tag.Fail? {
        return Fail(tag.error);
      }
      var (fieldNum, wireType) := tag.value;
      var i := preIndex + tag.size;
      assert data[preIndex..][tag.size..] == data[i..];
      if fieldNum == 1 {
        TextValue(f, before[fieldNum - 1], data[i..], wireType);
        var text := ReadTextAt(data, i, wireType);
        if text.Fail? {
          return Fail(text.error);
        }
        suite := text.value;
        i := i + text.size;
      } else if fieldNum == 2 {
        ArgsValue(f, before[fieldNum - 1], data[i..], wireType);
        var entry := ReadEntryAt(data, i, wireType);
        if entry.Fail? {
          return Fail(entry.error);
        }
        args := args[entry.value.0 := entry.value.1];
        i := i + entry.size;
      } else {
        var unknown := SkipUnknownAt(data, preIndex);
        return unknown;
      }
      assert Value() == before[fieldNum - 1 := Value()[fieldNum - 1]];
      r := Done((), i - preIndex);
    }

    /** The loop over all fields. */
    method UnmarshalLoop(f: DurationFormat, data: bytes) returns (err: Option<Error>)
      modifies this
      ensures err.None? ==> Decode(f, data, old(Value())) == Ok(Value())
      ensures err.Some? ==> Decode(f, data, old(Value())) == Err(err.value)
      ensures Value() == DecodeLeft(f, data, old(Value()))
    {
      hide ReadField, FieldLeft;
      var i := 0;
      assert data[0..] == data;
      while i < |data|
        invariant i <= |data|
        invariant Decode(f, data, old(Value())) == Decode(f, data[i..], Value())
        invariant DecodeLeft(f, data, old(Value())) == DecodeLeft(f, data[i..], Value())
      {
        var r := UnmarshalField(f, data, i);
        if r.Fail? {
          return Some(r.error);
        }
        assert data[i..][r.size..] == data[i + r.size..];
        i := i + r.size;
      }
      err := None;
    }

    /** All fields; after an error the fields hold what had been read before it. One field alone, by its
        tag byte, sets the field of that name and no other. */
    method Unmarshal(f: DurationFormat, data: bytes) returns (err: Option<Error>)
      modifies this
      ensures err.None? ==> Decode(f, data, old(Value())) == Ok(Value())
      ensures err.Some? ==> Decode(f, data, old(Value())) == Err(err.value)
      ensures Value() == DecodeLeft(f, data, old(Value()))
      ensures forall text: bytes :: IsTextField(data, 0x0a, text) ==>
                err == None && suite == text
                && args == old(args)
      ensures forall key: bytes, value: bytes :: IsEntryField(data, 0x12, key, value) ==>
                err == None && args == old(args)[key := value]
                && suite == old(suite)
    {
      hide Decode, DecodeLeft, IsTextField, IsNumberField, IsTimeField, IsEntryField;
      ghost var before := Value();
      assert before[0] == Text(suite) && before[1] == Args(args);
      forall text: bytes | IsTextField(data, 0x0a, text)
        ensures Decode(f, data, before) == Ok(before[0 := Text(text)])
      {
        TextAlone(f, data, 1, text, before);
      }
      forall key: bytes, value: bytes | IsEntryField(data, 0x12, key, value)
        ensures Decode(f, data, before) == Ok(before[1 := Args(args[key := value])])
      {
        EntryAlone(f, data, 2, key, value, before);
      }
      err := UnmarshalLoop(f, data);
      assert Value()[0] == Text(suite) && Value()[1] == Args(args);
    }
  }

  /** The bytes of one message, read into a new one, give the same message. */
  method CopySuiteRequest(f: DurationFormat, x: SuiteRequest) returns (y: SuiteRequest)
    requires f.Valid() && LengthFrom(f, x.Value(), 0) < TWO_TO_63
    ensures fresh(y) && y.Value() == x.Value() == old(x.Value())
    ensures y.suite == x.suite && y.args == x.args
  {
    hide Encode, LengthFrom, Decode;
    var data := x.Marshal(f);
    ghost var order :| Walks(order, x.Value()) && data == Encode(f, x.Value(), order);
    y := new SuiteRequest();
    SizeOrderFree(f, x.Value(), order, order);
    RoundTrip(f, SUITE_REQUEST, x.Value(), order);
    var err := y.Unmarshal(f, data);
  }

  /** The arguments of a benchmark set-up. */
  class BenchmarkRequest {
    var suite: bytes
    var benchmark: bytes
    var args: map<bytes, bytes>

    ghost function Value(): (m: Message)
      reads this
      ensures Matches(BENCHMARK_REQUEST, m)
    {
      [Text(suite), Text(benchmark), Args(args)]
    }

    constructor ()
      ensures Value() == Empty(BENCHMARK_REQUEST)
    {
      suite, benchmark, args := [], [], map[];
    }

    /** The number of bytes an encoding of this message has. */
    method Size(f: DurationFormat) returns (n: nat)
      ensures n == LengthFrom(f, Value(), 0)
    {
      hide LengthFrom, Sov;
      ghost var m := Value();
      n := 0;
      LengthUnfold(f, m, 0);
      n := n + TextLength(suite);
      LengthUnfold(f, m, 1);
      n := n + TextLength(benchmark);
      LengthUnfold(f, m, 2);
      var l := SizeOfArgs(args);
      n := n + l;
    }

    /** Writes the fields from last to first; the result is the number of bytes written. */
    method MarshalToSizedBuffer(f: DurationFormat, data: array<byte>) returns (n: nat, ghost order: seq<bytes>)
      requires LengthFrom(f, Value(), 0) <= data.Length < TWO_TO_63
      modifies data
      ensures Walks(order, Value())
      ensures n == LengthFrom(f, Value(), 0)
      ensures data[data.Length - n..] == Encode(f, Value(), order)
      ensures IsOrder(order, args) && data[data.Length - n..] == BenchmarkRequestBytes(suite, benchmark, args, order)
      ensures forall k :: 0 <= k < data.Length - n ==> data[k] == old(data[k])
    {
      hide EncodeFrom, LengthFrom, BenchmarkRequestBytes;
      ghost var m := Value();
      var i := data.Length;
      i, order := PutArgs(data, i, 0x1a, args, f, m);
      i := PutText(data, i, 0x12, benchmark, f, m, order, 1);
      i := PutText(data, i, 0x0a, suite, f, m, order, 0);
      n := data.Length - i;
      assert Value()[2] == Args(args);
      BenchmarkRequestLayout(f, suite, benchmark, args, order);
    }

    /** A fresh buffer of exactly the size of the message holds exactly its encoding. */
    method Marshal(f: DurationFormat) returns (out: bytes)
      requires LengthFrom(f, Value(), 0) < TWO_TO_63
      ensures exists order :: Walks(order, Value()) && out == Encode(f, Value(), order)
                              && IsOrder(order, args) && out == BenchmarkRequestBytes(suite, benchmark, args, order)
    {
      hide LengthFrom, EncodeFrom, BenchmarkRequestBytes;
      var size := Size(f);
      var data := new byte[size];
      var n, order := MarshalToSizedBuffer(f, data);
      out := data[..n];
      assert data[..n] == data[data.Length - n..];
    }

    /** One field: its tag, then the field the tag names, or a skip; after an error, what was left. */
    method UnmarshalField(f: DurationFormat, data: bytes, preIndex: nat) returns (r: Read<()>)
      requires preIndex <= |data|
      modifies this
      ensures r.Done? ==> ReadField(f, data[preIndex..], old(Value())) == Done(Value(), r.size)
      ensures r.Fail? ==> ReadField(f, data[preIndex..], old(Value())) == Fail(r.error)
                          && Value() == FieldLeft(data[preIndex..], old(Value()))
    {
      hide ReadField, FieldLeft, ReadTag, ReadUnknown, ReadValue, ValueLeft;
      hide ReadText, ReadNumber, ReadTime, ReadEntry, NumberLeft;
      ghost var before := Value();
      FieldCases(f, data[preIndex..], before);
      assert forall k :: 0 <= k < |before| ==> before[k := before[k]] == before;
      var tag := ReadTagAt(data, preIndex);
      if tag.Fail? {
        return Fail(tag.error);
      }
      var (fieldNum, wireType) := tag.value;
      var i := preIndex + tag.size;
      assert data[preIndex..][tag.size..] == data[i..];
      if fieldNum == 1 || fieldNum == 2 {
        TextValue(f, before[fieldNum - 1], data[i..], wireType);
        var text := ReadTextAt(data, i, wireType);
        if text.Fail? {
          return Fail(text.error);
        }
        if fieldNum == 1 {
          suite := text.value;
        } else {
          benchmark := text.value;
        }
        i := i + text.size;
      } else if fieldNum == 3 {
        ArgsValue(f, before[fieldNum - 1], data[i..], wireType);
        var entry := ReadEntryAt(data, i, wireType);
        if entry.Fail? {
          return Fail(entry.error);
        }
        args := args[entry.value.0 := entry.value.1];
        i := i + entry.size;
      } else {
        var unknown := SkipUnknownAt(data, preIndex);
        return unknown;
      }
      assert Value() == before[fieldNum - 1 := Value()[fieldNum - 1]];
      r := Done((), i - preIndex);
    }

    /** The loop over all fields. */
    method UnmarshalLoop(f: DurationFormat, data: bytes) returns (err: Option<Error>)
      modifies this
      ensures err.None? ==> Decode(f, data, old(Value())) == Ok(Value())
      ensures err.Some? ==> Decode(f, data, old(Value())) == Err(err.value)
      ensures Value() == DecodeLeft(f, data, old(Value()))
    {
      hide ReadField, FieldLeft;
      var i := 0;
      assert data[0..] == data;
      while i < |data|
        invariant i <= |data|
        invariant Decode(f, data, old(Value())) == Decode(f, data[i..], Value())
        invariant DecodeLeft(f, data, old(Value())) == DecodeLeft(f, data[i..], Value())
      {
        var r := UnmarshalField(f, data, i);
        if r.Fail? {
          return Some(r.error);
        }
        assert data[i..][r.size..] == data[i + r.size..];
        i := i + r.size;
      }
      err := None;
    }

    /** All fields; after an error the fields hold what had been read before it. One field alone, by its
        tag byte, sets the field of that name and no other. */
    method Unmarshal(f: DurationFormat, data: bytes) returns (err: Option<Error>)
      modifies this
      ensures err.None? ==> Decode(f, data, old(Value())) == Ok(Value())
      ensures err.Some? ==> Decode(f, data, old(Value())) == Err(err.value)
      ensures Value() == DecodeLeft(f, data, old(Value()))
      ensures forall text: bytes :: IsTextField(data, 0x0a, text) ==>
                err == None && suite == text
                && benchmark == old(benchmark) && args == old(args)
      ensures forall text: bytes :: IsTextField(data, 0x12, text) ==>
                err == None && benchmark == text
                && suite == old(suite) && args == old(args)
      ensures forall key: bytes, value: bytes :: IsEntryField(data, 0x1a, key, value) ==>
                err == None && args == old(args)[key := value]
                && suite == old(suite) && benchmark == old(benchmark)
    {
      hide Decode, DecodeLeft, IsTextField, IsNumberField, IsTimeField, IsEntryField;
      ghost var before := Value();
      assert before[0] == Text(suite) && before[1] == Text(benchmark) && before[2] == Args(args);
      forall text: bytes | IsTextField(data, 0x0a, text)
        ensures Decode(f, data, before) == Ok(before[0 := Text(text)])
      {
        TextAlone(f, data, 1, text, before);
      }
      forall text: bytes | IsTextField(data, 0x12, text)
        ensures Decode(f, data, before) == Ok(before[1 := Text(text)])
      {
        TextAlone(f, data, 2, text, before);
      }
      forall key: bytes, value: bytes | IsEntryField(data, 0x1a, key, value)
        ensures Decode(f, data, before) == Ok(before[2 := Args(args[key := value])])
      {
        EntryAlone(f, data, 3, key, value, before);
      }
      err := UnmarshalLoop(f, data);
      assert Value()[0] == Text(suite) && Value()[1] == Text(benchmark) && Value()[2] == Args(args);
    }
  }

  /** The bytes of one message, read into a new one, give the same message. */
  method CopyBenchmarkRequest(f: DurationFormat, x: BenchmarkRequest) returns (y: BenchmarkRequest)
    requires f.Valid() && LengthFrom(f, x.Value(), 0) < TWO_TO_63
    ensures fresh(y) && y.Value() == x.Value() == old(x.Value())
    ensures y.suite == x.suite && y.benchmark == x.benchmark && y.args == x.args
  {
    hide Encode, LengthFrom, Decode;
    var data := x.Marshal(f);
    ghost var order :| Walks(order, x.Value()) && data == Encode(f, x.Value(), order);
    y := new BenchmarkRequest();
    SizeOrderFree(f, x.Value(), order, order);
    RoundTrip(f, BENCHMARK_REQUEST, x.Value(), order);
    var err := y.Unmarshal(f, data);
  }

  /** The arguments of one benchmark run. */
  class RunRequest {
    var suite: bytes
    var benchmark: bytes
    var requests: uint32
    var duration: Option<Duration>
    var parallelism: uint32
    var args: map<bytes, bytes>

    ghost function Value(): (m: Message)
      reads this
      ensures Matches(RUN_REQUEST, m)
    {
      [Text(suite), Text(benchmark), Number(requests),
       OptionalTime(duration), Number(parallelism), Args(args)]
    }

    constructor ()
      ensures Value() == Empty(RUN_REQUEST)
    {
      suite, benchmark, requests, duration, parallelism, args := [], [], 0, None, 0, map[];
    }

    /** The number of bytes an encoding of this message has. */
    method Size(f: DurationFormat) returns (n: nat)
      ensures n == LengthFrom(f, Value(), 0)
    {
      hide LengthFrom, Sov;
      ghost var m := Value();
      n := 0;
      LengthUnfold(f, m, 0);
      n := n + TextLength(suite);
      LengthUnfold(f, m, 1);
      n := n + TextLength(benchmark);
      LengthUnfold(f, m, 2);
      if requests != 0 {
        n := n + 1 + Sov(requests);
      }
      LengthUnfold(f, m, 3);
      if duration.Some? {
        n := n + DelimitedLength(f.encode(duration.value));
      }
      LengthUnfold(f, m, 4);
      if parallelism != 0 {
        n := n + 1 + Sov(parallelism);
      }
      LengthUnfold(f, m, 5);
      var l := SizeOfArgs(args);
      n := n + l;
    }

    /** Writes the fields from last to first; the result is the number of bytes written. */
    method MarshalToSizedBuffer(f: DurationFormat, data: array<byte>) returns (n: nat, ghost order: seq<bytes>)
      requires LengthFrom(f, Value(), 0) <= data.Length < TWO_TO_63
      modifies data
      ensures Walks(order, Value())
      ensures n == LengthFrom(f, Value(), 0)
      ensures data[data.Length - n..] == Encode(f, Value(), order)
      ensures IsOrder(order, args)
        && data[data.Length - n..] == RunRequestBytes(f, suite, benchmark, requests, duration, parallelism, args, order)
      ensures forall k :: 0 <= k < data.Length - n ==> data[k] == old(data[k])
    {
      hide EncodeFrom, LengthFrom, RunRequestBytes;
      ghost var m := Value();
      var i := data.Length;
      i, order := PutArgs(data, i, 0x32, args, f, m);
      i := PutNumber(data, i, 0x28, parallelism, f, m, order, 4);
      if duration.Some? {
        i := PutTime(data, i, 0x22, duration.value, f, m, order, 3);
      } else {
        NoTime(data, i, f, m, order, 3);
      }
      i := PutNumber(data, i, 0x18, requests, f, m, order, 2);
      i := PutText(data, i, 0x12, benchmark, f, m, order, 1);
      i := PutText(data, i, 0x0a, suite, f, m, order, 0);
      n := data.Length - i;
      assert Value()[5] == Args(args);
      RunRequestLayout(f, suite, benchmark, requests, duration, parallelism, args, order);
    }

    /** A fresh buffer of exactly the size of the message holds exactly its encoding. */
    method Marshal(f: DurationFormat) returns (out: bytes)
      requires LengthFrom(f, Value(), 0) < TWO_TO_63
      ensures exists order :: Walks(order, Value()) && out == Encode(f, Value(), order)
                              && IsOrder(order, args)
                              && out == RunRequestBytes(f, suite, benchmark, requests, duration, parallelism, args, order)
    {
      hide LengthFrom, EncodeFrom, RunRequestBytes;
      var size := Size(f);
      var data := new byte[size];
      var n, order := MarshalToSizedBuffer(f, data);
      out := data[..n];
      assert data[..n] == data[data.Length - n..];
    }

    /** The suite or the benchmark name. */
    method SetText(fieldNum: nat, text: bytes)
      requires 1 <= fieldNum <= 2
      modifies this
      ensures Value() == old(Value())[fieldNum - 1 := Text(text)]
    {
      if fieldNum == 1 {
        suite := text;
      } else {
        benchmark := text;
      }
    }

    /** The requests or the parallelism. */
    method SetNumber(fieldNum: nat, n: uint32)
      requires fieldNum == 3 || fieldNum == 5
      modifies this
      ensures Value() == old(Value())[fieldNum - 1 := Number(n)]
    {
      if fieldNum == 3 {
        requests := n;
      } else {
        parallelism := n;
      }
    }

    /** One field: its tag, then the field the tag names, or a skip; after an error, what was left. */
    method UnmarshalField(f: DurationFormat, data: bytes, preIndex: nat) returns (r: Read<()>)
      requires preIndex <= |data|
      modifies this
      ensures r.Done? ==> ReadField(f, data[preIndex..], old(Value())) == Done(Value(), r.size)
      ensures r.Fail? ==> ReadField(f, data[preIndex..], old(Value())) == Fail(r.error)
                          && Value() == FieldLeft(data[preIndex..], old(Value()))
    {
      hide ReadField, FieldLeft, ReadTag, ReadUnknown, ReadValue, ValueLeft, ReadText, ReadNumber, ReadEntry, NumberLeft;
      ghost var before := Value();
      FieldCases(f, data[preIndex..], before);
      assert forall k :: 0 <= k < |before| ==> before[k := before[k]] == before;
      var tag := ReadTagAt(data, preIndex);
      if tag.Fail? {
        return Fail(tag.error);
      }
      var (fieldNum, wireType) := tag.value;
      var i := preIndex + tag.size;
      assert data[preIndex..][tag.size..] == data[i..];
      if fieldNum == 1 || fieldNum == 2 {
        TextValue(f, before[fieldNum - 1], data[i..], wireType);
        var text := ReadTextAt(data, i, wireType);
        if text.Fail? {
          return Fail(text.error);
        }
        SetText(fieldNum, text.value);
        i := i + text.size;
      } else if fieldNum == 3 || fieldNum == 5 {
        NumberValue(f, before[fieldNum - 1], data[i..], wireType);
        var number, left := ReadNumberAt(data, i, wireType, if fieldNum == 3 then requests else parallelism);
        SetNumber(fieldNum, left);
        if number.Fail? {
          return Fail(number.error);
        }
        i := i + number.size;
      } else if fieldNum == 4 {
        OptionalTimeValue(f, before[fieldNum - 1], data[i..], wireType);
        var payload := ReadTextAt(data, i, wireType);
        if payload.Fail? {
          return Fail(payload.error);
        }
        if duration.None? {
          duration := Some(0);
        }
        var time := f.decode(payload.value);
        if time.None? {
          return Fail(BadDuration);
        }
        duration := time;
        i := i + payload.size;
      } else if fieldNum == 6 {
        ArgsValue(f, before[fieldNum - 1], data[i..], wireType);
        var entry := ReadEntryAt(data, i, wireType);
        if entry.Fail? {
          return Fail(entry.error);
        }
        args := args[entry.value.0 := entry.value.1];
        i := i + entry.size;
      } else {
        var unknown := SkipUnknownAt(data, preIndex);
        return unknown;
      }
      assert Value() == before[fieldNum - 1 := Value()[fieldNum - 1]];
      r := Done((), i - preIndex);
    }

    /** The loop over all fields. */
    method UnmarshalLoop(f: DurationFormat, data: bytes) returns (err: Option<Error>)
      modifies this
      ensures err.None? ==> Decode(f, data, old(Value())) == Ok(Value())
      ensures err.Some? ==> Decode(f, data, old(Value())) == Err(err.value)
      ensures Value() == DecodeLeft(f, data, old(Value()))
    {
      hide ReadField, FieldLeft;
      var i := 0;
      assert data[0..] == data;
      while i < |data|
        invariant i <= |data|
        invariant Decode(f, data, old(Value())) == Decode(f, data[i..], Value())
        invariant DecodeLeft(f, data, old(Value())) == DecodeLeft(f, data[i..], Value())
      {
        var r := UnmarshalField(f, data, i);
        if r.Fail? {
          return Some(r.error);
        }
        assert data[i..][r.size..] == data[i + r.size..];
        i := i + r.size;
      }
      err := None;
    }

    /** All fields; after an error the fields hold what had been read before it. One field alone, by its
        tag byte, sets the field of that name and no other. */
    method Unmarshal(f: DurationFormat, data: bytes) returns (err: Option<Error>)
      modifies this
      ensures err.None? ==> Decode(f, data, old(Value())) == Ok(Value())
      ensures err.Some? ==> Decode(f, data, old(Value())) == Err(err.value)
      ensures Value() == DecodeLeft(f, data, old(Value()))
      ensures forall text: bytes :: IsTextField(data, 0x0a, text) ==>
                err == None && suite == text
                && benchmark == old(benchmark) && requests == old(requests) && parallelism == old(parallelism)
                && duration == old(duration) && args == old(args)
      ensures forall text: bytes :: IsTextField(data, 0x12, text) ==>
                err == None && benchmark == text
                && suite == old(suite) && requests == old(requests) && parallelism == old(parallelism)
                && duration == old(duration) && args == old(args)
      ensures forall n: uint32 :: IsNumberField(data, 0x18, n) ==>
                err == None && requests == n
                && suite == old(suite) && benchmark == old(benchmark) && parallelism == old(parallelism)
                && duration == old(duration) && args == old(args)
      ensures forall n: uint32 :: IsNumberField(data, 0x28, n) ==>
                err == None && parallelism == n
                && suite == old(suite) && benchmark == old(benchmark) && requests == old(requests)
                && duration == old(duration) && args == old(args)
      ensures forall d: Duration :: IsTimeField(f, data, 0x22, d) ==>
                err == None && duration == Some(d)
                && suite == old(suite) && benchmark == old(benchmark) && requests == old(requests)
                && parallelism == old(parallelism) && args == old(args)
      ensures forall key: bytes, value: bytes :: IsEntryField(data, 0x32, key, value) ==>
                err == None && args == old(args)[key := value]
                && suite == old(suite) && benchmark == old(benchmark) && requests == old(requests)
                && parallelism == old(parallelism) && duration == old(duration)
    {
      hide Decode, DecodeLeft, IsTextField, IsNumberField, IsTimeField, IsEntryField;
      ghost var before := Value();
      assert before[0] == Text(suite) && before[1] == Text(benchmark) && before[2] == Number(requests)
        && before[3] == OptionalTime(duration) && before[4] == Number(parallelism) && before[5] == Args(args);
      forall text: bytes | IsTextField(data, 0x0a, text)
        ensures Decode(f, data, before) == Ok(before[0 := Text(text)])
      {
        TextAlone(f, data, 1, text, before);
      }
      forall text: bytes | IsTextField(data, 0x12, text)
        ensures Decode(f, data, before) == Ok(before[1 := Text(text)])
      {
        TextAlone(f, data, 2, text, before);
      }
      forall n: uint32 | IsNumberField(data, 0x18, n)
        ensures Decode(f, data, before) == Ok(before[2 := Number(n)])
      {
        NumberAlone(f, data, 3, n, before);
      }
      forall n: uint32 | IsNumberField(data, 0x28, n)
        ensures Decode(f, data, before) == Ok(before[4 := Number(n)])
      {
        NumberAlone(f, data, 5, n, before);
      }
      forall d: Duration | IsTimeField(f, data, 0x22, d)
        ensures Decode(f, data, before) == Ok(before[3 := OptionalTime(Some(d))])
      {
        TimeAlone(f, data, 4, d, before);
      }
      forall key: bytes, value: bytes | IsEntryField(data, 0x32, key, value)
        ensures Decode(f, data, before) == Ok(before[5 := Args(args[key := value])])
      {
        EntryAlone(f, data, 6, key, value, before);
      }
      err := UnmarshalLoop(f, data);
      assert Value()[0] == Text(suite) && Value()[1] == Text(benchmark) && Value()[2] == Number(requests)
        && Value()[3] == OptionalTime(duration) && Value()[4] == Number(parallelism)
        && Value()[5] == Args(args);
    }
  }

  /** The bytes of one message, read into a new one, give the same message. */
  method CopyRunRequest(f: DurationFormat, x: RunRequest) returns (y: RunRequest)
    requires f.Valid() && LengthFrom(f, x.Value(), 0) < TWO_TO_63
    ensures fresh(y) && y.Value() == x.Value() == old(x.Value())
    ensures y.suite == x.suite && y.benchmark == x.benchmark && y.requests == x.requests
      && y.parallelism == x.parallelism && y.duration == x.duration
    ensures y.args == x.args
  {
    hide Encode, LengthFrom, Decode;
    var data := x.Marshal(f);
    ghost var order :| Walks(order, x.Value()) && data == Encode(f, x.Value(), order);
    y := new RunRequest();
    SizeOrderFree(f, x.Value(), order, order);
    RoundTrip(f, RUN_REQUEST, x.Value(), order);
    var err := y.Unmarshal(f, data);
  }

  /** The outcome of one benchmark run. */
  class RunResponse {
    var suite: bytes
    var benchmark: bytes
    var requests: uint32
    var duration: Duration
    var latency: Duration
    var latency50: Duration
    var latency75: Duration
    var latency95: Duration
    var latency99: Duration

    ghost function Value(): (m: Message)
      reads this
      ensures Matches(RUN_RESPONSE, m)
    {
      [Text(suite), Text(benchmark), Number(requests), Time(duration),
       Time(latency), Time(latency50), Time(latency75), Time(latency95), Time(latency99)]
    }

    constructor ()
      ensures Value() == Empty(RUN_RESPONSE)
    {
      suite, benchmark, requests, duration := [], [], 0, 0;
      latency, latency50, latency75, latency95, latency99 := 0, 0, 0, 0, 0;
    }

    /** The number of bytes an encoding of this message has. */
    method Size(f: DurationFormat) returns (n: nat)
      ensures n == LengthFrom(f, Value(), 0)
    {
      hide LengthFrom, Sov;
      ghost var m := Value();
      n := 0;
      LengthUnfold(f, m, 0);
      n := n + TextLength(suite);
      LengthUnfold(f, m, 1);
      n := n + TextLength(benchmark);
      LengthUnfold(f, m, 2);
      if requests != 0 {
        n := n + 1 + Sov(requests);
      }
      LengthUnfold(f, m, 3);
      n := n + DelimitedLength(f.encode(duration));
      LengthUnfold(f, m, 4);
      n := n + DelimitedLength(f.encode(latency));
      LengthUnfold(f, m, 5);
      n := n + DelimitedLength(f.encode(latency50));
      LengthUnfold(f, m, 6);
      n := n + DelimitedLength(f.encode(latency75));
      LengthUnfold(f, m, 7);
      n := n + DelimitedLength(f.encode(latency95));
      LengthUnfold(f, m, 8);
      n := n + DelimitedLength(f.encode(latency99));
    }

    /** Writes the fields from last to first; the result is the number of bytes written. */
    method MarshalToSizedBuffer(f: DurationFormat, data: array<byte>) returns (n: nat, ghost order: seq<bytes>)
      requires LengthFrom(f, Value(), 0) <= data.Length < TWO_TO_63
      modifies data
      ensures Walks(order, Value())
      ensures n == LengthFrom(f, Value(), 0)
      ensures data[data.Length - n..] == Encode(f, Value(), order)
      ensures order == []
        && data[data.Length - n..]
           == RunResponseBytes(f, suite, benchmark, requests, duration, latency, latency50, latency75,
                               latency95, latency99)
      ensures forall k :: 0 <= k < data.Length - n ==> data[k] == old(data[k])
    {
      hide EncodeFrom, LengthFrom, RunResponseBytes;
      ghost var m := Value();
      var i := data.Length;
      order := [];
      NothingWritten(data, f, m, order);
      i := PutTime(data, i, 0x4a, latency99, f, m, order, 8);
      i := PutTime(data, i, 0x42, latency95, f, m, order, 7);
      i := PutTime(data, i, 0x3a, latency75, f, m, order, 6);
      i := PutTime(data, i, 0x32, latency50, f, m, order, 5);
      i := PutTime(data, i, 0x2a, latency, f, m, order, 4);
      i := PutTime(data, i, 0x22, duration, f, m, order, 3);
      i := PutNumber(data, i, 0x18, requests, f, m, order, 2);
      i := PutText(data, i, 0x12, benchmark, f, m, order, 1);
      i := PutText(data, i, 0x0a, suite, f, m, order, 0);
      n := data.Length - i;
      RunResponseLayout(f, suite, benchmark, requests, duration, latency, latency50, latency75, latency95,
                        latency99);
    }

    /** A fresh buffer of exactly the size of the message holds exactly its encoding. */
    method Marshal(f: DurationFormat) returns (out: bytes)
      requires LengthFrom(f, Value(), 0) < TWO_TO_63
      ensures exists order :: Walks(order, Value()) && out == Encode(f, Value(), order)
      ensures out == RunResponseBytes(f, suite, benchmark, requests, duration, latency, latency50, latency75,
                                               latency95, latency99)
    {
      hide LengthFrom, EncodeFrom, RunResponseBytes;
      var size := Size(f);
      var data := new byte[size];
      var n, order := MarshalToSizedBuffer(f, data);
      out := data[..n];
      assert data[..n] == data[data.Length - n..];
    }

    /** The suite or the benchmark name. */
    method SetText(fieldNum: nat, text: bytes)
      requires 1 <= fieldNum <= 2
      modifies this
      ensures Value() == old(Value())[fieldNum - 1 := Text(text)]
    {
      if fieldNum == 1 {
        suite := text;
      } else {
        benchmark := text;
      }
    }

    /** One of the six durations. */
    method SetTime(fieldNum: nat, d: Duration)
      requires 4 <= fieldNum <= 9
      modifies this
      ensures Value() == old(Value())[fieldNum - 1 := Time(d)]
    {
      if fieldNum == 4 {
        duration := d;
      } else if fieldNum == 5 {
        latency := d;
      } else if fieldNum == 6 {
        latency50 := d;
      } else if fieldNum == 7 {
        latency75 := d;
      } else if fieldNum == 8 {
        latency95 := d;
      } else {
        latency99 := d;
      }
    }

    /** One field: its tag, then the field the tag names, or a skip; after an error, what was left. */
    method UnmarshalField(f: DurationFormat, data: bytes, preIndex: nat) returns (r: Read<()>)
      requires preIndex <= |data|
      modifies this
      ensures r.Done? ==> ReadField(f, data[preIndex..], old(Value())) == Done(Value(), r.size)
      ensures r.Fail? ==> ReadField(f, data[preIndex..], old(Value())) == Fail(r.error)
                          && Value() == FieldLeft(data[preIndex..], old(Value()))
    {
      hide ReadField, FieldLeft, ReadTag, ReadUnknown, ReadValue, ValueLeft;
      hide ReadText, ReadNumber, ReadTime, ReadEntry, NumberLeft;
      ghost var before := Value();
      FieldCases(f, data[preIndex..], before);
      assert forall k :: 0 <= k < |before| ==> before[k := before[k]] == before;
      var tag := ReadTagAt(data, preIndex);
      if tag.Fail? {
        return Fail(tag.error);
      }
      var (fieldNum, wireType) := tag.value;
      var i := preIndex + tag.size;
      assert data[preIndex..][tag.size..] == data[i..];
      if fieldNum == 1 || fieldNum == 2 {
        TextValue(f, before[fieldNum - 1], data[i..], wireType);
        var text := ReadTextAt(data, i, wireType);
        if text.Fail? {
          return Fail(text.error);
        }
        SetText(fieldNum, text.value);
        i := i + text.size;
      } else if fieldNum == 3 {
        NumberValue(f, before[fieldNum - 1], data[i..], wireType);
        var number, left := ReadNumberAt(data, i, wireType, requests);
        requests := left;
        if number.Fail? {
          return Fail(number.error);
        }
        i := i + number.size;
      } else if 4 <= fieldNum <= 9 {
        TimeValue(f, before[fieldNum - 1], data[i..], wireType);
        var time := ReadTimeAt(f, data, i, wireType);
        if time.Fail? {
          return Fail(time.error);
        }
        SetTime(fieldNum, time.value);
        i := i + time.size;
      } else {
        var unknown := SkipUnknownAt(data, preIndex);
        return unknown;
      }
      assert Value() == before[fieldNum - 1 := Value()[fieldNum - 1]];
      r := Done((), i - preIndex);
    }

    /** The loop over all fields. */
    method UnmarshalLoop(f: DurationFormat, data: bytes) returns (err: Option<Error>)
      modifies this
      ensures err.None? ==> Decode(f, data, old(Value())) == Ok(Value())
      ensures err.Some? ==> Decode(f, data, old(Value())) == Err(err.value)
      ensures Value() == DecodeLeft(f, data, old(Value()))
    {
      hide ReadField, FieldLeft;
      var i := 0;
      assert data[0..] == data;
      while i < |data|
        invariant i <= |data|
        invariant Decode(f, data, old(Value())) == Decode(f, data[i..], Value())
        invariant DecodeLeft(f, data, old(Value())) == DecodeLeft(f, data[i..], Value())
      {
        var r := UnmarshalField(f, data, i);
        if r.Fail? {
          return Some(r.error);
        }
        assert data[i..][r.size..] == data[i + r.size..];
        i := i + r.size;
      }
      err := None;
    }

    /** All fields; after an error the fields hold what had been read before it. One field alone, by its
        tag byte, sets the field of that name and no other. */
    method Unmarshal(f: DurationFormat, data: bytes) returns (err: Option<Error>)
      modifies this
      ensures err.None? ==> Decode(f, data, old(Value())) == Ok(Value())
      ensures err.Some? ==> Decode(f, data, old(Value())) == Err(err.value)
      ensures Value() == DecodeLeft(f, data, old(Value()))
      ensures forall text: bytes :: IsTextField(data, 0x0a, text) ==>
                err == None && suite == text
                && benchmark == old(benchmark) && requests == old(requests) && duration == old(duration)
                && latency == old(latency) && latency50 == old(latency50) && latency75 == old(latency75)
                && latency95 == old(latency95) && latency99 == old(latency99)
      ensures forall text: bytes :: IsTextField(data, 0x12, text) ==>
                err == None && benchmark == text
                && suite == old(suite) && requests == old(requests) && duration == old(duration)
                && latency == old(latency) && latency50 == old(latency50) && latency75 == old(latency75)
                && latency95 == old(latency95) && latency99 == old(latency99)
      ensures forall n: uint32 :: IsNumberField(data, 0x18, n) ==>
                err == None && requests == n
                && suite == old(suite) && benchmark == old(benchmark) && duration == old(duration)
                && latency == old(latency) && latency50 == old(latency50) && latency75 == old(latency75)
                && latency95 == old(latency95) && latency99 == old(latency99)
      ensures forall d: Duration :: IsTimeField(f, data, 0x22, d) ==>
                err == None && duration == d
                && suite == old(suite) && benchmark == old(benchmark) && requests == old(requests)
                && latency == old(latency) && latency50 == old(latency50) && latency75 == old(latency75)
                && latency95 == old(latency95) && latency99 == old(latency99)
      ensures forall d: Duration :: IsTimeField(f, data, 0x2a, d) ==>
                err == None && latency == d
                && suite == old(suite) && benchmark == old(benchmark) && requests == old(requests)
                && duration == old(duration) && latency50 == old(latency50) && latency75 == old(latency75)
                && latency95 == old(latency95) && latency99 == old(latency99)
      ensures forall d: Duration :: IsTimeField(f, data, 0x32, d) ==>
                err == None && latency50 == d
                && suite == old(suite) && benchmark == old(benchmark) && requests == old(requests)
                && duration == old(duration) && latency == old(latency) && latency75 == old(latency75)
                && latency95 == old(latency95) && latency99 == old(latency99)
      ensures forall d: Duration :: IsTimeField(f, data, 0x3a, d) ==>
                err == None && latency75 == d
                && suite == old(suite) && benchmark == old(benchmark) && requests == old(requests)
                && duration == old(duration) && latency == old(latency) && latency50 == old(latency50)
                && latency95 == old(latency95) && latency99 == old(latency99)
      ensures forall d: Duration :: IsTimeField(f, data, 0x42, d) ==>
                err == None && latency95 == d
                && suite == old(suite) && benchmark == old(benchmark) && requests == old(requests)
                && duration == old(duration) && latency == old(latency) && latency50 == old(latency50)
                && latency75 == old(latency75) && latency99 == old(latency99)
      ensures forall d: Duration :: IsTimeField(f, data, 0x4a, d) ==>
                err == None && latency99 == d
                && suite == old(suite) && benchmark == old(benchmark) && requests == old(requests)
                && duration == old(duration) && latency == old(latency) && latency50 == old(latency50)
                && latency75 == old(latency75) && latency95 == old(latency95)
    {
      hide Decode, DecodeLeft, IsTextField, IsNumberField, IsTimeField, IsEntryField;
      ghost var before := Value();
      assert before[0] == Text(suite) && before[1] == Text(benchmark) && before[2] == Number(requests)
        && before[3] == Time(duration) && before[4] == Time(latency) && before[5] == Time(latency50)
        && before[6] == Time(latency75) && before[7] == Time(latency95) && before[8] == Time(latency99);
      forall text: bytes | IsTextField(data, 0x0a, text)
        ensures Decode(f, data, before) == Ok(before[0 := Text(text)])
      {
        TextAlone(f, data, 1, text, before);
      }
      forall text: bytes | IsTextField(data, 0x12, text)
        ensures Decode(f, data, before) == Ok(before[1 := Text(text)])
      {
        TextAlone(f, data, 2, text, before);
      }
      forall n: uint32 | IsNumberField(data, 0x18, n)
        ensures Decode(f, data, before) == Ok(before[2 := Number(n)])
      {
        NumberAlone(f, data, 3, n, before);
      }
      forall d: Duration | IsTimeField(f, data, 0x22, d)
        ensures Decode(f, data, before) == Ok(before[3 := Time(d)])
      {
        TimeAlone(f, data, 4, d, before);
      }
      forall d: Duration | IsTimeField(f, data, 0x2a, d)
        ensures Decode(f, data, before) == Ok(before[4 := Time(d)])
      {
        TimeAlone(f, data, 5, d, before);
      }
      forall d: Duration | IsTimeField(f, data, 0x32, d)
        ensures Decode(f, data, before) == Ok(before[5 := Time(d)])
      {
        TimeAlone(f, data, 6, d, before);
      }
      forall d: Duration | IsTimeField(f, data, 0x3a, d)
        ensures Decode(f, data, before) == Ok(before[6 := Time(d)])
      {
        TimeAlone(f, data, 7, d, before);
      }
      forall d: Duration | IsTimeField(f, data, 0x42, d)
        ensures Decode(f, data, before) == Ok(before[7 := Time(d)])
      {
        TimeAlone(f, data, 8, d, before);
      }
      forall d: Duration | IsTimeField(f, data, 0x4a, d)
        ensures Decode(f, data, before) == Ok(before[8 := Time(d)])
      {
        TimeAlone(f, data, 9, d, before);
      }
      err := UnmarshalLoop(f, data);
      assert Value()[0] == Text(suite) && Value()[1] == Text(benchmark) && Value()[2] == Number(requests)
        && Value()[3] == Time(duration) && Value()[4] == Time(latency) && Value()[5] == Time(latency50)
        && Value()[6] == Time(latency75) && Value()[7] == Time(latency95) && Value()[8] == Time(latency99);
    }
  }

  /** The bytes of one message, read into a new one, give the same message. */
  method CopyRunResponse(f: DurationFormat, x: RunResponse) returns (y: RunResponse)
    requires f.Valid() && LengthFrom(f, x.Value(), 0) < TWO_TO_63
    ensures fresh(y) && y.Value() == x.Value() == old(x.Value())
    ensures y.suite == x.suite && y.benchmark == x.benchmark && y.requests == x.requests
      && y.duration == x.duration && y.latency == x.latency
    ensures y.latency50 == x.latency50 && y.latency75 == x.latency75 && y.latency95 == x.latency95
      && y.latency99 == x.latency99
  {
    hide Encode, LengthFrom, Decode;
    var data := x.Marshal(f);
    ghost var order :| Walks(order, x.Value()) && data == Encode(f, x.Value(), order);
    y := new RunResponse();
    SizeOrderFree(f, x.Value(), order, order);
    RoundTrip(f, RUN_RESPONSE, x.Value(), order);
    var err := y.Unmarshal(f, data);
  }
}
