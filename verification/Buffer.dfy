/** The generated code's own loops: the writer that fills a buffer from its end, and the reader's
    cursor loops, each proved against the byte sequences of Varint, Wire and Messages. */
module Buffer {
  import opened Basics
  import opened Varint
  import opened Wire
  import opened Messages
  import opened Counting
  import opened MessageSizes

  // ------------------------------------------------------------------ writing backwards

  /** Writes the varint of `v` forwards, in the gap that ends at `offset`. */
  method EncodeVarintAt(data: array<byte>, offset: nat, v: uint64) returns (base: nat)
    requires Sov(v) <= offset <= data.Length
    modifies data
    ensures base == offset - Sov(v)
    ensures forall k :: 0 <= k < base ==> data[k] == old(data[k])
    ensures data[base..] == EncodeVarint(v) + old(data[offset..])
  {
    SovIsLength(v);
    base := offset - Sov(v);
    var i, rest := base, v;
    while rest >= 128
      invariant base <= i < offset && i + |EncodeVarint(rest)| == offset
      invariant data[base..i] + EncodeVarint(rest) == EncodeVarint(v)
      invariant forall k :: 0 <= k < base ==> data[k] == old(data[k])
      invariant data[offset..] == old(data[offset..])
    {
      data[i] := rest % 128 + 128;
      ghost var tail := EncodeVarint(rest / 128);
      assert EncodeVarint(rest) == [data[i]] + tail;
      assert data[base..i + 1] == data[base..i] + [data[i]];
      assert data[base..i + 1] + tail == data[base..i] + ([data[i]] + tail);
      rest := rest / 128;
      i := i + 1;
    }
    data[i] := rest;
    assert data[base..] == data[base..i] + [rest] + data[offset..];
  }

  method PutByte(data: array<byte>, i: nat, b: byte) returns (j: nat)
    requires 1 <= i <= data.Length
    modifies data
    ensures j == i - 1
    ensures forall k :: 0 <= k < j ==> data[k] == old(data[k])
    ensures data[j..] == [b] + old(data[i..])
  {
    j := i - 1;
    data[j] := b;
  }

  /** Copies `payload` to just before `i`. */
  method PutBytes(data: array<byte>, i: nat, payload: bytes) returns (j: nat)
    requires |payload| <= i <= data.Length
    modifies data
    ensures j == i - |payload|
    ensures forall k :: 0 <= k < j ==> data[k] == old(data[k])
    ensures data[j..] == payload + old(data[i..])
  {
    j := i - |payload|;
    forall k | 0 <= k < |payload| {
      data[j + k] := payload[k];
    }
    assert data[j..i] == payload;
    assert data[j..] == data[j..i] + data[i..];
  }

  /** Payload, then its length, then its tag byte. */
  method PutTagged(data: array<byte>, i: nat, tag: byte, payload: bytes) returns (j: nat)
    requires DelimitedLength(payload) <= i <= data.Length < TWO_TO_63
    modifies data
    ensures j == i - DelimitedLength(payload)
    ensures forall k :: 0 <= k < j ==> data[k] == old(data[k])
    ensures data[j..] == [tag] + Delimited(payload) + old(data[i..])
  {
    hide EncodeVarint, Sov;
    ghost var rest := data[i..];
    j := PutBytes(data, i, payload);
    j := EncodeVarintAt(data, j, |payload|);
    Concat3(EncodeVarint(|payload|), payload, rest);
    j := PutByte(data, j, tag);
    Concat3([tag], Delimited(payload), rest);
  }

  /** One map entry: value, then key, then the entry's length as the distance written. */
  method PutEntry(data: array<byte>, baseI: nat, tag: byte, key: bytes, value: bytes) returns (j: nat)
    requires EntryLength(key, value) <= baseI <= data.Length < TWO_TO_63
    modifies data
    ensures j == baseI - EntryLength(key, value)
    ensures forall k :: 0 <= k < j ==> data[k] == old(data[k])
    ensures data[j..] == [tag] + Delimited(EntryBody(key, value)) + old(data[baseI..])
  {
    hide EncodeVarint, Sov, Delimited;
    EntryLengthIsExact(1, key, value);
    ghost var rest := data[baseI..];
    j := PutTagged(data, baseI, 0x12, value);
    var k := PutTagged(data, j, 0x0a, key);
    EntryBytes(key, value, rest);
    var l := EncodeVarintAt(data, k, baseI - k);
    j := PutByte(data, l, tag);
    FrameBytes(tag, EntryBody(key, value), rest);
  }

  lemma EntryBytes(key: bytes, value: bytes, rest: bytes)
    ensures [0x0a] + Delimited(key) + ([0x12] + Delimited(value) + rest) == EntryBody(key, value) + rest
  {
    hide Delimited;
    Concat3([0x0a] + Delimited(key), [0x12] + Delimited(value), rest);
  }

  lemma FrameBytes(tag: byte, body: bytes, rest: bytes)
    ensures [tag] + (EncodeVarint(|body|) + (body + rest)) == [tag] + Delimited(body) + rest
  {
    hide EncodeVarint;
    Concat3(EncodeVarint(|body|), body, rest);
    Concat3([tag], Delimited(body), rest);
  }

  /** Every entry of a map, in whatever order Go walks it. */
  method PutEntries(data: array<byte>, i: nat, tag: byte, args: map<bytes, bytes>, ghost number: nat)
    returns (j: nat, ghost order: seq<bytes>)
    requires 1 <= number <= 15 && tag == Tag(number, 2)
    requires ArgsLength(args) <= i <= data.Length < TWO_TO_63
    modifies data
    ensures IsOrder(order, args)
    ensures j == i - ArgsLength(args)
    ensures forall k :: 0 <= k < j ==> data[k] == old(data[k])
    ensures data[j..] == EncodeEntries(number, args, order) + old(data[i..])
  {
    hide EntryLength, Tagged, EntryBody, Delimited, EncodeVarint, Sov;
    ghost var rest := data[i..];
    j, order := i, [];
    var left := args;
    assert IsOrder(order, args - args.Keys);
    assert args - left.Keys == args - args.Keys;
    assert EncodeEntries(number, args, order) + rest == rest;
    while left != map[]
      invariant left.Keys <= args.Keys && forall k :: k in left ==> left[k] == args[k]
      invariant IsOrder(order, args - left.Keys)
      invariant ArgsLength(left) <= j <= i
      invariant j - ArgsLength(left) == i - ArgsLength(args)
      invariant forall k :: 0 <= k < j ==> data[k] == old(data[k])
      invariant data[j..] == EncodeEntries(number, args, order) + rest
      decreases |left|
    {
      var k :| k in left;
      var v := left[k];
      ArgsLengthPick(left, k);
      j := PutEntry(data, j, tag, k, v);
      EntriesCons(number, args, k, order, left, rest);
      order := [k] + order;
      left := left - {k};
    }
    assert args - left.Keys == args;
  }

  /** Writing one more entry in front. */
  lemma EntriesCons(number: nat, args: map<bytes, bytes>, k: bytes, order: seq<bytes>,
                    left: map<bytes, bytes>, rest: bytes)
    requires 1 <= number <= 15 && k in left && left.Keys <= args.Keys
    requires IsOrder(order, args - left.Keys)
    ensures IsOrder([k] + order, args - (left - {k}).Keys)
    ensures EncodeEntries(number, args, [k] + order) + rest
         == [Tag(number, 2)] + Delimited(EntryBody(k, args[k])) + (EncodeEntries(number, args, order) + rest)
  {
    hide EntryBody, Delimited;
    var all := args - (left - {k}).Keys;
    assert all - {k} == args - left.Keys;
    ConsIsOrder(k, order, all);
    assert ([k] + order)[1..] == order;
    Concat3(Tagged(number, EntryBody(k, args[k])), EncodeEntries(number, args, order), rest);
  }

  // ------------------------------------------------------------------ fields, last to first

  /** The fields of `m` from index `i` on are in place at the end of the buffer, from `at` on. */
  ghost predicate Written(data: array<byte>, at: int, f: DurationFormat, m: Message,
                          order: seq<bytes>, i: nat)
    reads data
  {
    && i <= |m| <= 15 && Walks(order, m)
    && LengthFrom(f, m, 0) <= data.Length < TWO_TO_63
    && 0 <= at == data.Length - LengthFrom(f, m, i)
    && data[at..] == EncodeFrom(f, m, order, i)
  }

  lemma {:induction false} LengthsShrink(f: DurationFormat, m: Message, i: nat)
    requires i <= |m|
    ensures LengthFrom(f, m, i) <= LengthFrom(f, m, 0)
  {
    if i > 0 {
      LengthsShrink(f, m, i - 1);
    }
  }

  /** One more field in front of those in place. */
  lemma Unfold(f: DurationFormat, m: Message, order: seq<bytes>, i: nat)
    requires i < |m| <= 15 && Walks(order, m)
    ensures EncodeFrom(f, m, order, i) == EncodeValue(f, i + 1, m[i], order) + EncodeFrom(f, m, order, i + 1)
    ensures LengthFrom(f, m, i) == ValueLength(f, m[i]) + LengthFrom(f, m, i + 1)
    ensures LengthFrom(f, m, i) <= LengthFrom(f, m, 0)
  {
    LengthsShrink(f, m, i);
  }

  lemma NothingWritten(data: array<byte>, f: DurationFormat, m: Message, order: seq<bytes>)
    requires |m| <= 15 && Walks(order, m)
    requires LengthFrom(f, m, 0) <= data.Length < TWO_TO_63
    ensures Written(data, data.Length, f, m, order, |m|)
  {
    assert data[data.Length..] == [];
  }

  /** A text field is written only when it is set. */
  method PutText(data: array<byte>, i: nat, tag: byte, text: bytes,
                 ghost f: DurationFormat, ghost m: Message, ghost order: seq<bytes>, ghost index: nat)
    returns (j: nat)
    requires index < |m| && m[index] == Text(text) && Written(data, i, f, m, order, index + 1)
    requires tag == Tag(index + 1, 2)
    modifies data
    ensures j <= i && Written(data, j, f, m, order, index)
    ensures forall k :: 0 <= k < j ==> data[k] == old(data[k])
  {
    hide EncodeFrom, LengthFrom, Delimited, Sov;
    Unfold(f, m, order, index);
    j := i;
    if |text| > 0 {
      j := PutTagged(data, i, tag, text);
    } else {
      assert [] + data[i..] == data[i..];
    }
  }

  /** A number field is written only when it is not zero. */
  method PutNumber(data: array<byte>, i: nat, tag: byte, n: uint32,
                   ghost f: DurationFormat, ghost m: Message, ghost order: seq<bytes>, ghost index: nat)
    returns (j: nat)
    requires index < |m| && m[index] == Number(n) && Written(data, i, f, m, order, index + 1)
    requires tag == Tag(index + 1, 0)
    modifies data
    ensures j <= i && Written(data, j, f, m, order, index)
    ensures forall k :: 0 <= k < j ==> data[k] == old(data[k])
  {
    hide EncodeFrom, LengthFrom, EncodeVarint, Sov;
    Unfold(f, m, order, index);
    j := i;
    ghost var rest := data[i..];
    if n != 0 {
      j := EncodeVarintAt(data, i, n);
      j := PutByte(data, j, tag);
      Concat3([tag], EncodeVarint(n), rest);
    } else {
      assert [] + data[i..] == data[i..];
    }
  }

  /** A duration field is always written. */
  method PutTime(data: array<byte>, i: nat, tag: byte, d: Duration,
                 f: DurationFormat, ghost m: Message, ghost order: seq<bytes>, ghost index: nat)
    returns (j: nat)
    requires index < |m| && (m[index] == Time(d) || m[index] == OptionalTime(Some(d)))
    requires Written(data, i, f, m, order, index + 1)
    requires tag == Tag(index + 1, 2)
    modifies data
    ensures j <= i && Written(data, j, f, m, order, index)
    ensures forall k :: 0 <= k < j ==> data[k] == old(data[k])
  {
    hide EncodeFrom, LengthFrom, Delimited, Sov;
    Unfold(f, m, order, index);
    j := PutTagged(data, i, tag, f.encode(d));
  }

  /** A missing duration takes no bytes. */
  lemma NoTime(data: array<byte>, at: nat, f: DurationFormat, m: Message, order: seq<bytes>, index: nat)
    requires index < |m| && m[index] == OptionalTime(None) && Written(data, at, f, m, order, index + 1)
    ensures Written(data, at, f, m, order, index)
  {
    hide EncodeFrom, LengthFrom;
    Unfold(f, m, order, index);
    assert [] + data[at..] == data[at..];
  }

  /** Every entry of the map in the last field, in whatever order Go walks it. */
  method PutArgs(data: array<byte>, i: nat, tag: byte, args: map<bytes, bytes>,
                 ghost f: DurationFormat, ghost m: Message)
    returns (j: nat, ghost order: seq<bytes>)
    requires 1 <= |m| <= 15 && m[|m| - 1] == Args(args) && tag == Tag(|m|, 2)
    requires forall k :: 0 <= k < |m| - 1 ==> !m[k].Args?
    requires LengthFrom(f, m, 0) <= i == data.Length < TWO_TO_63
    modifies data
    ensures j <= i && Written(data, j, f, m, order, |m| - 1)
    ensures forall k :: 0 <= k < j ==> data[k] == old(data[k])
  {
    hide EncodeFrom, LengthFrom, EncodeEntries, ArgsLength;
    order := OrderExists(args);
    Unfold(f, m, order, |m| - 1);
    NothingWritten(data, f, m, order);
    j, order := PutEntries(data, i, tag, args, |m|);
    Unfold(f, m, order, |m| - 1);
    NothingWritten(data, f, m, order);
  }

  // ------------------------------------------------------------------ reading with a cursor

  lemma ScanUnfold(s: bytes, k: nat)
    ensures Scan(s, k)
         == if 7 * k >= 64 then Fail(IntOverflow)
            else if s == [] then Fail(UnexpectedEOF)
            else if s[0] < 128 then Done((), 1)
            else Behind(1, Scan(s[1..], k + 1))
  {}

  /** The varint loop shared by tags, lengths and numbers, and the bits it had gathered when it ended. */
  method ReadVarintAt(data: bytes, start: nat) returns (r: Read<uint64>, bits: uint64)
    requires start <= |data|
    ensures r == ReadVarint(data[start..])
    ensures bits == if r.Done? then r.value else Base128(Seen(data[start..])) % TWO_TO_64
  {
    hide Scan, Base128, Weight;
    var i, shift, wire := start, 0, 0;
    assert data[start..start] == [];
    EmptyGroups();
    while true
      invariant start <= i <= |data| && i <= start + 10 && shift == 7 * (i - start)
      invariant Scan(data[start..], 0) == Behind(i - start, Scan(data[i..], i - start))
      invariant wire == Base128(data[start..i]) % TWO_TO_64
      decreases |data| - i
    {
      ScanUnfold(data[i..], i - start);
      if shift >= 64 {
        assert data[start..i] == Seen(data[start..]);
        return Fail(IntOverflow), wire;
      }
      if i >= |data| {
        assert data[start..i] == Seen(data[start..]);
        return Fail(UnexpectedEOF), wire;
      }
      var b := data[i];
      Advance(data, start, i);
      GroupAdded(data[start..i], b);
      i := i + 1;
      wire := (wire + b % 128 * Weight(shift / 7)) % TWO_TO_64;
      if b < 128 {
        return Done(wire, i - start), wire;
      }
      shift := shift + 7;
    }
  }

  lemma EmptyGroups()
    ensures Base128([]) == 0
  {}

  lemma Advance(s: bytes, start: nat, i: nat)
    requires start <= i < |s|
    ensures s[i..][0] == s[i] && s[i..][1..] == s[i + 1..]
    ensures s[start..i + 1] == s[start..i] + [s[i]]
    ensures s[start..][..i + 1 - start] == s[start..i + 1]
  {}

  /** Adding a group to the low 64 bits of the number so far. */
  lemma GroupAdded(bs: bytes, b: byte)
    ensures (Base128(bs) % TWO_TO_64 + b % 128 * Weight(|bs|)) % TWO_TO_64
         == Base128(bs + [b]) % TWO_TO_64
  {
    hide Base128, Weight;
    Base128Append(bs, b);
    ModAdd(Base128(bs), b % 128 * Weight(|bs|), TWO_TO_64);
  }

  lemma ModAdd(x: int, y: int, m: int)
    requires m > 0
    ensures (x % m + y) % m == (x + y) % m
  {
    var q := x / m;
    assert x == m * q + x % m;
    ModShift(x % m + y, q, m);
    assert x % m + y + m * q == x + y;
  }

  lemma {:induction false} ModShift(x: int, q: int, m: int)
    requires m > 0
    ensures (x + m * q) % m == x % m
  {
    var a, b := x / m, (x + m * q) / m;
    assert x == m * a + x % m;
    assert x + m * q == m * b + (x + m * q) % m;
    assert m * (a + q - b) == (x + m * q) % m - x % m;
    ZeroMultiple(m, a + q - b);
  }

  lemma ZeroMultiple(m: int, d: int)
    requires m > 0 && -m < m * d < m
    ensures d == 0
  {}

  /** One round of the skipper's loop: the depth after it, and how far the cursor moves. */
  method SkipRoundAt(data: bytes, start: nat, depth: nat) returns (r: Read<nat>)
    requires start <= |data|
    ensures r == SkipRound(data[start..], depth)
  {
    hide ReadVarint;
    var tag, _ := ReadVarintAt(data, start);
    if tag.Fail? {
      return Fail(tag.error);
    }
    var i := start + tag.size;
    assert data[start..][tag.size..] == data[i..];
    var wireType := tag.value % 8;
    if wireType == 0 {
      var number, _ := ReadVarintAt(data, i);
      if number.Fail? {
        return Fail(number.error);
      }
      return Done(depth, tag.size + number.size);
    } else if wireType == 1 {
      return Done(depth, tag.size + 8);
    } else if wireType == 2 {
      var length, _ := ReadVarintAt(data, i);
      if length.Fail? {
        return Fail(length.error);
      }
      if length.value >= TWO_TO_63 {
        return Fail(InvalidLength);
      }
      return Done(depth, tag.size + length.size + length.value);
    } else if wireType == 3 {
      return Done(depth + 1, tag.size);
    } else if wireType == 4 {
      if depth == 0 {
        return Fail(UnexpectedEndOfGroup);
      }
      return Done(depth - 1, tag.size);
    } else if wireType == 5 {
      return Done(depth, tag.size + 4);
    }
    return Fail(IllegalWireType);
  }

  /** The skipper: a cursor and a depth counter. */
  method Skip(data: bytes) returns (r: Read<()>)
    ensures r == SkipFrom(data, 0)
  {
    hide SkipRound;
    var i, depth := 0, 0;
    assert data[0..] == data;
    while i < |data|
      invariant i <= |data| ==> SkipFrom(data, 0) == Behind(i, SkipFrom(data[i..], depth))
      invariant i > |data| ==> SkipFrom(data, 0) == Fail(UnexpectedEOF)
      decreases |data| - i
    {
      var round := SkipRoundAt(data, i, depth);
      if round.Fail? {
        return Fail(round.error);
      }
      if i + round.size <= |data| {
        assert data[i..][round.size..] == data[i + round.size..];
      }
      i, depth := i + round.size, round.value;
      if depth == 0 {
        return Done((), i);
      }
    }
    SkipEmpty(depth);
    return Fail(UnexpectedEOF);
  }

  lemma SkipEmpty(depth: nat)
    ensures SkipFrom([], depth) == Fail(UnexpectedEOF)
  {}

  /** A length prefix and its bytes. */
  method ReadDelimitedAt(data: bytes, i: nat) returns (r: Read<bytes>)
    requires i <= |data|
    ensures r == ReadDelimited(data[i..])
  {
    hide ReadVarint;
    var length, _ := ReadVarintAt(data, i);
    if length.Fail? {
      return Fail(length.error);
    }
    if length.value >= TWO_TO_63 {
      return Fail(InvalidLength);
    }
    var postIndex := i + length.size + length.value;
    if postIndex > |data| {
      return Fail(UnexpectedEOF);
    }
    assert data[i..][length.size..length.size + length.value] == data[i + length.size..postIndex];
    r := Done(data[i + length.size..postIndex], length.size + length.value);
  }

  /** The cursor loop over one map entry, from its length on. */
  method ReadEntryAt(data: bytes, start: nat, wireType: nat) returns (r: Read<(bytes, bytes)>)
    requires start <= |data|
    ensures r == ReadEntry(data[start..], wireType)
  {
    hide ReadVarint, ReadDelimited, SkipFrom, FieldNumber;
    if wireType != 2 {
      return Fail(WrongWireType);
    }
    var length, _ := ReadVarintAt(data, start);
    if length.Fail? {
      return Fail(length.error);
    }
    if length.value >= TWO_TO_63 {
      return Fail(InvalidLength);
    }
    var i := start + length.size;
    var postIndex := i + length.value;
    if postIndex > |data| {
      return Fail(UnexpectedEOF);
    }
    var mapkey: bytes, mapvalue: bytes := [], [];
    assert data[start..][length.size..] == data[i..];
    ghost var whole := ReadEntryFields(data[i..], postIndex - i, [], []);
    while i < postIndex
      invariant i <= |data|
      invariant whole == ReadEntryFields(data[i..], postIndex - i, mapkey, mapvalue)
      decreases |data| - i
    {
      var entryPreIndex := i;
      var tag, _ := ReadVarintAt(data, i);
      if tag.Fail? {
        return Fail(tag.error);
      }
      i := i + tag.size;
      assert data[entryPreIndex..][tag.size..] == data[i..];
      var fieldNum := FieldNumber(tag.value);
      if fieldNum == 1 || fieldNum == 2 {
        var text := ReadDelimitedAt(data, i);
        if text.Fail? {
          return Fail(text.error);
        }
        if fieldNum == 1 {
          mapkey := text.value;
        } else {
          mapvalue := text.value;
        }
        i := i + text.size;
      } else {
        i := entryPreIndex;
        var skippy := Skip(data[i..]);
        if skippy.Fail? {
          return Fail(skippy.error);
        }
        if i + skippy.size > postIndex {
          return Fail(UnexpectedEOF);
        }
        i := i + skippy.size;
      }
      assert data[entryPreIndex..][i - entryPreIndex..] == data[i..];
    }
    r := Done((mapkey, mapvalue), length.size + length.value);
  }

  /** The tag of the next field: its number and wire type, if a field may start with it. */
  method ReadTagAt(data: bytes, i: nat) returns (r: Read<(nat, nat)>)
    requires i <= |data|
    ensures r == ReadTag(data[i..])
  {
    hide ReadVarint, FieldNumber, WireType;
    var tag, _ := ReadVarintAt(data, i);
    if tag.Fail? {
      return Fail(tag.error);
    }
    var fieldNum := FieldNumber(tag.value);
    var wireType := WireType(tag.value);
    if wireType == 4 {
      return Fail(EndGroupForNonGroup);
    }
    if fieldNum <= 0 {
      return Fail(IllegalTag);
    }
    r := Done((fieldNum, wireType), tag.size);
  }

  method ReadTextAt(data: bytes, i: nat, wireType: nat) returns (r: Read<bytes>)
    requires i <= |data|
    ensures r == ReadText(data[i..], wireType)
  {
    if wireType != 2 {
      return Fail(WrongWireType);
    }
    r := ReadDelimitedAt(data, i);
  }

  /** A number is gathered in the field itself: `left` is what the field then holds. */
  method ReadNumberAt(data: bytes, i: nat, wireType: nat, current: uint32)
    returns (r: Read<uint32>, left: uint32)
    requires i <= |data|
    ensures r == ReadNumber(data[i..], wireType)
    ensures left == if r.Done? then r.value else NumberLeft(current, data[i..], wireType)
  {
    hide ReadVarint, Base128;
    if wireType != 0 {
      return Fail(WrongWireType), current;
    }
    var v, bits := ReadVarintAt(data, i);
    LowBits(Base128(Seen(data[i..])));
    left := bits % TWO_TO_32;
    r := if v.Fail? then Fail(v.error) else Done(left, v.size);
  }

  lemma LowBits(x: nat)
    ensures x % TWO_TO_64 % TWO_TO_32 == x % TWO_TO_32
  {
    var q := x / TWO_TO_64;
    assert x == TWO_TO_64 * q + x % TWO_TO_64;
    ModShift(x % TWO_TO_64, TWO_TO_32 * q, TWO_TO_32);
  }

  method ReadTimeAt(f: DurationFormat, data: bytes, i: nat, wireType: nat) returns (r: Read<Duration>)
    requires i <= |data|
    ensures r == ReadTime(f, data[i..], wireType)
  {
    var payload := ReadTextAt(data, i, wireType);
    if payload.Fail? {
      return Fail(payload.error);
    }
    var d := f.decode(payload.value);
    r := if d.None? then Fail(BadDuration) else Done(d.value, payload.size);
  }

  /** A field the message does not know, from its tag on. */
  method SkipUnknownAt(data: bytes, preIndex: nat) returns (r: Read<()>)
    requires preIndex <= |data|
    ensures r == ReadUnknown(data[preIndex..])
  {
    var skippy := Skip(data[preIndex..]);
    if skippy.Fail? {
      return Fail(skippy.error);
    }
    if preIndex + skippy.size > |data| {
      return Fail(UnexpectedEOF);
    }
    r := skippy;
  }

  /** The entries of a map, one tag and one entry at a time. */
  method SizeOfArgs(args: map<bytes, bytes>) returns (n: nat)
    ensures n == ArgsLength(args)
  {
    hide EntryLength;
    n := 0;
    var left := args;
    while left != map[]
      invariant left.Keys <= args.Keys
      invariant n + ArgsLength(left) == ArgsLength(args)
      decreases |left|
    {
      var k :| k in left;
      ArgsLengthPick(left, k);
      n := n + EntryLength(k, left[k]);
      left := left - {k};
    }
  }

  lemma LengthUnfold(f: DurationFormat, m: Message, i: nat)
    requires i < |m|
    ensures LengthFrom(f, m, i) == ValueLength(f, m[i]) + LengthFrom(f, m, i + 1)
    ensures LengthFrom(f, m, |m|) == 0
  {}
}
