/** The laws of the message codec: one field at a time, then whole messages. */
module MessageLaws {
  import opened Basics
  import opened Varint
  import opened Wire
  import opened Messages
  import opened Counting

  // ------------------------------------------------------------------ one field

  /** A one-byte tag reads back as its field number and wire type. */
  lemma TagByte(number: nat, wireType: nat, t: bytes)
    requires 1 <= number <= 15 && wireType < 8
    ensures var b := Tag(number, wireType);
            && ReadVarint([b] + t) == Done(b, 1)
            && FieldNumber(b) == number && WireType(b) == wireType
            && ([b] + t)[1..] == t
  {
    var b := Tag(number, wireType);
    assert IsVarint([b]);
    ReadVarintExact([b], t);
    assert [b][1..] == [];
    assert Base128([b]) == b;
  }

  lemma DelimitedRead(payload: bytes, t: bytes)
    requires |payload| < TWO_TO_63
    ensures ReadDelimited(Delimited(payload) + t) == Done(payload, |Delimited(payload)|)
  {
    hide EncodeVarint, ReadDelimited, Sov;
    DelimitedRoundTrip(payload, t);
    SovIsLength(|payload|);
  }

  lemma TaggedText(number: nat, payload: bytes, t: bytes)
    requires 1 <= number <= 15 && |payload| < TWO_TO_63
    ensures var s := Tagged(number, payload) + t;
            var b := Tag(number, 2);
            && ReadVarint(s) == Done(b, 1)
            && FieldNumber(b) == number && WireType(b) == 2
            && ReadText(s[1..], 2) == Done(payload, |Tagged(number, payload)| - 1)
  {
    hide ReadVarint, ReadDelimited, EncodeVarint;
    var rest := Delimited(payload) + t;
    TagByte(number, 2, rest);
    Concat3([Tag(number, 2)], Delimited(payload), t);
    DelimitedRead(payload, t);
  }

  lemma TextField(f: DurationFormat, number: nat, payload: bytes, m: Message, t: bytes)
    requires 1 <= number <= |m| <= 15 && m[number - 1].Text? && |payload| < TWO_TO_63
    ensures ReadField(f, Tagged(number, payload) + t, m)
         == Done(m[number - 1 := Text(payload)], |Tagged(number, payload)|)
  {
    hide ReadVarint, ReadText, Tagged, Tag, FieldNumber, WireType;
    TaggedText(number, payload, t);
  }

  lemma TimeField(f: DurationFormat, number: nat, d: Duration, m: Message, t: bytes)
    requires f.Valid() && |f.encode(d)| < TWO_TO_63
    requires 1 <= number <= |m| <= 15 && (m[number - 1].Time? || m[number - 1].OptionalTime?)
    ensures ReadField(f, Tagged(number, f.encode(d)) + t, m)
         == Done(m[number - 1 := if m[number - 1].Time? then Time(d) else OptionalTime(Some(d))],
                 |Tagged(number, f.encode(d))|)
  {
    hide ReadVarint, ReadText, Tagged, Tag, FieldNumber, WireType;
    TaggedText(number, f.encode(d), t);
  }

  lemma NumberField(f: DurationFormat, number: nat, n: uint32, m: Message, t: bytes)
    requires 1 <= number <= |m| <= 15 && m[number - 1].Number?
    ensures var head := [Tag(number, 0)] + EncodeVarint(n);
            ReadField(f, head + t, m) == Done(m[number - 1 := Number(n)], |head|)
  {
    hide ReadVarint, Tag, FieldNumber, WireType, EncodeVarint, Sov;
    TagByte(number, 0, EncodeVarint(n) + t);
    Concat3([Tag(number, 0)], EncodeVarint(n), t);
    VarintRoundTrip(n, t);
    SovIsLength(n);
  }

  /** A map entry's own loop finds its key and its value and stops at its end. */
  lemma EntryFields(key: bytes, value: bytes, t: bytes)
    requires |EntryBody(key, value)| < TWO_TO_63
    ensures ReadEntryFields(EntryBody(key, value) + t, |EntryBody(key, value)|, [], []) == Ok((key, value))
  {
    hide ReadVarint, ReadDelimited, EncodeVarint, FieldNumber, WireType, SkipFrom;
    var first := Tagged(1, key);
    var second := Tagged(2, value);
    EntryIsTagged(key, value);
    Concat3(first, second, t);
    EntryRound(1, key, second + t, |first| + |second|, [], []);
    EntryRound(2, value, t, |second|, key, []);
  }

  lemma EntryIsTagged(key: bytes, value: bytes)
    ensures EntryBody(key, value) == Tagged(1, key) + Tagged(2, value)
  {}

  /** One round of the entry loop over a key or a value. */
  lemma EntryRound(number: nat, text: bytes, t: bytes, remaining: int, key: bytes, value: bytes)
    requires 1 <= number <= 2 && |text| < TWO_TO_63
    requires |Tagged(number, text)| <= remaining <= |Tagged(number, text) + t|
    ensures ReadEntryFields(Tagged(number, text) + t, remaining, key, value)
         == ReadEntryFields(t, remaining - |Tagged(number, text)|,
                            if number == 1 then text else key, if number == 1 then value else text)
  {
    hide ReadVarint, ReadDelimited, Tagged, FieldNumber, SkipFrom, ReadEntryFields;
    TaggedText(number, text, t);
    var s := Tagged(number, text) + t;
    assert s[|Tagged(number, text)|..] == t;
    EntryUnfold(s, remaining, key, value, 1);
  }

  lemma EntryUnfold(s: bytes, remaining: int, key: bytes, value: bytes, n: nat)
    requires 0 < remaining <= |s|
    requires ReadVarint(s).Done? && ReadVarint(s).size == n && ReadDelimited(s[n..]).Done?
    requires 1 <= FieldNumber(ReadVarint(s).value) <= 2
    ensures var text, k := ReadDelimited(s[n..]).value, ReadDelimited(s[n..]).size;
            var isKey := FieldNumber(ReadVarint(s).value) == 1;
            ReadEntryFields(s, remaining, key, value)
            == ReadEntryFields(s[n + k..], remaining - n - k,
                               if isKey then text else key, if isKey then value else text)
  {
    hide ReadVarint, ReadDelimited, SkipFrom, FieldNumber;
  }

  lemma ArgsField(f: DurationFormat, number: nat, key: bytes, value: bytes, m: Message, t: bytes)
    requires 1 <= number <= |m| <= 15 && m[number - 1].Args?
    requires |EntryBody(key, value)| < TWO_TO_63
    ensures ReadField(f, Tagged(number, EntryBody(key, value)) + t, m)
         == Done(m[number - 1 := Args(m[number - 1].args[key := value])],
                 |Tagged(number, EntryBody(key, value))|)
  {
    hide ReadField, EntryBody, ReadEntryFields, Tagged;
    EntryFields(key, value, t);
    BodyField(f, number, EntryBody(key, value), (key, value), m, t);
  }

  /** A map entry that reads as `entry`, whatever its body looks like. */
  lemma BodyField(f: DurationFormat, number: nat, body: bytes, entry: (bytes, bytes), m: Message, t: bytes)
    requires 1 <= number <= |m| <= 15 && m[number - 1].Args? && |body| < TWO_TO_63
    requires ReadEntryFields(body + t, |body|, [], []) == Ok(entry)
    ensures ReadField(f, Tagged(number, body) + t, m)
         == Done(m[number - 1 := Args(m[number - 1].args[entry.0 := entry.1])], |Tagged(number, body)|)
  {
    hide ReadVarint, ReadDelimited, FieldNumber, WireType, EncodeVarint, ReadEntryFields, Tag;
    var length := EncodeVarint(|body|);
    TagByte(number, 2, Delimited(body) + t);
    Concat3([Tag(number, 2)], Delimited(body), t);
    Concat3(length, body, t);
    LengthRead(|body|, body + t);
  }

  lemma LengthRead(n: nat, t: bytes)
    requires n < TWO_TO_63
    ensures ReadLength(EncodeVarint(n) + t) == Done(n, |EncodeVarint(n)|)
    ensures (EncodeVarint(n) + t)[|EncodeVarint(n)|..] == t
  {
    hide EncodeVarint, Sov;
    VarintRoundTrip(n, t);
    SovIsLength(n);
  }

  // ------------------------------------------------------------------ whole messages

  lemma OneField(f: DurationFormat, head: bytes, t: bytes, m: Message, m': Message)
    requires head != [] && ReadField(f, head + t, m) == Done(m', |head|)
    ensures Decode(f, head + t, m) == Decode(f, t, m')
  {
    hide ReadField;
    assert (head + t)[|head|..] == t;
  }

  /** The part of `args` that `order` has walked. */
  ghost function Walked(args: map<bytes, bytes>, order: seq<bytes>): map<bytes, bytes>
    requires forall k :: k in order ==> k in args
  {
    map k | k in order :: args[k]
  }

  /** What decoding an encoded value does to the value a field had. */
  function MergeValue(current: Value, v: Value): Value {
    match v
    case Text(text) => if text == [] then current else v
    case Number(n) => if n == 0 then current else v
    case OptionalTime(time) => if time.None? then current else v
    case Time(_) => v
    case Args(args) => if current.Args? then Args(current.args + args) else v
  }

  /** Last non-default scalar wins; maps are united, the right one winning. */
  function Merge(m: Message, x: Message): (r: Message)
    requires |m| == |x|
    ensures |r| == |m| && forall i :: 0 <= i < |m| ==> r[i] == MergeValue(m[i], x[i])
  {
    seq(|m|, i requires 0 <= i < |m| => MergeValue(m[i], x[i]))
  }

  lemma {:induction false} DecodeEntries(f: DurationFormat, number: nat, args: map<bytes, bytes>,
                                         order: seq<bytes>, m: Message, t: bytes)
    requires 1 <= number <= |m| <= 15 && m[number - 1].Args?
    requires forall k :: k in order ==> k in args
    requires |EncodeEntries(number, args, order)| < TWO_TO_63
    ensures Decode(f, EncodeEntries(number, args, order) + t, m)
         == Decode(f, t, m[number - 1 := Args(m[number - 1].args + Walked(args, order))])
    decreases |order|
  {
    hide Decode, ReadField, Tagged, EntryBody;
    var i := number - 1;
    var current := m[i].args;
    if order == [] {
      assert EncodeEntries(number, args, order) + t == t;
      assert current + Walked(args, order) == current;
      assert m[i := Args(current)] == m;
    } else {
      var k, v := order[0], args[order[0]];
      var head := Tagged(number, EntryBody(k, v));
      var rest := EncodeEntries(number, args, order[1..]);
      TaggedSize(number, EntryBody(k, v));
      Concat3(head, rest, t);
      ArgsField(f, number, k, v, m, rest + t);
      var next := m[i := Args(current[k := v])];
      OneField(f, head, rest + t, m, next);
      DecodeEntries(f, number, args, order[1..], next, t);
      assert current[k := v] + Walked(args, order[1..]) == current + Walked(args, order);
      assert next[i := Args(current + Walked(args, order))]
          == m[i := Args(current + Walked(args, order))];
    }
  }

  lemma TaggedSize(number: nat, payload: bytes)
    requires number <= 15
    ensures |Tagged(number, payload)| == 1 + Sov(|payload|) + |payload|
  {
    hide EncodeVarint, Sov;
    SovIsLength(|payload|);
  }

  /** Decoding one encoded value merges it into the field. */
  lemma DecodeValue(f: DurationFormat, number: nat, v: Value, order: seq<bytes>, m: Message, t: bytes)
    requires f.Valid() && 1 <= number <= |m| <= 15
    requires v.Args? ==> IsOrder(order, v.args)
    requires exists kind :: HasKind(v, kind) && HasKind(m[number - 1], kind)
    requires |EncodeValue(f, number, v, order)| < TWO_TO_63
    ensures Decode(f, EncodeValue(f, number, v, order) + t, m)
         == Decode(f, t, m[number - 1 := MergeValue(m[number - 1], v)])
  {
    hide Decode, ReadField, Tagged, EncodeVarint, EncodeEntries, Tag, Sov;
    var i := number - 1;
    var head := EncodeValue(f, number, v, order);
    if v.Args? {
      DecodeEntries(f, number, v.args, order, m, t);
      assert Walked(v.args, order) == v.args;
    } else if head == [] {
      NoBytes(f, number, v, order);
      assert head + t == t;
      assert m[i := m[i]] == m;
    } else {
      match v
      case Text(text) =>
        TaggedSize(number, text);
        TextField(f, number, text, m, t);
        OneField(f, head, t, m, m[i := v]);
      case Number(n) =>
        NumberField(f, number, n, m, t);
        OneField(f, head, t, m, m[i := v]);
      case OptionalTime(time) =>
        TaggedSize(number, f.encode(time.value));
        TimeField(f, number, time.value, m, t);
        OneField(f, head, t, m, m[i := v]);
      case Time(d) =>
        TaggedSize(number, f.encode(d));
        TimeField(f, number, d, m, t);
        OneField(f, head, t, m, m[i := v]);
    }
  }

  /** Only unset fields take no bytes. */
  lemma NoBytes(f: DurationFormat, number: nat, v: Value, order: seq<bytes>)
    requires number <= 15 && !v.Args?
    requires EncodeValue(f, number, v, order) == []
    ensures v == Text([]) || v == Number(0) || v == OptionalTime(None)
  {}

  /** `m` with the fields of `x` from index `i` on merged into it. */
  function MergeFrom(m: Message, x: Message, i: nat): (r: Message)
    requires |m| == |x| && i <= |m|
    ensures |r| == |m|
    decreases |m| - i
  {
    if i == |m| then m else MergeFrom(m[i := MergeValue(m[i], x[i])], x, i + 1)
  }

  lemma {:induction false} MergeFromIsMerge(m: Message, x: Message, i: nat)
    requires |m| == |x| && i <= |m|
    ensures forall j :: 0 <= j < |m| ==>
              MergeFrom(m, x, i)[j] == if j < i then m[j] else MergeValue(m[j], x[j])
    decreases |m| - i
  {
    if i < |m| {
      MergeFromIsMerge(m[i := MergeValue(m[i], x[i])], x, i + 1);
    }
  }

  lemma {:induction false} DecodeFrom(f: DurationFormat, schema: Schema, x: Message, order: seq<bytes>,
                                      i: nat, m: Message, t: bytes)
    requires f.Valid() && Matches(schema, x) && Matches(schema, m) && Walks(order, x) && i <= |x|
    requires |EncodeFrom(f, x, order, i)| < TWO_TO_63
    ensures Decode(f, EncodeFrom(f, x, order, i) + t, m) == Decode(f, t, MergeFrom(m, x, i))
    decreases |x| - i
  {
    hide Decode, EncodeValue;
    if i == |x| {
      assert EncodeFrom(f, x, order, i) + t == t;
    } else {
      assert HasKind(x[i], schema[i]) && HasKind(m[i], schema[i]);
      var head := EncodeValue(f, i + 1, x[i], order);
      var rest := EncodeFrom(f, x, order, i + 1);
      Concat3(head, rest, t);
      DecodeValue(f, i + 1, x[i], order, m, rest + t);
      DecodeFrom(f, schema, x, order, i + 1, m[i := MergeValue(m[i], x[i])], t);
    }
  }

  /** Decoding an encoded message, in whatever order its map was walked and whatever follows it,
      merges it into what was there. */
  lemma DecodeEncoded(f: DurationFormat, schema: Schema, x: Message, order: seq<bytes>, m: Message, t: bytes)
    requires f.Valid() && Matches(schema, x) && Matches(schema, m) && Walks(order, x)
    requires |Encode(f, x, order)| < TWO_TO_63
    ensures Decode(f, Encode(f, x, order) + t, m) == Decode(f, t, Merge(m, x))
  {
    hide Decode, EncodeFrom, MergeFrom, MergeValue;
    DecodeFrom(f, schema, x, order, 0, m, t);
    MergeFromIsMerge(m, x, 0);
    assert MergeFrom(m, x, 0) == Merge(m, x);
  }

  /** The round trip: into an empty message, every order gives the message back. */
  lemma RoundTrip(f: DurationFormat, schema: Schema, x: Message, order: seq<bytes>)
    requires f.Valid() && Matches(schema, x) && Walks(order, x)
    requires |Encode(f, x, order)| < TWO_TO_63
    ensures Decode(f, Encode(f, x, order), Empty(schema)) == Ok(x)
  {
    hide Encode;
    DecodeEncoded(f, schema, x, order, Empty(schema), []);
    assert Encode(f, x, order) + [] == Encode(f, x, order);
    forall i | 0 <= i < |x| ensures MergeValue(Empty(schema)[i], x[i]) == x[i] {
      assert HasKind(x[i], schema[i]);
      if x[i].Args? { assert map[] + x[i].args == x[i].args; }
    }
    assert Merge(Empty(schema), x) == x;
  }

  /** Two encodings end to end decode to their merge. */
  lemma ConcatenationMerges(f: DurationFormat, schema: Schema, x: Message, y: Message,
                            orderX: seq<bytes>, orderY: seq<bytes>)
    requires f.Valid() && Matches(schema, x) && Matches(schema, y)
    requires Walks(orderX, x) && Walks(orderY, y)
    requires |Encode(f, x, orderX)| < TWO_TO_63 && |Encode(f, y, orderY)| < TWO_TO_63
    ensures Decode(f, Encode(f, x, orderX) + Encode(f, y, orderY), Empty(schema)) == Ok(Merge(x, y))
  {
    hide Encode;
    var first, second := Encode(f, x, orderX), Encode(f, y, orderY);
    RoundTrip(f, schema, x, orderX);
    DecodeAppend(f, first, second, Empty(schema));
    DecodeEncoded(f, schema, y, orderY, x, []);
    assert second + [] == second;
  }

  // ------------------------------------------------------------------ decoding is a homomorphism

  lemma {:induction false} EntryFieldsExtend(s: bytes, t: bytes, remaining: int, key: bytes, value: bytes)
    requires remaining <= |s| && ReadEntryFields(s, remaining, key, value).Ok?
    ensures ReadEntryFields(s + t, remaining, key, value) == ReadEntryFields(s, remaining, key, value)
    decreases |s|
  {
    hide ReadVarint, ReadDelimited, SkipFrom, FieldNumber;
    if remaining > 0 {
      ReadVarintExtends(s, t);
      var n := ReadVarint(s).size;
      var number := FieldNumber(ReadVarint(s).value);
      DropAppend(s, t, n);
      if number == 1 || number == 2 {
        ReadDelimitedExtends(s[n..], t);
        var text, k := ReadDelimited(s[n..]).value, ReadDelimited(s[n..]).size;
        DropAppend(s, t, n + k);
        EntryFieldsExtend(s[n + k..], t, remaining - n - k,
                          if number == 1 then text else key, if number == 1 then value else text);
      } else {
        SkipExtends(s, t);
        var k := SkipFrom(s, 0).size;
        DropAppend(s, t, k);
        EntryFieldsExtend(s[k..], t, remaining - k, key, value);
      }
    }
  }

  lemma DropAppend(s: bytes, t: bytes, n: nat)
    requires n <= |s|
    ensures (s + t)[n..] == s[n..] + t
  {}

  lemma ReadEntryExtends(s: bytes, t: bytes, wireType: nat)
    requires ReadEntry(s, wireType).Done?
    ensures ReadEntry(s + t, wireType) == ReadEntry(s, wireType)
  {
    hide ReadVarint, ReadEntryFields;
    ReadVarintExtends(s, t);
    var n := ReadLength(s).size;
    DropAppend(s, t, n);
    EntryFieldsExtend(s[n..], t, ReadLength(s).value, [], []);
  }

  lemma ReadValueExtends(f: DurationFormat, current: Value, s: bytes, t: bytes, wireType: nat)
    requires ReadValue(f, current, s, wireType).Done?
    ensures ReadValue(f, current, s + t, wireType) == ReadValue(f, current, s, wireType)
  {
    hide ReadVarint, ReadDelimited, ReadEntry;
    if current.Args? {
      ReadEntryExtends(s, t, wireType);
    } else if current.Number? {
      ReadVarintExtends(s, t);
    } else {
      ReadDelimitedExtends(s, t);
    }
  }

  /** A round of the loop that succeeds depends on nothing behind its field. */
  lemma ReadFieldExtends(f: DurationFormat, s: bytes, t: bytes, m: Message)
    requires ReadField(f, s, m).Done?
    ensures ReadField(f, s + t, m) == ReadField(f, s, m)
  {
    hide ReadVarint, ReadValue, SkipFrom, FieldNumber, WireType;
    ReadVarintExtends(s, t);
    var wire, n := ReadVarint(s).value, ReadVarint(s).size;
    DropAppend(s, t, n);
    if FieldNumber(wire) <= |m| {
      ReadValueExtends(f, m[FieldNumber(wire) - 1], s[n..], t, WireType(wire));
    } else {
      SkipExtends(s, t);
    }
  }

  /** Decoding is a homomorphism: once `a` decodes, what follows is decoded on top of its result. */
  lemma {:induction false} DecodeAppend(f: DurationFormat, a: bytes, b: bytes, m: Message)
    requires Decode(f, a, m).Ok?
    ensures Decode(f, a + b, m) == Decode(f, b, Decode(f, a, m).value)
    decreases |a|
  {
    hide ReadField;
    if a == [] {
      assert a + b == b;
    } else {
      ReadFieldExtends(f, a, b, m);
      var r := ReadField(f, a, m);
      DropAppend(a, b, r.size);
      DecodeAppend(f, a[r.size..], b, r.value);
    }
  }

  /** A round of the loop, case by case. */
  lemma FieldCases(f: DurationFormat, s: bytes, m: Message)
    ensures match ReadTag(s)
            case Fail(e) => ReadField(f, s, m) == Fail(e) && FieldLeft(s, m) == m
            case Done((number, wireType), n) =>
              if number > |m| then
                FieldLeft(s, m) == m
                && match ReadUnknown(s)
                   case Fail(e) => ReadField(f, s, m) == Fail(e)
                   case Done(_, k) => ReadField(f, s, m) == Done(m, k)
              else
                FieldLeft(s, m) == m[number - 1 := ValueLeft(m[number - 1], s[n..], wireType)]
                && match ReadValue(f, m[number - 1], s[n..], wireType)
                   case Fail(e) => ReadField(f, s, m) == Fail(e)
                   case Done(v, k) => ReadField(f, s, m) == Done(m[number - 1 := v], n + k)
  {
    hide ReadTag, ReadValue, ReadUnknown, ValueLeft;
  }

  lemma TextValue(f: DurationFormat, v: Value, s: bytes, wireType: nat)
    requires v.Text?
    ensures ValueLeft(v, s, wireType) == v
    ensures match ReadText(s, wireType)
            case Fail(e) => ReadValue(f, v, s, wireType) == Fail(e)
            case Done(text, n) => ReadValue(f, v, s, wireType) == Done(Text(text), n)
  {
    hide ReadText;
  }

  lemma NumberValue(f: DurationFormat, v: Value, s: bytes, wireType: nat)
    requires v.Number?
    ensures ValueLeft(v, s, wireType) == Number(NumberLeft(v.number, s, wireType))
    ensures match ReadNumber(s, wireType)
            case Fail(e) => ReadValue(f, v, s, wireType) == Fail(e)
            case Done(n, k) => ReadValue(f, v, s, wireType) == Done(Number(n), k)
  {
    hide ReadNumber, NumberLeft;
  }

  lemma TimeValue(f: DurationFormat, v: Value, s: bytes, wireType: nat)
    requires v.Time?
    ensures ValueLeft(v, s, wireType) == v
    ensures match ReadTime(f, s, wireType)
            case Fail(e) => ReadValue(f, v, s, wireType) == Fail(e)
            case Done(d, n) => ReadValue(f, v, s, wireType) == Done(Time(d), n)
  {
    hide ReadTime;
  }

  lemma OptionalTimeValue(f: DurationFormat, v: Value, s: bytes, wireType: nat)
    requires v.OptionalTime?
    ensures match ReadText(s, wireType)
            case Fail(e) => ReadValue(f, v, s, wireType) == Fail(e) && ValueLeft(v, s, wireType) == v
            case Done(payload, n) =>
              && ValueLeft(v, s, wireType) == (if v.time.None? then OptionalTime(Some(0)) else v)
              && ReadValue(f, v, s, wireType)
                 == if f.decode(payload).None? then Fail(BadDuration)
                    else Done(OptionalTime(Some(f.decode(payload).value)), n)
  {
    hide ReadText;
  }

  lemma ArgsValue(f: DurationFormat, v: Value, s: bytes, wireType: nat)
    requires v.Args?
    ensures ValueLeft(v, s, wireType) == v
    ensures match ReadEntry(s, wireType)
            case Fail(e) => ReadValue(f, v, s, wireType) == Fail(e)
            case Done(entry, n) => ReadValue(f, v, s, wireType) == Done(Args(v.args[entry.0 := entry.1]), n)
  {
    hide ReadEntry;
  }

  // ------------------------------------------------------------------ every input

  /** Whatever is decoded, the message keeps its schema. */
  lemma DecodeKeepsSchema(f: DurationFormat, schema: Schema, s: bytes, m: Message)
    requires Matches(schema, m)
    ensures Matches(schema, DecodeLeft(f, s, m))
    ensures Decode(f, s, m).Ok? ==> Matches(schema, Decode(f, s, m).value)
  {
    hide Decode, DecodeLeft;
    KindsMatch(schema, m, DecodeLeft(f, s, m));
    if Decode(f, s, m).Ok? {
      KindsMatch(schema, m, Decode(f, s, m).value);
    }
  }

  lemma KindsMatch(schema: Schema, m: Message, x: Message)
    requires Matches(schema, m) && SameKinds(m, x)
    ensures Matches(schema, x)
  {
    forall i | 0 <= i < |x| ensures HasKind(x[i], schema[i]) {
      assert SameKind(m[i], x[i]) && HasKind(m[i], schema[i]);
    }
  }

  /** Over every accepted input: what was decoded, encoded in any order and decoded again is the same
      message. */
  lemma ReencodedDecodes(f: DurationFormat, schema: Schema, s: bytes, m: Message, order: seq<bytes>)
    requires f.Valid() && Matches(schema, m) && Decode(f, s, m).Ok?
    requires Walks(order, Decode(f, s, m).value) && |Decode(f, s, m).value| <= 15
    requires |Encode(f, Decode(f, s, m).value, order)| < TWO_TO_63
    ensures Decode(f, Encode(f, Decode(f, s, m).value, order), Empty(schema)) == Decode(f, s, m)
  {
    hide Decode, Encode;
    DecodeKeepsSchema(f, schema, s, m);
    RoundTrip(f, schema, Decode(f, s, m).value, order);
  }

  /** After success the fields are the decoded ones. */
  lemma {:induction false} LeftIsDecoded(f: DurationFormat, s: bytes, m: Message)
    requires Decode(f, s, m).Ok?
    ensures DecodeLeft(f, s, m) == Decode(f, s, m).value
    decreases |s|
  {
    hide ReadField;
    if s != [] {
      var r := ReadField(f, s, m);
      LeftIsDecoded(f, s[r.size..], r.value);
    }
  }

  /** What is left after some fields that decode is left on top of their result. */
  lemma {:induction false} LeftAppend(f: DurationFormat, a: bytes, b: bytes, m: Message)
    requires Decode(f, a, m).Ok?
    ensures DecodeLeft(f, a + b, m) == DecodeLeft(f, b, Decode(f, a, m).value)
    decreases |a|
  {
    hide ReadField;
    if a == [] {
      assert a + b == b;
    } else {
      ReadFieldExtends(f, a, b, m);
      var r := ReadField(f, a, m);
      DropAppend(a, b, r.size);
      LeftAppend(f, a[r.size..], b, r.value);
    }
  }

  /** A failure keeps everything decoded before it, and in the field it happens in it keeps any text,
      map or duration that was there. */
  lemma FailureLeaves(f: DurationFormat, a: bytes, w: bytes, m: Message)
    requires Decode(f, a, m).Ok? && w != [] && ReadField(f, w, Decode(f, a, m).value).Fail?
    ensures Decode(f, a + w, m).Err?
    ensures var mid, left := Decode(f, a, m).value, DecodeLeft(f, a + w, m);
            forall i :: 0 <= i < |mid| && left[i] != mid[i] ==>
              (mid[i].Number? || mid[i] == OptionalTime(None))
              && ReadTag(w).Done? && ReadTag(w).value.0 == i + 1
  {
    hide ReadField, ReadTag;
    DecodeAppend(f, a, w, m);
    LeftAppend(f, a, w, m);
  }

  // ------------------------------------------------------------------ the order of fields

  /** `w` is one field of a message `m`, no more and no less. */
  predicate IsField(f: DurationFormat, w: bytes, m: Message) {
    ReadField(f, w, m).Done? && ReadField(f, w, m).size == |w|
  }

  function NumberOf(w: bytes): (number: nat)
    requires ReadTag(w).Done?
    ensures number >= 1
  {
    ReadTag(w).value.0
  }

  /** What a field of number `number` does to the message depends on that field of it alone. */
  lemma FieldIsLocal(f: DurationFormat, s: bytes, m: Message, x: Message)
    requires ReadField(f, s, m).Done? && |x| == |m|
    requires NumberOf(s) <= |m| ==> x[NumberOf(s) - 1] == m[NumberOf(s) - 1]
    ensures ReadField(f, s, x).Done? && ReadField(f, s, x).size == ReadField(f, s, m).size
    ensures var i := NumberOf(s) - 1;
            if i < |m| then
              ReadField(f, s, m).value == m[i := ReadField(f, s, m).value[i]]
              && ReadField(f, s, x).value == x[i := ReadField(f, s, m).value[i]]
            else ReadField(f, s, m).value == m && ReadField(f, s, x).value == x
  {
    hide ReadTag, ReadValue, ReadUnknown;
  }

  /** Fields of different numbers commute. */
  lemma FieldsCommute(f: DurationFormat, a: bytes, w1: bytes, w2: bytes, t: bytes, m: Message)
    requires Decode(f, a, m).Ok?
    requires IsField(f, w1, Decode(f, a, m).value) && IsField(f, w2, Decode(f, a, m).value)
    requires NumberOf(w1) != NumberOf(w2)
    ensures Decode(f, a + (w1 + (w2 + t)), m) == Decode(f, a + (w2 + (w1 + t)), m)
  {
    hide Decode, ReadField, ReadTag;
    var mid := Decode(f, a, m).value;
    DecodeAppend(f, a, w1 + (w2 + t), m);
    DecodeAppend(f, a, w2 + (w1 + t), m);
    var x1 := TwoFields(f, w1, w2, t, mid);
    var x2 := TwoFields(f, w2, w1, t, mid);
    assert x1 == x2;
  }

  lemma TwoFields(f: DurationFormat, w1: bytes, w2: bytes, t: bytes, m: Message) returns (x: Message)
    requires IsField(f, w1, m) && IsField(f, w2, m) && NumberOf(w1) != NumberOf(w2)
    ensures Decode(f, w1 + (w2 + t), m) == Decode(f, t, x)
    ensures |x| == |m|
    ensures forall i :: 0 <= i < |m| ==>
              x[i] == if i == NumberOf(w1) - 1 then ReadField(f, w1, m).value[i]
                      else if i == NumberOf(w2) - 1 then ReadField(f, w2, m).value[i]
                      else m[i]
  {
    hide Decode, ReadField, ReadTag;
    FieldIsLocal(f, w1, m, m);
    var m1 := ReadField(f, w1, m).value;
    FieldIsLocal(f, w2, m, m1);
    x := ReadField(f, w2, m1).value;
    ReadFieldExtends(f, w1, w2 + t, m);
    OneField(f, w1, w2 + t, m, m1);
    ReadFieldExtends(f, w2, t, m1);
    OneField(f, w2, t, m1, x);
  }

  // ------------------------------------------------------------------ unknown fields

  /** A field number the message does not have. */
  predicate IsUnknown(u: Field, m: Message) {
    WellFormed(u) && FieldNumber(Base128(u.tag) % TWO_TO_64) > |m|
  }

  lemma TagOf(u: Field, t: bytes)
    requires WellFormed(u)
    ensures ReadVarint(Encoding(u) + t).Done?
    ensures ReadVarint(Encoding(u) + t).value == Base128(u.tag) % TWO_TO_64
    ensures WireType(Base128(u.tag) % TWO_TO_64) != 4
  {
    hide ReadVarint, EncodingAll, Base128;
    var rest := Encoding(u)[|u.tag|..];
    assert Encoding(u) == u.tag + rest;
    Concat3(u.tag, rest, t);
    ReadVarintExact(u.tag, rest + t);
  }

  lemma ReadUnknownField(f: DurationFormat, u: Field, t: bytes, m: Message)
    requires IsUnknown(u, m)
    ensures ReadField(f, Encoding(u) + t, m) == Done(m, |Encoding(u)|)
  {
    hide ReadVarint, SkipFrom, Encoding, Base128, FieldNumber, WireType;
    TagOf(u, t);
    SkipExact(u, t);
  }

  /** Forward compatibility: an unknown field at a field boundary, of any wire type and any
      nesting of groups, leaves the result of decoding unchanged. */
  lemma UnknownFieldIgnored(f: DurationFormat, a: bytes, u: Field, b: bytes, m: Message)
    requires Decode(f, a, m).Ok? && IsUnknown(u, m)
    ensures Decode(f, a + Encoding(u) + b, m) == Decode(f, a + b, m)
  {
    hide Decode, ReadField, Encoding, WellFormed, FieldNumber;
    var mid := Decode(f, a, m).value;
    Concat3(a, Encoding(u), b);
    DecodeAppend(f, a, Encoding(u) + b, m);
    DecodeAppend(f, a, b, m);
    ReadUnknownField(f, u, b, mid);
    NonEmpty(u);
    OneField(f, Encoding(u), b, mid, mid);
  }

  lemma NonEmpty(u: Field)
    requires WellFormed(u)
    ensures Encoding(u) != []
  {
    hide EncodingAll;
  }
}
