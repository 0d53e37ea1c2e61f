/** Which error each malformed input is answered with. */
module Rejections {
  import opened Basics
  import opened Varint
  import opened Wire
  import opened Messages
  import opened MessageLaws

  // ------------------------------------------------------------------ varints and lengths

  /** Bytes that all say another follows. */
  predicate Unended(bs: bytes) {
    forall k :: 0 <= k < |bs| ==> bs[k] >= 128
  }

  lemma UnendedHead(s: bytes, n: nat)
    requires 1 <= n <= |s|
    ensures Unended(s[..n]) <==> s[0] >= 128 && Unended(s[1..][..n - 1])
  {
    assert s[..n] == [s[0]] + s[1..][..n - 1];
  }

  lemma UnendedAll(s: bytes)
    requires s != []
    ensures Unended(s) <==> s[0] >= 128 && Unended(s[1..])
  {
    assert s == [s[0]] + s[1..];
  }

  lemma {:induction false} ScanFails(s: bytes, k: nat)
    requires k <= 10
    ensures Scan(s, k) == Fail(IntOverflow) <==> |s| >= 10 - k && Unended(s[..10 - k])
    ensures Scan(s, k) == Fail(UnexpectedEOF) <==> |s| < 10 - k && Unended(s)
    decreases |s|
  {
    if k < 10 && s != [] {
      ScanFails(s[1..], k + 1);
      hide Unended;
      UnendedAll(s);
      if |s| >= 10 - k {
        UnendedHead(s, 10 - k);
      }
    }
  }

  /** A varint is refused exactly when its first ten bytes all say another follows, and misses bytes
      exactly when fewer are there and all of them do. */
  lemma VarintFails(s: bytes)
    ensures ReadVarint(s) == Fail(IntOverflow) <==> |s| >= 10 && Unended(s[..10])
    ensures ReadVarint(s) == Fail(UnexpectedEOF) <==> |s| < 10 && Unended(s)
    ensures ReadVarint(s).Fail? ==> ReadVarint(s).error in {IntOverflow, UnexpectedEOF}
  {
    ScanFails(s, 0);
    OnlyTwo(s, 0);
  }

  lemma {:induction false} OnlyTwo(s: bytes, k: nat)
    ensures Scan(s, k).Fail? ==> Scan(s, k).error in {IntOverflow, UnexpectedEOF}
    decreases |s|
  {
    if s != [] {
      OnlyTwo(s[1..], k + 1);
    }
  }

  /** A varint cut short misses bytes. */
  lemma VarintCut(s: bytes, n: nat)
    requires ReadVarint(s).Done? && n < ReadVarint(s).size
    ensures ReadVarint(s[..n]) == Fail(UnexpectedEOF)
  {
    ReadVarintShape(s);
    hide ReadVarint, Base128;
    VarintFails(s[..n]);
  }

  /** A length that is negative as an int is refused, whatever follows it. */
  lemma LengthFails(length: bytes, t: bytes)
    requires IsVarint(length) && Base128(length) % TWO_TO_64 >= TWO_TO_63
    ensures ReadDelimited(length + t) == Fail(InvalidLength)
  {
    hide ReadVarint, Base128;
    ReadVarintExact(length, t);
  }

  lemma PrefixDrop(s: bytes, n: nat, k: nat)
    requires k <= n <= |s|
    ensures s[..n][k..] == s[k..][..n - k]
  {}

  lemma PrefixExtends(s: bytes, n: nat)
    requires n <= |s| && ReadVarint(s).Done? && ReadVarint(s).size <= n
    ensures ReadVarint(s[..n]) == ReadVarint(s)
  {
    hide ReadVarint;
    ReadVarintShape(s);
    var k := ReadVarint(s).size;
    ReadVarintExact(s[..k], s[k..n]);
    ReadVarintExact(s[..k], s[k..]);
    assert s[..k] + s[k..n] == s[..n] && s[..k] + s[k..] == s;
  }

  /** A length or its bytes cut short miss bytes. */
  lemma DelimitedCut(s: bytes, n: nat)
    requires ReadDelimited(s).Done? && n < ReadDelimited(s).size
    ensures ReadDelimited(s[..n]) == Fail(UnexpectedEOF)
  {
    hide ReadVarint;
    if n < ReadVarint(s).size {
      VarintCut(s, n);
    } else {
      PrefixExtends(s, n);
    }
  }

  lemma EntryCut(s: bytes, wireType: nat, n: nat)
    requires ReadEntry(s, wireType).Done? && n < ReadEntry(s, wireType).size
    ensures ReadEntry(s[..n], wireType) == Fail(UnexpectedEOF)
  {
    hide ReadVarint, ReadEntryFields;
    if n < ReadVarint(s).size {
      VarintCut(s, n);
    } else {
      PrefixExtends(s, n);
    }
  }

  // ------------------------------------------------------------------ the skipper

  /** One round on a prefix: the same, or not all of its bytes are there. */
  lemma RoundCut(s: bytes, depth: nat, n: nat)
    requires n <= |s| && SkipRound(s, depth).Done?
    ensures SkipRound(s[..n], depth) == SkipRound(s, depth)
            || (n < SkipRound(s, depth).size && SkipRound(s[..n], depth) == Fail(UnexpectedEOF))
  {
    hide ReadVarint;
    var k := ReadVarint(s).size;
    if n < k {
      VarintCut(s, n);
    } else {
      PrefixExtends(s, n);
      PrefixDrop(s, n, k);
      var wireType := ReadVarint(s).value % 8;
      if wireType == 0 || wireType == 2 {
        if n - k < ReadVarint(s[k..]).size {
          VarintCut(s[k..], n - k);
        } else {
          PrefixExtends(s[k..], n - k);
        }
      }
    }
  }

  /** A skip on a prefix that does not hold it: it misses bytes, or ends beyond them. */
  lemma {:induction false} SkipCut(s: bytes, depth: nat, n: nat)
    requires SkipFrom(s, depth).Done? && SkipFrom(s, depth).size <= |s| && n < SkipFrom(s, depth).size
    ensures SkipFrom(s[..n], depth) == Fail(UnexpectedEOF)
            || (SkipFrom(s[..n], depth).Done? && SkipFrom(s[..n], depth).size > n)
    decreases |s|
  {
    hide SkipRound;
    if n > 0 {
      RoundCut(s, depth, n);
      FirstRound(s, depth);
      var m := SkipRound(s, depth).size;
      if SkipRound(s[..n], depth).Done? && SkipRound(s, depth).value != 0 && m <= n {
        PrefixDrop(s, n, m);
        SkipCut(s[m..], SkipRound(s, depth).value, n - m);
      }
    }
  }

  lemma UnknownCut(s: bytes, n: nat)
    requires ReadUnknown(s).Done? && n < ReadUnknown(s).size
    ensures ReadUnknown(s[..n]) == Fail(UnexpectedEOF)
  {
    hide SkipFrom;
    SkipCut(s, 0, n);
  }

  /** A tag the skipper cannot go on from: an end of no group, or a wire type that does not exist. */
  lemma SkipFails(tag: bytes, t: bytes, depth: nat)
    requires IsVarint(tag)
    ensures IsTag(tag, 4) ==> SkipFrom(tag + t, 0) == Fail(UnexpectedEndOfGroup)
    ensures IsTag(tag, 6) || IsTag(tag, 7) ==> SkipFrom(tag + t, depth) == Fail(IllegalWireType)
  {
    hide ReadVarint, Base128;
    ReadVarintExact(tag, t);
  }

  // ------------------------------------------------------------------ fields

  lemma ValueCut(f: DurationFormat, v: Value, s: bytes, wireType: nat, n: nat)
    requires ReadValue(f, v, s, wireType).Done? && n < ReadValue(f, v, s, wireType).size
    ensures ReadValue(f, v, s[..n], wireType) == Fail(UnexpectedEOF)
  {
    hide ReadVarint, ReadDelimited, ReadEntry;
    if v.Args? {
      EntryCut(s, wireType, n);
    } else if v.Number? {
      VarintCut(s, n);
    } else {
      DelimitedCut(s, n);
    }
  }

  lemma FieldCut(f: DurationFormat, s: bytes, m: Message, n: nat)
    requires ReadField(f, s, m).Done? && n < ReadField(f, s, m).size
    ensures ReadField(f, s[..n], m) == Fail(UnexpectedEOF)
  {
    hide ReadVarint, ReadValue, ReadUnknown, FieldNumber, WireType;
    var k := ReadVarint(s).size;
    if n < k {
      VarintCut(s, n);
    } else {
      PrefixExtends(s, n);
      PrefixDrop(s, n, k);
      var wire := ReadVarint(s).value;
      if FieldNumber(wire) <= |m| {
        ValueCut(f, m[FieldNumber(wire) - 1], s[k..], WireType(wire), n - k);
      } else {
        UnknownCut(s, n);
      }
    }
  }

  /** Truncation has one error: a field cut short anywhere, of whatever kind and wherever in it, is
      answered with an unexpected end of input. */
  lemma TruncationRejected(f: DurationFormat, a: bytes, w: bytes, k: nat, m: Message)
    requires Decode(f, a, m).Ok? && IsField(f, w, Decode(f, a, m).value) && 0 < k < |w|
    ensures Decode(f, a + w[..k], m) == Err(UnexpectedEOF)
  {
    hide ReadField;
    DecodeAppend(f, a, w[..k], m);
    FieldCut(f, w, Decode(f, a, m).value, k);
  }

  /** A tag no field of `m` can start with: an end-group tag, a number that is not positive as an
      int32, or a known field under a wire type that is not its own. */
  predicate BadTag(tag: bytes, m: Message) {
    && IsVarint(tag)
    && var wire := Base128(tag) % TWO_TO_64;
       || WireType(wire) == 4
       || FieldNumber(wire) <= 0
       || (FieldNumber(wire) <= |m|
           && WireType(wire) != if m[FieldNumber(wire) - 1].Number? then 0 else 2)
  }

  /** The error of a tag no field can start with: an end of a group first, then a number that is not
      positive, then a wire type that is not the field's own. */
  lemma BadTagRejected(f: DurationFormat, a: bytes, tag: bytes, t: bytes, m: Message)
    requires Decode(f, a, m).Ok? && BadTag(tag, Decode(f, a, m).value)
    ensures var wire := Base128(tag) % TWO_TO_64;
            Decode(f, a + (tag + t), m)
            == Err(if wire % 8 == 4 then EndGroupForNonGroup
                   else if FieldNumber(wire) <= 0 then IllegalTag
                   else WrongWireType)
  {
    hide ReadVarint, Base128, FieldNumber, ReadField;
    DecodeAppend(f, a, tag + t, m);
    BadTagField(f, tag, t, Decode(f, a, m).value);
  }

  lemma BadTagField(f: DurationFormat, tag: bytes, t: bytes, m: Message)
    requires BadTag(tag, m)
    ensures var wire := Base128(tag) % TWO_TO_64;
            ReadField(f, tag + t, m)
            == Fail(if wire % 8 == 4 then EndGroupForNonGroup
                    else if FieldNumber(wire) <= 0 then IllegalTag
                    else WrongWireType)
  {
    hide ReadVarint, Base128, FieldNumber;
    ReadVarintExact(tag, t);
  }

  /** A field number is the number in the tag if it is below 2^31; above, it is taken as an int32. */
  lemma FieldNumberIs(wire: uint64)
    ensures wire / 8 < 0x8000_0000 ==> FieldNumber(wire) == wire / 8
    ensures -0x8000_0000 <= FieldNumber(wire) < 0x8000_0000
    ensures (wire / 8 - FieldNumber(wire)) % 0x1_0000_0000 == 0
  {}

  lemma BadPayload(f: DurationFormat, number: nat, payload: bytes, t: bytes, m: Message)
    requires 1 <= number <= |m| <= 15 && (m[number - 1].Time? || m[number - 1].OptionalTime?)
    requires |payload| < TWO_TO_63 && f.decode(payload).None?
    ensures ReadField(f, Tagged(number, payload) + t, m) == Fail(BadDuration)
    ensures FieldLeft(Tagged(number, payload) + t, m)
         == if m[number - 1] == OptionalTime(None) then m[number - 1 := OptionalTime(Some(0))] else m
  {
    hide ReadVarint, ReadText, Tagged, Tag, FieldNumber, WireType, ReadField, FieldLeft, ReadValue, ValueLeft;
    var s := Tagged(number, payload) + t;
    TaggedText(number, payload, t);
    FieldCases(f, s, m);
    TagIs(s, number);
    if m[number - 1].Time? {
      TimeValue(f, m[number - 1], s[1..], 2);
    } else {
      OptionalTimeValue(f, m[number - 1], s[1..], 2);
    }
    assert m[number - 1 := m[number - 1]] == m;
  }

  lemma TagIs(s: bytes, number: nat)
    requires number >= 1 && ReadVarint(s).Done? && ReadVarint(s).size == 1
    requires FieldNumber(ReadVarint(s).value) == number && WireType(ReadVarint(s).value) == 2
    ensures ReadTag(s) == Done((number, 2), 1)
  {
    hide ReadVarint, FieldNumber, WireType;
  }

  /** A duration payload that does not decode is an error of its own. */
  lemma BadDurationError(f: DurationFormat, a: bytes, number: nat, payload: bytes, t: bytes, m: Message)
    requires Decode(f, a, m).Ok? && 1 <= number <= |m| <= 15
    requires var v := Decode(f, a, m).value[number - 1]; v.Time? || v.OptionalTime?
    requires |payload| < TWO_TO_63 && f.decode(payload).None?
    ensures Decode(f, a + (Tagged(number, payload) + t), m) == Err(BadDuration)
  {
    hide ReadField, Tagged;
    TaggedSize(number, payload);
    DecodeAppend(f, a, Tagged(number, payload) + t, m);
    BadPayload(f, number, payload, t, Decode(f, a, m).value);
  }

  // ------------------------------------------------------------------ what is left behind

  /** A number field keeps the low 32 bits of any varint. */
  lemma NumberTruncates(f: DurationFormat, a: bytes, number: nat, v: bytes, t: bytes, m: Message)
    requires Decode(f, a, m).Ok? && 1 <= number <= |m| <= 15 && Decode(f, a, m).value[number - 1].Number?
    requires IsVarint(v)
    ensures Decode(f, a + ([Tag(number, 0)] + v + t), m)
         == Decode(f, t, Decode(f, a, m).value[number - 1 := Number(Base128(v) % TWO_TO_64 % TWO_TO_32)])
  {
    hide ReadVarint, Base128, FieldNumber, WireType, Tag, Decode;
    var mid := Decode(f, a, m).value;
    var head := [Tag(number, 0)] + v;
    DecodeAppend(f, a, head + t, m);
    TagByte(number, 0, v + t);
    Concat3([Tag(number, 0)], v, t);
    ReadVarintExact(v, t);
    OneField(f, head, t, mid, mid[number - 1 := Number(Base128(v) % TWO_TO_64 % TWO_TO_32)]);
  }

  /** A number cut short leaves the bits that were there in its field. */
  lemma NumberHalfRead(f: DurationFormat, a: bytes, number: nat, bs: bytes, m: Message)
    requires Decode(f, a, m).Ok? && 1 <= number <= |m| <= 15 && Decode(f, a, m).value[number - 1].Number?
    requires |bs| < 10 && Unended(bs)
    ensures Decode(f, a + ([Tag(number, 0)] + bs), m) == Err(UnexpectedEOF)
    ensures DecodeLeft(f, a + ([Tag(number, 0)] + bs), m)
         == Decode(f, a, m).value[number - 1 := Number(Base128(bs) % TWO_TO_32)]
  {
    hide ReadVarint, Base128, FieldNumber, WireType, Tag;
    var w := [Tag(number, 0)] + bs;
    DecodeAppend(f, a, w, m);
    LeftAppend(f, a, w, m);
    TagByte(number, 0, bs);
    VarintFails(bs);
  }

  /** A duration that does not decode is made all the same where there was none. */
  lemma DurationMade(f: DurationFormat, a: bytes, number: nat, payload: bytes, t: bytes, m: Message)
    requires Decode(f, a, m).Ok? && 1 <= number <= |m| <= 15
    requires Decode(f, a, m).value[number - 1] == OptionalTime(None)
    requires |payload| < TWO_TO_63 && f.decode(payload).None?
    ensures DecodeLeft(f, a + (Tagged(number, payload) + t), m)
         == Decode(f, a, m).value[number - 1 := OptionalTime(Some(0))]
  {
    hide ReadField, FieldLeft, Tagged, Decode;
    TaggedSize(number, payload);
    LeftAppend(f, a, Tagged(number, payload) + t, m);
    BadPayload(f, number, payload, t, Decode(f, a, m).value);
  }
}
