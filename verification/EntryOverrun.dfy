/** Map entries. The generated loop checks the lengths of keys and values against the whole input, so
    it can run past the entry it reads. This module has the grammar of entries, says what an entry
    means, and says on which inputs the code reads what a decoder that stays inside entries reads. */
module EntryOverrun {
  import opened Basics
  import opened Varint
  import opened Wire
  import opened Messages
  import opened MessageLaws

  // ------------------------------------------------------------------ the grammar of entries

  /** A key or a value, whatever wire type its tag has, or a field of another number. */
  datatype Part =
    | KeyOrValue(tag: bytes, length: bytes, payload: bytes)
    | Other(field: Field)

  function NumberOf(tag: bytes): int { FieldNumber(Base128(tag) % TWO_TO_64) }

  predicate IsPart(p: Part) {
    match p
    case KeyOrValue(tag, length, payload) =>
      && IsVarint(tag) && 1 <= NumberOf(tag) <= 2
      && IsVarint(length) && Base128(length) % TWO_TO_64 == |payload| < TWO_TO_63
    case Other(field) => WellFormed(field) && !(1 <= NumberOf(field.tag) <= 2)
  }

  function PartBytes(p: Part): bytes {
    match p
    case KeyOrValue(tag, length, payload) => tag + (length + payload)
    case Other(field) => Encoding(field)
  }

  predicate AreParts(ps: seq<Part>) {
    forall i :: 0 <= i < |ps| ==> IsPart(ps[i])
  }

  function AllBytes(ps: seq<Part>): bytes {
    if ps == [] then [] else PartBytes(ps[0]) + AllBytes(ps[1..])
  }

  /** The bytes of a map entry. */
  ghost predicate IsEntry(s: bytes) {
    exists ps :: AreParts(ps) && AllBytes(ps) == s
  }

  /** What one part makes of the key and the value so far. */
  function Say(p: Part, key: bytes, value: bytes): (bytes, bytes) {
    if p.Other? then (key, value)
    else if NumberOf(p.tag) == 1 then (p.payload, value)
    else (key, p.payload)
  }

  /** What the parts say: the last key and the last value. */
  function Says(ps: seq<Part>, key: bytes, value: bytes): (bytes, bytes) {
    if ps == [] then (key, value)
    else var next := Say(ps[0], key, value); Says(ps[1..], next.0, next.1)
  }

  // ------------------------------------------------------------------ the loop reads the grammar

  lemma KeyOrValueRead(p: Part, t: bytes)
    requires IsPart(p) && p.KeyOrValue?
    ensures var s := PartBytes(p) + t;
            && ReadVarint(s) == Done(Base128(p.tag) % TWO_TO_64, |p.tag|)
            && ReadDelimited(s[|p.tag|..]) == Done(p.payload, |p.length| + |p.payload|)
            && s[|p.tag| + (|p.length| + |p.payload|)..] == t
  {
    hide ReadVarint, Base128, ReadDelimited;
    var rest := p.length + p.payload + t;
    Concat3(p.tag, p.length + p.payload, t);
    ReadVarintExact(p.tag, rest);
    assert (p.tag + rest)[|p.tag|..] == rest;
    Concat3(p.length, p.payload, t);
    ReadVarintExact(p.length, p.payload + t);
    LengthThenPayload(p.length, p.payload, t);
    assert (PartBytes(p) + t)[|PartBytes(p)|..] == t;
  }

  /** One round over a part. */
  lemma PartRound(p: Part, t: bytes, remaining: int, key: bytes, value: bytes)
    requires IsPart(p) && |PartBytes(p)| <= remaining <= |PartBytes(p) + t|
    ensures ReadEntryFields(PartBytes(p) + t, remaining, key, value)
         == var next := Say(p, key, value);
            ReadEntryFields(t, remaining - |PartBytes(p)|, next.0, next.1)
  {
    hide ReadEntryFields, ReadVarint, ReadDelimited, SkipFrom, Base128, FieldNumber, WellFormed, Encoding, IsVarint;
    var s := PartBytes(p) + t;
    if p.KeyOrValue? {
      KeyOrValueRead(p, t);
      TagLength(p.tag);
      EntryUnfold(s, remaining, key, value, |p.tag|);
    } else {
      TagOf(p.field, t);
      SkipExact(p.field, t);
      NonEmpty(p.field);
      assert s[|Encoding(p.field)|..] == t;
      EntrySkip(s, remaining, key, value, |Encoding(p.field)|);
    }
  }

  lemma EntrySkip(s: bytes, remaining: int, key: bytes, value: bytes, k: nat)
    requires 1 <= k <= remaining <= |s| && SkipFrom(s, 0) == Done((), k)
    requires ReadVarint(s).Done? && !(1 <= FieldNumber(ReadVarint(s).value) <= 2)
    ensures ReadEntryFields(s, remaining, key, value) == ReadEntryFields(s[k..], remaining - k, key, value)
  {
    hide ReadVarint, SkipFrom, FieldNumber;
  }

  /** The loop over any parts, with anything behind them, ends at their end with what they say. */
  lemma {:induction false} PartsRead(ps: seq<Part>, t: bytes, key: bytes, value: bytes)
    requires AreParts(ps)
    ensures ReadEntryFields(AllBytes(ps) + t, |AllBytes(ps)|, key, value) == Ok(Says(ps, key, value))
    decreases |ps|
  {
    hide PartBytes, IsPart;
    if ps == [] {
      assert AllBytes(ps) + t == t;
    } else {
      var next := Say(ps[0], key, value);
      Concat3(PartBytes(ps[0]), AllBytes(ps[1..]), t);
      PartRound(ps[0], AllBytes(ps[1..]) + t, |AllBytes(ps)|, key, value);
      PartsRead(ps[1..], t, next.0, next.1);
    }
  }

  /** A round that reads a key or a value moves over one part. */
  lemma RoundIsPart(s: bytes) returns (p: Part, k: nat)
    requires ReadVarint(s).Done? && 1 <= FieldNumber(ReadVarint(s).value) <= 2
    requires ReadDelimited(s[ReadVarint(s).size..]).Done?
    ensures IsPart(p) && k == ReadVarint(s).size + ReadDelimited(s[ReadVarint(s).size..]).size
    ensures k <= |s| && PartBytes(p) == s[..k]
  {
    hide ReadVarint, Base128, FieldNumber, IsVarint;
    var n := ReadVarint(s).size;
    ReadVarintShape(s);
    ReadVarintShape(s[n..]);
    var l := ReadVarint(s[n..]).size;
    k := n + ReadDelimited(s[n..]).size;
    Glue(s, n, l);
    Glue(s, n + l, k - n - l);
    p := KeyOrValue(s[..n], s[n..n + l], s[n + l..k]);
    assert s[n..n + l] + s[n + l..k] == s[n..k];
    Glue(s, n, k - n);
  }

  /** What the loop accepts of an entry alone is made of parts. */
  lemma {:induction false} PartsOf(s: bytes, key: bytes, value: bytes) returns (ps: seq<Part>)
    requires ReadEntryFields(s, |s|, key, value).Ok?
    ensures AreParts(ps) && AllBytes(ps) == s
    decreases |s|
  {
    hide ReadVarint, ReadDelimited, SkipFrom, FieldNumber, WellFormed, Encoding, Base128, PartBytes, IsPart;
    ps := [];
    if s != [] {
      var n, number := ReadVarint(s).size, FieldNumber(ReadVarint(s).value);
      var p, k;
      if number == 1 || number == 2 {
        p, k := RoundIsPart(s);
        var text := ReadDelimited(s[n..]).value;
        ps := PartsOf(s[k..], if number == 1 then text else key, if number == 1 then value else text);
      } else {
        p, k := SkipIsPart(s);
        ps := PartsOf(s[k..], key, value);
      }
      ps := [p] + ps;
      assert ps[1..] == ps[1..];
      assert s == s[..k] + s[k..];
    }
  }

  lemma SkipIsPart(s: bytes) returns (p: Part, k: nat)
    requires SkipFrom(s, 0).Done? && SkipFrom(s, 0).size <= |s|
    requires ReadVarint(s).Done? && !(1 <= FieldNumber(ReadVarint(s).value) <= 2)
    ensures IsPart(p) && k == SkipFrom(s, 0).size && PartBytes(p) == s[..k]
  {
    hide ReadVarint, SkipFrom, FieldNumber, WellFormed, Encoding, Base128;
    var f := SkipComplete(s);
    p, k := Other(f), SkipFrom(s, 0).size;
    assert Encoding(f) + s[k..] == s;
    TagOf(f, s[k..]);
  }

  /** The loop accepts an entry alone exactly when it is made of parts. */
  lemma EntryIffParts(s: bytes, key: bytes, value: bytes)
    ensures ReadEntryFields(s, |s|, key, value).Ok? <==> IsEntry(s)
  {
    hide ReadEntryFields, AllBytes, AreParts;
    if ReadEntryFields(s, |s|, key, value).Ok? {
      var ps := PartsOf(s, key, value);
    }
    if ps :| AreParts(ps) && AllBytes(ps) == s {
      PartsRead(ps, [], key, value);
      assert s + [] == s;
    }
  }

  /** The code reads the entry at the front of `s` as its own bytes say exactly when they are made of
      parts; on any other bytes it either fails or reads something that is not in the entry. */
  lemma EntryConfined(s: bytes, len: nat, key: bytes, value: bytes)
    requires len <= |s|
    ensures IsEntry(s[..len]) <==> ReadEntryFields(s[..len], len, key, value).Ok?
    ensures IsEntry(s[..len]) ==>
              ReadEntryFields(s, len, key, value) == ReadEntryFields(s[..len], len, key, value)
    ensures ReadEntryFields(s, len, key, value).Ok? ==>
              (ReadEntryFields(s, len, key, value) == ReadEntryFields(s[..len], len, key, value)
               <==> IsEntry(s[..len]))
  {
    hide ReadEntryFields, IsEntry;
    EntryIffParts(s[..len], key, value);
    assert s[..len] + s[len..] == s;
    if IsEntry(s[..len]) {
      EntryFieldsExtend(s[..len], s[len..], len, key, value);
    }
  }

  // ------------------------------------------------------------------ what entries mean

  lemma {:induction false} SaysAppend(ps: seq<Part>, qs: seq<Part>, key: bytes, value: bytes)
    ensures Says(ps + qs, key, value) == var next := Says(ps, key, value); Says(qs, next.0, next.1)
    decreases |ps|
  {
    if ps == [] {
      assert ps + qs == qs;
    } else {
      assert (ps + qs)[0] == ps[0] && (ps + qs)[1..] == ps[1..] + qs;
      var next := Say(ps[0], key, value);
      SaysAppend(ps[1..], qs, next.0, next.1);
    }
  }

  /** An entry made of any parts, behind whatever decodes, sets the last key to the last value. */
  lemma EntryDecodes(f: DurationFormat, a: bytes, number: nat, ps: seq<Part>, b: bytes, m: Message)
    requires Decode(f, a, m).Ok? && 1 <= number <= |m| <= 15
    requires Decode(f, a, m).value[number - 1].Args? && AreParts(ps) && |AllBytes(ps)| < TWO_TO_63
    ensures var mid, said := Decode(f, a, m).value, Says(ps, [], []);
            Decode(f, a + (Tagged(number, AllBytes(ps)) + b), m)
            == Decode(f, b, mid[number - 1 := Args(mid[number - 1].args[said.0 := said.1])])
  {
    hide Decode, ReadField, ReadEntryFields, AllBytes, AreParts, Says, Delimited;
    var mid, said := Decode(f, a, m).value, Says(ps, [], []);
    var head := Tagged(number, AllBytes(ps));
    DecodeAppend(f, a, head + b, m);
    PartsRead(ps, b, [], []);
    BodyField(f, number, AllBytes(ps), said, mid, b);
    OneField(f, head, b, mid, mid[number - 1 := Args(mid[number - 1].args[said.0 := said.1])]);
  }

  /** Forward compatibility inside entries: a field of another number, anywhere in an entry whose
      length is adjusted, changes nothing. */
  lemma UnknownInEntryIgnored(f: DurationFormat, a: bytes, number: nat, ps: seq<Part>, u: Part, qs: seq<Part>,
                              b: bytes, m: Message)
    requires Decode(f, a, m).Ok? && 1 <= number <= |m| <= 15 && Decode(f, a, m).value[number - 1].Args?
    requires AreParts(ps + qs) && AreParts(ps + ([u] + qs)) && u.Other?
    requires |AllBytes(ps + qs)| < TWO_TO_63 && |AllBytes(ps + ([u] + qs))| < TWO_TO_63
    ensures Decode(f, a + (Tagged(number, AllBytes(ps + ([u] + qs))) + b), m)
         == Decode(f, a + (Tagged(number, AllBytes(ps + qs)) + b), m)
  {
    hide Decode, AllBytes, AreParts, Tagged;
    EntryDecodes(f, a, number, ps + qs, b, m);
    EntryDecodes(f, a, number, ps + ([u] + qs), b, m);
    SaysAppend(ps, qs, [], []);
    SaysAppend(ps, [u] + qs, [], []);
    assert ([u] + qs)[1..] == qs;
  }

  /** A key or a value as the encoder writes it. */
  function Written(number: nat, text: bytes): Part
    requires 1 <= number <= 2
  {
    KeyOrValue([Tag(number, 2)], EncodeVarint(|text|), text)
  }

  lemma WrittenPart(number: nat, text: bytes)
    requires 1 <= number <= 2 && |text| < TWO_TO_63
    ensures IsPart(Written(number, text)) && NumberOf([Tag(number, 2)]) == number
    ensures PartBytes(Written(number, text)) == Tagged(number, text)
  {
    hide EncodeVarint, FieldNumber, Base128, Sov, IsVarint;
    WrittenTag(number);
    VarintRoundTrip(|text|, []);
    EncodedShape(|text|);
  }

  lemma WrittenTag(number: nat)
    requires 1 <= number <= 2
    ensures IsVarint([Tag(number, 2)]) && NumberOf([Tag(number, 2)]) == number
  {
    hide ReadVarint, FieldNumber, Base128;
    var tag := [Tag(number, 2)];
    TagByte(number, 2, []);
    assert tag + [] == tag;
    ReadVarintShape(tag);
    assert tag[..1] == tag;
  }

  /** The value may come before the key. */
  lemma ValueBeforeKey(f: DurationFormat, a: bytes, number: nat, key: bytes, value: bytes, b: bytes, m: Message)
    requires Decode(f, a, m).Ok? && 1 <= number <= |m| <= 15 && Decode(f, a, m).value[number - 1].Args?
    requires |EntryBody(key, value)| < TWO_TO_63
    ensures Decode(f, a + (Tagged(number, Tagged(2, value) + Tagged(1, key)) + b), m)
         == Decode(f, a + (Tagged(number, EntryBody(key, value)) + b), m)
  {
    hide Decode, Tagged, IsPart, PartBytes, NumberOf, EntryBody, EncodeVarint, Sov;
    EntryIsTagged(key, value);
    TaggedSize(1, key);
    TaggedSize(2, value);
    var k, v := Written(1, key), Written(2, value);
    WrittenPart(1, key);
    WrittenPart(2, value);
    assert [k, v][1..] == [v] && [v][1..] == [] && [v, k][1..] == [k] && [k][1..] == [];
    TwoParts(k, v);
    TwoParts(v, k);
    EntryDecodes(f, a, number, [k, v], b, m);
    EntryDecodes(f, a, number, [v, k], b, m);
  }

  lemma TwoParts(p: Part, q: Part)
    ensures AllBytes([p, q]) == PartBytes(p) + PartBytes(q)
  {
    hide PartBytes;
    assert [p, q][1..] == [q] && [q][1..] == [];
    assert AllBytes([q]) == PartBytes(q) + AllBytes([]) == PartBytes(q);
    assert AllBytes([p, q]) == PartBytes(p) + AllBytes([q]);
  }

  // ------------------------------------------------------------------ whole messages

  /** The bytes of the map entry that `s` begins with, if it begins with one. */
  function EntryAt(s: bytes, m: Message): (r: Option<bytes>)
    ensures r.Some? ==> ReadTag(s).Done? && ReadTag(s).value.0 <= |m| && m[ReadTag(s).value.0 - 1].Args?
  {
    match ReadTag(s)
    case Fail(_) => None
    case Done((number, wireType), n) =>
      if number <= |m| && m[number - 1].Args? && wireType == 2 && ReadDelimited(s[n..]).Done?
      then Some(ReadDelimited(s[n..]).value)
      else None
  }

  /** One round of a decoder that reads an entry out of its own bytes. */
  function BoundedField(f: DurationFormat, s: bytes, m: Message): (r: Read<Message>)
    ensures r.Done? ==> 1 <= r.size <= |s| && |r.value| == |m|
  {
    if EntryAt(s, m).None? then ReadField(f, s, m)
    else
      var entry := EntryAt(s, m).value;
      var (number, _) := ReadTag(s).value;
      var n := ReadTag(s).size;
      match ReadEntryFields(entry, |entry|, [], [])
      case Err(e) => Fail(e)
      case Ok((key, value)) =>
        Done(m[number - 1 := Args(m[number - 1].args[key := value])], n + ReadDelimited(s[n..]).size)
  }

  function BoundedDecode(f: DurationFormat, s: bytes, m: Message): Result<Message>
    decreases |s|
  {
    if s == [] then Ok(m)
    else match BoundedField(f, s, m)
      case Fail(e) => Err(e)
      case Done(m', n) => BoundedDecode(f, s[n..], m')
  }

  /** Every map entry of the input is made of parts. */
  ghost predicate Confined(f: DurationFormat, s: bytes, m: Message)
    decreases |s|
  {
    s == []
    || (&& (EntryAt(s, m).Some? ==> IsEntry(EntryAt(s, m).value))
        && var r := ReadField(f, s, m);
           r.Done? ==> Confined(f, s[r.size..], r.value))
  }

  /** One round agrees on an entry made of parts, and the bounded round fails on any other. */
  lemma RoundConfined(f: DurationFormat, s: bytes, m: Message)
    requires EntryAt(s, m).Some?
    ensures if IsEntry(EntryAt(s, m).value) then BoundedField(f, s, m) == ReadField(f, s, m)
            else BoundedField(f, s, m).Fail?
  {
    hide ReadVarint, ReadTag, ReadEntryFields, IsEntry;
    var n := ReadTag(s).size;
    var rest := s[n..];
    var len, k := ReadLength(rest).value, ReadLength(rest).size;
    assert rest[k..][..len] == rest[k..k + len];
    EntryConfined(rest[k..], len, [], []);
  }

  /** The code decodes what a decoder that stays inside entries decodes exactly when every entry of the
      input is made of parts: on other inputs the latter always fails. */
  lemma {:induction false} BoundedIff(f: DurationFormat, s: bytes, m: Message)
    ensures BoundedDecode(f, s, m).Ok? <==> Decode(f, s, m).Ok? && Confined(f, s, m)
    ensures BoundedDecode(f, s, m).Ok? ==> BoundedDecode(f, s, m) == Decode(f, s, m)
    decreases |s|
  {
    hide ReadField, BoundedField, EntryAt, IsEntry;
    if s != [] {
      if EntryAt(s, m).Some? {
        RoundConfined(f, s, m);
      } else {
        assert BoundedField(f, s, m) == ReadField(f, s, m) by { NoEntry(f, s, m); }
      }
      var r := ReadField(f, s, m);
      if r.Done? {
        BoundedIff(f, s[r.size..], r.value);
      }
    }
  }

  lemma NoEntry(f: DurationFormat, s: bytes, m: Message)
    requires EntryAt(s, m).None?
    ensures BoundedField(f, s, m) == ReadField(f, s, m)
  {
    hide ReadField, EntryAt;
  }

  // ------------------------------------------------------------------ it does make a difference

  /** A name and a map; the entry of two bytes says that its key has three. */
  const OVERRUN: bytes := [0x12, 0x02, 0x0a, 0x03, 0x0a, 0x01, 0x41]

  lemma OneByte(b: byte, t: bytes)
    requires b < 128
    ensures ReadVarint([b] + t) == Done(b, 1)
  {
    assert IsVarint([b]);
    ReadVarintExact([b], t);
    assert [b][1..] == [];
    assert Base128([b]) == b;
  }

  /** The entry loop takes the three bytes behind the entry as the key. */
  lemma OverrunEntry()
    ensures ReadEntryFields(OVERRUN[2..], 2, [], []) == Ok(([0x0a, 0x01, 0x41], []))
    ensures !IsEntry([0x0a, 0x03])
  {
    hide ReadVarint, IsEntry;
    var s := OVERRUN[2..];
    OneByte(0x0a, s[1..]);
    assert [0x0a] + s[1..] == s;
    OneByte(0x03, s[2..]);
    assert [0x03] + s[2..] == s[1..];
    assert s[1..][1..4] == [0x0a, 0x01, 0x41];
    assert ReadDelimited(s[1..]) == Done([0x0a, 0x01, 0x41], 4);
    assert s[1 + 4..] == [];
    assert s[..2] == [0x0a, 0x03];
    EntryConfined(s, 2, [], []);
    OverrunAlone();
  }

  lemma OverrunAlone()
    ensures ReadEntryFields([0x0a, 0x03], 2, [], []).Err?
  {
    hide ReadVarint;
    var s: bytes := [0x0a, 0x03];
    OneByte(0x0a, [0x03]);
    assert [0x0a] + [0x03] == s;
    OneByte(0x03, []);
    assert [0x03] + [] == s[1..];
  }

  /** Three bytes of this message are read twice: as the key of the entry, and as the field behind it. */
  lemma OverrunHappens(f: DurationFormat)
    ensures Decode(f, OVERRUN, [Text([]), Args(map[])])
         == Ok([Text([0x41]), Args(map[[0x0a, 0x01, 0x41] := []])])
    ensures BoundedDecode(f, OVERRUN, [Text([]), Args(map[])]).Err?
  {
    hide ReadVarint, ReadEntryFields, IsEntry, Decode, BoundedDecode;
    var m: Message := [Text([]), Args(map[])];
    var s := OVERRUN;
    OneByte(0x12, s[1..]);
    assert [0x12] + s[1..] == s;
    OneByte(0x02, s[2..]);
    assert [0x02] + s[2..] == s[1..];
    OverrunEntry();
    assert s[1..][1..] == s[2..];
    assert s[1..][1..3] == [0x0a, 0x03];
    var next := m[1 := Args(map[[0x0a, 0x01, 0x41] := []])];
    assert ReadField(f, s, m) == Done(next, 4);
    OneField(f, s[..4], s[4..], m, next) by { assert s[..4] + s[4..] == s; }
    assert s[..4] + s[4..] == s;
    OverrunRest(f, next);
    assert next[0 := Text([0x41])] == [Text([0x41]), Args(map[[0x0a, 0x01, 0x41] := []])];
    assert EntryAt(s, m) == Some([0x0a, 0x03]);
    NotConfined(f, s, m);
  }

  lemma OverrunRest(f: DurationFormat, m: Message)
    requires |m| == 2 && m[0].Text?
    ensures Decode(f, OVERRUN[4..], m) == Ok(m[0 := Text([0x41])])
  {
    hide ReadVarint, ReadField;
    assert EncodeVarint(1) == [0x01];
    var head := Tagged(1, [0x41]);
    assert head == [0x0a, 0x01, 0x41] && head + [] == OVERRUN[4..];
    TextField(f, 1, [0x41], m, []);
    OneField(f, head, [], m, m[0 := Text([0x41])]);
  }

  lemma NotConfined(f: DurationFormat, s: bytes, m: Message)
    requires s != [] && EntryAt(s, m).Some? && !IsEntry(EntryAt(s, m).value)
    ensures BoundedDecode(f, s, m).Err?
  {
    hide EntryAt, IsEntry;
    BoundedIff(f, s, m);
  }
}
